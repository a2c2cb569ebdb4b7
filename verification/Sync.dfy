/** Sync on text: parse, merge, render, and parse again
    (backend/internal/doc/ownership.go, syncDoc). */
module Sync {
  import opened Lines
  import opened Blocks
  import opened Layout
  import opened Merging
  import opened MergeLaws

  // --------------------------------------- parsed documents are well laid out

  lemma {:induction false} FindCloseIsWf(ls: seq<string>, j: nat)
    requires j <= |ls| && FindClose(ls, j).Some?
    ensures var c := FindClose(ls, j).value;
            && (forall i :: j <= i < c ==> !IsOpen(ls[i]))
            && (forall i :: j <= i < c && i > 0 ==> ls[i] != CLOSE)
    decreases |ls| - j
  {
    hide MatchOpen, CLOSE;
    if !(ls[j] == CLOSE && j > 0) {
      FindCloseIsWf(ls, j + 1);
    }
  }

  lemma {:induction false} ParseLinesWf(ls: seq<string>)
    requires NoNewlines(ls)
    ensures ValidDoc(MarkedBlocks(ParseLines(ls)))
    decreases |ls|
  {
    hide MatchOpen, CLOSE, Join, Split;
    if ls != [] {
      var m, rest := MatchOpen(ls[0]), ls[1..];
      if m.Some? && FindClose(rest, 0).Some? {
        var j := FindClose(rest, 0).value;
        FindCloseIsWf(rest, 0);
        SplitJoin(rest[..j]);
        ParseLinesWf(rest[j + 1..]);
        var b := Block(m.value.0, m.value.1, Join(rest[..j]));
        assert WfBlock(b);
        assert ParseLines(ls)[0] == Marked(b) && ParseLines(ls)[1..] == ParseLines(rest[j + 1..]);
      } else {
        ParseLinesWf(rest);
        assert ParseLines(ls)[0] == Plain(ls[0]) && ParseLines(ls)[1..] == ParseLines(rest);
      }
    }
  }

  lemma {:induction false} SegmentsAligned(acc: string, items: seq<Item>, first: bool)
    requires first || StartsNL(acc) || (acc == "" && items == [])
    requires items != [] ==> EndsNL(acc) || (first && acc == "")
    ensures Aligned(Gaps(SegmentsFrom(acc, items)), first)
    decreases |items|
  {
    if items == [] {
      GapsOfText(acc);
    } else {
      var nl := if |items| > 1 then "\n" else "";
      match items[0] {
        case Plain(l) =>
          SegmentsAligned(acc + l + nl, items[1..], first);
        case Marked(b) =>
          SegmentsAligned(nl, items[1..], false);
          GapsBlockThen(acc, b, SegmentsFrom(nl, items[1..]));
      }
    }
  }

  /** Every parsed document has its blocks on lines of their own, and its text hides no further block. */
  lemma ParseLaysOut(content: string)
    ensures WellLaidOut(Parse(content)) && AllInert(Gaps(Parse(content)))
  {
    hide ParseLines, Split, AllInert;
    var items := ParseLines(Split(content));
    SplitHasNoNewlines(content);
    ParseLinesWf(Split(content));
    BlocksOfSegmentsFrom("", items);
    SegmentsAligned("", items, true);
    ParseIsLossless(content);
    ReparseExactly(Parse(content));
  }

  // ----------------------------------------------- what merging does to the gaps

  /** No line of the text is an opening marker. */
  ghost predicate NoOpener(g: string) {
    forall i :: 0 <= i < |Split(g)| ==> !IsOpen(Split(g)[i])
  }

  /** The properties of text that merging is shown to keep. */
  datatype Quality = OpenerFree | BlockFree | AnyText

  ghost predicate Good(q: Quality, g: string) {
    match q
    case OpenerFree => NoOpener(g)
    case BlockFree => Inert(g)
    case AnyText => true
  }

  ghost predicate AllGood(q: Quality, gaps: seq<string>) {
    forall i :: 0 <= i < |gaps| ==> Good(q, gaps[i])
  }

  lemma {:induction false} PlainLines(ls: seq<string>)
    requires forall i :: 0 <= i < |ls| ==> !IsOpen(ls[i])
    ensures MarkedBlocks(ParseLines(ls)) == []
  {
    hide MatchOpen;
    if ls != [] {
      PlainLines(ls[1..]);
      assert ParseLines(ls)[1..] == ParseLines(ls[1..]);
    }
  }

  lemma NoOpenerIsInert(g: string)
    requires NoOpener(g)
    ensures Inert(g)
  {
    PlainLines(Split(g));
  }

  lemma GoodNewline(q: Quality, g: string)
    requires Good(q, g)
    ensures Good(q, g + "\n") && Good(q, "\n" + g)
    ensures Good(q, g + "\n\n")
  {
    GoodAppend(q, g);
    GoodAppend(q, g + "\n");
    assert g + "\n" + "\n" == g + "\n\n";
    SplitEmpty();
    SplitConcat("", g);
    assert "" + "\n" + g == "\n" + g;
    LeadingEmptyLine(Split(g));
    OpenIsNotClose("");
  }

  lemma GoodAppend(q: Quality, g: string)
    requires Good(q, g)
    ensures Good(q, g + "\n")
  {
    hide MatchOpen;
    SplitEmpty();
    SplitConcat(g, "");
    assert g + "\n" + "" == g + "\n";
    TrailingEmptyLine(Split(g));
    OpenIsNotClose("");
  }

  lemma GoodEmpty(q: Quality)
    ensures Good(q, "") && Good(q, "\n") && Good(q, "\n\n")
  {
    hide MatchOpen;
    SplitEmpty();
    PlainEmptyLine();
    OpenIsNotClose("");
    GoodNewline(q, "");
    assert "" + "\n" == "\n" && "" + "\n\n" == "\n\n";
  }

  /** Two neighbouring gaps, with the block between them dropped or turned into text. */
  lemma NoOpenerJoin(pre: string, mid: string, post: string)
    requires NoOpener(pre) && NoOpener(mid) && NoOpener(post)
    requires pre == "" || EndsNL(pre)
    requires post == "" || StartsNL(post)
    ensures NoOpener(pre + mid + post)
  {
    hide IsOpen, Split;
    NoOpenerAfter(pre, mid);
    if post == "" {
      assert pre + mid + post == pre + mid;
    } else {
      GapSplit(post);
      var y := post[1..];
      SplitConcat(pre + mid, y);
      assert pre + mid + post == (pre + mid) + "\n" + y;
      forall i | 0 <= i < |Split(y)| ensures !IsOpen(Split(y)[i]) {
        assert Split(y)[i] == Split(post)[i + 1];
      }
    }
  }

  lemma NoOpenerAfter(pre: string, mid: string)
    requires NoOpener(pre) && NoOpener(mid)
    requires pre == "" || EndsNL(pre)
    ensures NoOpener(pre + mid)
  {
    hide IsOpen, Split;
    if pre == "" {
      assert pre + mid == mid;
    } else {
      GapSplit(pre);
      var x := pre[..|pre| - 1];
      SplitConcat(x, mid);
      assert pre + mid == x + "\n" + mid;
      forall i | 0 <= i < |Split(x)| ensures !IsOpen(Split(x)[i]) {
        assert Split(x)[i] == Split(pre)[i];
      }
    }
  }

  lemma GoodJoin(q: Quality, pre: string, mid: string, post: string)
    requires !q.BlockFree? && Good(q, pre) && Good(q, mid) && Good(q, post)
    requires pre == "" || EndsNL(pre)
    requires post == "" || StartsNL(post)
    ensures Good(q, pre + mid + post)
  {
    if q.OpenerFree? {
      NoOpenerJoin(pre, mid, post);
    }
  }

  /** Aligned gaps of one quality, where pre is the start of the first gap. */
  ghost predicate Tidy(q: Quality, pre: string, gaps: seq<string>, first: bool)
    requires gaps != []
  {
    var all := [pre + gaps[0]] + gaps[1..];
    Aligned(all, first) && AllGood(q, all)
  }

  lemma TidyBlock(q: Quality, pre: string, gaps: seq<string>, first: bool)
    requires gaps != []
    ensures Tidy(q, pre, [""] + gaps, first)
            <==> GapOk(pre, first, false) && Good(q, pre) && Tidy(q, "", gaps, false)
  {
    hide GapOk, Good;
    assert pre + "" == pre && "" + gaps[0] == gaps[0];
    var all := [pre + ""] + ([""] + gaps)[1..];
    assert all == [pre] + gaps;
    assert ["" + gaps[0]] + gaps[1..] == gaps;
    if Tidy(q, pre, [""] + gaps, first) {
      assert GapOk(all[0], first, false) && Good(q, all[0]);
      forall i | 0 <= i < |gaps|
        ensures GapOk(gaps[i], false, i == |gaps| - 1) && Good(q, gaps[i])
      {
        assert all[i + 1] == gaps[i];
      }
    }
  }

  lemma TidyJoin(q: Quality, pre: string, mid: string, gaps: seq<string>, first: bool)
    requires gaps != [] && !q.BlockFree?
    requires GapOk(pre, first, false) && Good(q, pre) && Good(q, mid) && Tidy(q, "", gaps, false)
    ensures Tidy(q, pre + mid, gaps, first)
  {
    hide Good;
    assert "" + gaps[0] == gaps[0];
    var before := ["" + gaps[0]] + gaps[1..];
    assert GapOk(before[0], false, |before| == 1) && Good(q, before[0]);
    GoodJoin(q, pre, mid, gaps[0]);
    var all := [pre + mid + gaps[0]] + gaps[1..];
    forall i | 0 <= i < |all|
      ensures GapOk(all[i], first && i == 0, i == |all| - 1) && Good(q, all[i])
    {
      if i > 0 {
        assert all[i] == before[i];
      }
    }
  }

  lemma WfBodyIsGood(q: Quality, b: Block)
    requires WfBlock(b) && !q.BlockFree?
    ensures Good(q, b.body)
  {
  }

  ghost predicate WfSegments(segs: seq<Segment>) {
    forall i :: 0 <= i < |segs| && segs[i].Gen? ==> WfBlock(segs[i].block)
  }

  lemma {:induction false} KeepIsTidy(q: Quality, hash: Hasher, fm: map<string, Block>, segs: seq<Segment>, pre: string, first: bool)
    requires WfSegments(segs) && !q.BlockFree?
    requires Tidy(q, pre, Gaps(segs), first)
    ensures Tidy(q, pre, Gaps(Keep(hash, fm, segs)), first)
    decreases |segs|
  {
    hide Tidy, Good, GapOk, WfBlock;
    if segs != [] {
      var rest := segs[1..];
      var g, k := Gaps(rest), Gaps(Keep(hash, fm, rest));
      var one := KeepOne(hash, fm, segs[0]);
      assert WfSegments(rest);
      match segs[0] {
        case Text(t) =>
          TidyPrefix(q, pre, t, g, first);
          KeepIsTidy(q, hash, fm, rest, pre + t, first);
          TidyPrefix(q, pre, t, k, first);
          KeepText(hash, fm, segs);
        case Gen(b) =>
          TidyBlock(q, pre, g, first);
          if one == [] {
            GoodEmpty(q);
            TidyJoin(q, pre, "", g, first);
            assert pre + "" == pre;
            KeepIsTidy(q, hash, fm, rest, pre, first);
            assert Keep(hash, fm, segs) == Keep(hash, fm, rest);
          } else if one[0].Text? {
            WfBodyIsGood(q, b);
            TidyJoin(q, pre, b.body, g, first);
            KeepIsTidy(q, hash, fm, rest, pre + b.body, first);
            TidyPrefix(q, pre, b.body, k, first);
            KeepFirst(hash, fm, segs);
          } else {
            KeepIsTidy(q, hash, fm, rest, "", false);
            TidyBlock(q, pre, k, first);
            KeepFirst(hash, fm, segs);
          }
      }
    }
  }

  lemma KeepFirst(hash: Hasher, fm: map<string, Block>, segs: seq<Segment>)
    requires segs != [] && |KeepOne(hash, fm, segs[0])| == 1
    ensures var one, k := KeepOne(hash, fm, segs[0])[0], Gaps(Keep(hash, fm, segs[1..]));
            Gaps(Keep(hash, fm, segs)) == if one.Text? then [one.text + k[0]] + k[1..] else [""] + k
  {
    hide KeepOne;
    var all := Keep(hash, fm, segs);
    assert all[0] == KeepOne(hash, fm, segs[0])[0] && all[1..] == Keep(hash, fm, segs[1..]);
  }

  lemma KeepText(hash: Hasher, fm: map<string, Block>, segs: seq<Segment>)
    requires segs != [] && segs[0].Text?
    ensures var k := Gaps(Keep(hash, fm, segs[1..]));
            Gaps(Keep(hash, fm, segs)) == [segs[0].text + k[0]] + k[1..]
  {
    KeepFirst(hash, fm, segs);
  }

  lemma TidyPrefix(q: Quality, pre: string, t: string, gaps: seq<string>, first: bool)
    requires gaps != []
    ensures Tidy(q, pre, [t + gaps[0]] + gaps[1..], first) <==> Tidy(q, pre + t, gaps, first)
  {
    hide Aligned, AllGood;
    Assoc(pre, t, gaps[0]);
    assert ([t + gaps[0]] + gaps[1..])[1..] == gaps[1..];
  }

  // --------------------------------------------------- inserting fresh blocks

  ghost predicate Laid(q: Quality, gaps: seq<string>) {
    Aligned(gaps, true) && AllGood(q, gaps)
  }

  /** Inserting behind a block: the gap that followed it now follows the new block. */
  lemma LaidBetween(q: Quality, a: seq<string>, c: seq<string>)
    requires |a| >= 2 && c != [] && a[|a| - 1] == ""
    requires Laid(q, Glue(a, c))
    ensures Laid(q, Glue(Glue(a, ["\n\n", ""]), c))
  {
    hide Good;
    var n := |a| - 1;
    var g := Glue(a, c);
    assert "" + c[0] == c[0] && "" + "\n\n" == "\n\n";
    assert g == a[..n] + c;
    var r := Glue(Glue(a, ["\n\n", ""]), c);
    assert Glue(a, ["\n\n", ""]) == a[..n] + ["\n\n", ""];
    assert r == a[..n] + ["\n\n"] + c;
    GoodEmpty(q);
    forall i | 0 <= i < |r| ensures GapOk(r[i], i == 0, i == |r| - 1) && Good(q, r[i]) {
      if i < n {
        assert r[i] == g[i];
      } else if i > n {
        assert r[i] == g[i - 1];
      }
    }
  }

  /** Inserting at the end: the last gap is closed off before the new block. */
  lemma LaidAtEnd(q: Quality, g: seq<string>, sep: string, tail: string)
    requires g != [] && Laid(q, g)
    requires (sep, tail) in [("\n", "\n"), ("\n\n", "")] || (sep == "" && tail == "\n" && g == [""])
    ensures Laid(q, Glue(g, [sep, tail]))
  {
    hide Good;
    var n := |g| - 1;
    var r := Glue(g, [sep, tail]);
    assert r == g[..n] + [g[n] + sep, tail];
    GoodEmpty(q);
    GoodNewline(q, g[n]);
    assert g[n] + "" == g[n];
    forall i | 0 <= i < |r| ensures GapOk(r[i], i == 0, i == |r| - 1) && Good(q, r[i]) {
      if i < n {
        assert r[i] == g[i];
      }
    }
  }

  lemma GapsTail(b: Block, s: string)
    ensures Gaps([Gen(b), Text(s)]) == ["", s]
    ensures Gaps([Text(s), Gen(b)]) == [s, ""]
    ensures Gaps([Text("\n")] + [Gen(b), Text(s)]) == ["\n", s]
  {
    GapsSingle(Gen(b));
    GapsSingle(Text(s));
    GapsSingle(Text("\n"));
    GapsConcat([Gen(b)], [Text(s)]);
    assert [Gen(b)] + [Text(s)] == [Gen(b), Text(s)];
    GapsConcat([Text(s)], [Gen(b)]);
    assert [Text(s)] + [Gen(b)] == [Text(s), Gen(b)];
    GapsConcat([Text("\n")], [Gen(b), Text(s)]);
    assert "" + s == s && s + "" == s && "\n" + "" == "\n";
  }

  lemma GapsSingle(s: Segment)
    ensures Gaps([s]) == if s.Text? then [s.text] else ["", ""]
  {
    assert [s][1..] == [] && Gaps([]) == [""];
    if s.Text? {
      assert s.text + "" == s.text;
    }
  }

  lemma GapsEndInBlock(a: seq<Segment>)
    requires a != [] && a[|a| - 1].Gen?
    ensures |Gaps(a)| >= 2 && Gaps(a)[|Gaps(a)| - 1] == ""
  {
    hide Gaps;
    var n := |a| - 1;
    assert a == a[..n] + [a[n]];
    GapsConcat(a[..n], [a[n]]);
    GapsSingle(a[n]);
  }

  /** What an insertion adds between and after the blocks around it. */
  lemma InsertionGaps(out: seq<Segment>, at: nat, b: Block)
    requires at <= |out|
    ensures var g := Gaps(Insertion(out, at, b));
            if at > 0 && out[at - 1].Gen? then g == ["\n\n", ""]
            else g == ["\n\n", ""] || g == ["\n", "\n"] || (g == ["", "\n"] && out == [])
  {
    hide Gaps;
    var ins := Insertion(out, at, b);
    if at == |out| && out == [] {
      assert ins == [Gen(b), Text("\n")];
    } else if at == |out| && EndsWithNewline(out) {
      assert ins == [Text("\n")] + [Gen(b), Text("\n")];
    } else {
      assert ins == [Text("\n\n"), Gen(b)];
    }
    GapsTail(b, "\n");
    GapsTail(b, "\n\n");
  }

  lemma GapsOfInsert(out: seq<Segment>, at: nat, b: Block)
    requires at <= |out|
    ensures Gaps(out) == Glue(Gaps(out[..at]), Gaps(out[at..]))
    ensures Gaps(Insert(out, at, b)) == Glue(Glue(Gaps(out[..at]), Gaps(Insertion(out, at, b))), Gaps(out[at..]))
  {
    hide Gaps, Glue, Insertion;
    var a, ins, c := out[..at], Insertion(out, at, b), out[at..];
    assert out == a + c;
    GapsConcat(a, c);
    GapsConcat(a + ins, c);
    GapsConcat(a, ins);
  }

  lemma InsertIsLaid(q: Quality, out: seq<Segment>, at: nat, b: Block)
    requires at <= |out| && (at == |out| || (at > 0 && out[at - 1].Gen?))
    requires Laid(q, Gaps(out))
    ensures Laid(q, Gaps(Insert(out, at, b)))
  {
    hide Gaps, Laid, Glue, Insert, Insertion;
    GapsOfInsert(out, at, b);
    InsertionGaps(out, at, b);
    var g := Gaps(Insertion(out, at, b));
    if at > 0 && out[at - 1].Gen? {
      GapsEndInBlock(out[..at]);
      LaidBetween(q, Gaps(out[..at]), Gaps(out[at..]));
    } else {
      assert out[at..] == [] && out[..at] == out;
      GapsEmpty();
      GlueNothing(Glue(Gaps(out), g));
      LaidAtEnd(q, Gaps(out), g[0], g[1]);
    }
  }

  lemma GapsEmpty()
    ensures Gaps([]) == [""]
  {
  }

  lemma GlueNothing(a: seq<string>)
    requires a != []
    ensures Glue(a, [""]) == a
  {
    assert a[|a| - 1] + "" == a[|a| - 1];
  }

  lemma {:induction false} AddFreshIsLaid(q: Quality, out: seq<Segment>, prev: set<string>, render: seq<Block>, i: nat)
    requires i <= |render| && Laid(q, Gaps(out))
    ensures Laid(q, Gaps(AddFresh(out, prev, render, i)))
    decreases |render| - i
  {
    hide Laid, Gaps, Insert, Keys;
    if i < |render| {
      if render[i].key in Keys(out) || render[i].key in prev {
        AddFreshIsLaid(q, out, prev, render, i + 1);
      } else {
        var at := Anchor(out, render, i);
        InsertIsLaid(q, out, at, render[i]);
        AddFreshIsLaid(q, Insert(out, at, render[i]), prev, render, i + 1);
      }
    }
  }

  /** Some gap, read alone, holds the block. */
  ghost predicate RevealedIn(gaps: seq<string>, b: Block) {
    exists i :: 0 <= i < |gaps| && b in Revealed(gaps[i])
  }

  lemma InertRevealsNothing(gaps: seq<string>)
    ensures AllInert(gaps) <==> forall b :: !RevealedIn(gaps, b)
  {
    hide Split, ParseLines, MarkedBlocks;
    if i :| 0 <= i < |gaps| && !Inert(gaps[i]) {
      assert Revealed(gaps[i])[0] in Revealed(gaps[i]);
      assert RevealedIn(gaps, Revealed(gaps[i])[0]);
    }
  }

  /** A separator at the end of a gap hides no block and brings none in. */
  lemma RevealedBefore(g: string, sep: string)
    requires sep in ["", "\n", "\n\n"]
    ensures Revealed(g + sep) == Revealed(g)
  {
    hide Revealed;
    if sep == "" {
      assert g + sep == g;
    } else {
      RevealedBeforeNewline(g);
      RevealedBeforeNewline(g + "\n");
      assert g + "\n\n" == g + "\n" + "\n";
    }
  }

  lemma RevealedBeforeNewline(g: string)
    ensures Revealed(g + "\n") == Revealed(g)
  {
    hide MatchOpen;
    SplitEmpty();
    SplitConcat(g, "");
    assert g + "\n" + "" == g + "\n";
    TrailingEmptyLine(Split(g));
  }

  lemma BlankRevealsNothing(sep: string)
    requires sep in ["", "\n", "\n\n"]
    ensures Revealed(sep) == []
  {
    hide Split, ParseLines, MarkedBlocks;
    GoodEmpty(BlockFree);
  }

  lemma GluedReveals(a: seq<string>, mid: seq<string>, c: seq<string>, b: Block)
    requires a != [] && |mid| == 2 && c != [] && mid[0] in ["", "\n", "\n\n"] && mid[1] in ["", "\n", "\n\n"]
    requires (a[|a| - 1] == "" && mid[1] == "") || c == [""]
    ensures RevealedIn(Glue(Glue(a, mid), c), b) <==> RevealedIn(Glue(a, c), b)
  {
    hide Revealed;
    var n := |a| - 1;
    var g, r := Glue(a, c), Glue(Glue(a, mid), c);
    assert r == a[..n] + [a[n] + mid[0]] + [mid[1] + c[0]] + c[1..];
    assert g == a[..n] + [a[n] + c[0]] + c[1..];
    BlankRevealsNothing(mid[0]);
    BlankRevealsNothing(mid[1]);
    RevealedBefore(a[n], mid[0]);
    if c == [""] {
      assert mid[1] + c[0] == mid[1] && a[n] + c[0] == a[n];
      assert Revealed(r[n]) == Revealed(g[n]) && Revealed(r[n + 1]) == [];
    } else {
      assert "" + c[0] == c[0] && "" + mid[0] == mid[0];
      assert Revealed(r[n]) == [] && r[n + 1] == g[n];
    }
    if i :| 0 <= i < |g| && b in Revealed(g[i]) {
      assert Revealed(g[i]) == Revealed(r[if i < n then i else if i > n then i + 1 else if c == [""] then n else n + 1]);
    }
    if i :| 0 <= i < |r| && b in Revealed(r[i]) {
      assert Revealed(r[i]) == Revealed(g[if i <= n then i else i - 1]);
    }
  }

  lemma InsertReveals(out: seq<Segment>, at: nat, b: Block, x: Block)
    requires at <= |out| && (at == |out| || (at > 0 && out[at - 1].Gen?))
    ensures RevealedIn(Gaps(Insert(out, at, b)), x) <==> RevealedIn(Gaps(out), x)
  {
    hide Gaps, Glue, RevealedIn, Insertion, Insert;
    GapsOfInsert(out, at, b);
    InsertionGaps(out, at, b);
    GapsEmpty();
    if at > 0 && out[at - 1].Gen? {
      GapsEndInBlock(out[..at]);
    } else {
      assert out[at..] == [];
    }
    GluedReveals(Gaps(out[..at]), Gaps(Insertion(out, at, b)), Gaps(out[at..]), x);
  }

  /** Adding blocks reveals and hides nothing. */
  lemma {:induction false} AddFreshReveals(out: seq<Segment>, prev: set<string>, render: seq<Block>, i: nat, x: Block)
    requires i <= |render|
    ensures RevealedIn(Gaps(AddFresh(out, prev, render, i)), x) <==> RevealedIn(Gaps(out), x)
    decreases |render| - i
  {
    hide RevealedIn, Gaps, Insert, Keys;
    if i < |render| {
      if render[i].key in Keys(out) || render[i].key in prev {
        AddFreshReveals(out, prev, render, i + 1, x);
      } else {
        var at := Anchor(out, render, i);
        AddFreshReveals(Insert(out, at, render[i]), prev, render, i + 1, x);
        InsertReveals(out, at, render[i], x);
      }
    }
  }

  // ------------------------------------------------------ where blocks come from

  ghost predicate FromSource(existing: seq<Segment>, render: seq<Block>, segs: seq<Segment>) {
    forall i :: 0 <= i < |segs| && segs[i].Gen? ==> segs[i] in existing || segs[i].block in render
  }

  lemma {:induction false} KeepSource(hash: Hasher, render: seq<Block>, existing: seq<Segment>, segs: seq<Segment>)
    requires forall s :: s in segs ==> s in existing
    ensures FromSource(existing, render, Keep(hash, ByKey(render), segs))
  {
    if segs != [] {
      KeepSource(hash, render, existing, segs[1..]);
      assert segs[0] in segs;
      assert FromSource(existing, render, KeepOne(hash, ByKey(render), segs[0]));
    }
  }

  lemma {:induction false} AddFreshSource(existing: seq<Segment>, out: seq<Segment>, prev: set<string>, render: seq<Block>, i: nat)
    requires i <= |render| && FromSource(existing, render, out)
    ensures FromSource(existing, render, AddFresh(out, prev, render, i))
    decreases |render| - i
  {
    hide FromSource, Insert, Keys;
    if i < |render| {
      if render[i].key in Keys(out) || render[i].key in prev {
        AddFreshSource(existing, out, prev, render, i + 1);
      } else {
        var at := Anchor(out, render, i);
        InsertSource(existing, render, out, at, render[i]);
        AddFreshSource(existing, Insert(out, at, render[i]), prev, render, i + 1);
      }
    }
  }

  lemma InsertSource(existing: seq<Segment>, render: seq<Block>, out: seq<Segment>, at: nat, b: Block)
    requires at <= |out| && b in render && FromSource(existing, render, out)
    ensures FromSource(existing, render, Insert(out, at, b))
  {
    var r, ins := Insert(out, at, b), Insertion(out, at, b);
    forall i | 0 <= i < |r| && r[i].Gen? ensures r[i] in existing || r[i].block in render {
      if i < at {
        assert r[i] == out[i];
      } else if i >= at + |ins| {
        assert r[i] == out[i - |ins|];
      } else {
        assert r[i] == ins[i - at];
      }
    }
  }

  lemma {:induction false} BlocksOfMember(segs: seq<Segment>, b: Block)
    ensures b in BlocksOf(segs) <==> Gen(b) in segs
  {
    if segs != [] {
      BlocksOfMember(segs[1..], b);
      assert segs == [segs[0]] + segs[1..];
    }
  }

  lemma WfBothWays(segs: seq<Segment>)
    ensures WfSegments(segs) <==> ValidDoc(BlocksOf(segs))
  {
    hide WfBlock;
    if WfSegments(segs) {
      forall i | 0 <= i < |BlocksOf(segs)| ensures WfBlock(BlocksOf(segs)[i]) {
        BlocksOfMember(segs, BlocksOf(segs)[i]);
      }
    }
    if ValidDoc(BlocksOf(segs)) {
      forall i | 0 <= i < |segs| && segs[i].Gen? ensures WfBlock(segs[i].block) {
        BlocksOfMember(segs, segs[i].block);
      }
    }
  }

  /** A render as the engine builds it; one key may occur more than once. */
  ghost predicate BlockRender(hash: Hasher, render: seq<Block>) {
    Unedited(hash, render) && ValidDoc(render)
  }

  /** A fresh render: distinct keys, and blocks as NewBlock builds them. */
  ghost predicate FreshRender(hash: Hasher, render: seq<Block>) {
    DistinctKeys(render) && Unedited(hash, render) && ValidDoc(render)
  }

  lemma MergedIsWf(hash: Hasher, existing: seq<Segment>, prev: set<string>, render: seq<Block>)
    requires WfSegments(existing) && ValidDoc(render)
    ensures WfSegments(Merged(hash, existing, prev, render))
  {
    hide WfBlock;
    KeepSource(hash, render, existing, existing);
    AddFreshSource(existing, Keep(hash, ByKey(render), existing), prev, render, 0);
    var out := Merged(hash, existing, prev, render);
    forall i | 0 <= i < |out| && out[i].Gen? ensures WfBlock(out[i].block) {
      assert out[i] in existing || out[i].block in render;
    }
  }

  // ------------------------------------------------------------- the main results

  /** What one sync writes. */
  function SyncText(hash: Hasher, content: string, prev: set<string>, render: seq<Block>): string {
    Render(Merged(hash, Parse(content), prev, render))
  }

  /** No line of human text is an opening marker. */
  ghost predicate NoStrayOpener(content: string) {
    AllGood(OpenerFree, Gaps(Parse(content)))
  }

  /** No block of the document vanished upstream. */
  ghost predicate NothingVanished(content: string, render: seq<Block>) {
    Keys(Parse(content)) <= RenderKeys(render)
  }

  /** Taking out the blocks that vanished upstream does not close up human text
      around them into something that reads as a block. */
  ghost predicate CleanCut(hash: Hasher, content: string, render: seq<Block>) {
    AllInert(Gaps(Keep(hash, ByKey(render), Parse(content))))
  }

  lemma KeepLaysOut(q: Quality, hash: Hasher, content: string, render: seq<Block>)
    requires !q.BlockFree? && AllGood(q, Gaps(Parse(content)))
    ensures Laid(q, Gaps(Keep(hash, ByKey(render), Parse(content))))
  {
    hide AllGood, Parse, Keep;
    var segs := Parse(content);
    ParseLaysOut(content);
    WfBothWays(segs);
    TidyWhole(q, Gaps(segs));
    KeepIsTidy(q, hash, ByKey(render), segs, "", true);
    TidyWhole(q, Gaps(Keep(hash, ByKey(render), segs)));
  }

  lemma MergeLaysOutTidy(hash: Hasher, content: string, prev: set<string>, render: seq<Block>)
    requires NoStrayOpener(content)
    ensures Laid(OpenerFree, Gaps(Merged(hash, Parse(content), prev, render)))
  {
    hide AllGood, Parse, Keep;
    KeepLaysOut(OpenerFree, hash, content, render);
    AddFreshIsLaid(OpenerFree, Keep(hash, ByKey(render), Parse(content)), prev, render, 0);
  }

  /** Whatever the text holds, every merged block is on its own lines; and the
      text between them holds no block exactly when the cut was clean. */
  lemma MergeLaysOut(hash: Hasher, content: string, prev: set<string>, render: seq<Block>)
    ensures var gaps := Gaps(Merged(hash, Parse(content), prev, render));
            Aligned(gaps, true) && (AllInert(gaps) <==> CleanCut(hash, content, render))
  {
    hide Parse, Keep, Gaps, Aligned, Good, AllInert, RevealedIn;
    var kept := Keep(hash, ByKey(render), Parse(content));
    var out := AddFresh(kept, prev, render, 0);
    AnyTextIsGood(Gaps(Parse(content)));
    KeepLaysOut(AnyText, hash, content, render);
    AddFreshIsLaid(AnyText, kept, prev, render, 0);
    InertRevealsNothing(Gaps(kept));
    InertRevealsNothing(Gaps(out));
    forall x ensures RevealedIn(Gaps(out), x) <==> RevealedIn(Gaps(kept), x) {
      AddFreshReveals(kept, prev, render, 0, x);
    }
  }

  lemma AnyTextIsGood(gaps: seq<string>)
    ensures AllGood(AnyText, gaps)
  {
  }

  lemma TidyWhole(q: Quality, gaps: seq<string>)
    requires gaps != []
    ensures Tidy(q, "", gaps, true) <==> Laid(q, gaps)
  {
    assert "" + gaps[0] == gaps[0];
    assert ["" + gaps[0]] + gaps[1..] == gaps;
  }

  lemma {:induction false} KeepAllGaps(hash: Hasher, render: seq<Block>, segs: seq<Segment>)
    requires Keys(segs) <= RenderKeys(render)
    ensures Gaps(Keep(hash, ByKey(render), segs)) == Gaps(segs)
  {
    hide ByKey;
    if segs != [] {
      var rest := segs[1..];
      KeysConcat([segs[0]], rest);
      assert segs == [segs[0]] + rest;
      KeepAllGaps(hash, render, rest);
      if segs[0].Gen? {
        assert [segs[0]][0] == segs[0];
        assert segs[0].block.key in Keys([segs[0]]);
        assert segs[0].block.key in ByKey(render);
      }
      KeepFirst(hash, ByKey(render), segs);
    }
  }

  /** Two conditions a caller can check that make the cut clean. */
  lemma CleanCutWhen(hash: Hasher, content: string, render: seq<Block>)
    requires NoStrayOpener(content) || NothingVanished(content, render)
    ensures CleanCut(hash, content, render)
  {
    hide Parse, Keep, Inert, NoOpener, Gaps, Aligned, NothingVanished;
    var gaps := Gaps(Keep(hash, ByKey(render), Parse(content)));
    if NoStrayOpener(content) {
      KeepLaysOut(OpenerFree, hash, content, render);
      forall i | 0 <= i < |gaps| ensures Inert(gaps[i]) {
        assert Good(OpenerFree, gaps[i]);
        NoOpenerIsInert(gaps[i]);
      }
    } else {
      KeepUnvanished(hash, content, render);
      ParseLaysOut(content);
    }
  }

  lemma KeepUnvanished(hash: Hasher, content: string, render: seq<Block>)
    requires NothingVanished(content, render)
    ensures Gaps(Keep(hash, ByKey(render), Parse(content))) == Gaps(Parse(content))
  {
    hide Parse, Keep;
    KeepAllGaps(hash, render, Parse(content));
  }

  /** The merged document reads back as the blocks that were merged exactly when
      the cut was clean, and then so does its text. */
  lemma MergeReparsesExactly(hash: Hasher, content: string, prev: set<string>, render: seq<Block>)
    requires ValidDoc(render)
    ensures var out := Merged(hash, Parse(content), prev, render);
            && WellLaidOut(out)
            && (BlocksOf(Parse(Render(out))) == BlocksOf(out) <==> CleanCut(hash, content, render))
            && (CleanCut(hash, content, render) ==> Gaps(Parse(Render(out))) == Gaps(out))
  {
    hide Parse, Merged, CleanCut, Inert;
    var segs := Parse(content);
    var out := Merged(hash, segs, prev, render);
    ParseLaysOut(content);
    WfBothWays(segs);
    MergedIsWf(hash, segs, prev, render);
    WfBothWays(out);
    MergeLaysOut(hash, content, prev, render);
    ReparseExactly(out);
    if CleanCut(hash, content, render) {
      ReparseGaps(out);
    }
  }

  lemma MergeReparses(hash: Hasher, content: string, prev: set<string>, render: seq<Block>)
    requires ValidDoc(render)
    requires NoStrayOpener(content) || NothingVanished(content, render)
    ensures var out := Merged(hash, Parse(content), prev, render);
            && WellLaidOut(out)
            && BlocksOf(Parse(Render(out))) == BlocksOf(out)
            && Gaps(Parse(Render(out))) == Gaps(out)
  {
    hide Parse, Merged, NoStrayOpener, NothingVanished, CleanCut, WellLaidOut;
    CleanCutWhen(hash, content, render);
    MergeReparsesExactly(hash, content, prev, render);
  }

  lemma {:induction false} SettledByBlocks(hash: Hasher, fm: map<string, Block>, a: seq<Segment>, b: seq<Segment>)
    requires BlocksOf(a) == BlocksOf(b) && Settled(hash, fm, a)
    ensures Settled(hash, fm, b)
  {
    hide SettledBlock;
    forall i | 0 <= i < |b| && b[i].Gen? ensures SettledBlock(hash, fm, b[i].block) {
      BlocksOfMember(b, b[i].block);
      BlocksOfMember(a, b[i].block);
    }
  }

  lemma {:induction false} ConflictsByBlocks(hash: Hasher, fm: map<string, Block>, segs: seq<Segment>)
    ensures Conflicts(hash, fm, segs) == Conflicts(hash, fm, Gens(BlocksOf(segs)))
  {
    hide ConflictOne;
    if segs != [] {
      ConflictsByBlocks(hash, fm, segs[1..]);
      var rest := Gens(BlocksOf(segs[1..]));
      if segs[0].Gen? {
        assert BlocksOf(segs)[1..] == BlocksOf(segs[1..]);
        var all := Gens(BlocksOf(segs));
        assert all[0] == segs[0] && all[1..] == rest;
      } else {
        TextHasNoConflict(hash, fm, segs[0]);
        assert BlocksOf(segs) == BlocksOf(segs[1..]);
      }
    }
  }

  lemma TextHasNoConflict(hash: Hasher, fm: map<string, Block>, s: Segment)
    requires s.Text?
    ensures ConflictOne(hash, fm, s) == []
  {
  }

  function Gens(blocks: seq<Block>): seq<Segment> {
    seq(|blocks|, i requires 0 <= i < |blocks| => Gen(blocks[i]))
  }

  /** Once human text has no stray opening marker, no sync brings one in. */
  lemma SyncKeepsTextClean(hash: Hasher, content: string, prev: set<string>, render: seq<Block>)
    requires ValidDoc(render) && NoStrayOpener(content)
    ensures NoStrayOpener(SyncText(hash, content, prev, render))
  {
    MergeReparses(hash, content, prev, render);
    MergeLaysOutTidy(hash, content, prev, render);
  }
}
