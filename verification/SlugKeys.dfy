/** Block keys from section titles: slugKeys in backend/internal/doc/blocks.go. */
module SlugKeys {
  import opened Blocks

  predicate SlugChar(c: char) { 'a' <= c <= 'z' || '0' <= c <= '9' }

  /** Every maximal run of other characters becomes one dash. */
  function Dashed(s: string): string {
    if s == "" then ""
    else if SlugChar(s[0]) then [s[0]] + Dashed(s[1..])
    else if |s| > 1 && !SlugChar(s[1]) then Dashed(s[1..])
    else "-" + Dashed(s[1..])
  }

  function TrimLeft(s: string): (r: string)
    ensures r == "" || r[0] != '-'
    ensures forall i :: 0 <= i < |r| ==> r[i] in s
  {
    if s != "" && s[0] == '-' then TrimLeft(s[1..]) else s
  }

  function TrimRight(s: string): (r: string)
    ensures r == "" || r[|r| - 1] != '-'
    ensures r <= s
  {
    if s != "" && s[|s| - 1] == '-' then TrimRight(s[..|s| - 1]) else s
  }

  /** The slug of a title; `lower` stands for strings.ToLower. */
  function Slug(lower: string -> string, title: string): string {
    var s := TrimRight(TrimLeft(Dashed(lower(title))));
    if s == "" then "section" else s
  }

  // ---------------------------------------------------------------- what a slug is

  /** The maximal runs of slug characters, in order. */
  function Words(s: string): (ws: seq<string>)
    ensures s != "" && SlugChar(s[0]) ==> |ws| > 0
  {
    if s == "" then []
    else
      var ws := Words(s[1..]);
      if !SlugChar(s[0]) then ws
      else if |s| > 1 && SlugChar(s[1]) then [[s[0]] + ws[0]] + ws[1..]
      else [[s[0]]] + ws
  }

  function Joined(ws: seq<string>): string {
    if ws == [] then "" else if |ws| == 1 then ws[0] else ws[0] + "-" + Joined(ws[1..])
  }

  function DashIf(b: bool): string { if b then "-" else "" }

  function Leads(s: string): bool { s != "" && !SlugChar(s[0]) }

  function Trails(s: string): bool { Words(s) != [] && !SlugChar(s[|s| - 1]) }

  /** Every word is a non-empty run of slug characters. */
  ghost predicate AreWords(ws: seq<string>) {
    forall k :: 0 <= k < |ws| ==> ws[k] != "" && forall i :: 0 <= i < |ws[k]| ==> SlugChar(ws[k][i])
  }

  lemma {:induction false} WordsAreWords(s: string)
    ensures AreWords(Words(s))
  {
    if s != "" {
      WordsAreWords(s[1..]);
    }
  }

  lemma JoinedFront(c: char, ws: seq<string>)
    requires ws != []
    ensures Joined([[c] + ws[0]] + ws[1..]) == [c] + Joined(ws)
    ensures Joined([[c]] + ws) == [c] + ("-" + Joined(ws))
  {
    var grown, put := [[c] + ws[0]] + ws[1..], [[c]] + ws;
    assert put[1..] == ws && grown[1..] == ws[1..];
  }

  lemma {:induction false} DashedIsJoined(s: string)
    ensures Dashed(s) == DashIf(Leads(s)) + Joined(Words(s)) + DashIf(Trails(s))
  {
    if s != "" {
      DashedIsJoined(s[1..]);
      if SlugChar(s[0]) {
        LetterFirst(s);
      } else {
        DashFirst(s);
      }
    }
  }

  lemma LetterFirst(s: string)
    requires s != "" && SlugChar(s[0])
    requires var t := s[1..]; Dashed(t) == DashIf(Leads(t)) + Joined(Words(t)) + DashIf(Trails(t))
    ensures Dashed(s) == DashIf(Leads(s)) + Joined(Words(s)) + DashIf(Trails(s))
  {
    var t := s[1..];
    if Words(t) == [] {
      NoWords(t);
    } else {
      JoinedFront(s[0], Words(t));
      assert t[|t| - 1] == s[|s| - 1];
      assert Words(s) == if Leads(t) then [[s[0]]] + Words(t) else [[s[0]] + Words(t)[0]] + Words(t)[1..];
      assert Dashed(s) == [s[0]] + Dashed(t);
      assert Trails(s) == Trails(t) && DashIf(Leads(s)) == "";
      hide Dashed, Words, Joined, Trails;
      var j, d := Joined(Words(t)), DashIf(Trails(t));
      Regroup(s[0], "-", j, d);
      Regroup(s[0], "", j, d);
    }
  }

  lemma Regroup(c: char, lead: string, j: string, d: string)
    ensures [c] + (lead + j + d) == "" + ([c] + (lead + j)) + d
    ensures "" + j == j
  {
  }

  lemma DashFirst(s: string)
    requires s != "" && !SlugChar(s[0])
    requires var t := s[1..]; Dashed(t) == DashIf(Leads(t)) + Joined(Words(t)) + DashIf(Trails(t))
    ensures Dashed(s) == DashIf(Leads(s)) + Joined(Words(s)) + DashIf(Trails(s))
  {
    var t := s[1..];
    DashSteps(s);
    OneDash(Leads(t), Joined(Words(t)), DashIf(Trails(t)));
    hide *;
  }

  lemma OneDash(leads: bool, j: string, d: string)
    ensures (if leads then DashIf(leads) + j + d else "-" + (DashIf(leads) + j + d)) == DashIf(true) + j + d
  {
  }

  lemma DashSteps(s: string)
    requires s != "" && !SlugChar(s[0])
    ensures var t := s[1..];
            Words(s) == Words(t) && Trails(s) == Trails(t) && Leads(s) && Dashed(s) == if Leads(t) then Dashed(t) else "-" + Dashed(t)
  {
    hide SlugChar;
    assert |s| > 1 ==> s[1..][0] == s[1];
    assert Words(s) == Words(s[1..]);
    if Words(s) != [] {
      assert s[1..] != "";
      assert s[1..][|s[1..]| - 1] == s[|s| - 1];
    }
  }

  lemma {:induction false} NoWords(s: string)
    requires Words(s) == []
    ensures forall i :: 0 <= i < |s| ==> !SlugChar(s[i])
  {
    if s != "" {
      NoWords(s[1..]);
    }
  }

  lemma {:induction false} JoinedEnds(ws: seq<string>)
    requires ws != [] && AreWords(ws)
    ensures var j := Joined(ws); j != "" && SlugChar(j[0]) && SlugChar(j[|j| - 1])
  {
    assert ws[0] != "" && SlugChar(ws[0][0]) && SlugChar(ws[0][|ws[0]| - 1]);
    if |ws| > 1 {
      JoinedEnds(ws[1..]);
    }
  }

  lemma TrimLead(mid: string, lead: bool)
    requires mid != "" && SlugChar(mid[0])
    ensures TrimLeft(DashIf(lead) + mid) == mid
  {
    if lead {
      assert ("-" + mid)[1..] == mid;
    } else {
      assert DashIf(lead) + mid == mid;
    }
  }

  lemma TrimTrail(mid: string, trail: bool)
    requires mid != "" && SlugChar(mid[|mid| - 1])
    ensures TrimRight(mid + DashIf(trail)) == mid
  {
    if trail {
      var t := mid + "-";
      assert t[..|t| - 1] == mid;
    } else {
      assert mid + DashIf(trail) == mid;
    }
  }

  lemma TrimBoth(mid: string, lead: bool, trail: bool)
    requires mid != "" && SlugChar(mid[0]) && SlugChar(mid[|mid| - 1])
    ensures TrimRight(TrimLeft(DashIf(lead) + mid + DashIf(trail))) == mid
  {
    hide TrimLeft, TrimRight, DashIf;
    var rest := mid + DashIf(trail);
    assert DashIf(lead) + mid + DashIf(trail) == DashIf(lead) + rest;
    assert rest[0] == mid[0];
    TrimLead(rest, lead);
    TrimTrail(mid, trail);
  }

  /** The slug of a title: the lower-case letters and digits of its lowered text, each
      break between two of them one dash, or "section" when there are none. */
  lemma SlugIsWords(lower: string -> string, title: string)
    ensures var ws := Words(lower(title));
            AreWords(ws) && Slug(lower, title) == if ws == [] then "section" else Joined(ws)
  {
    hide AreWords;
    var s := lower(title);
    var ws := Words(s);
    WordsAreWords(s);
    DashedIsJoined(s);
    if ws == [] {
      assert Dashed(s) == DashIf(Leads(s));
      assert TrimLeft("-") == TrimLeft("-"[1..]) == "";
    } else {
      JoinedEnds(ws);
      TrimBoth(Joined(ws), Leads(s), Trails(s));
    }
  }

  function Decimal(n: nat): string {
    if n < 10 then [Digit(n)] else Decimal(n / 10) + [Digit(n % 10)]
  }

  function Digit(d: nat): char
    requires d < 10
  {
    ['0', '1', '2', '3', '4', '5', '6', '7', '8', '9'][d]
  }

  function DigitValue(c: char): nat {
    if '0' <= c <= '9' then c as int - '0' as int else 0
  }

  function ValueOf(s: string): nat {
    if s == "" then 0 else 10 * ValueOf(s[..|s| - 1]) + DigitValue(s[|s| - 1])
  }

  lemma {:induction false} DecimalRoundTrip(n: nat)
    ensures ValueOf(Decimal(n)) == n
    ensures forall i :: 0 <= i < |Decimal(n)| ==> '0' <= Decimal(n)[i] <= '9'
    ensures |Decimal(n)| > 0
  {
    var s := Decimal(n);
    if n >= 10 {
      DecimalRoundTrip(n / 10);
      assert s[..|s| - 1] == Decimal(n / 10);
    } else {
      assert s[..0] == "";
    }
  }

  /** How many of the first i + 1 slugs equal slugs[i]: the value of the counter when slugs[i] is keyed. */
  function Occurrence(slugs: seq<string>, i: nat): (n: nat)
    requires i < |slugs|
    ensures n >= 1
  {
    1 + Times(slugs[..i], slugs[i])
  }

  function Times(slugs: seq<string>, s: string): nat {
    if slugs == [] then 0
    else Times(slugs[..|slugs| - 1], s) + if slugs[|slugs| - 1] == s then 1 else 0
  }

  function Numbered(slug: string, n: nat): string {
    if n > 1 then slug + "-" + Decimal(n) else slug
  }

  /** The key given to title i, without the prefix. */
  function KeyOf(slugs: seq<string>, i: nat): string
    requires i < |slugs|
  {
    Numbered(slugs[i], Occurrence(slugs, i))
  }

  function Slugs(lower: string -> string, titles: seq<string>): (slugs: seq<string>)
    ensures |slugs| == |titles|
  {
    seq(|titles|, i requires 0 <= i < |titles| => Slug(lower, titles[i]))
  }

  lemma TimesSnoc(slugs: seq<string>, i: nat, s: string)
    requires i < |slugs|
    ensures Times(slugs[..i + 1], s) == Times(slugs[..i], s) + if slugs[i] == s then 1 else 0
  {
    assert slugs[..i + 1][..i] == slugs[..i];
  }

  /** The counters kept by the loop after the first i titles. */
  ghost predicate Counted(seen: map<string, nat>, slugs: seq<string>, i: nat)
    requires i <= |slugs|
  {
    forall s :: Times(slugs[..i], s) == if s in seen then seen[s] else 0
  }

  method SlugKeys(lower: string -> string, prefix: string, titles: seq<string>) returns (keys: seq<string>)
    ensures |keys| == |titles|
    ensures forall i :: 0 <= i < |keys| ==> keys[i] == prefix + "." + KeyOf(Slugs(lower, titles), i)
  {
    hide Slug, Times, Decimal;
    ghost var slugs := Slugs(lower, titles);
    var seen: map<string, nat> := map[];
    keys := [];
    NothingCounted(slugs);
    for i := 0 to |titles|
      invariant |keys| == i
      invariant Counted(seen, slugs, i)
      invariant forall k :: 0 <= k < i ==> keys[k] == prefix + "." + KeyOf(slugs, k)
    {
      var slug := Slug(lower, titles[i]);
      CountNext(seen, slugs, i);
      var n := (if slug in seen then seen[slug] else 0) + 1;
      seen := seen[slug := n];
      if n > 1 {
        slug := slug + "-" + Decimal(n);
      }
      assert slug == KeyOf(slugs, i);
      keys := keys + [prefix + "." + slug];
    }
  }

  lemma NothingCounted(slugs: seq<string>)
    ensures Counted(map[], slugs, 0)
  {
  }

  lemma CountNext(seen: map<string, nat>, slugs: seq<string>, i: nat)
    requires i < |slugs| && Counted(seen, slugs, i)
    ensures var s := slugs[i];
            var n: nat := (if s in seen then seen[s] else 0) + 1;
            n == Occurrence(slugs, i) && Counted(seen[s := n], slugs, i + 1)
  {
    hide Times;
    forall s ensures Times(slugs[..i + 1], s) == Times(slugs[..i], s) + if slugs[i] == s then 1 else 0 {
      TimesSnoc(slugs, i, s);
    }
  }

  // ------------------------------------------------------------ keys are well formed

  lemma {:induction false} DashedChars(s: string)
    ensures forall i :: 0 <= i < |Dashed(s)| ==> SlugChar(Dashed(s)[i]) || Dashed(s)[i] == '-'
  {
    if s != "" {
      DashedChars(s[1..]);
    }
  }

  lemma SlugIsValid(lower: string -> string, title: string)
    ensures ValidKey(Slug(lower, title))
  {
    var d := Dashed(lower(title));
    DashedChars(lower(title));
    var l := TrimLeft(d);
    var s := TrimRight(l);
    forall i | 0 <= i < |s| ensures KeyChar(s[i]) {
      assert s[i] == l[i] && l[i] in d;
    }
  }

  /** Every key is one the opening-marker pattern accepts, whatever the title. */
  lemma SlugKeyIsValid(lower: string -> string, prefix: string, titles: seq<string>, i: nat)
    requires ValidKey(prefix) && i < |titles|
    ensures ValidKey(prefix + "." + KeyOf(Slugs(lower, titles), i))
  {
    SlugIsValid(lower, titles[i]);
    NumberedIsValid(Slugs(lower, titles), i);
  }

  lemma NumberedIsValid(slugs: seq<string>, i: nat)
    requires i < |slugs| && ValidKey(slugs[i])
    ensures ValidKey(KeyOf(slugs, i))
  {
    var n := Occurrence(slugs, i);
    DecimalRoundTrip(n);
    var k := KeyOf(slugs, i);
    forall j | 0 <= j < |k| ensures KeyChar(k[j]) {
      if j > |slugs[i]| {
        assert k[j] == Decimal(n)[j - |slugs[i]| - 1];
      }
    }
  }

  // ------------------------------------------------------------- when keys are unique

  ghost predicate UniqueKeys(slugs: seq<string>) {
    forall i, j :: 0 <= i < j < |slugs| ==> KeyOf(slugs, i) != KeyOf(slugs, j)
  }

  /** No title's own slug reads like the numbered key of a repeated slug. */
  ghost predicate NoLookalike(slugs: seq<string>) {
    forall i, j :: 0 <= i < |slugs| && 0 <= j < |slugs| && Occurrence(slugs, i) > 1
                   ==> slugs[j] != Numbered(slugs[i], Occurrence(slugs, i))
  }

  lemma {:induction false} TimesMonotone(slugs: seq<string>, s: string, i: nat, j: nat)
    requires i <= j <= |slugs|
    ensures Times(slugs[..i], s) <= Times(slugs[..j], s)
    ensures i < j && slugs[i] == s ==> Times(slugs[..i], s) < Times(slugs[..j], s)
    decreases j
  {
    if i < j {
      TimesMonotone(slugs, s, i, j - 1);
      assert slugs[..j][..j - 1] == slugs[..j - 1] && slugs[..j][j - 1] == slugs[j - 1];
    }
  }

  lemma {:induction false} FirstOccurrence(slugs: seq<string>, j: nat) returns (first: nat)
    requires j < |slugs|
    ensures first <= j && slugs[first] == slugs[j] && Occurrence(slugs, first) == 1
  {
    if Times(slugs[..j], slugs[j]) == 0 {
      first := j;
    } else {
      var k := Earlier(slugs[..j], slugs[j]);
      first := FirstOccurrence(slugs, k);
    }
  }

  lemma {:induction false} Earlier(slugs: seq<string>, s: string) returns (k: nat)
    requires Times(slugs, s) > 0
    ensures k < |slugs| && slugs[k] == s
  {
    if slugs[|slugs| - 1] == s {
      k := |slugs| - 1;
    } else {
      k := Earlier(slugs[..|slugs| - 1], s);
    }
  }

  /** What follows the last dash determines a numbered slug. */
  lemma NumberedInjective(s: string, n: nat, t: string, m: nat)
    requires n > 1 && m > 1 && Numbered(s, n) == Numbered(t, m)
    ensures s == t && n == m
  {
    var a := Numbered(s, n);
    DecimalRoundTrip(n);
    DecimalRoundTrip(m);
    assert a[|s|] == '-' && a[|t|] == '-';
    if |s| < |t| {
      assert false;
    } else if |t| < |s| {
      assert false;
    }
    assert s == a[..|s|] && t == a[..|t|];
    assert Decimal(n) == a[|s| + 1..] && Decimal(m) == a[|t| + 1..];
  }

  lemma LookalikeCollides(slugs: seq<string>, i: nat, j: nat)
    requires i < |slugs| && j < |slugs| && Occurrence(slugs, i) > 1
    requires slugs[j] == Numbered(slugs[i], Occurrence(slugs, i))
    ensures !UniqueKeys(slugs)
  {
    var first := FirstOccurrence(slugs, j);
    assert KeyOf(slugs, first) == KeyOf(slugs, i);
    assert |slugs[j]| > |slugs[i]|;
    assert first != i;
    var lo, hi := if first < i then first else i, if first < i then i else first;
    assert KeyOf(slugs, lo) == KeyOf(slugs, hi);
  }

  lemma NoCollision(slugs: seq<string>, i: nat, j: nat)
    requires i < j < |slugs| && NoLookalike(slugs)
    ensures KeyOf(slugs, i) != KeyOf(slugs, j)
  {
    var n, m := Occurrence(slugs, i), Occurrence(slugs, j);
    if slugs[i] == slugs[j] {
      TimesMonotone(slugs, slugs[i], i, j);
      if KeyOf(slugs, i) == KeyOf(slugs, j) && n > 1 {
        NumberedInjective(slugs[i], n, slugs[j], m);
      }
    } else if n > 1 && m > 1 && KeyOf(slugs, i) == KeyOf(slugs, j) {
      NumberedInjective(slugs[i], n, slugs[j], m);
    }
  }

  /** De-duplication gives unique keys exactly when no slug reads like a numbered repeat. */
  lemma KeysUniqueExactly(slugs: seq<string>)
    ensures UniqueKeys(slugs) <==> NoLookalike(slugs)
  {
    if NoLookalike(slugs) {
      forall i, j | 0 <= i < j < |slugs| ensures KeyOf(slugs, i) != KeyOf(slugs, j) {
        NoCollision(slugs, i, j);
      }
    } else {
      var i, j :| 0 <= i < |slugs| && 0 <= j < |slugs| && Occurrence(slugs, i) > 1
                  && slugs[j] == Numbered(slugs[i], Occurrence(slugs, i));
      LookalikeCollides(slugs, i, j);
    }
  }

  /** The titles "A", "A" and "A 2" get the keys a, a-2 and a-2. */
  lemma DuplicateKeyExample(lower: string -> string)
    requires lower("A") == "a" && lower("A 2") == "a 2"
    ensures var slugs := Slugs(lower, ["A", "A", "A 2"]);
            KeyOf(slugs, 0) == "a" && KeyOf(slugs, 1) == "a-2" && KeyOf(slugs, 2) == "a-2" && !UniqueKeys(slugs)
  {
    hide Slug, KeyOf;
    SlugOfA(lower);
    SlugOfA2(lower);
    assert Slugs(lower, ["A", "A", "A 2"]) == ["a", "a", "a-2"];
    ExampleKeys();
  }

  lemma ExampleKeys()
    ensures var slugs := ["a", "a", "a-2"]; KeyOf(slugs, 0) == "a" && KeyOf(slugs, 1) == "a-2" && KeyOf(slugs, 2) == "a-2"
  {
    var slugs := ["a", "a", "a-2"];
    ExampleTimes(slugs);
    hide Times;
    assert Decimal(2) == "2";
    assert "a" + "-" + "2" == "a-2";
  }

  lemma ExampleTimes(slugs: seq<string>)
    requires slugs == ["a", "a", "a-2"]
    ensures Times(slugs[..0], "a") == 0 && Times(slugs[..1], "a") == 1 && Times(slugs[..2], "a-2") == 0
  {
    assert slugs[..0] == [] && Times([], "a") == 0 && Times([], "a-2") == 0;
    TimesSnoc(slugs, 0, "a");
    TimesSnoc(slugs, 0, "a-2");
    TimesSnoc(slugs, 1, "a-2");
  }

  lemma SlugOfA(lower: string -> string)
    requires lower("A") == "a"
    ensures Slug(lower, "A") == "a"
  {
    assert Dashed("a") == ['a'] + Dashed("a"[1..]);
  }

  lemma SlugOfA2(lower: string -> string)
    requires lower("A 2") == "a 2"
    ensures Slug(lower, "A 2") == "a-2"
  {
    var s := "a 2";
    assert s[1..] == " 2" && s[1..][1..] == "2" && "2"[1..] == "";
    assert Dashed("2") == ['2'] + Dashed("");
    assert Dashed(" 2") == "-" + Dashed("2");
    assert Dashed(s) == ['a'] + Dashed(" 2");
    assert Dashed(s) == "a-2";
  }
}
