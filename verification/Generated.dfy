/** Freshly generated blocks: NewBlock and its marker neutralising,
    backend/internal/doc/blocks.go. */
module Generated {
  import opened Lines
  import opened Blocks
  import opened Layout

  const OPEN_TAG := "<!-- wl:gen"
  const CLOSE_TAG := "<!-- /wl:gen"
  const SAFE_OPEN := "<!-- wl-gen"
  const SAFE_CLOSE := "<!-- /wl-gen"

  /** One left-to-right pass that rewrites both marker tags. */
  function Neutralise(s: string): string {
    if s == "" then ""
    else if OPEN_TAG <= s then SAFE_OPEN + Neutralise(s[|OPEN_TAG|..])
    else if CLOSE_TAG <= s then SAFE_CLOSE + Neutralise(s[|CLOSE_TAG|..])
    else [s[0]] + Neutralise(s[1..])
  }

  /** No marker tag anywhere. */
  ghost predicate TagFree(s: string) {
    forall i :: 0 <= i <= |s| ==> !(OPEN_TAG <= s[i..]) && !(CLOSE_TAG <= s[i..])
  }

  function NewBlock(hash: Hasher, key: string, body: string): Block {
    var b := Neutralise(body);
    Block(key, hash(b), b)
  }

  /** The pass copies everything up to the next angle bracket. */
  lemma {:induction false} CopiedPrefix(s: string, w: string)
    requires '<' !in w && w <= Neutralise(s)
    ensures w <= s
  {
    if w != "" {
      assert w[0] in w && w[0] == Neutralise(s)[0];
      if OPEN_TAG <= s || CLOSE_TAG <= s {
        assert false;
      } else {
        var rest := Neutralise(s[1..]);
        assert Neutralise(s)[1..] == rest;
        assert w[1..] <= rest;
        CopiedPrefix(s[1..], w[1..]);
        assert w == [w[0]] + w[1..] && s == [s[0]] + s[1..];
      }
    }
  }

  lemma SafePrefix(safe: string, rest: string)
    requires safe in [SAFE_OPEN, SAFE_CLOSE] && TagFree(rest)
    ensures TagFree(safe + rest)
  {
    var s := safe + rest;
    forall i | 0 <= i <= |s| ensures !(OPEN_TAG <= s[i..]) && !(CLOSE_TAG <= s[i..]) {
      if i >= |safe| {
        assert s[i..] == rest[i - |safe|..];
      } else if i == 0 {
        assert s[7] == safe[7] && s[8] == safe[8];
        assert s[5] == safe[5];
      } else {
        assert s[i..][0] == safe[i] != '<';
      }
    }
  }

  lemma {:induction false} NeutraliseIsTagFree(s: string)
    ensures TagFree(Neutralise(s))
  {
    var r := Neutralise(s);
    if s == "" {
    } else if OPEN_TAG <= s {
      NeutraliseIsTagFree(s[|OPEN_TAG|..]);
      SafePrefix(SAFE_OPEN, Neutralise(s[|OPEN_TAG|..]));
    } else if CLOSE_TAG <= s {
      NeutraliseIsTagFree(s[|CLOSE_TAG|..]);
      SafePrefix(SAFE_CLOSE, Neutralise(s[|CLOSE_TAG|..]));
    } else {
      var rest := Neutralise(s[1..]);
      NeutraliseIsTagFree(s[1..]);
      forall i | 0 <= i <= |r| ensures !(OPEN_TAG <= r[i..]) && !(CLOSE_TAG <= r[i..]) {
        if i > 0 {
          assert r[i..] == rest[i - 1..];
        } else {
          TagAtFront(s, rest, OPEN_TAG);
          TagAtFront(s, rest, CLOSE_TAG);
        }
      }
    }
  }

  /** Position i holds the colon of a marker tag. */
  predicate TagColon(s: string, i: nat) {
    i <= |s| && ((i >= 7 && OPEN_TAG <= s[i - 7..]) || (i >= 8 && CLOSE_TAG <= s[i - 8..]))
  }

  lemma ColonOfFirst(s: string, tag: string, i: nat)
    requires tag in [OPEN_TAG, CLOSE_TAG] && tag <= s && i < |s|
    ensures i < |tag| ==> s[i] == tag[i]
    ensures TagColon(s, i) <==> if i < |tag| then i == |tag| - 4 else TagColon(s[|tag|..], i - |tag|)
  {
    var n := |tag|;
    assert forall j :: 0 <= j < n ==> s[j] == tag[j];
    assert forall j :: 0 < j < n ==> tag[j] != '<';
    assert s[0..] == s && s[5] == tag[5];
    assert i >= n + 7 ==> s[n..][i - n - 7..] == s[i - 7..];
    assert i >= n + 8 ==> s[n..][i - n - 8..] == s[i - 8..];
    assert i > 7 && i < n + 7 ==> s[i - 7..][0] != '<';
    assert i > 8 && i < n + 8 ==> s[i - 8..][0] != '<';
  }

  lemma ColonLater(s: string, i: nat)
    requires 0 < i < |s| && !(OPEN_TAG <= s) && !(CLOSE_TAG <= s)
    ensures TagColon(s, i) <==> TagColon(s[1..], i - 1)
  {
    assert s[0..] == s;
    assert i > 7 ==> s[1..][i - 8..] == s[i - 7..];
    assert i > 8 ==> s[1..][i - 9..] == s[i - 8..];
  }

  /** The pass changes nothing but the colons of marker tags, which become dashes. */
  lemma {:induction false} NeutraliseExactly(s: string, i: nat)
    ensures |Neutralise(s)| == |s|
    ensures i < |s| ==> Neutralise(s)[i] == if TagColon(s, i) then '-' else s[i]
  {
    hide TagColon;
    if s == "" {
    } else if OPEN_TAG <= s {
      NeutraliseExactly(s[11..], if i < 11 then 0 else i - 11);
      if i < |s| { ColonOfFirst(s, OPEN_TAG, i); }
    } else if CLOSE_TAG <= s {
      NeutraliseExactly(s[12..], if i < 12 then 0 else i - 12);
      if i < |s| { ColonOfFirst(s, CLOSE_TAG, i); }
    } else {
      NeutraliseExactly(s[1..], if i == 0 then 0 else i - 1);
      if i == 0 {
        NoColonAtFront(s);
      } else if i < |s| {
        ColonLater(s, i);
      }
    }
  }

  lemma NoColonAtFront(s: string)
    ensures !TagColon(s, 0)
  {
  }

  lemma TagAtFront(s: string, rest: string, tag: string)
    requires s != "" && rest == Neutralise(s[1..]) && !(tag <= s)
    requires |tag| > 0 && '<' !in tag[1..]
    ensures !(tag <= ([s[0]] + rest)[0..])
  {
    assert tag == [tag[0]] + tag[1..] && s == [s[0]] + s[1..];
    if tag <= ([s[0]] + rest)[0..] {
      assert tag[1..] <= rest;
      CopiedPrefix(s[1..], tag[1..]);
      assert false;
    }
  }

  lemma {:induction false} NeutraliseTagFree(s: string)
    requires TagFree(s)
    ensures Neutralise(s) == s
  {
    if s != "" {
      assert s[0..] == s;
      forall i | 0 <= i <= |s[1..]|
        ensures !(OPEN_TAG <= s[1..][i..]) && !(CLOSE_TAG <= s[1..][i..])
      {
        assert s[1..][i..] == s[i + 1..];
      }
      NeutraliseTagFree(s[1..]);
    }
  }

  lemma {:induction false} TagFreeLines(s: string, k: nat)
    requires TagFree(s) && k < |Split(s)|
    ensures !IsOpen(Split(s)[k]) && Split(s)[k] != CLOSE
    ensures Split(s)[0] <= s
  {
    hide OpenMarker;
    FirstLine(s);
    var l := Split(s)[k];
    if k == 0 {
      assert s[0..] == s;
      NotMarker(l);
      assert !(OPEN_TAG <= l) && !(CLOSE_TAG <= l);
    } else {
      forall i | 0 <= i <= |s[1..]|
        ensures !(OPEN_TAG <= s[1..][i..]) && !(CLOSE_TAG <= s[1..][i..])
      {
        assert s[1..][i..] == s[i + 1..];
      }
      if s[0] == '\n' {
        TagFreeLines(s[1..], k - 1);
      } else {
        TagFreeLines(s[1..], k);
      }
    }
  }

  lemma {:induction false} FirstLine(s: string)
    ensures Split(s)[0] <= s
  {
    if s != "" {
      FirstLine(s[1..]);
      assert s == [s[0]] + s[1..];
    }
  }

  lemma NotMarker(l: string)
    ensures IsOpen(l) ==> OPEN_TAG <= l
    ensures l == CLOSE ==> CLOSE_TAG <= l
  {
    if IsOpen(l) {
      assert OPEN_PREFIX <= l;
      assert OPEN_PREFIX == OPEN_TAG + " key=\"";
    }
    if l == CLOSE {
      assert CLOSE == CLOSE_TAG + " -->";
    }
  }

  /** A generated body can never close or nest a block, its block is unedited, and
      generating it again from its own body gives the same block. */
  lemma NewBlockIsSound(hash: Hasher, key: string, body: string)
    requires ValidKey(key)
    ensures var b := NewBlock(hash, key, body);
            && WfBlock(b)
            && !b.Edited(hash)
            && NewBlock(hash, key, b.body) == b
  {
    var b := NewBlock(hash, key, body);
    NeutraliseIsTagFree(body);
    NeutraliseTagFree(b.body);
    forall k | 0 <= k < |Split(b.body)| ensures !IsOpen(Split(b.body)[k]) && Split(b.body)[k] != CLOSE {
      TagFreeLines(b.body, k);
    }
  }
}
