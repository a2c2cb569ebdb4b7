/** When two observed entities match: backend/internal/doc/linking.go. Case
    folding is a parameter that stands for both strings.EqualFold and
    strings.ToLower. */
module Linking {
  datatype Entity = Entity(kind: string, name: string, externalID: string, ip: string, hostname: string, aliases: seq<string>)

  datatype Reason = NoMatch | ExternalId | IpAddress | Hostname

  type Fold = string -> string

  /** The hostname followed by the aliases, without empty names. */
  predicate HasName(e: Entity, name: string) {
    name != "" && (e.hostname == name || name in e.aliases)
  }

  predicate MatchesHostnameOrAlias(fold: Fold, name: string, e: Entity) {
    || (e.hostname != "" && fold(name) == fold(e.hostname))
    || exists i :: 0 <= i < |e.aliases| && e.aliases[i] != "" && fold(name) == fold(e.aliases[i])
  }

  predicate HostnameMatches(fold: Fold, a: Entity, b: Entity) {
    && (a.hostname != "" || |a.aliases| > 0)
    && (b.hostname != "" || |b.aliases| > 0)
    && (|| (a.hostname != "" && MatchesHostnameOrAlias(fold, a.hostname, b))
        || exists i :: 0 <= i < |a.aliases| && a.aliases[i] != "" && MatchesHostnameOrAlias(fold, a.aliases[i], b))
  }

  function StrongMatchReason(fold: Fold, a: Entity, b: Entity): Reason {
    if a.externalID != "" && b.externalID != "" && a.kind == b.kind && a.externalID == b.externalID then ExternalId
    else if HostnameMatches(fold, a, b) then Hostname
    else NoMatch
  }

  function MatchReason(fold: Fold, a: Entity, b: Entity): Reason {
    if StrongMatchReason(fold, a, b) == ExternalId then ExternalId
    else if a.ip != "" && b.ip != "" && a.ip == b.ip then IpAddress
    else StrongMatchReason(fold, a, b)
  }

  /** Two names, one of each entity, that fold to the same string. */
  ghost predicate CommonName(fold: Fold, a: Entity, b: Entity) {
    exists x, y :: HasName(a, x) && HasName(b, y) && fold(x) == fold(y)
  }

  lemma MatchesName(fold: Fold, name: string, e: Entity)
    ensures MatchesHostnameOrAlias(fold, name, e) <==> exists y :: HasName(e, y) && fold(name) == fold(y)
  {
    if MatchesHostnameOrAlias(fold, name, e) {
      if e.hostname != "" && fold(name) == fold(e.hostname) {
        assert HasName(e, e.hostname);
      } else {
        var i :| 0 <= i < |e.aliases| && e.aliases[i] != "" && fold(name) == fold(e.aliases[i]);
        assert HasName(e, e.aliases[i]);
      }
    }
  }

  lemma HostnameMatchIsCommonName(fold: Fold, a: Entity, b: Entity)
    ensures HostnameMatches(fold, a, b) <==> CommonName(fold, a, b)
  {
    if HostnameMatches(fold, a, b) {
      if a.hostname != "" && MatchesHostnameOrAlias(fold, a.hostname, b) {
        MatchesName(fold, a.hostname, b);
        assert HasName(a, a.hostname);
      } else {
        var i :| 0 <= i < |a.aliases| && a.aliases[i] != "" && MatchesHostnameOrAlias(fold, a.aliases[i], b);
        MatchesName(fold, a.aliases[i], b);
        assert HasName(a, a.aliases[i]);
      }
    }
    if CommonName(fold, a, b) {
      var x, y :| HasName(a, x) && HasName(b, y) && fold(x) == fold(y);
      MatchesName(fold, x, b);
      if a.hostname != x {
        var i :| 0 <= i < |a.aliases| && a.aliases[i] == x;
        assert MatchesHostnameOrAlias(fold, a.aliases[i], b);
      }
    }
  }

  /** The same external id within one kind. */
  predicate SameIdentity(a: Entity, b: Entity) {
    a.externalID != "" && a.kind == b.kind && a.externalID == b.externalID
  }

  predicate SameAddress(a: Entity, b: Entity) { a.ip != "" && a.ip == b.ip }

  /** The tiers from the entities' own fields: identity, then address, then name; the
      strong match leaves the address out. */
  lemma MatchReasonExactly(fold: Fold, a: Entity, b: Entity)
    ensures MatchReason(fold, a, b) ==
      if SameIdentity(a, b) then ExternalId
      else if SameAddress(a, b) then IpAddress
      else if CommonName(fold, a, b) then Hostname
      else NoMatch
    ensures StrongMatchReason(fold, a, b) ==
      if SameIdentity(a, b) then ExternalId
      else if CommonName(fold, a, b) then Hostname
      else NoMatch
  {
    hide HostnameMatches, CommonName;
    HostnameMatchIsCommonName(fold, a, b);
  }

  /** Matching does not depend on which entity comes first. */
  lemma MatchIsSymmetric(fold: Fold, a: Entity, b: Entity)
    ensures MatchReason(fold, a, b) == MatchReason(fold, b, a)
    ensures StrongMatchReason(fold, a, b) == StrongMatchReason(fold, b, a)
  {
    HostnameMatchIsCommonName(fold, a, b);
    HostnameMatchIsCommonName(fold, b, a);
  }

  // ------------------------------------------------------- features for clustering

  function IdFeature(e: Entity): string { "id\0" + e.kind + "\0" + e.externalID }

  function HostFeature(fold: Fold, name: string): string { "host\0" + fold(name) }

  /** strongIdentityFeatures, as the set the clustering makes of it. */
  predicate HasFeature(fold: Fold, e: Entity, f: string) {
    || (e.externalID != "" && f == IdFeature(e))
    || (e.hostname != "" && f == HostFeature(fold, e.hostname))
    || exists i :: 0 <= i < |e.aliases| && e.aliases[i] != "" && f == HostFeature(fold, e.aliases[i])
  }

  method StrongIdentityFeatures(fold: Fold, e: Entity) returns (features: seq<string>)
    ensures forall f :: f in features <==> HasFeature(fold, e, f)
  {
    features := [];
    if e.externalID != "" {
      features := features + [IdFeature(e)];
    }
    if e.hostname != "" {
      features := features + [HostFeature(fold, e.hostname)];
    }
    ghost var base := features;
    for k := 0 to |e.aliases|
      invariant forall f :: f in features <==>
                  f in base || exists i :: 0 <= i < k && e.aliases[i] != "" && f == HostFeature(fold, e.aliases[i])
    {
      if e.aliases[k] != "" {
        features := features + [HostFeature(fold, e.aliases[k])];
      }
    }
  }

  lemma HasHostFeature(fold: Fold, e: Entity, f: string)
    ensures HasFeature(fold, e, f) <==>
              (e.externalID != "" && f == IdFeature(e)) || exists n :: HasName(e, n) && f == HostFeature(fold, n)
  {
    if HasFeature(fold, e, f) && !(e.externalID != "" && f == IdFeature(e)) {
      if e.hostname != "" && f == HostFeature(fold, e.hostname) {
        assert HasName(e, e.hostname);
      } else {
        var i :| 0 <= i < |e.aliases| && e.aliases[i] != "" && f == HostFeature(fold, e.aliases[i]);
        assert HasName(e, e.aliases[i]);
      }
    }
  }

  lemma SplitAtNul(a: string, x: string, b: string, y: string)
    requires '\0' !in a && '\0' !in b && a + "\0" + x == b + "\0" + y
    ensures a == b && x == y
  {
    var s := a + "\0" + x;
    assert s[|a|] == '\0' && s[|b|] == '\0';
    assert |a| == |b|;
    assert a == s[..|a|] && b == s[..|b|];
    assert x == s[|a| + 1..] && y == s[|b| + 1..];
  }

  lemma FeaturesDiffer(fold: Fold, e: Entity, n: string)
    ensures IdFeature(e) != HostFeature(fold, n)
  {
    assert IdFeature(e)[0] == 'i' && HostFeature(fold, n)[0] == 'h';
  }

  lemma SameIdFeature(a: Entity, b: Entity)
    ensures IdFeature(a) == IdFeature(b) <==> a.kind + "\0" + a.externalID == b.kind + "\0" + b.externalID
  {
    assert IdFeature(a)[3..] == a.kind + "\0" + a.externalID;
    assert IdFeature(b)[3..] == b.kind + "\0" + b.externalID;
    assert IdFeature(a) == "id\0" + (a.kind + "\0" + a.externalID);
    assert IdFeature(b) == "id\0" + (b.kind + "\0" + b.externalID);
  }

  lemma SameHostFeature(fold: Fold, x: string, y: string)
    ensures HostFeature(fold, x) == HostFeature(fold, y) <==> fold(x) == fold(y)
  {
    assert HostFeature(fold, x)[5..] == fold(x);
    assert HostFeature(fold, y)[5..] == fold(y);
  }

  ghost predicate ShareFeature(fold: Fold, a: Entity, b: Entity) {
    exists f :: HasFeature(fold, a, f) && HasFeature(fold, b, f)
  }

  /** Different kind and external id, but the same string once joined by a NUL. */
  predicate Confused(a: Entity, b: Entity) {
    && a.externalID != "" && b.externalID != ""
    && !(a.kind == b.kind && a.externalID == b.externalID)
    && a.kind + "\0" + a.externalID == b.kind + "\0" + b.externalID
  }

  lemma ConfusionNeedsNul(a: Entity, b: Entity)
    requires Confused(a, b)
    ensures '\0' in a.kind || '\0' in b.kind
  {
    if '\0' !in a.kind && '\0' !in b.kind {
      SplitAtNul(a.kind, a.externalID, b.kind, b.externalID);
    }
  }

  lemma SharedIds(fold: Fold, a: Entity, b: Entity, f: string)
    requires HasFeature(fold, a, f) && HasFeature(fold, b, f) && a.externalID != "" && f == IdFeature(a)
    ensures b.externalID != "" && IdFeature(a) == IdFeature(b)
  {
    hide IdFeature, HostFeature, HasName;
    HasHostFeature(fold, b, f);
    if n :| HasName(b, n) && f == HostFeature(fold, n) {
      FeaturesDiffer(fold, a, n);
    }
  }

  /** Two entities share a clustering feature exactly when they match strongly or
      are confused by a NUL character. */
  lemma SharedFeatureExactly(fold: Fold, a: Entity, b: Entity)
    ensures ShareFeature(fold, a, b) <==> StrongMatchReason(fold, a, b) != NoMatch || Confused(a, b)
  {
    hide IdFeature, HostFeature, HostnameMatches, HasName;
    HostnameMatchIsCommonName(fold, a, b);
    SameIdFeature(a, b);
    if f :| HasFeature(fold, a, f) && HasFeature(fold, b, f) {
      HasHostFeature(fold, a, f);
      HasHostFeature(fold, b, f);
      if a.externalID != "" && f == IdFeature(a) {
        SharedIds(fold, a, b, f);
      } else {
        var n :| HasName(a, n) && f == HostFeature(fold, n);
        FeaturesDiffer(fold, b, n);
        var m :| HasName(b, m) && f == HostFeature(fold, m);
        SameHostFeature(fold, n, m);
        assert CommonName(fold, a, b);
      }
    }
    if StrongMatchReason(fold, a, b) == ExternalId || Confused(a, b) {
      SameIdFromFields(a, b);
      assert HasFeature(fold, a, IdFeature(a)) && HasFeature(fold, b, IdFeature(a));
    } else if StrongMatchReason(fold, a, b) == Hostname {
      var x, y :| HasName(a, x) && HasName(b, y) && fold(x) == fold(y);
      SameHostFeature(fold, x, y);
      HasHostFeature(fold, a, HostFeature(fold, x));
      HasHostFeature(fold, b, HostFeature(fold, x));
    }
  }

  lemma SameIdFromFields(a: Entity, b: Entity)
    ensures a.kind == b.kind && a.externalID == b.externalID ==> IdFeature(a) == IdFeature(b)
  {
  }

  /** The features used for clustering and the live strong match agree on a pair
      exactly when it is not confused, or has a name in common anyway. */
  lemma FeaturesAreStrongMatch(fold: Fold, a: Entity, b: Entity)
    ensures (ShareFeature(fold, a, b) <==> StrongMatchReason(fold, a, b) != NoMatch)
            <==> !Confused(a, b) || HostnameMatches(fold, a, b)
  {
    hide ShareFeature, HostnameMatches;
    SharedFeatureExactly(fold, a, b);
  }

  /** With a NUL character in a kind the two relations drift apart. */
  lemma NulInKindBreaksFeatures(fold: Fold)
    ensures var a, b := Entity("k", "", "x\0y", "", "", []), Entity("k\0x", "", "y", "", "", []);
            ShareFeature(fold, a, b) && StrongMatchReason(fold, a, b) == NoMatch
  {
    var a := Entity("k", "", "x\0y", "", "", []);
    var b := Entity("k\0x", "", "y", "", "", []);
    assert a.kind + "\0" + a.externalID == "k\0x\0y" && b.kind + "\0" + b.externalID == "k\0x\0y";
    SharedFeatureExactly(fold, a, b);
  }
}
