/** One notification per incident: evaluateComplianceRule, ruleNotifiedRank and
    maybeNotify in backend/internal/quality/checker.go over the open findings of
    one rule on one connector (backend/internal/store/quality.go). */
module Notifications {
  const RANKS: map<string, int> := map["info" := 0, "warning" := 1, "critical" := 2]

  /** findingRank: anything else is below every severity. */
  function Rank(severity: string): int {
    if severity in RANKS then RANKS[severity] else -1
  }

  /** The map read directly: a severity that is not in it reads as 0. */
  function LookedUp(severity: string): int {
    if severity in RANKS then RANKS[severity] else 0
  }

  /** Open findings by entity reference, with the severity last notified or "".
      Resolved findings leave the table: they are never updated again. */
  type Open = map<string, string>

  ghost predicate Wf(open: Open) {
    forall r :: r in open ==> open[r] == "" || open[r] in RANKS
  }

  // ------------------------------------------------------ the specification

  /** The findings that stay open. An entity without a reference is stored as
      NULL and always counts as vanished. */
  function Staying(open: Open, matches: seq<string>): Open {
    map r | r in open && r != "" && r in matches :: open[r]
  }

  ghost predicate Announced(open: Open, rank: int) {
    exists r :: r in open && Rank(open[r]) >= rank
  }

  /** Some severity is notified that nothing staying open was notified at. */
  ghost predicate Notifies(open: Open, matches: seq<string>, severity: string) {
    matches != [] && severity in RANKS && !Announced(Staying(open, matches), Rank(severity))
  }

  function Raised(notified: string, severity: string): string {
    if Rank(severity) > Rank(notified) then severity else notified
  }

  ghost function After(open: Open, matches: seq<string>, severity: string): Open {
    map r | r in matches :: Raised(if r in Staying(open, matches) then open[r] else "", severity)
  }

  // ------------------------------------------------------------- the checker

  class RuleFindings {
    var open: Open

    /** ResolveQualityFindingsForRuleExceptEntities. */
    method ResolveExcept(keep: seq<string>)
      modifies this
      ensures open == Staying(old(open), keep)
    {
      open := map r | r in open && r != "" && r in keep :: open[r];
    }

    method NotifiedRank() returns (highest: int)
      requires Wf(open)
      ensures highest >= -1
      ensures forall rank :: rank >= 0 ==> (highest >= rank <==> Announced(open, rank))
    {
      highest := -1;
      var todo := open.Keys;
      while todo != {}
        invariant todo <= open.Keys && highest >= -1
        invariant forall r :: r in open && r !in todo ==> Rank(open[r]) <= highest
        invariant highest >= 0 ==> exists r :: r in open && Rank(open[r]) == highest
        decreases todo
      {
        var r :| r in todo;
        todo := todo - {r};
        if Rank(open[r]) > highest {
          highest := Rank(open[r]);
        }
      }
    }

    /** The upsert loop: the notified severity each match's finding carries. */
    method UpsertAll(matches: seq<string>) returns (upserted: seq<string>)
      modifies this
      ensures |upserted| == |matches|
      ensures forall i :: 0 <= i < |matches| ==> upserted[i] == if matches[i] in old(open) then old(open)[matches[i]] else ""
      ensures forall r :: r in open <==> r in old(open) || r in matches
      ensures forall r :: r in open ==> open[r] == if r in old(open) then old(open)[r] else ""
    {
      upserted := [];
      for i := 0 to |matches|
        invariant |upserted| == i
        invariant forall k :: 0 <= k < i ==> upserted[k] == if matches[k] in old(open) then old(open)[matches[k]] else ""
        invariant forall r :: r in open <==> r in old(open) || r in matches[..i]
        invariant forall r :: r in open ==> open[r] == if r in old(open) then old(open)[r] else ""
      {
        assert matches[..i + 1] == matches[..i] + [matches[i]];
        if matches[i] !in open {
          open := open[matches[i] := ""];
        }
        upserted := upserted + [open[matches[i]]];
      }
      assert matches[..|matches|] == matches;
    }

    /** maybeNotify, for a finding of any check. */
    method MaybeNotify(ref: string, severity: string, notified: string) returns (sent: bool)
      modifies this
      ensures sent <==> notified == "" || LookedUp(severity) > LookedUp(notified)
      ensures open == if sent then old(open)[ref := severity] else old(open)
    {
      if notified != "" && LookedUp(severity) <= LookedUp(notified) {
        return false;
      }
      open := open[ref := severity];
      return true;
    }

    /** The marking loop: every other finding is covered by the announcement. */
    method CoverAll(matches: seq<string>, upserted: seq<string>, severity: string, candidate: int)
      requires |upserted| == |matches|
      requires forall i :: 0 <= i < |matches| ==> matches[i] in open
      requires 0 <= candidate < |matches| ==> open[matches[candidate]] == severity && Rank(severity) > Rank(upserted[candidate])
      modifies this
      ensures forall r :: r in open <==> r in old(open)
      ensures forall r :: r in open && r !in matches ==> open[r] == old(open)[r]
      ensures forall i :: 0 <= i < |matches| && Rank(severity) > Rank(upserted[i]) ==> open[matches[i]] == severity
      ensures forall r :: r in open && open[r] != old(open)[r] ==> open[r] == severity && exists i :: 0 <= i < |matches| && matches[i] == r && Rank(severity) > Rank(upserted[i])
    {
      for i := 0 to |matches|
        invariant forall r :: r in open <==> r in old(open)
        invariant forall r :: r in open && r !in matches ==> open[r] == old(open)[r]
        invariant forall k :: 0 <= k < |matches| && (k < i || k == candidate) && Rank(severity) > Rank(upserted[k]) ==> open[matches[k]] == severity
        invariant forall r :: r in open && open[r] != old(open)[r] ==> open[r] == severity && exists k :: 0 <= k < i && matches[k] == r && Rank(severity) > Rank(upserted[k])
      {
        if i == candidate || Rank(severity) <= Rank(upserted[i]) {
          continue;
        }
        open := open[matches[i] := severity];
      }
    }

    /** The first finding whose severity was not announced yet. */
    method FindCandidate(upserted: seq<string>, severity: string, notified: int) returns (candidate: int)
      ensures -1 <= candidate < |upserted|
      ensures candidate >= 0 ==> Rank(severity) > notified && Rank(severity) > Rank(upserted[candidate])
      ensures candidate < 0 ==> forall k :: 0 <= k < |upserted| ==> !(Rank(severity) > notified && Rank(severity) > Rank(upserted[k]))
    {
      for i := 0 to |upserted|
        invariant forall k :: 0 <= k < i ==> !(Rank(severity) > notified && Rank(severity) > Rank(upserted[k]))
      {
        if Rank(severity) > notified && Rank(severity) > Rank(upserted[i]) {
          return i;
        }
      }
      return -1;
    }

    method EvaluateRule(matches: seq<string>, severity: string) returns (sent: bool)
      requires Wf(open)
      modifies this
      ensures sent <==> Notifies(old(open), matches, severity)
      ensures open == After(old(open), matches, severity) && Wf(open)
    {
      hide Staying, After, Rank, Announced, Wf, Filled;
      AfterIsWf(open, matches, severity);
      if matches == [] {
        open := map[];
        NothingOpen(old(open), severity);
        return false;
      }
      ResolveExcept(matches);
      ghost var staying := open;
      StayingIsWf(old(open), matches);
      var notified := NotifiedRank();
      var upserted := UpsertAll(matches);
      ghost var filled := open;
      FilledByUpserts(old(open), staying, filled, matches, upserted);
      FirstIsCandidate(staying, filled, matches, upserted, severity, notified);
      var candidate := FindCandidate(upserted, severity, notified);
      sent := Announce(matches, upserted, severity, candidate, old(open), staying);
    }

    /** Announces the candidate, if there is one, and covers the rest. */
    method Announce(matches: seq<string>, upserted: seq<string>, severity: string, candidate: int, ghost before: Open, ghost staying: Open) returns (sent: bool)
      requires Filled(before, staying, open, matches, upserted) && Wf(staying) && -1 <= candidate < |matches|
      requires forall i :: 0 <= i < |matches| ==> matches[i] in open
      requires candidate >= 0 ==> severity in RANKS && Rank(severity) > Rank(upserted[candidate])
      modifies this
      ensures sent <==> candidate >= 0
      ensures open == After(before, matches, severity)
    {
      hide Staying, After, Rank, Wf;
      ghost var filled := open;
      sent := false;
      if candidate != -1 {
        UpsertedIsKnown(before, staying, filled, matches, upserted, candidate);
        KnownRanks(severity, upserted[candidate]);
        sent := MaybeNotify(matches[candidate], severity, upserted[candidate]);
      }
      ghost var marked := open;
      CoverAll(matches, upserted, severity, candidate);
      hide Filled;
      CoveredIsAfter(before, staying, filled, marked, matches, upserted, severity, candidate, open);
    }
  }

  lemma AfterIsWf(open: Open, matches: seq<string>, severity: string)
    requires Wf(open)
    ensures Wf(After(open, matches, severity))
  {
  }

  lemma NothingOpen(open: Open, severity: string)
    ensures After(open, [], severity) == map[]
  {
  }

  lemma StayingIsWf(open: Open, matches: seq<string>)
    requires Wf(open)
    ensures Wf(Staying(open, matches)) && forall r :: r in Staying(open, matches) ==> r in matches
  {
  }

  lemma FilledByUpserts(open: Open, staying: Open, filled: Open, matches: seq<string>, upserted: seq<string>)
    requires staying == Staying(open, matches) && |upserted| == |matches|
    requires forall i :: 0 <= i < |matches| ==> upserted[i] == if matches[i] in staying then staying[matches[i]] else ""
    requires forall r :: r in filled <==> r in staying || r in matches
    requires forall r :: r in filled ==> filled[r] == if r in staying then staying[r] else ""
    ensures Filled(open, staying, filled, matches, upserted)
    ensures forall i :: 0 <= i < |matches| ==> matches[i] in filled && upserted[i] == filled[matches[i]]
  {
    forall i | 0 <= i < |matches| ensures matches[i] in filled && upserted[i] == filled[matches[i]] {
      assert matches[i] in matches;
    }
  }

  lemma KnownRanks(severity: string, notified: string)
    requires severity in RANKS && Rank(severity) > Rank(notified) && (notified == "" || notified in RANKS)
    ensures notified == "" || LookedUp(severity) > LookedUp(notified)
  {
  }

  lemma UpsertedIsKnown(open: Open, staying: Open, filled: Open, matches: seq<string>, upserted: seq<string>, i: nat)
    requires Filled(open, staying, filled, matches, upserted) && i < |matches| && Wf(staying)
    ensures upserted[i] == "" || upserted[i] in RANKS
  {
    assert matches[i] in matches;
  }

  ghost predicate Filled(open: Open, staying: Open, filled: Open, matches: seq<string>, upserted: seq<string>) {
    && staying == Staying(open, matches) && |upserted| == |matches|
    && (forall r :: r in filled <==> r in matches)
    && (forall r :: r in filled ==> filled[r] == if r in staying then staying[r] else "")
    && (forall i :: 0 <= i < |matches| ==> upserted[i] == filled[matches[i]])
  }

  /** What the marking leaves, whether or not there was a candidate. */
  ghost predicate Covered(filled: Open, marked: Open, matches: seq<string>, upserted: seq<string>, severity: string, candidate: int, result: Open)
    requires candidate < |matches| && |upserted| == |matches|
  {
    && (if candidate < 0 then marked == filled else marked == filled[matches[candidate] := severity] && Rank(severity) > Rank(upserted[candidate]))
    && (forall r :: r in result <==> r in marked)
    && (forall i :: 0 <= i < |matches| && Rank(severity) > Rank(upserted[i]) ==> matches[i] in result && result[matches[i]] == severity)
    && (forall r :: r in result && result[r] != marked[r] ==>
         result[r] == severity && exists i :: 0 <= i < |matches| && matches[i] == r && Rank(severity) > Rank(upserted[i]))
  }

  lemma CoveredOne(open: Open, staying: Open, filled: Open, marked: Open, matches: seq<string>, upserted: seq<string>, severity: string, candidate: int, result: Open, i: nat)
    requires Filled(open, staying, filled, matches, upserted) && candidate < |matches| && i < |matches|
    requires Covered(filled, marked, matches, upserted, severity, candidate, result)
    ensures matches[i] in result && matches[i] in filled && result[matches[i]] == Raised(filled[matches[i]], severity)
  {
    hide Rank, Staying;
    var r := matches[i];
    assert r in matches;
    assert upserted[i] == filled[r];
  }

  lemma CoveredIsAfter(open: Open, staying: Open, filled: Open, marked: Open, matches: seq<string>, upserted: seq<string>, severity: string, candidate: int, result: Open)
    requires Filled(open, staying, filled, matches, upserted) && candidate < |matches|
    requires Covered(filled, marked, matches, upserted, severity, candidate, result)
    ensures result == After(open, matches, severity)
  {
    forall r | r in matches
      ensures r in result && r in filled && result[r] == Raised(filled[r], severity)
    {
      var i :| 0 <= i < |matches| && matches[i] == r;
      CoveredOne(open, staying, filled, marked, matches, upserted, severity, candidate, result, i);
    }
    assert candidate >= 0 ==> matches[candidate] in matches;
    forall r | r in result
      ensures r in matches
    {
    }
    hide Covered, Raised;
  }

  /** The first match is the candidate if any is, exactly when the severity is new. */
  lemma FirstIsCandidate(staying: Open, filled: Open, matches: seq<string>, upserted: seq<string>, severity: string, notified: int)
    requires matches != [] && |upserted| == |matches|
    requires matches[0] in filled && upserted[0] == filled[matches[0]] && filled[matches[0]] == if matches[0] in staying then staying[matches[0]] else ""
    requires notified >= -1 && forall rank :: rank >= 0 ==> (notified >= rank <==> Announced(staying, rank))
    ensures Rank(severity) > notified <==> severity in RANKS && !Announced(staying, Rank(severity))
    ensures Rank(severity) > notified ==> Rank(severity) > Rank(upserted[0])
  {
    if matches[0] in staying && Rank(staying[matches[0]]) >= 0 {
      assert Announced(staying, Rank(staying[matches[0]]));
    }
  }

  // -------------------------------------------------------------- whole runs

  datatype Evaluation = Evaluation(matches: seq<string>, severity: string)

  ghost function Run(open: Open, es: seq<Evaluation>): Open {
    if es == [] then open
    else var n := |es| - 1; After(Run(open, es[..n]), es[n].matches, es[n].severity)
  }

  /** Whether the i-th evaluation of a run notifies. */
  ghost predicate Sends(open: Open, es: seq<Evaluation>, i: nat)
    requires i < |es|
  {
    Notifies(Run(open, es[..i]), es[i].matches, es[i].severity)
  }

  lemma {:induction false} RunIsWf(open: Open, es: seq<Evaluation>)
    requires Wf(open)
    ensures Wf(Run(open, es))
  {
    if es != [] {
      RunIsWf(open, es[..|es| - 1]);
    }
  }

  /** Two evaluations belong to one incident: an entity that can be told apart
      matches in both. */
  ghost predicate Overlap(a: seq<string>, b: seq<string>) {
    exists r :: r in a && r in b && r != ""
  }

  /** After an evaluation at a known severity, exactly its matches are open, and
      each has been announced at that severity or above. */
  lemma OpenIsLastMatches(open: Open, matches: seq<string>, severity: string)
    requires severity in RANKS
    ensures forall r :: r in After(open, matches, severity) <==> r in matches
    ensures forall r :: r in After(open, matches, severity) ==> Rank(After(open, matches, severity)[r]) >= Rank(severity)
  {
  }

  /** With a fixed severity, an evaluation notifies exactly when it has matches
      and none of the previous evaluation's entities is still among them: once
      per incident, however long the history. */
  lemma OncePerIncident(es: seq<Evaluation>, severity: string, i: nat)
    requires severity in RANKS && i < |es|
    requires forall k :: 0 <= k < |es| ==> es[k].severity == severity
    ensures Sends(map[], es, i) <==> es[i].matches != [] && (i == 0 || !Overlap(es[i - 1].matches, es[i].matches))
  {
    hide After;
    if i > 0 {
      var past := es[..i];
      assert past[..i - 1] == es[..i - 1];
      var before := Run(map[], es[..i - 1]);
      OpenIsLastMatches(before, es[i - 1].matches, severity);
      var open := Run(map[], past);
      assert open == After(before, es[i - 1].matches, severity);
      AnnouncedIffOverlap(open, es[i - 1].matches, es[i].matches, severity);
    } else {
      assert es[..0] == [];
    }
  }

  lemma AnnouncedIffOverlap(open: Open, last: seq<string>, matches: seq<string>, severity: string)
    requires forall r :: r in open <==> r in last
    requires forall r :: r in open ==> Rank(open[r]) >= Rank(severity)
    ensures Announced(Staying(open, matches), Rank(severity)) <==> Overlap(last, matches)
  {
    if Overlap(last, matches) {
      var r :| r in last && r in matches && r != "";
      assert r in Staying(open, matches);
    }
    if Announced(Staying(open, matches), Rank(severity)) {
      var r :| r in Staying(open, matches) && Rank(Staying(open, matches)[r]) >= Rank(severity);
      assert r in last;
    }
  }

  /** While an entity keeps matching, every notification is an escalation: the
      severity is above all those announced since the entity first matched. */
  lemma {:induction false} OnlyEscalationsInside(open: Open, es: seq<Evaluation>, r: string, j: nat, i: nat)
    requires j < i < |es| && r != ""
    requires forall k :: j <= k <= i ==> r in es[k].matches
    requires Sends(open, es, i)
    ensures Rank(es[i].severity) > Rank(es[j].severity)
  {
    StaysAnnounced(open, es, r, j, i);
    var past := Run(open, es[..i]);
    assert r in Staying(past, es[i].matches) && Staying(past, es[i].matches)[r] == past[r];
    hide Run, Staying;
  }

  lemma {:induction false} StaysAnnounced(open: Open, es: seq<Evaluation>, r: string, j: nat, i: nat)
    requires j < i <= |es| && r != ""
    requires forall k :: j <= k < i ==> r in es[k].matches
    ensures r in Run(open, es[..i]) && Rank(Run(open, es[..i])[r]) >= Rank(es[j].severity)
    decreases i
  {
    assert es[..i][..i - 1] == es[..i - 1];
    var before := Run(open, es[..i - 1]);
    AnnouncedRises(before, es[i - 1].matches, es[i - 1].severity, r);
    if j < i - 1 {
      StaysAnnounced(open, es, r, j, i - 1);
    }
    assert Run(open, es[..i]) == After(before, es[i - 1].matches, es[i - 1].severity);
    hide Run, After, Rank;
  }

  lemma AnnouncedRises(open: Open, matches: seq<string>, severity: string, r: string)
    requires r in matches && r != ""
    ensures r in After(open, matches, severity) && Rank(After(open, matches, severity)[r]) >= Rank(severity)
    ensures r in open ==> Rank(After(open, matches, severity)[r]) >= Rank(open[r])
  {
  }

  /** The entity can be told apart and has matched in every evaluation from j to i. */
  ghost predicate Matching(es: seq<Evaluation>, r: string, j: nat, i: nat) {
    r != "" && j < i < |es| && forall k :: j <= k <= i ==> r in es[k].matches
  }

  /** What a finding was last announced at is the severity of some evaluation since
      which the entity has matched all the time. */
  lemma {:induction false} AnnouncedSince(es: seq<Evaluation>, r: string, i: nat) returns (j: nat)
    requires i <= |es| && r != ""
    requires r in Run(map[], es[..i]) && Rank(Run(map[], es[..i])[r]) >= 0
    ensures j < i && (forall k :: j <= k < i ==> r in es[k].matches)
    ensures Rank(es[j].severity) == Rank(Run(map[], es[..i])[r])
    decreases i
  {
    assert i > 0 && es[..i][..i - 1] == es[..i - 1];
    var before, last := Run(map[], es[..i - 1]), es[i - 1];
    assert Run(map[], es[..i]) == After(before, last.matches, last.severity);
    RaisedFrom(before, last.matches, last.severity, r);
    hide Run, After, Rank;
    if Rank(Run(map[], es[..i])[r]) == Rank(last.severity) {
      j := i - 1;
    } else {
      j := AnnouncedSince(es, r, i - 1);
    }
  }

  lemma RaisedFrom(open: Open, matches: seq<string>, severity: string, r: string)
    requires r in After(open, matches, severity)
    ensures r in matches
    ensures var rank := Rank(After(open, matches, severity)[r]);
            rank == Rank(severity) || rank < 0 || (r in open && rank == Rank(open[r]))
  {
  }

  /** An evaluation at any severity notifies exactly when it has matches, its severity
      is a known one, and it is above those of all earlier evaluations since which some
      entity has matched without a break. */
  lemma NotifiesExactly(es: seq<Evaluation>, i: nat)
    requires i < |es|
    ensures Sends(map[], es, i) <==>
      && es[i].matches != [] && es[i].severity in RANKS
      && forall r, j: nat :: Matching(es, r, j, i) ==> Rank(es[j].severity) < Rank(es[i].severity)
  {
    var open, e := Run(map[], es[..i]), es[i];
    if e.matches != [] && e.severity in RANKS {
      hide Run;
      if Announced(Staying(open, e.matches), Rank(e.severity)) {
        var r :| r in Staying(open, e.matches) && Rank(Staying(open, e.matches)[r]) >= Rank(e.severity);
        var j := AnnouncedSince(es, r, i);
        assert Matching(es, r, j, i);
      } else {
        forall r, j: nat | Matching(es, r, j, i) ensures Rank(es[j].severity) < Rank(e.severity) {
          OnlyEscalationsInside(map[], es, r, j, i);
        }
      }
    }
  }

  /** An entity with neither an external id nor a name is announced every time. */
  lemma UnnamedEntityRepeats(n: nat, i: nat)
    requires i < n
    ensures Sends(map[], seq(n, _ => Evaluation([""], "warning")), i)
  {
    var es := seq(n, _ => Evaluation([""], "warning"));
    OncePerIncident(es, "warning", i);
  }
}
