/** Rule evaluation with related clauses: evaluate and EvaluateWithRelated in
    backend/internal/compliance/engine.go. The hash join is proved to be the
    nested loop it avoids. */
module Compliance {
  const MODE_REQUIRES := "requires"
  const MODE_FORBIDS := "forbids"

  /** How an entity is read: its kind, whether it meets a list of conditions at
      the time of the evaluation, and fieldValue, with "" for an unusable field. */
  datatype Reading<!E, !C> = Reading(kind: E -> string, meets: (E, C) -> bool, field: (E, string) -> string, lower: string -> string)

  datatype Clause<C> = Clause(connectorType: string, entityKind: string, conditions: C, sourceField: string, relatedField: string, mode: string)

  datatype Rule<C> = Rule(entityKind: string, conditions: C, related: seq<Clause<C>>)

  type Related<E> = map<string, seq<E>>

  // ------------------------------------------------- the nested-loop meaning

  predicate Selected<E, C>(l: Reading<E, C>, rule: Rule<C>, e: E) {
    l.kind(e) == rule.entityKind && l.meets(e, rule.conditions)
  }

  /** A related entity satisfies the clause for this source entity. */
  predicate Joins<E, C>(l: Reading<E, C>, c: Clause<C>, source: E, other: E) {
    && l.kind(other) == c.entityKind && l.meets(other, c.conditions)
    && l.field(source, c.sourceField) != "" && l.field(other, c.relatedField) != ""
    && l.lower(l.field(source, c.sourceField)) == l.lower(l.field(other, c.relatedField))
  }

  ghost predicate HasJoin<E, C>(l: Reading<E, C>, c: Clause<C>, pool: seq<E>, source: E) {
    exists i :: 0 <= i < |pool| && Joins(l, c, source, pool[i])
  }

  ghost predicate Violates<E, C>(l: Reading<E, C>, c: Clause<C>, pool: seq<E>, source: E) {
    (c.mode == MODE_REQUIRES && !HasJoin(l, c, pool, source)) || (c.mode == MODE_FORBIDS && HasJoin(l, c, pool, source))
  }

  ghost predicate Known<E, C>(rule: Rule<C>, related: Related<E>) {
    forall k :: 0 <= k < |rule.related| ==> rule.related[k].connectorType in related
  }

  ghost predicate ViolatesClause<E, C>(l: Reading<E, C>, rule: Rule<C>, related: Related<E>, e: E, k: nat)
    requires Known(rule, related) && k < |rule.related|
  {
    Violates(l, rule.related[k], related[rule.related[k].connectorType], e)
  }

  /** The entity is a match: selected, and in breach of some clause if there are any. */
  ghost predicate Breach<E, C>(l: Reading<E, C>, rule: Rule<C>, related: Related<E>, e: E)
    requires Known(rule, related)
  {
    Selected(l, rule, e) && (rule.related == [] || exists k: nat :: k < |rule.related| && ViolatesClause(l, rule, related, e, k))
  }

  /** The breaching entities in snapshot order. */
  ghost function Breaches<E, C>(l: Reading<E, C>, rule: Rule<C>, related: Related<E>, entities: seq<E>): seq<E>
    requires Known(rule, related)
  {
    if entities == [] then []
    else
      var n := |entities| - 1;
      Breaches(l, rule, related, entities[..n]) + if Breach(l, rule, related, entities[n]) then [entities[n]] else []
  }

  // ------------------------------------------------------------ the hash join

  ghost predicate InTable<E, C>(l: Reading<E, C>, c: Clause<C>, pool: seq<E>, v: string) {
    exists i :: 0 <= i < |pool| && l.kind(pool[i]) == c.entityKind && l.meets(pool[i], c.conditions)
      && l.field(pool[i], c.relatedField) != "" && l.lower(l.field(pool[i], c.relatedField)) == v
  }

  /** The join values of the entities a clause accepts. */
  method ClauseTable<E, C>(l: Reading<E, C>, c: Clause<C>, pool: seq<E>) returns (table: set<string>)
    ensures forall v :: v in table <==> InTable(l, c, pool, v)
  {
    table := {};
    for i := 0 to |pool|
      invariant forall v :: v in table <==> InTable(l, c, pool[..i], v)
    {
      InTableNext(l, c, pool, i);
      if l.kind(pool[i]) != c.entityKind || !l.meets(pool[i], c.conditions) {
        continue;
      }
      var joinVal := l.field(pool[i], c.relatedField);
      if joinVal == "" {
        continue;
      }
      table := table + {l.lower(joinVal)};
    }
    assert pool[..|pool|] == pool;
  }

  lemma InTableNext<E, C>(l: Reading<E, C>, c: Clause<C>, pool: seq<E>, i: nat)
    requires i < |pool|
    ensures forall v :: InTable(l, c, pool[..i + 1], v) <==>
      InTable(l, c, pool[..i], v)
      || (l.kind(pool[i]) == c.entityKind && l.meets(pool[i], c.conditions)
          && l.field(pool[i], c.relatedField) != "" && l.lower(l.field(pool[i], c.relatedField)) == v)
  {
    var a, b := pool[..i], pool[..i + 1];
    assert b == a + [pool[i]];
    forall v | InTable(l, c, a, v)
      ensures InTable(l, c, b, v)
    {
      var k :| 0 <= k < |a| && l.kind(a[k]) == c.entityKind && l.meets(a[k], c.conditions)
        && l.field(a[k], c.relatedField) != "" && l.lower(l.field(a[k], c.relatedField)) == v;
      assert b[k] == a[k];
    }
    assert b[i] == pool[i];
  }

  lemma TableFindsJoin<E, C>(l: Reading<E, C>, c: Clause<C>, pool: seq<E>, source: E)
    ensures HasJoin(l, c, pool, source) <==>
      l.field(source, c.sourceField) != "" && InTable(l, c, pool, l.lower(l.field(source, c.sourceField)))
  {
  }

  ghost predicate TablesFit<E, C>(l: Reading<E, C>, rule: Rule<C>, related: Related<E>, tables: seq<set<string>>)
    requires Known(rule, related)
  {
    |tables| <= |rule.related| &&
    forall k :: 0 <= k < |tables| ==> forall v :: v in tables[k] <==> InTable(l, rule.related[k], related[rule.related[k].connectorType], v)
  }

  /** The clause loop for one source entity. */
  method ClauseViolated<E, C>(l: Reading<E, C>, rule: Rule<C>, ghost related: Related<E>, tables: seq<set<string>>, source: E) returns (violated: bool)
    requires Known(rule, related) && TablesFit(l, rule, related, tables) && |tables| == |rule.related|
    ensures violated <==> exists k: nat :: k < |rule.related| && ViolatesClause(l, rule, related, source, k)
  {
    for k := 0 to |rule.related|
      invariant forall j: nat :: j < k ==> !ViolatesClause(l, rule, related, source, j)
    {
      var c := rule.related[k];
      TableFindsJoin(l, c, related[c.connectorType], source);
      hide InTable, HasJoin;
      var value := l.field(source, c.sourceField);
      if value == "" {
        if c.mode == MODE_REQUIRES {
          assert ViolatesClause(l, rule, related, source, k);
          return true;
        }
        continue;
      }
      var found := l.lower(value) in tables[k];
      if (c.mode == MODE_REQUIRES && !found) || (c.mode == MODE_FORBIDS && found) {
        assert ViolatesClause(l, rule, related, source, k);
        return true;
      }
    }
    return false;
  }

  method EvaluateWithRelated<E, C>(l: Reading<E, C>, rule: Rule<C>, entities: seq<E>, related: Related<E>) returns (matches: seq<E>, skipped: bool)
    ensures skipped <==> !Known(rule, related)
    ensures skipped ==> matches == []
    ensures !skipped ==> matches == Breaches(l, rule, related, entities)
  {
    for k := 0 to |rule.related|
      invariant forall j :: 0 <= j < k ==> rule.related[j].connectorType in related
    {
      if rule.related[k].connectorType !in related {
        return [], true;
      }
    }
    var tables: seq<set<string>> := [];
    for k := 0 to |rule.related|
      invariant |tables| == k && TablesFit(l, rule, related, tables)
    {
      var table := ClauseTable(l, rule.related[k], related[rule.related[k].connectorType]);
      hide InTable;
      tables := tables + [table];
    }
    matches := [];
    hide TablesFit, ViolatesClause;
    for i := 0 to |entities|
      invariant matches == Breaches(l, rule, related, entities[..i])
    {
      assert entities[..i + 1][..i] == entities[..i];
      var source := entities[i];
      if l.kind(source) != rule.entityKind || !l.meets(source, rule.conditions) {
        continue;
      }
      var violated := ClauseViolated(l, rule, related, tables, source);
      if rule.related == [] || violated {
        matches := matches + [source];
      }
    }
    assert entities[..|entities|] == entities;
    skipped := false;
  }

  // ------------------------------------------------------------- what follows

  /** The second pool holds everything the first one holds, clause by clause. */
  ghost predicate Larger<E(!new), C>(rule: Rule<C>, small: Related<E>, large: Related<E>) {
    Known(rule, small) && Known(rule, large) &&
    forall k :: 0 <= k < |rule.related| ==>
      forall e :: e in small[rule.related[k].connectorType] ==> e in large[rule.related[k].connectorType]
  }

  lemma JoinGrows<E(!new), C>(l: Reading<E, C>, c: Clause<C>, small: seq<E>, large: seq<E>, source: E)
    requires (forall e :: e in small ==> e in large) && HasJoin(l, c, small, source)
    ensures HasJoin(l, c, large, source)
  {
    var i :| 0 <= i < |small| && Joins(l, c, source, small[i]);
    assert small[i] in small;
    var j :| 0 <= j < |large| && large[j] == small[i];
  }

  ghost predicate AllMode<C>(rule: Rule<C>, mode: string) {
    forall k :: 0 <= k < |rule.related| ==> rule.related[k].mode == mode
  }

  /** More related entities only clear a requires rule and only trip a forbids rule. */
  lemma MoreRelated<E(!new), C>(l: Reading<E, C>, rule: Rule<C>, small: Related<E>, large: Related<E>, e: E)
    requires Larger(rule, small, large)
    ensures AllMode(rule, MODE_REQUIRES) && Breach(l, rule, large, e) ==> Breach(l, rule, small, e)
    ensures AllMode(rule, MODE_FORBIDS) && Breach(l, rule, small, e) ==> Breach(l, rule, large, e)
  {
    forall k: nat | k < |rule.related|
      ensures AllMode(rule, MODE_REQUIRES) && ViolatesClause(l, rule, large, e, k) ==> ViolatesClause(l, rule, small, e, k)
      ensures AllMode(rule, MODE_FORBIDS) && ViolatesClause(l, rule, small, e, k) ==> ViolatesClause(l, rule, large, e, k)
    {
      var c := rule.related[k];
      if HasJoin(l, c, small[c.connectorType], e) {
        JoinGrows(l, c, small[c.connectorType], large[c.connectorType], e);
      }
    }
  }

  /** s can be had from t by leaving elements out. */
  ghost predicate Subsequence<E>(s: seq<E>, t: seq<E>) {
    s == [] || (t != [] && ((s[|s| - 1] == t[|t| - 1] && Subsequence(s[..|s| - 1], t[..|t| - 1])) || Subsequence(s, t[..|t| - 1])))
  }

  lemma SubsequenceAdd<E>(s: seq<E>, t: seq<E>, x: E)
    requires Subsequence(s, t)
    ensures Subsequence(s, t + [x]) && Subsequence(s + [x], t + [x])
  {
    assert (s + [x])[..|s|] == s && (t + [x])[..|t|] == t;
  }

  lemma {:induction false} BreachesSubsequence<E(!new), C>(l: Reading<E, C>, rule: Rule<C>, a: Related<E>, b: Related<E>, entities: seq<E>)
    requires Known(rule, a) && Known(rule, b)
    requires forall e :: Breach(l, rule, a, e) ==> Breach(l, rule, b, e)
    ensures Subsequence(Breaches(l, rule, a, entities), Breaches(l, rule, b, entities))
  {
    hide Breach;
    if entities != [] {
      var n := |entities| - 1;
      BreachesSubsequence(l, rule, a, b, entities[..n]);
      var s, t := Breaches(l, rule, a, entities[..n]), Breaches(l, rule, b, entities[..n]);
      SubsequenceAdd(s, t, entities[n]);
      hide Subsequence;
      assert s + [] == s && t + [] == t;
    }
  }

  /** A requires rule's matches only shrink as related entities are added, and a
      forbids rule's only grow. */
  lemma ResultsAreMonotone<E(!new), C>(l: Reading<E, C>, rule: Rule<C>, small: Related<E>, large: Related<E>, entities: seq<E>)
    requires Larger(rule, small, large)
    ensures AllMode(rule, MODE_REQUIRES) ==> Subsequence(Breaches(l, rule, large, entities), Breaches(l, rule, small, entities))
    ensures AllMode(rule, MODE_FORBIDS) ==> Subsequence(Breaches(l, rule, small, entities), Breaches(l, rule, large, entities))
  {
    forall e
      ensures AllMode(rule, MODE_REQUIRES) && Breach(l, rule, large, e) ==> Breach(l, rule, small, e)
      ensures AllMode(rule, MODE_FORBIDS) && Breach(l, rule, small, e) ==> Breach(l, rule, large, e)
    {
      MoreRelated(l, rule, small, large, e);
    }
    hide Breach, Breaches, AllMode;
    if AllMode(rule, MODE_REQUIRES) {
      BreachesSubsequence(l, rule, large, small, entities);
    }
    if AllMode(rule, MODE_FORBIDS) {
      BreachesSubsequence(l, rule, small, large, entities);
    }
  }

  /** The order and the repetition of related entities change nothing. */
  lemma {:induction false} RelatedOrderIsIrrelevant<E(!new), C>(l: Reading<E, C>, rule: Rule<C>, a: Related<E>, b: Related<E>, entities: seq<E>)
    requires Larger(rule, a, b) && Larger(rule, b, a)
    ensures Breaches(l, rule, a, entities) == Breaches(l, rule, b, entities)
  {
    if entities != [] {
      var e := entities[|entities| - 1];
      forall k: nat | k < |rule.related|
        ensures ViolatesClause(l, rule, a, e, k) == ViolatesClause(l, rule, b, e, k)
      {
        var c := rule.related[k];
        if HasJoin(l, c, a[c.connectorType], e) {
          JoinGrows(l, c, a[c.connectorType], b[c.connectorType], e);
        }
        if HasJoin(l, c, b[c.connectorType], e) {
          JoinGrows(l, c, b[c.connectorType], a[c.connectorType], e);
        }
      }
      hide ViolatesClause;
      assert Breach(l, rule, a, e) == Breach(l, rule, b, e);
      RelatedOrderIsIrrelevant(l, rule, a, b, entities[..|entities| - 1]);
    }
  }

  // ------------------------------------------------------ each result on its own

  lemma {:induction false} BreachesMember<E, C>(l: Reading<E, C>, rule: Rule<C>, related: Related<E>, entities: seq<E>, e: E)
    requires Known(rule, related)
    ensures e in Breaches(l, rule, related, entities) <==> e in entities && Breach(l, rule, related, e)
  {
    hide Breach;
    if entities != [] {
      var n := |entities| - 1;
      BreachesMember(l, rule, related, entities[..n], e);
      assert entities == entities[..n] + [entities[n]];
    }
  }

  /** The result lists entities of the snapshot in its order. */
  lemma {:induction false} ResultKeepsOrder<E, C>(l: Reading<E, C>, rule: Rule<C>, related: Related<E>, entities: seq<E>)
    requires Known(rule, related)
    ensures Subsequence(Breaches(l, rule, related, entities), entities)
  {
    hide Breach;
    if entities != [] {
      var n := |entities| - 1;
      ResultKeepsOrder(l, rule, related, entities[..n]);
      var s := Breaches(l, rule, related, entities[..n]);
      SubsequenceAdd(s, entities[..n], entities[n]);
      hide Subsequence;
      assert s + [] == s && entities == entities[..n] + [entities[n]];
    }
  }

  /** A rule with several clauses reports what the rules with one of them each report. */
  lemma AnyClauseDecides<E, C>(l: Reading<E, C>, rule: Rule<C>, related: Related<E>, entities: seq<E>, e: E)
    requires Known(rule, related) && rule.related != []
    ensures e in Breaches(l, rule, related, entities) <==>
      exists k :: 0 <= k < |rule.related| && e in Breaches(l, rule.(related := [rule.related[k]]), related, entities)
  {
    hide Breaches, Violates;
    BreachesMember(l, rule, related, entities, e);
    forall k | 0 <= k < |rule.related|
      ensures e in Breaches(l, rule.(related := [rule.related[k]]), related, entities) <==>
        e in entities && Selected(l, rule, e) && ViolatesClause(l, rule, related, e, k)
    {
      var one := rule.(related := [rule.related[k]]);
      BreachesMember(l, one, related, entities, e);
      assert ViolatesClause(l, one, related, e, 0) <==> ViolatesClause(l, rule, related, e, k);
    }
  }

  /** The folded join values a clause accepts. */
  ghost function Values<E, C>(l: Reading<E, C>, c: Clause<C>, pool: seq<E>): set<string> {
    set i | 0 <= i < |pool| && l.kind(pool[i]) == c.entityKind && l.meets(pool[i], c.conditions) && l.field(pool[i], c.relatedField) != "" ::
      l.lower(l.field(pool[i], c.relatedField))
  }

  /** With one clause, an entity of the rule is reported exactly when its own value, if it
      has one, is missing among those a requires clause accepts, or is among those a
      forbids clause accepts; an empty field never joins. */
  lemma OneClauseExactly<E, C>(l: Reading<E, C>, rule: Rule<C>, related: Related<E>, entities: seq<E>, e: E)
    requires Known(rule, related) && |rule.related| == 1
    ensures var c := rule.related[0];
      var value, values := l.field(e, c.sourceField), Values(l, c, related[c.connectorType]);
      e in Breaches(l, rule, related, entities) <==>
      && e in entities && l.kind(e) == rule.entityKind && l.meets(e, rule.conditions)
      && (|| (c.mode == MODE_REQUIRES && (value == "" || l.lower(value) !in values))
          || (c.mode == MODE_FORBIDS && value != "" && l.lower(value) in values))
  {
    hide Breaches;
    var c := rule.related[0];
    BreachesMember(l, rule, related, entities, e);
    assert Breach(l, rule, related, e) <==> Selected(l, rule, e) && ViolatesClause(l, rule, related, e, 0);
    JoinIsValue(l, c, related[c.connectorType], e);
    hide HasJoin, Values;
  }

  lemma JoinIsValue<E, C>(l: Reading<E, C>, c: Clause<C>, pool: seq<E>, e: E)
    ensures HasJoin(l, c, pool, e) <==>
      l.field(e, c.sourceField) != "" && l.lower(l.field(e, c.sourceField)) in Values(l, c, pool)
  {
    if HasJoin(l, c, pool, e) {
      var i :| 0 <= i < |pool| && Joins(l, c, e, pool[i]);
      assert l.lower(l.field(pool[i], c.relatedField)) in Values(l, c, pool);
    }
    if l.field(e, c.sourceField) != "" && l.lower(l.field(e, c.sourceField)) in Values(l, c, pool) {
      var i :| 0 <= i < |pool| && l.kind(pool[i]) == c.entityKind && l.meets(pool[i], c.conditions)
        && l.field(pool[i], c.relatedField) != "" && l.lower(l.field(pool[i], c.relatedField)) == l.lower(l.field(e, c.sourceField));
      assert Joins(l, c, e, pool[i]);
    }
  }

  /** What a clause requires and what it forbids divide the rule's entities between them. */
  lemma ModesDivide<E, C>(l: Reading<E, C>, rule: Rule<C>, c: Clause<C>, related: Related<E>, entities: seq<E>, e: E)
    requires c.connectorType in related && e in entities && Selected(l, rule, e)
    ensures var required, forbidden := rule.(related := [c.(mode := MODE_REQUIRES)]), rule.(related := [c.(mode := MODE_FORBIDS)]);
      e in Breaches(l, required, related, entities) <==> e !in Breaches(l, forbidden, related, entities)
  {
    hide Breaches;
    var required, forbidden := rule.(related := [c.(mode := MODE_REQUIRES)]), rule.(related := [c.(mode := MODE_FORBIDS)]);
    OneClauseExactly(l, required, related, entities, e);
    OneClauseExactly(l, forbidden, related, entities, e);
    var pool := related[c.connectorType];
    assert Values(l, required.related[0], pool) == Values(l, forbidden.related[0], pool);
  }
}
