/**
 * Capacity-aware weighted selection of an operator for a source (`select_operator`).
 * The two random draws of `select_operator` are parameters: `r` stands for the value of
 * `random.uniform(0, total_weight)` and `choice` for the index `random.choice` takes.
 */
module Selection {
  import opened Wrappers
  import opened Models
  import opened LoadAccounting

  /** The weight rows of one source, in table order (the query that starts `select_operator`). */
  function RowsFor(table: seq<WeightRow>, sourceId: int): (rows: seq<WeightRow>)
    ensures |rows| <= |table|
  {
    if table == [] then []
    else
      var last := |table| - 1;
      RowsFor(table[..last], sourceId) + (if table[last].sourceId == sourceId then [table[last]] else [])
  }

  /** The query keeps exactly the rows of the source. */
  lemma {:induction false} RowsForMembers(table: seq<WeightRow>, sourceId: int)
    ensures forall w :: w in RowsFor(table, sourceId) <==> w in table && w.sourceId == sourceId
  {
    if table != [] {
      var last := |table| - 1;
      assert table == table[..last] + [table[last]];
      RowsForMembers(table[..last], sourceId);
    }
  }

  /** The capacity filter: the operator is active and its load is below `max_load`. */
  predicate Admits(w: WeightRow, contacts: seq<Contact>) {
    w.operator.isActive && Load(contacts, w.operator.id) < w.operator.maxLoad
  }

  /** The rows that survive the capacity filter, in the order of `rows`. */
  function Eligible(rows: seq<WeightRow>, contacts: seq<Contact>): (e: seq<WeightRow>)
    ensures |e| <= |rows|
  {
    if rows == [] then []
    else
      var last := |rows| - 1;
      Eligible(rows[..last], contacts) + (if Admits(rows[last], contacts) then [rows[last]] else [])
  }

  /** The two index-aligned columns `available_operators` and `available_weights`. */
  function OperatorsOf(e: seq<WeightRow>): seq<Operator> {
    seq(|e|, k requires 0 <= k < |e| => e[k].operator)
  }

  /** The survivors are exactly the rows whose operator is active and under capacity. */
  lemma {:induction false} EligibleMembers(rows: seq<WeightRow>, contacts: seq<Contact>)
    ensures forall w :: w in Eligible(rows, contacts) <==> w in rows && Admits(w, contacts)
  {
    if rows != [] {
      var last := |rows| - 1;
      assert rows == rows[..last] + [rows[last]];
      EligibleMembers(rows[..last], contacts);
    }
  }

  function WeightsOf(e: seq<WeightRow>): seq<real> {
    seq(|e|, k requires 0 <= k < |e| => e[k].weight)
  }

  /** Left-to-right sum of the weights, as `sum` computes it. */
  function Sum(ws: seq<real>): real {
    if ws == [] then 0.0 else Sum(ws[..|ws| - 1]) + ws[|ws| - 1]
  }

  /** The running total `cumulative` after the weight at index `i` has been added. */
  function Cumulative(ws: seq<real>, i: nat): real
    requires i < |ws|
  {
    Sum(ws[..i + 1])
  }

  /** The first index at or after `from` whose running total reaches `r`, if there is one. */
  function FirstReaching(ws: seq<real>, r: real, from: nat): (i: Option<nat>)
    requires from <= |ws|
    ensures i.Some? ==> from <= i.value < |ws| && r <= Cumulative(ws, i.value)
    ensures forall j: nat :: from <= j < |ws| && (i.None? || j < i.value) ==> Cumulative(ws, j) < r
    decreases |ws| - from
  {
    if from == |ws| then None
    else if r <= Cumulative(ws, from) then Some(from)
    else FirstReaching(ws, r, from + 1)
  }

  /** The injected index is usable by `random.choice` whenever there is something to choose from. */
  predicate ChoiceFits(choice: nat, e: seq<WeightRow>) {
    e == [] || choice < |e|
  }

  /**
   * The index chosen among the available weights: the injected index when they sum to 0,
   * otherwise the first running total that reaches `r`, and the last index when none does.
   */
  function PickIndex(ws: seq<real>, r: real, choice: nat): (i: nat)
    requires choice < |ws|
    ensures i < |ws|
  {
    if Sum(ws) == 0.0 then choice
    else
      match FirstReaching(ws, r, 0)
      case Some(i) => i
      case None => |ws| - 1
  }

  /** The aligned rows `select_operator` chooses from: the source's rows that pass the capacity filter. */
  function Survivors(table: seq<WeightRow>, contacts: seq<Contact>, sourceId: int): seq<WeightRow> {
    Eligible(RowsFor(table, sourceId), contacts)
  }

  /** What `select_operator` returns for a source, given the two injected draws. */
  function Select(table: seq<WeightRow>, contacts: seq<Contact>, sourceId: int, r: real, choice: nat): (o: Option<Operator>)
    requires ChoiceFits(choice, Survivors(table, contacts, sourceId))
    ensures o.None? <==> Survivors(table, contacts, sourceId) == []
    ensures RowsFor(table, sourceId) == [] ==> o.None?
    ensures o.Some? ==> o.value.isActive && Load(contacts, o.value.id) < o.value.maxLoad
    ensures o.Some? ==> exists w :: w in RowsFor(table, sourceId) && w.operator == o.value
  {
    var rows := RowsFor(table, sourceId);
    var e := Eligible(rows, contacts);
    if e == [] then None
    else
      var i := PickIndex(WeightsOf(e), r, choice);
      EligibleMembers(rows, contacts);
      assert e[i] in e;
      Some(e[i].operator)
  }

  /** `select_operator`, with its filtering loop and its cumulative walk with early return. */
  method SelectOperator(table: seq<WeightRow>, contacts: seq<Contact>, sourceId: int, r: real, choice: nat)
    returns (op: Option<Operator>)
    requires ChoiceFits(choice, Survivors(table, contacts, sourceId))
    ensures op == Select(table, contacts, sourceId, r, choice)
  {
    var weights := RowsFor(table, sourceId);
    if weights == [] {
      return None;
    }

    var availableOperators: seq<Operator> := [];
    var availableWeights: seq<real> := [];
    for k := 0 to |weights|
      invariant availableOperators == OperatorsOf(Eligible(weights[..k], contacts))
      invariant availableWeights == WeightsOf(Eligible(weights[..k], contacts))
    {
      EligibleStep(weights, contacts, k);
      ColumnsAppend(Eligible(weights[..k], contacts), weights[k]);
      var operator := weights[k].operator;
      if !operator.isActive {
        continue;
      }
      var currentLoad := Load(contacts, operator.id);
      if currentLoad >= operator.maxLoad {
        continue;
      }
      availableOperators := availableOperators + [operator];
      availableWeights := availableWeights + [weights[k].weight];
    }
    assert weights[..|weights|] == weights;

    if availableOperators == [] {
      return None;
    }

    var totalWeight := Sum(availableWeights);
    if totalWeight == 0.0 {
      return Some(availableOperators[choice]);
    }

    var cumulative := 0.0;
    for i := 0 to |availableWeights|
      invariant cumulative == Sum(availableWeights[..i])
      invariant forall j: nat :: j < i ==> Cumulative(availableWeights, j) < r
    {
      PrefixStep(availableWeights, i);
      cumulative := cumulative + availableWeights[i];
      assert cumulative == Cumulative(availableWeights, i);
      if r <= cumulative {
        FirstReachingIsUnique(availableWeights, r, i);
        return Some(availableOperators[i]);
      }
    }
    assert FirstReaching(availableWeights, r, 0).None?;
    return Some(availableOperators[|availableOperators| - 1]);
  }

  lemma EligibleStep(rows: seq<WeightRow>, contacts: seq<Contact>, k: nat)
    requires k < |rows|
    ensures Eligible(rows[..k + 1], contacts)
         == Eligible(rows[..k], contacts) + (if Admits(rows[k], contacts) then [rows[k]] else [])
  {
    assert rows[..k + 1][..k] == rows[..k];
  }

  lemma ColumnsAppend(e: seq<WeightRow>, w: WeightRow)
    ensures OperatorsOf(e + [w]) == OperatorsOf(e) + [w.operator]
    ensures WeightsOf(e + [w]) == WeightsOf(e) + [w.weight]
  {
  }

  /** The first index whose running total reaches r is the one the walk returns. */
  lemma FirstReachingIsUnique(ws: seq<real>, r: real, i: nat)
    requires i < |ws|
    requires r <= Cumulative(ws, i)
    requires forall j: nat :: j < i ==> Cumulative(ws, j) < r
    ensures FirstReaching(ws, r, 0) == Some(i)
  {
  }

  // ---- Properties of the selection ----

  /** An operator whose `max_load` is 0 or less is never selected, whatever its weight. */
  lemma NoCapacityNeverSelected(table: seq<WeightRow>, contacts: seq<Contact>, sourceId: int, r: real, choice: nat, o: Operator)
    requires ChoiceFits(choice, Survivors(table, contacts, sourceId))
    requires o.maxLoad <= 0
    ensures Select(table, contacts, sourceId, r, choice) != Some(o)
  {
  }

  /** An operator already at or over its capacity is filtered out, whichever source weights it. */
  lemma FullOperatorNotEligible(rows: seq<WeightRow>, contacts: seq<Contact>, w: WeightRow)
    requires Load(contacts, w.operator.id) >= w.operator.maxLoad
    ensures w !in Eligible(rows, contacts)
  {
  }

  /** When the surviving weights sum to 0, the operator at the injected index is returned, whatever `r` is. */
  lemma ZeroTotalUsesChoice(table: seq<WeightRow>, contacts: seq<Contact>, sourceId: int, r: real, choice: nat)
    requires choice < |Survivors(table, contacts, sourceId)|
    requires Sum(WeightsOf(Survivors(table, contacts, sourceId))) == 0.0
    ensures Select(table, contacts, sourceId, r, choice) == Some(Survivors(table, contacts, sourceId)[choice].operator)
  {
  }

  /** When the surviving weights sum to 0, every surviving row's operator is returned for some injected index. */
  lemma ZeroTotalReachesEverySurvivor(table: seq<WeightRow>, contacts: seq<Contact>, sourceId: int, r: real, w: WeightRow)
    requires w in Survivors(table, contacts, sourceId)
    requires Sum(WeightsOf(Survivors(table, contacts, sourceId))) == 0.0
    ensures exists choice: nat ::
      choice < |Survivors(table, contacts, sourceId)| && Select(table, contacts, sourceId, r, choice) == Some(w.operator)
  {
    var e := Survivors(table, contacts, sourceId);
    var k :| 0 <= k < |e| && e[k] == w;
    ZeroTotalUsesChoice(table, contacts, sourceId, r, k);
  }

  /**
   * When the surviving weights do not sum to 0, the operator returned is that of the first
   * surviving row whose running total reaches `r`.
   */
  lemma WeightedPicksFirstReaching(table: seq<WeightRow>, contacts: seq<Contact>, sourceId: int, r: real, choice: nat, i: nat)
    requires ChoiceFits(choice, Survivors(table, contacts, sourceId))
    requires Sum(WeightsOf(Survivors(table, contacts, sourceId))) != 0.0
    requires i < |Survivors(table, contacts, sourceId)|
    requires r <= Cumulative(WeightsOf(Survivors(table, contacts, sourceId)), i)
    requires forall j: nat :: j < i ==> Cumulative(WeightsOf(Survivors(table, contacts, sourceId)), j) < r
    ensures Select(table, contacts, sourceId, r, choice) == Some(Survivors(table, contacts, sourceId)[i].operator)
  {
  }

  /**
   * When the surviving weights do not sum to 0 and no running total reaches `r`, the operator of
   * the last surviving row is returned.
   */
  lemma WeightedFallsBackToLast(table: seq<WeightRow>, contacts: seq<Contact>, sourceId: int, r: real, choice: nat)
    requires ChoiceFits(choice, Survivors(table, contacts, sourceId))
    requires Survivors(table, contacts, sourceId) != []
    requires Sum(WeightsOf(Survivors(table, contacts, sourceId))) != 0.0
    requires forall j: nat ::
      j < |Survivors(table, contacts, sourceId)| ==> Cumulative(WeightsOf(Survivors(table, contacts, sourceId)), j) < r
    ensures Select(table, contacts, sourceId, r, choice)
         == Some(Survivors(table, contacts, sourceId)[|Survivors(table, contacts, sourceId)| - 1].operator)
  {
  }

  predicate NonNegative(ws: seq<real>) {
    forall k :: 0 <= k < |ws| ==> 0.0 <= ws[k]
  }

  lemma PrefixStep(ws: seq<real>, i: nat)
    requires i < |ws|
    ensures Sum(ws[..i + 1]) == Sum(ws[..i]) + ws[i]
  {
    assert ws[..i + 1][..i] == ws[..i];
  }

  /** With non-negative weights the running total never decreases. */
  lemma {:induction false} PrefixMonotone(ws: seq<real>, a: nat, b: nat)
    requires NonNegative(ws)
    requires a <= b <= |ws|
    ensures Sum(ws[..a]) <= Sum(ws[..b])
  {
    if a < b {
      PrefixMonotone(ws, a, b - 1);
      PrefixStep(ws, b - 1);
    }
  }

  /** The walk never stops at a zero weight that has a predecessor: the running total did not move there. */
  lemma WalkSkipsZeroWeight(ws: seq<real>, r: real, i: nat)
    requires 0 < i < |ws|
    requires ws[i] == 0.0
    ensures FirstReaching(ws, r, 0) != Some(i)
  {
    PrefixStep(ws, i);
    assert Cumulative(ws, i - 1) == Sum(ws[..i]);
  }

  /** With r above 0 the walk only stops at a positive weight, even at index 0. */
  lemma WalkStopsAtPositiveWeight(ws: seq<real>, r: real, i: nat)
    requires 0.0 < r
    requires FirstReaching(ws, r, 0) == Some(i)
    ensures 0.0 < ws[i]
  {
    PrefixStep(ws, i);
    if 0 < i {
      assert Cumulative(ws, i - 1) == Sum(ws[..i]);
    } else {
      assert ws[..0] == [];
    }
  }

  /**
   * With non-negative weights and r above 0, the walk picks index i exactly when r falls in
   * (total before i, total after i]: an interval as wide as the weight at i.
   */
  lemma WalkPicksInterval(ws: seq<real>, r: real, i: nat)
    requires NonNegative(ws)
    requires 0.0 < r
    requires i < |ws|
    ensures FirstReaching(ws, r, 0) == Some(i) <==> Sum(ws[..i]) < r <= Cumulative(ws, i)
  {
    if 0 < i {
      assert Cumulative(ws, i - 1) == Sum(ws[..i]);
    } else {
      assert ws[..0] == [];
    }
    if Sum(ws[..i]) < r <= Cumulative(ws, i) {
      forall j: nat | j < i
        ensures Cumulative(ws, j) < r
      {
        PrefixMonotone(ws, j + 1, i);
      }
    }
  }

  /** The fallback to the last operator happens only when r exceeds the total; with non-negative weights, always then. */
  lemma FallbackIffBeyondTotal(ws: seq<real>, r: real)
    requires 0 < |ws|
    ensures FirstReaching(ws, r, 0).None? ==> Sum(ws) < r
    ensures NonNegative(ws) && Sum(ws) < r ==> FirstReaching(ws, r, 0).None?
  {
    assert ws[..|ws|] == ws;
    assert Cumulative(ws, |ws| - 1) == Sum(ws);
    if NonNegative(ws) && Sum(ws) < r {
      forall j: nat | j < |ws|
        ensures Cumulative(ws, j) < r
      {
        PrefixMonotone(ws, j + 1, |ws|);
      }
    }
  }

  /** Every positive weight is reachable: some r in (0, total] makes the walk stop there. */
  lemma PositiveWeightReachable(ws: seq<real>, i: nat)
    requires NonNegative(ws)
    requires i < |ws|
    requires 0.0 < ws[i]
    ensures exists r: real :: 0.0 < r <= Sum(ws) && FirstReaching(ws, r, 0) == Some(i)
  {
    var r := Cumulative(ws, i);
    PrefixStep(ws, i);
    PrefixMonotone(ws, 0, i);
    assert ws[..0] == [];
    PrefixMonotone(ws, i + 1, |ws|);
    assert ws[..|ws|] == ws;
    WalkPicksInterval(ws, r, i);
  }

  /**
   * The `i > 0` above is needed: a draw of exactly 0 stops at index 0 whenever the first weight
   * is non-negative, a weight of 0 included.
   */
  lemma ZeroDrawTakesLeadingZeroWeight(ws: seq<real>)
    requires |ws| > 0 && 0.0 <= ws[0]
    ensures FirstReaching(ws, 0.0, 0) == Some(0)
  {
    PrefixStep(ws, 0);
    assert ws[..0] == [];
  }

  /** With non-negative weights the total is 0 exactly when every weight is 0. */
  lemma {:induction false} ZeroTotalIffAllZero(ws: seq<real>)
    requires NonNegative(ws)
    ensures Sum(ws) == 0.0 <==> forall k :: 0 <= k < |ws| ==> ws[k] == 0.0
  {
    if ws != [] {
      var last := |ws| - 1;
      var init := ws[..last];
      assert NonNegative(init);
      ZeroTotalIffAllZero(init);
      PrefixMonotone(ws, 0, last);
      assert ws[..0] == [];
      assert ws[..last] == init;
    }
  }
}
