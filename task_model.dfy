/** Values of the task selector: a task record, a history entry, the
    time-based recovery curve, the update-weight rescale, the
    post-selection penalty and the pool that a selection draws from.
    Timestamps are whole seconds; weights are exact reals. */
module TaskModel {

  datatype Option<T> = None | Some(value: T)

  /** One entry of the task registry. */
  datatype Task = Task(baseWeight: real, currentWeight: real, cooldown: int, lastSelected: Option<int>)

  /** One record of the selection history. */
  datatype HistoryEntry = HistoryEntry(task: string, timestamp: int, weightUsed: real)

  const SecondsPerDay: int := 86400

  /** Fraction of the base weight a task drops to when it is selected. */
  const FloorFraction: real := 0.1

  function Min(a: int, b: int): int { if a < b then a else b }

  function Max(a: int, b: int): int { if a < b then b else a }

  /** Whole days between two instants, rounded down (as a timedelta's
      day count is): negative when the clock went backwards. */
  function DaysSince(now: int, last: int): (d: int)
    ensures d * SecondsPerDay <= now - last < (d + 1) * SecondsPerDay
  {
    (now - last) / SecondsPerDay
  }

  /** Recovery fraction: days over cooldown, capped at 1 from above only. */
  function Recovery(days: int, cooldown: int): (r: real)
    requires cooldown != 0
    ensures r <= 1.0
    ensures cooldown > 0 ==> (r == 1.0 <==> days >= cooldown)
    ensures cooldown > 0 && days < cooldown ==> r * cooldown as real == days as real
    ensures cooldown > 0 ==> (0.0 <= r <==> 0 <= days)
  {
    var q := days as real / cooldown as real;
    if q < 1.0 then q else 1.0
  }

  /** A task can run through recovery without a division by zero. */
  predicate Recoverable(t: Task)
  {
    t.lastSelected.None? || t.cooldown != 0
  }

  predicate AllRecoverable(m: map<string, Task>)
  {
    forall k :: k in m ==> Recoverable(m[k])
  }

  /** The weight recovery gives a task at instant `now`: its base weight
      when it was never selected, otherwise the linear interpolation from
      the floor (10% of base) to the base weight. */
  function RecoveredWeight(t: Task, now: int): (w: real)
    requires Recoverable(t)
    ensures t.lastSelected.None? ==> w == t.baseWeight
    ensures t.baseWeight >= 0.0 && t.cooldown > 0 ==> w <= t.baseWeight
  {
    match t.lastSelected
    case None => t.baseWeight
    case Some(last) =>
      var minWeight := t.baseWeight * FloorFraction;
      minWeight + Recovery(DaysSince(now, last), t.cooldown) * (t.baseWeight - minWeight)
  }

  /** The write recovery makes to one task: only its current weight. */
  function Recover(t: Task, now: int): (r: Task)
    requires Recoverable(t)
    ensures r.baseWeight == t.baseWeight && r.cooldown == t.cooldown && r.lastSelected == t.lastSelected
    ensures r.currentWeight == RecoveredWeight(t, now)
  {
    t.(currentWeight := RecoveredWeight(t, now))
  }

  /** The registry after recovery has run over every task. */
  function Refreshed(m: map<string, Task>, now: int): (r: map<string, Task>)
    requires AllRecoverable(m)
    ensures r.Keys == m.Keys
    ensures forall k :: k in r ==> r[k] == m[k].(currentWeight := r[k].currentWeight)
    ensures forall k :: k in r && m[k].lastSelected.None? ==> r[k].currentWeight == m[k].baseWeight
  {
    map k | k in m :: Recover(m[k], now)
  }

  /** The registry with every current weight put back to its base weight. */
  function Restored(m: map<string, Task>): (r: map<string, Task>)
    ensures r.Keys == m.Keys
    ensures forall k :: k in r ==> r[k].currentWeight == r[k].baseWeight
    ensures forall k :: k in r ==> r[k] == m[k].(currentWeight := r[k].currentWeight)
  {
    map k | k in m :: m[k].(currentWeight := m[k].baseWeight)
  }

  /** No task of the registry has a weight above zero. */
  predicate AllNonPositive(m: map<string, Task>): (b: bool)
    ensures b <==> !exists k :: k in m && m[k].currentWeight > 0.0
  {
    forall k :: k in m ==> m[k].currentWeight <= 0.0
  }

  /** The pool a selection draws from: recovered weights, or base weights
      when recovery left no weight above zero. */
  function Drawn(m: map<string, Task>, now: int): (r: map<string, Task>)
    requires AllRecoverable(m)
    ensures r.Keys == m.Keys
    ensures forall k :: k in r ==> r[k] == m[k].(currentWeight := r[k].currentWeight)
    ensures AllNonPositive(Refreshed(m, now)) ==> r == Restored(m)
    ensures !AllNonPositive(Refreshed(m, now)) ==> r == Refreshed(m, now)
  {
    var pool := Refreshed(m, now);
    if AllNonPositive(pool) then Restored(pool) else pool
  }

  /** Sum of the current weights of the named tasks. */
  function Total(ks: seq<string>, m: map<string, Task>): (r: real)
    requires forall k :: k in ks ==> k in m
    ensures (forall k :: k in ks ==> m[k].currentWeight >= 0.0) ==> r >= 0.0
    ensures ks == [] ==> r == 0.0
  {
    if ks == [] then 0.0 else m[ks[0]].currentWeight + Total(ks[1..], m)
  }

  /** A task just chosen: stamped with the instant and dropped to its floor. */
  function Penalized(t: Task, now: int): (r: Task)
    ensures r.baseWeight == t.baseWeight && r.cooldown == t.cooldown
    ensures r.lastSelected == Some(now)
    ensures r.currentWeight == FloorFraction * t.baseWeight
  {
    t.(lastSelected := Some(now), currentWeight := t.baseWeight * FloorFraction)
  }

  /** A task after its base weight is changed: the current weight is
      rescaled by new/old when the old base is positive, else kept. */
  function Rescaled(t: Task, newBase: real): (r: Task)
    ensures r.baseWeight == newBase
    ensures r.cooldown == t.cooldown && r.lastSelected == t.lastSelected
    ensures t.baseWeight > 0.0 ==> r.currentWeight * t.baseWeight == t.currentWeight * newBase
    ensures t.baseWeight <= 0.0 ==> r.currentWeight == t.currentWeight
  {
    var ratio := if t.baseWeight > 0.0 then newBase / t.baseWeight else 1.0;
    t.(baseWeight := newBase, currentWeight := t.currentWeight * ratio)
  }

  // ---------------------------------------------------------------------
  // The recovery curve

  lemma NeverSelectedKeepsBase(t: Task, now: int)
    requires t.lastSelected.None?
    ensures RecoveredWeight(t, now) == t.baseWeight
  {
  }

  /** The current weight is a cache: recovery never reads it. */
  lemma RecoveryIgnoresCurrentWeight(t: Task, w: real, now: int)
    requires Recoverable(t)
    ensures RecoveredWeight(t.(currentWeight := w), now) == RecoveredWeight(t, now)
  {
  }

  /** The general recovery formula, with the cap at one written out. */
  lemma RecoveredWeightFormula(t: Task, now: int)
    requires t.lastSelected.Some? && t.cooldown >= 1
    ensures var d := DaysSince(now, t.lastSelected.value);
            var rec := if d >= t.cooldown then 1.0 else d as real / t.cooldown as real;
            RecoveredWeight(t, now) == FloorFraction * t.baseWeight + rec * (t.baseWeight - FloorFraction * t.baseWeight)
  {
  }

  /** With a positive base, a cooldown of a day or more and a clock that did
      not go backwards, the weight lies between the floor and the base. */
  lemma RecoveredWeightBounds(t: Task, now: int)
    requires t.baseWeight > 0.0 && t.cooldown >= 1
    requires t.lastSelected.Some? ==> t.lastSelected.value <= now
    ensures FloorFraction * t.baseWeight <= RecoveredWeight(t, now) <= t.baseWeight
  {
    if t.lastSelected.Some? {
      var r := Recovery(DaysSince(now, t.lastSelected.value), t.cooldown);
      var span := t.baseWeight - t.baseWeight * FloorFraction;
      assert 0.0 <= r <= 1.0;
      assert 0.0 <= r * span <= span by {
        assert span > 0.0;
        assert r * span <= 1.0 * span;
      }
    }
  }

  /** Once `cooldown` whole days have passed the weight is back at base. */
  lemma RecoveredWeightSaturates(t: Task, now: int)
    requires t.lastSelected.Some? && t.cooldown >= 1
    requires DaysSince(now, t.lastSelected.value) >= t.cooldown
    ensures RecoveredWeight(t, now) == t.baseWeight
  {
  }

  /** Before the cooldown is over: floor plus d/cooldown of the remaining 90%. */
  lemma RecoveredWeightInterpolates(t: Task, now: int)
    requires t.lastSelected.Some? && t.cooldown >= 1
    requires 0 <= DaysSince(now, t.lastSelected.value) < t.cooldown
    ensures var d := DaysSince(now, t.lastSelected.value);
            RecoveredWeight(t, now) == 0.1 * t.baseWeight + (d as real / t.cooldown as real) * (0.9 * t.baseWeight)
  {
  }

  /** A clock that moved backwards makes the recovery negative, so the weight
      falls below the 10% floor. */
  lemma ClockBackwardsBelowFloor(t: Task, now: int)
    requires t.lastSelected.Some? && now < t.lastSelected.value
    requires t.baseWeight > 0.0 && t.cooldown >= 1
    ensures RecoveredWeight(t, now) < FloorFraction * t.baseWeight
  {
    var d := DaysSince(now, t.lastSelected.value);
    var r := Recovery(d, t.cooldown);
    assert d < 0;
    assert r < 0.0;
    var span := t.baseWeight - t.baseWeight * FloorFraction;
    assert r * span < 0.0 by {
      assert span > 0.0;
    }
  }

  /** Whole days elapsed never decrease as time moves forward. */
  lemma DaysSinceMonotone(now1: int, now2: int, last: int)
    requires now1 <= now2
    ensures DaysSince(now1, last) <= DaysSince(now2, last)
  {
    var d1, d2 := DaysSince(now1, last), DaysSince(now2, last);
    assert d1 * SecondsPerDay < (d2 + 1) * SecondsPerDay;
  }

  lemma DivMonotone(a: real, b: real, c: real)
    requires a <= b && c > 0.0
    ensures a / c <= b / c
  {
    assert b / c - a / c == (b - a) / c;
    assert (b - a) / c >= 0.0;
  }

  /** Recovery never goes backwards while the clock moves forwards. */
  lemma RecoveryMonotone(t: Task, now1: int, now2: int)
    requires t.baseWeight > 0.0 && t.cooldown >= 1
    requires now1 <= now2
    ensures RecoveredWeight(t, now1) <= RecoveredWeight(t, now2)
  {
    if t.lastSelected.Some? {
      var last := t.lastSelected.value;
      DaysSinceMonotone(now1, now2, last);
      var r1 := Recovery(DaysSince(now1, last), t.cooldown);
      var r2 := Recovery(DaysSince(now2, last), t.cooldown);
      assert r1 <= r2 by {
        if DaysSince(now2, last) < t.cooldown {
          DivMonotone(DaysSince(now1, last) as real, DaysSince(now2, last) as real, t.cooldown as real);
        }
      }
      var span := t.baseWeight - t.baseWeight * FloorFraction;
      assert r1 * span <= r2 * span by {
        assert span > 0.0;
        assert (r2 - r1) * span >= 0.0;
      }
    }
  }

  /** Worked example: base 5, cooldown 4, selected two days ago gives 2.75. */
  lemma TwoOfFourDaysExample()
    ensures RecoveredWeight(Task(5.0, 0.5, 4, Some(0)), 2 * SecondsPerDay) == 2.75
  {
  }

  // ---------------------------------------------------------------------
  // Penalty and recovery

  /** The penalty puts a task exactly at the start of its recovery curve:
      recovering at any instant of the same day gives the penalised weight. */
  lemma PenaltyIsRecoveryStart(t: Task, now: int, later: int)
    requires t.cooldown >= 1
    requires now <= later < now + SecondsPerDay
    ensures RecoveredWeight(Penalized(t, now), later) == Penalized(t, now).currentWeight
  {
    assert DaysSince(later, now) == 0;
  }

  /** A penalised task is back at its base weight after `cooldown` days. */
  lemma PenaltyRecoversAfterCooldown(t: Task, now: int, later: int)
    requires t.cooldown >= 1
    requires later >= now + t.cooldown * SecondsPerDay
    ensures RecoveredWeight(Penalized(t, now), later) == t.baseWeight
  {
    var d := DaysSince(later, now);
    assert t.cooldown * SecondsPerDay < (d + 1) * SecondsPerDay;
  }

  // ---------------------------------------------------------------------
  // Update weight

  /** With positive old and new bases, the rescale keeps the task's
      fraction of its base weight: its place on the recovery curve. */
  lemma RescaleKeepsFraction(t: Task, newBase: real)
    requires t.baseWeight > 0.0 && newBase > 0.0
    ensures Rescaled(t, newBase).currentWeight / newBase == t.currentWeight / t.baseWeight
  {
    var r := Rescaled(t, newBase);
    assert r.currentWeight * t.baseWeight == t.currentWeight * newBase;
    calc {
      r.currentWeight / newBase;
      (r.currentWeight * t.baseWeight) / (newBase * t.baseWeight);
      (t.currentWeight * newBase) / (newBase * t.baseWeight);
      t.currentWeight / t.baseWeight;
    }
  }

  /** A task sitting at its floor stays at the floor of its new base. */
  lemma RescaleKeepsFloor(t: Task, newBase: real)
    requires t.baseWeight > 0.0
    requires t.currentWeight == FloorFraction * t.baseWeight
    ensures Rescaled(t, newBase).currentWeight == FloorFraction * newBase
  {
    var r := Rescaled(t, newBase);
    assert r.currentWeight * t.baseWeight == (FloorFraction * newBase) * t.baseWeight;
  }

  /** With a non-positive old base the current weight is not rescaled,
      so a changed base leaves the current weight where it was. */
  lemma RescaleFromNonPositiveBase(t: Task, newBase: real)
    requires t.baseWeight <= 0.0
    ensures Rescaled(t, newBase).currentWeight == t.currentWeight
    ensures Rescaled(t, newBase).baseWeight == newBase
  {
  }

  // ---------------------------------------------------------------------
  // The draw

  lemma {:induction false} TotalPositive(ks: seq<string>, m: map<string, Task>)
    requires ks != []
    requires forall k :: k in ks ==> k in m && m[k].currentWeight > 0.0
    ensures Total(ks, m) > 0.0
  {
    if ks[1..] != [] {
      TotalPositive(ks[1..], m);
    }
  }

  lemma {:induction false} TotalNonPositive(ks: seq<string>, m: map<string, Task>)
    requires forall k :: k in ks ==> k in m && m[k].currentWeight <= 0.0
    ensures Total(ks, m) <= 0.0
  {
    if ks != [] {
      TotalNonPositive(ks[1..], m);
    }
  }

  /** With positive base weights the fallback always leaves a drawable pool:
      when recovery left every weight at or below zero, the pool is the base
      weights, whose total is positive. */
  lemma FallbackRescues(ks: seq<string>, m: map<string, Task>, now: int)
    requires ks != [] && (forall k :: k in ks <==> k in m)
    requires AllRecoverable(m)
    requires forall k :: k in m ==> m[k].baseWeight > 0.0
    requires AllNonPositive(Refreshed(m, now))
    ensures Total(ks, Drawn(m, now)) > 0.0
  {
    TotalPositive(ks, Drawn(m, now));
  }

  /** With positive bases, cooldowns of a day or more and no selection
      stamped in the future, every draw can proceed. */
  lemma DrawProceeds(ks: seq<string>, m: map<string, Task>, now: int)
    requires ks != [] && (forall k :: k in ks <==> k in m)
    requires forall k :: k in m ==> m[k].baseWeight > 0.0 && m[k].cooldown >= 1
    requires forall k :: k in m && m[k].lastSelected.Some? ==> m[k].lastSelected.value <= now
    ensures Total(ks, Drawn(m, now)) > 0.0
  {
    var pool := Refreshed(m, now);
    forall k | k in pool
      ensures pool[k].currentWeight > 0.0
    {
      RecoveredWeightBounds(m[k], now);
    }
    assert ks[0] in pool;
    TotalPositive(ks, Drawn(m, now));
  }

  /** When every base weight is at or below zero and so is every recovered
      weight, the fallback cannot help: the draw's total is not positive. */
  lemma FallbackCannotRescueNonPositiveBases(ks: seq<string>, m: map<string, Task>, now: int)
    requires forall k :: k in ks ==> k in m
    requires AllRecoverable(m)
    requires forall k :: k in m ==> m[k].baseWeight <= 0.0
    requires AllNonPositive(Refreshed(m, now))
    ensures Total(ks, Drawn(m, now)) <= 0.0
  {
    TotalNonPositive(ks, Drawn(m, now));
  }

  /** A clock that moved backwards can block a draw although every base
      weight is positive: one task pushed far below zero outweighs the rest,
      while the other's positive weight keeps the fallback from firing. */
  lemma ClockSkewBlocksDraw()
    ensures var m := map["A" := Task(1.0, 0.1, 1, Some(100 * SecondsPerDay)), "B" := Task(1.0, 1.0, 1, None)];
            (forall k :: k in m ==> m[k].baseWeight > 0.0) &&
            !AllNonPositive(Refreshed(m, 0)) &&
            Total(["A", "B"], Drawn(m, 0)) <= 0.0
  {
    var m := map["A" := Task(1.0, 0.1, 1, Some(100 * SecondsPerDay)), "B" := Task(1.0, 1.0, 1, None)];
    var pool := Refreshed(m, 0);
    assert DaysSince(0, 100 * SecondsPerDay) == -100;
    assert pool["A"].currentWeight == RecoveredWeight(m["A"], 0) == -89.9;
    assert pool["B"].currentWeight == 1.0;
    assert !AllNonPositive(pool);
    assert ["A", "B"][1..] == ["B"] && ["B"][1..] == [];
    assert Total(["B"], pool) == 1.0 + Total([], pool) == 1.0;
    assert Total(["A", "B"], pool) == -89.9 + Total(["B"], pool);
  }
}
