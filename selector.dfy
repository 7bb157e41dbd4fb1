/** The adaptive weighted task selector: a registry from task name to task,
    the order in which the registry's keys iterate, and an append-only
    selection history. Every state-changing operation is a method; the
    ghost counter `saves` counts the writes of the whole state to storage. */
module Selector {
  import opened TaskModel

  predicate NoDuplicates(s: seq<string>)
  {
    forall i, j :: 0 <= i < j < |s| ==> s[i] != s[j]
  }

  /** `y` comes somewhere before `z` in `s`. */
  ghost predicate Precedes(s: seq<string>, y: string, z: string)
  {
    exists i, j :: 0 <= i < j < |s| && s[i] == y && s[j] == z
  }

  lemma PrecedesCons(a: string, t: seq<string>, y: string, z: string)
    ensures Precedes([a] + t, y, z) <==> (a == y && z in t) || Precedes(t, y, z)
  {
    var s := [a] + t;
    if Precedes(s, y, z) {
      var i, j :| 0 <= i < j < |s| && s[i] == y && s[j] == z;
      assert t[j - 1] == z;
      if i > 0 {
        assert t[i - 1] == y;
      }
    }
    if a == y && z in t {
      var j :| 0 <= j < |t| && t[j] == z;
      assert s[0] == y && s[j + 1] == z;
    }
    if Precedes(t, y, z) {
      var i, j :| 0 <= i < j < |t| && t[i] == y && t[j] == z;
      assert s[i + 1] == y && s[j + 1] == z;
    }
  }

  /** Deleting a key keeps the relative order of the keys that remain. */
  lemma {:induction false} WithoutKeepsOrder(s: seq<string>, x: string, y: string, z: string)
    requires y != x && z != x
    ensures Precedes(Without(s, x), y, z) <==> Precedes(s, y, z)
  {
    if s != [] {
      WithoutKeepsOrder(s[1..], x, y, z);
      assert s == [s[0]] + s[1..];
      PrecedesCons(s[0], s[1..], y, z);
      if s[0] != x {
        PrecedesCons(s[0], Without(s[1..], x), y, z);
      }
    }
  }

  /** The key order after a key is deleted. */
  function Without(s: seq<string>, x: string): (r: seq<string>)
    ensures forall y :: y in r <==> y in s && y != x
    ensures NoDuplicates(s) ==> NoDuplicates(r)
    ensures x !in s ==> r == s
  {
    if s == [] then []
    else
      var rest := Without(s[1..], x);
      assert NoDuplicates(s) ==> s[0] !in s[1..] && NoDuplicates(s[1..]) by {
        if NoDuplicates(s) {
          forall j | 0 <= j < |s[1..]| ensures s[1..][j] != s[0] {
            assert s[1..][j] == s[j + 1];
          }
        }
      }
      if s[0] == x then rest else [s[0]] + rest
  }

  /** The part of `s` that Python's `s[start:]` denotes: a suffix, whose
      start counts from the end when negative, clamped to the bounds. */
  function SliceFrom<T>(s: seq<T>, start: int): (r: seq<T>)
    ensures |r| <= |s| && r == s[|s| - |r|..]
    ensures 0 <= start ==> |r| == Max(|s| - start, 0)
    ensures start < 0 ==> |r| == Min(-start, |s|)
  {
    var i := if start < 0 then Max(0, |s| + start) else Min(start, |s|);
    s[i..]
  }

  class AdaptiveWeightedTaskSelector {
    var tasks: map<string, Task>
    /** The registry's keys in iteration (first insertion) order. */
    var order: seq<string>
    var history: seq<HistoryEntry>
    ghost var saves: nat

    ghost predicate Valid()
      reads this
    {
      && (forall k :: k in order <==> k in tasks)
      && NoDuplicates(order)
    }

    /** A selector whose storage held nothing (a missing file, or one that is not valid JSON). */
    constructor ()
      ensures Valid()
      ensures tasks == map[] && order == [] && history == [] && saves == 0
    {
      tasks := map[];
      order := [];
      history := [];
      saves := 0;
    }

    /** Inserts or overwrites `name` with a fresh, never-selected task. */
    method AddTask(name: string, baseWeight: real, cooldown: int := 3)
      requires Valid()
      modifies this
      ensures Valid()
      ensures tasks == old(tasks)[name := Task(baseWeight, baseWeight, cooldown, None)]
      ensures order == if name in old(tasks) then old(order) else old(order) + [name]
      ensures history == old(history)
      ensures saves == old(saves) + 1
    {
      if name !in tasks {
        order := order + [name];
      }
      tasks := tasks[name := Task(baseWeight, baseWeight, cooldown, None)];
      saves := saves + 1;
    }

    /** Deletes `name`; reports whether it was there. Saves only on removal. */
    method RemoveTask(name: string) returns (removed: bool)
      requires Valid()
      modifies this
      ensures Valid()
      ensures removed <==> name in old(tasks)
      ensures tasks == old(tasks) - {name}
      ensures order == Without(old(order), name)
      ensures history == old(history)
      ensures saves == if removed then old(saves) + 1 else old(saves)
    {
      if name in tasks {
        tasks := tasks - {name};
        order := Without(order, name);
        saves := saves + 1;
        removed := true;
      } else {
        removed := false;
      }
    }

    /** Sets the base weight of `name` and rescales its current weight;
        fails without any effect when `name` is absent. */
    method UpdateWeight(name: string, newBase: real) returns (ok: bool)
      requires Valid()
      modifies this
      ensures Valid()
      ensures ok <==> name in old(tasks)
      ensures ok ==> tasks == old(tasks)[name := Rescaled(old(tasks)[name], newBase)]
      ensures !ok ==> tasks == old(tasks)
      ensures order == old(order) && history == old(history)
      ensures saves == if ok then old(saves) + 1 else old(saves)
    {
      if name in tasks {
        tasks := tasks[name := Rescaled(tasks[name], newBase)];
        saves := saves + 1;
        ok := true;
      } else {
        ok := false;
      }
    }

    /** Sets the cooldown of `name` and nothing else; fails without any
        effect when `name` is absent. */
    method UpdateCooldown(name: string, newCooldown: int) returns (ok: bool)
      requires Valid()
      modifies this
      ensures Valid()
      ensures ok <==> name in old(tasks)
      ensures ok ==> tasks == old(tasks)[name := old(tasks)[name].(cooldown := newCooldown)]
      ensures !ok ==> tasks == old(tasks)
      ensures order == old(order) && history == old(history)
      ensures saves == if ok then old(saves) + 1 else old(saves)
    {
      if name in tasks {
        tasks := tasks[name := tasks[name].(cooldown := newCooldown)];
        saves := saves + 1;
        ok := true;
      } else {
        ok := false;
      }
    }

    /** Puts every task's current weight back to its base weight, without
        touching its last selection, and saves. */
    method ResetWeights()
      requires Valid()
      modifies this
      ensures Valid()
      ensures tasks == Restored(old(tasks))
      ensures order == old(order) && history == old(history)
      ensures saves == old(saves) + 1
    {
      RestoreBaseWeights();
      saves := saves + 1;
    }

    /** The loop shared by ResetWeights and the selection fallback. */
    method RestoreBaseWeights()
      requires Valid()
      modifies this
      ensures Valid()
      ensures tasks == Restored(old(tasks))
      ensures order == old(order) && history == old(history) && saves == old(saves)
    {
      for i := 0 to |order|
        invariant order == old(order) && history == old(history) && saves == old(saves)
        invariant tasks.Keys == old(tasks).Keys
        invariant forall k :: k in tasks ==>
          tasks[k] == if k in order[..i] then old(tasks)[k].(currentWeight := old(tasks)[k].baseWeight) else old(tasks)[k]
      {
        var name := order[i];
        assert order[..i + 1] == order[..i] + [name];
        tasks := tasks[name := tasks[name].(currentWeight := tasks[name].baseWeight)];
      }
      assert order[..|order|] == order;
    }

    /** Runs recovery over every task at instant `now`. */
    method AdjustWeights(now: int)
      requires Valid() && AllRecoverable(tasks)
      modifies this
      ensures Valid()
      ensures tasks == Refreshed(old(tasks), now)
      ensures order == old(order) && history == old(history) && saves == old(saves)
    {
      for i := 0 to |order|
        invariant order == old(order) && history == old(history) && saves == old(saves)
        invariant tasks.Keys == old(tasks).Keys
        invariant forall k :: k in tasks ==>
          tasks[k] == if k in order[..i] then Recover(old(tasks)[k], now) else old(tasks)[k]
      {
        var name := order[i];
        assert order[..i + 1] == order[..i] + [name];
        var t := tasks[name];
        tasks := tasks[name := t.(currentWeight := RecoveredWeight(t, now))];
      }
      assert order[..|order|] == order;
    }

    /** One selection at instant `now`; `pick` is the outcome of the weighted
        draw, which must be a key of positive weight whenever the draw can
        proceed (total weight above zero). */
    method GetRandomTask(now: int, pick: string) returns (selected: Option<string>)
      requires Valid() && AllRecoverable(tasks)
      requires Total(order, Drawn(tasks, now)) > 0.0 ==>
                 pick in tasks && Drawn(tasks, now)[pick].currentWeight > 0.0
      modifies this
      ensures Valid()
      ensures order == old(order)
      // An empty registry: nothing is chosen and nothing changes.
      ensures old(tasks) == map[] ==>
                selected == None && tasks == old(tasks) && history == old(history) && saves == old(saves)
      // The draw cannot proceed: recovery (and fallback) stay, nothing is recorded or saved.
      ensures Total(old(order), Drawn(old(tasks), now)) <= 0.0 ==>
                && selected == None
                && tasks == Drawn(old(tasks), now)
                && history == old(history)
                && saves == old(saves)
      // A draw: the chosen task is penalised, every other keeps its pool weight,
      // one history entry records the weight the draw used.
      ensures Total(old(order), Drawn(old(tasks), now)) > 0.0 ==>
                var pool := Drawn(old(tasks), now);
                && selected == Some(pick)
                && pick in old(tasks)
                && tasks == pool[pick := Penalized(pool[pick], now)]
                && history == old(history) + [HistoryEntry(pick, now, pool[pick].currentWeight)]
                && pool[pick].currentWeight > 0.0
                && saves == old(saves) + 1
    {
      if tasks == map[] {
        assert order == [];
        return None;
      }
      AdjustWeights(now);
      if AllNonPositive(tasks) {
        RestoreBaseWeights();
      }
      assert tasks == Drawn(old(tasks), now);
      var total := Total(order, tasks);
      if total <= 0.0 {
        // the sampler refuses a non-positive total
        return None;
      }
      RecordSelection(pick, now);
      selected := Some(pick);
    }

    /** Stamps and penalises the chosen task and appends its history entry
        with the weight it had in the draw, then saves. */
    method RecordSelection(pick: string, now: int)
      requires Valid() && pick in tasks
      modifies this
      ensures Valid()
      ensures tasks == old(tasks)[pick := Penalized(old(tasks)[pick], now)]
      ensures history == old(history) + [HistoryEntry(pick, now, old(tasks)[pick].currentWeight)]
      ensures order == old(order) && saves == old(saves) + 1
    {
      var t := tasks[pick];
      var used := t.currentWeight;
      tasks := tasks[pick := t.(lastSelected := Some(now), currentWeight := t.baseWeight * FloorFraction)];
      history := history + [HistoryEntry(pick, now, used)];
      saves := saves + 1;
    }

    /** The last `limit` history entries, as the slice `history[-limit:]`. */
    function GetTaskHistory(limit: int := 10): (r: seq<HistoryEntry>)
      reads this
      ensures limit == 0 ==> r == history
      ensures limit > 0 ==> |r| == Min(limit, |history|) && r == history[|history| - |r|..]
      ensures limit < 0 ==> r == history[Min(-limit, |history|)..]
    {
      SliceFrom(history, -limit)
    }

    /** A copy of every task's stored fields; recovery does not run. */
    function GetTaskWeights(): (r: map<string, Task>)
      reads this
      ensures r.Keys == tasks.Keys
      ensures forall k :: k in r ==>
                && r[k].baseWeight == tasks[k].baseWeight
                && r[k].currentWeight == tasks[k].currentWeight
                && r[k].cooldown == tasks[k].cooldown
                && r[k].lastSelected == tasks[k].lastSelected
    {
      map k | k in tasks :: Task(tasks[k].baseWeight, tasks[k].currentWeight, tasks[k].cooldown, tasks[k].lastSelected)
    }
  }
}
