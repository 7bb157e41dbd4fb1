# Adaptive weighted task selector — Dafny model

A model of the task-rotation core of focus-roulette: the
`AdaptiveWeightedTaskSelector` class, which keeps a registry of named
tasks (base weight, current weight, cooldown in days, time of last
selection) and an append-only selection history, and picks a task at
random biased by weight. A task just picked drops to 10% of its base
weight and recovers linearly back to its base weight over `cooldown`
whole days.

- `task_model.dfy` (module `TaskModel`): the task and history records,
  the recovery curve (`DaysSince`, `Recovery`, `RecoveredWeight`), the
  registry after recovery (`Refreshed`), after a reset (`Restored`), the
  pool a draw uses (`Drawn`), the post-selection penalty (`Penalized`),
  the update-weight rescale (`Rescaled`), the total weight of a draw
  (`Total`), and the lemmas about them.
- `selector.dfy` (module `Selector`): the class
  `AdaptiveWeightedTaskSelector` with the registry as a `map` field, the
  registry's key iteration order as a `seq` field (Python dictionaries
  iterate in insertion order), the history as a `seq` field and a ghost
  counter `saves` of the writes of the state to storage. Each operation
  is a method whose postcondition gives the whole new state; the loops of
  `reset_weights`, `_adjust_weights` and the selection fallback are
  `for` loops over the key order with invariants.

Inputs that the program takes from its environment are parameters:
the clock is an integer `now` in seconds, and the outcome of the weighted
random draw is the oracle argument `pick` of `GetRandomTask`, which must
name a key with positive weight in the draw whenever the draw can proceed.

Three behaviours of the code that a reader might not expect are kept as
written: `update_weight` keeps the current weight when the old base is at or
below zero (not only when it is zero), `get_task_history(0)` returns the
whole history (a Python slice `history[-0:]`), and the fallback after
recovery (all recovered weights at or below zero, so every current weight
goes back to its base) lets the draw proceed only when the base weights'
total is positive.

## Model

| member | source | states |
|---|---|---|
| TaskModel.DaysSince | main.py:96 | the whole days elapsed, rounded down: `d` days span at most the elapsed seconds and `d + 1` days exceed them, so a clock that moved back gives a negative count |
| TaskModel.Recovery | main.py:99 | the recovery fraction never exceeds 1; for a positive cooldown it is 1 exactly when the days reach the cooldown, equals days/cooldown below that, and is negative exactly when the days are |
| TaskModel.RecoveredWeight | main.py:94-109 | a never-selected task gets its base weight, and with a non-negative base and a positive cooldown the result never overshoots the base; the exact curve is stated by RecoveredWeightFormula, RecoveredWeightBounds, RecoveredWeightSaturates, RecoveredWeightInterpolates and RecoveryMonotone |
| TaskModel.Recover | main.py:106-109 | the per-task write of recovery: base weight, cooldown and last selection are kept, the current weight becomes the recovered weight |
| TaskModel.AllNonPositive | main.py:122 | the `all(w <= 0 ...)` test: true exactly when no task has a weight above zero |
| TaskModel.Total | main.py:129 | the sum of the draw's weights that the sampler checks: zero for no tasks, never negative when no weight is negative |
| TaskModel.Refreshed | main.py:86-109 | recovery keeps the key set and changes only current weights; a never-selected task is put at its base weight |
| TaskModel.Restored | main.py:80-84 | every current weight equals its base weight; keys, base weights, cooldowns and last selections are unchanged |
| TaskModel.Drawn | main.py:115-126 | the draw's pool changes only current weights; it is the recovered registry, or the base weights when recovery left every weight at or below zero |
| TaskModel.Penalized | main.py:131-135 | a chosen task gets the selection instant as its last selection and 10% of its base as its current weight; base and cooldown are kept |
| TaskModel.Rescaled | main.py:56-67 | the new base is set; with a positive old base the current weight scales by new/old (current·old = old current·new), otherwise it is kept; cooldown and last selection are kept |
| TaskModel.NeverSelectedKeepsBase | main.py:107-109 | a never-selected task recovers to its base weight whatever the time |
| TaskModel.RecoveryIgnoresCurrentWeight | main.py:90-109 | recovery does not depend on the stored current weight, which is only a cache |
| TaskModel.RecoveredWeightFormula | main.py:94-106 | for a selected task: floor + min(1, d/cooldown)·(base − floor), with floor = 10% of base and d the whole days elapsed |
| TaskModel.RecoveredWeightBounds | main.py:99-106 | with base > 0, cooldown ≥ 1 and no selection in the future, the recovered weight lies between 10% of base and base |
| TaskModel.RecoveredWeightSaturates | main.py:99-106 | once `cooldown` whole days have elapsed the weight is exactly the base weight |
| TaskModel.RecoveredWeightInterpolates | main.py:99-106 | for 0 ≤ d < cooldown the weight is exactly 0.1·base + (d/cooldown)·0.9·base |
| TaskModel.ClockBackwardsBelowFloor | main.py:96-106 | a selection stamped after `now` gives a negative recovery and a weight below the 10% floor |
| TaskModel.DaysSinceMonotone | main.py:96 | the whole-day count never decreases as `now` increases |
| TaskModel.RecoveryMonotone | main.py:96-106 | with base > 0 and cooldown ≥ 1 the recovered weight never decreases as `now` increases |
| TaskModel.TwoOfFourDaysExample | main.py:99-106 | base 5, cooldown 4, selected two days earlier: weight 2.75 |
| TaskModel.PenaltyIsRecoveryStart | main.py:132-135 | the penalty is the start of the recovery curve: recovering later the same day gives back exactly the penalised weight |
| TaskModel.PenaltyRecoversAfterCooldown | main.py:132-135 | a penalised task recovers to its full base weight once `cooldown` days of seconds have passed |
| TaskModel.RescaleKeepsFraction | main.py:60-67 | with positive old and new bases, current/base is the same before and after an update of the weight |
| TaskModel.RescaleKeepsFloor | main.py:60-67 | a task at its 10% floor is at the 10% floor of its new base after the update |
| TaskModel.RescaleFromNonPositiveBase | main.py:61 | with an old base at or below zero, the base changes and the current weight stays where it was |
| TaskModel.TotalPositive | main.py:129 | a non-empty list of positive weights has a positive total, so the sampler accepts it |
| TaskModel.TotalNonPositive | main.py:129 | weights all at or below zero have a total at or below zero, so the sampler refuses them |
| TaskModel.FallbackRescues | main.py:121-126 | with positive base weights, when every recovered weight is at or below zero the fallback pool has a positive total |
| TaskModel.DrawProceeds | main.py:115-129 | with positive bases, cooldowns of at least a day and no selection stamped in the future, every non-empty draw has a positive total |
| TaskModel.FallbackCannotRescueNonPositiveBases | main.py:121-129 | with base weights at or below zero and recovered weights at or below zero, the draw's total is not positive |
| TaskModel.ClockSkewBlocksDraw | main.py:115-150 | a two-task registry with positive bases where a selection stamped 100 days ahead makes the draw's total negative while the fallback does not fire |
| Selector.Without | main.py:51 | deleting a key leaves exactly the other keys, keeps them free of duplicates, and changes nothing when the key is absent |
| Selector.WithoutKeepsOrder | main.py:51 | after a deletion, one remaining key comes before another exactly when it did before |
| Selector.SliceFrom | main.py:153 | Python's `s[start:]`: a suffix of `s`, of length `len - start` (at least 0) for a non-negative start and of length `min(-start, len)` for a negative one |
| Selector.AdaptiveWeightedTaskSelector.constructor | main.py:9-29 | a selector whose storage file is missing or not valid JSON: no tasks, no history |
| Selector.AdaptiveWeightedTaskSelector.AddTask | main.py:40-47 | `name` maps to a never-selected task with current = base weight and the given cooldown (default 3), overwriting; other tasks and history unchanged; one save |
| Selector.AdaptiveWeightedTaskSelector.RemoveTask | main.py:49-54 | returns whether `name` was present; its only effect is deleting that key; saves only when it removed |
| Selector.AdaptiveWeightedTaskSelector.UpdateWeight | main.py:56-71 | false and no change or save for an absent name; otherwise only that task changes, by the rescale, and one save |
| Selector.AdaptiveWeightedTaskSelector.UpdateCooldown | main.py:73-78 | false and no change or save for an absent name; otherwise only that task's cooldown changes, and one save |
| Selector.AdaptiveWeightedTaskSelector.ResetWeights | main.py:80-84 | every current weight becomes its base weight, nothing else changes, one save |
| Selector.AdaptiveWeightedTaskSelector.RestoreBaseWeights | main.py:124-125 | the loop over every key leaves the registry with each current weight at its base weight |
| Selector.AdaptiveWeightedTaskSelector.AdjustWeights | main.py:86-109 | the loop over every key leaves the registry recovered at `now`; order, history and saves unchanged |
| Selector.AdaptiveWeightedTaskSelector.GetRandomTask | main.py:111-150 | empty registry: none, no change; total at or below zero: none, registry left recovered (and reset by the fallback), no history, no save; otherwise the chosen key is penalised, every other task keeps its pool weight, exactly one history entry with the (positive) weight used is appended, one save |
| Selector.AdaptiveWeightedTaskSelector.RecordSelection | main.py:131-145 | only the chosen task changes, to its penalised form; the history gains exactly one entry naming it, with the instant and the weight it had in the draw; one save |
| Selector.AdaptiveWeightedTaskSelector.GetTaskHistory | main.py:152-153 | `history[-limit:]`: for limit ≥ 1 the last min(limit, length) entries in order, for 0 the whole history, for a negative limit the history without its first −limit entries |
| Selector.AdaptiveWeightedTaskSelector.GetTaskWeights | main.py:155-165 | the same keys with each task's four stored fields copied; no recovery runs and nothing changes |

## Left out

- `TaskSelectorApp` and the program entry point (main.py:168-372): the tkinter interface, its dialogs, its input checks and its display formatting.
- `load_tasks` and `save_tasks` (main.py:15-38): file access and JSON. A write of the state is the ghost counter `saves`; the constructor models the empty start after a missing file or one that is not valid JSON; loading an existing file, and the save/load round trip, are not modelled.
- Other failures of `load_tasks` (main.py:16-22 catch only a JSON decoding error and a missing file): a file that cannot be opened, is not valid UTF-8, or holds JSON that is not an object makes the constructor raise; these errors are not modelled.
- `random.choices` (main.py:129): its sampling and probabilities are not modelled. The draw's outcome is the argument `pick`; the model keeps the sampler's refusal of a total weight at or below zero (it raises, and the selection returns none), as in Python 3.9 and later.
- Selector.AdaptiveWeightedTaskSelector.GetRandomTask: requires `pick` to be a key of positive weight whenever the draw proceeds; with mixed-sign weights and a positive total, which keys Python's sampler can actually return is not modelled.
- Selector.AdaptiveWeightedTaskSelector.GetRandomTask: requires every selected task to have a non-zero cooldown; with a zero cooldown the source raises an uncaught division-by-zero error, which is not modelled.
- `datetime.now()`, `isoformat` and `fromisoformat` (main.py:88, main.py:95, main.py:132, main.py:140): timestamps are integer seconds passed in, and the three readings of the clock during one selection are one instant.
- Floating point: weights are exact reals; rounding, infinities and NaN (which the sampler also refuses) are not modelled.
- The `print` diagnostics of the failed draw (main.py:147-149).
- The default cooldown of 3 that recovery uses for a stored task without a cooldown (main.py:92): every modelled task record carries a cooldown.
