/** Plugin.cs `FindConsecutiveSteps`: a dictionary from each after-step to
    the custom step spliced behind it, and the walk that follows it from a
    starting step. Dictionary keys compare with `Step.Equals`, which is value
    equality of `Step` (see `Steps.StepEqualsIsValueEquality`). */
module Chains {
  import opened Steps

  /** Every entry of `s` points backwards: its after-step has a lower ordinal
      than its own step. Registration establishes this for every entry. */
  ghost predicate EntriesAscend(s: seq<CustomStep>) {
    forall e :: e in s ==> e.after.loadState < e.step.loadState
  }

  /** A step map whose every image has a higher ordinal than its key. */
  ghost predicate Ascending(m: map<Step, Step>) {
    forall k :: k in m ==> k.loadState < m[k].loadState
  }

  /** The first loop of `FindConsecutiveSteps`: `stepMap[After] = Step` for
      every entry in order, so a later entry with the same after-step
      overwrites an earlier one. */
  function BuildStepMap(customSteps: seq<CustomStep>): (m: map<Step, Step>)
    ensures forall k :: k in m <==> exists i :: 0 <= i < |customSteps| && customSteps[i].after == k
    ensures |customSteps| > 0 ==> m[customSteps[|customSteps| - 1].after] == customSteps[|customSteps| - 1].step
    ensures forall k :: k in m ==> CustomStep(m[k], k) in customSteps
  {
    if |customSteps| == 0 then map[]
    else
      var n := |customSteps| - 1;
      var prefix := customSteps[..n];
      assert customSteps == prefix + [customSteps[n]];
      BuildStepMap(prefix)[customSteps[n].after := customSteps[n].step]
  }

  /** The later entry wins: an entry whose after-step no later entry shares
      is the one the map holds for that after-step. */
  lemma {:induction false} LaterEntryWins(customSteps: seq<CustomStep>, i: nat)
    requires i < |customSteps|
    requires forall j :: i < j < |customSteps| ==> customSteps[j].after != customSteps[i].after
    ensures BuildStepMap(customSteps)[customSteps[i].after] == customSteps[i].step
  {
    var n := |customSteps| - 1;
    if i < n {
      var prefix, last := customSteps[..n], customSteps[n];
      assert forall j :: i < j < n ==> prefix[j] == customSteps[j];
      LaterEntryWins(prefix, i);
      var m := BuildStepMap(prefix);
      assert BuildStepMap(customSteps) == m[last.after := last.step];
      assert prefix[i].after in m;
      assert last.after != customSteps[i].after;
    }
  }

  /** Maps built from backward-pointing entries are ascending. */
  lemma StepMapAscends(customSteps: seq<CustomStep>)
    requires EntriesAscend(customSteps)
    ensures Ascending(BuildStepMap(customSteps))
  {
  }

  /** The images in `m` with an ordinal above `lo`; shrinks along a walk. */
  function ImagesAbove(m: map<Step, Step>, lo: int): (r: set<Step>) {
    set v | v in m.Values && v.loadState > lo
  }

  /** The second loop of `FindConsecutiveSteps`: while the current step is a
      key, append its image and move to it. */
  function Walk(m: map<Step, Step>, current: Step): (r: seq<Step>)
    requires Ascending(m)
    ensures |r| == 0 <==> current !in m
    ensures |r| > 0 ==> r[0] == m[current] && r[|r| - 1] !in m
    ensures forall i :: 0 <= i < |r| - 1 ==> r[i] in m && r[i + 1] == m[r[i]]
    ensures forall i :: 0 <= i < |r| ==> r[i] in m.Values && current.loadState < r[i].loadState
    ensures forall i, j :: 0 <= i < j < |r| ==> r[i].loadState < r[j].loadState
    decreases ImagesAbove(m, current.loadState)
  {
    if current !in m then []
    else
      var next := m[current];
      assert next in ImagesAbove(m, current.loadState);
      assert next !in ImagesAbove(m, next.loadState);
      [next] + Walk(m, next)
  }

  /** `FindConsecutiveSteps(customSteps, startingStep)`. */
  function FindConsecutiveSteps(customSteps: seq<CustomStep>, startingStep: Step): (r: seq<Step>)
    requires EntriesAscend(customSteps)
    ensures forall i :: 0 <= i < |r| ==> exists e :: e in customSteps && e.step == r[i]
    ensures forall i, j :: 0 <= i < j < |r| ==> r[i].loadState < r[j].loadState
    ensures IsWalk(BuildStepMap(customSteps), startingStep, r)
  {
    StepMapAscends(customSteps);
    Walk(BuildStepMap(customSteps), startingStep)
  }

  /** `s` is what the walk from `current` produces: each element is the map
      image of its predecessor, starting from `current`, and it stops at the
      first step that is not a key. */
  ghost predicate IsWalk(m: map<Step, Step>, current: Step, s: seq<Step>) {
    && (|s| == 0 <==> current !in m)
    && (|s| > 0 ==> s[0] == m[current] && s[|s| - 1] !in m)
    && forall i :: 0 <= i < |s| - 1 ==> s[i] in m && s[i + 1] == m[s[i]]
  }

  /** The walk is the only sequence with that description. */
  lemma {:induction false} WalkIsUnique(m: map<Step, Step>, current: Step, s: seq<Step>)
    requires Ascending(m)
    requires IsWalk(m, current, s)
    ensures s == Walk(m, current)
    decreases |s|
  {
    if |s| > 0 {
      var next := m[current];
      assert IsWalk(m, next, s[1..]) by {
        forall i | 0 <= i < |s[1..]| - 1 ensures s[1..][i] in m && s[1..][i + 1] == m[s[1..][i]] {
          assert s[1..][i] == s[i + 1];
        }
        if |s| > 1 {
          assert s[0] in m;
        }
      }
      WalkIsUnique(m, next, s[1..]);
      assert s == [next] + s[1..];
    }
  }
}
