/** Plugin.cs `CityConstructor_Update_Patch`: the prefix and postfix that
    bracket every call of the host's `Update`. The host instance is reduced
    to the five fields the patch reads and writes; the host's own `Update` is
    a parameter, since its code is not part of this model. */
module Interception {
  import opened Wrappers
  import opened Lists
  import opened Steps
  import opened Generators
  import opened Chains

  /** The fields of the host's city constructor that the patch touches.
      `loadTaskCompleted` stands for `loadFullCityDataTask is { IsCompleted: true }`,
      so a missing task reads as not completed. */
  datatype Host = Host(loadCursor: int, loadState: int, generateNew: bool,
                       loadingOperationActive: bool, loadTaskCompleted: bool)

  /** One `Generate(step.Name)` call: the step it was made for and the
      handler it ran, or `None` when it only logged a missing generator. */
  datatype Call = Call(step: Step, handler: Option<Handler>)

  /** The prefix's effect: new host fields, the pending list after removals,
      the generator calls made, and the `__state` handed to the postfix. */
  datatype PrefixResult = PrefixResult(host: Host, toGenerate: seq<CustomStep>, trace: seq<Call>, state: int)

  /** The pending list and calls after generating a chain. */
  datatype Generated = Generated(toGenerate: seq<CustomStep>, trace: seq<Call>)

  /** The state after one or more host ticks. */
  datatype TickResult = TickResult(host: Host, toGenerate: seq<CustomStep>, trace: seq<Call>)

  /** The three guards of the prefix, with the bound taken over the native
      count only. */
  predicate Intercepts(nativeCount: int, h: Host) {
    && h.loadCursor < nativeCount
    && h.loadingOperationActive && !h.loadTaskCompleted
    && h.generateNew
  }

  /** Step ordinals of the entries of a list. */
  function Ordinals(s: seq<CustomStep>): (r: set<int>) {
    set e | e in s :: e.step.loadState
  }

  /** Step ordinals that a sequence of generator calls was made for. */
  function TraceOrdinals(trace: seq<Call>): (r: set<int>) {
    set c | c in trace :: c.step.loadState
  }

  /** No two entries share a step ordinal; registration guarantees this. */
  predicate DistinctOrdinals(s: seq<CustomStep>) {
    forall i, j :: 0 <= i < j < |s| ==> s[i].step.loadState != s[j].step.loadState
  }

  /** `i` is the entry `ToGenerate.Find(x => x.Step.LoadState == ordinal)` returns. */
  ghost predicate FirstWithStep(s: seq<CustomStep>, ordinal: int, i: int) {
    && 0 <= i < |s| && s[i].step.loadState == ordinal
    && forall j :: 0 <= j < i ==> s[j].step.loadState != ordinal
  }

  /** `i` is the entry `ToGenerate.Find(x => x.After.LoadState == ordinal)` returns. */
  ghost predicate FirstWithAfter(s: seq<CustomStep>, ordinal: int, i: int) {
    && 0 <= i < |s| && s[i].after.loadState == ordinal
    && forall j :: 0 <= j < i ==> s[j].after.loadState != ordinal
  }

  /** `ToGenerate.Remove(ToGenerate.Find(x => x.Step.LoadState == ordinal))`:
      the entry found is removed by value equality, which removes that very
      position; when nothing is found, `Remove(null)` removes nothing. */
  function RemoveByOrdinal(s: seq<CustomStep>, ordinal: int): (r: seq<CustomStep>)
    ensures ordinal !in Ordinals(s) ==> r == s
    ensures forall i :: FirstWithStep(s, ordinal, i) ==> r == s[..i] + s[i + 1..]
  {
    match FindFirst(s, (e: CustomStep) => e.step.loadState == ordinal)
    case None => s
    case Some(i) =>
      assert s[i] !in s[..i] by {
        forall j | 0 <= j < i ensures s[..i][j] != s[i] { assert s[..i][j] == s[j]; }
      }
      RemoveValueAt(s, s[i], i);
      RemoveValue(s, s[i])
  }

  /** Closing up a list of distinct ordinals around position `f` keeps the
      ordinals distinct and loses exactly the entries with ordinal `s[f]`'s. */
  lemma RemoveAtDistinct(s: seq<CustomStep>, f: nat)
    requires f < |s| && DistinctOrdinals(s)
    ensures DistinctOrdinals(s[..f] + s[f + 1..])
    ensures forall e :: e in s[..f] + s[f + 1..] <==> e in s && e.step.loadState != s[f].step.loadState
  {
    var r := s[..f] + s[f + 1..];
    assert forall a :: 0 <= a < |r| ==> r[a] == s[if a < f then a else a + 1];
    forall e ensures e in r <==> e in s && e.step.loadState != s[f].step.loadState {
      if e in s && e.step.loadState != s[f].step.loadState {
        var a :| 0 <= a < |s| && s[a] == e;
        assert r[if a < f then a else a - 1] == e;
      }
    }
  }

  /** With distinct ordinals, the removal drops exactly the entry with that
      ordinal. */
  lemma RemoveByOrdinalDistinct(s: seq<CustomStep>, ordinal: int)
    ensures DistinctOrdinals(s) ==>
            var r := RemoveByOrdinal(s, ordinal);
            && DistinctOrdinals(r)
            && forall e :: e in r <==> e in s && e.step.loadState != ordinal
  {
    if DistinctOrdinals(s) {
      var k := FindFirst(s, (e: CustomStep) => e.step.loadState == ordinal);
      var r := RemoveByOrdinal(s, ordinal);
      if k.Some? {
        var f := k.value;
        assert FirstWithStep(s, ordinal, f);
        assert r == s[..f] + s[f + 1..];
        RemoveAtDistinct(s, f);
      } else {
        assert forall e :: e in s ==> e.step.loadState != ordinal;
        assert ordinal !in Ordinals(s);
        assert r == s;
      }
    }
  }

  /** The removal only ever drops entries. */
  lemma RemoveByOrdinalShrinks(s: seq<CustomStep>, ordinal: int)
    ensures forall e :: e in RemoveByOrdinal(s, ordinal) ==> e in s
  {
    var k := FindFirst(s, (e: CustomStep) => e.step.loadState == ordinal);
    if k.Some? {
      assert FirstWithStep(s, ordinal, k.value);
      assert RemoveByOrdinal(s, ordinal) == s[..k.value] + s[k.value + 1..];
    }
  }

  /** The entries of `s` whose step ordinal is not in `ordinals`, in their
      original order: what is left of a list after every entry with one of
      those ordinals has been removed. */
  function WithoutOrdinals(s: seq<CustomStep>, ordinals: set<int>): (r: seq<CustomStep>)
    ensures |r| <= |s|
  {
    if |s| == 0 then []
    else
      (if s[0].step.loadState in ordinals then [] else [s[0]]) + WithoutOrdinals(s[1..], ordinals)
  }

  /** An entry is kept exactly when it was in the list and its ordinal is
      not one of those removed. */
  lemma {:induction false} WithoutMembers(s: seq<CustomStep>, ordinals: set<int>)
    ensures forall e :: e in WithoutOrdinals(s, ordinals) <==> e in s && e.step.loadState !in ordinals
  {
    if |s| > 0 {
      WithoutMembers(s[1..], ordinals);
      assert s == [s[0]] + s[1..];
    }
  }

  /** Taking out ordinals is filtering by the step ordinal. */
  lemma {:induction false} WithoutIsFilter(s: seq<CustomStep>, ordinals: set<int>)
    ensures WithoutOrdinals(s, ordinals) == Filter(s, (e: CustomStep) => e.step.loadState !in ordinals)
  {
    if |s| > 0 {
      WithoutIsFilter(s[1..], ordinals);
    }
  }

  /** Removing ordinals no entry has leaves the list as it is. */
  lemma {:induction false} WithoutNothing(s: seq<CustomStep>, ordinals: set<int>)
    requires forall e :: e in s ==> e.step.loadState !in ordinals
    ensures WithoutOrdinals(s, ordinals) == s
  {
    if |s| > 0 {
      assert s[0] in s;
      assert forall e :: e in s[1..] ==> e in s;
      WithoutNothing(s[1..], ordinals);
      assert s == [s[0]] + s[1..];
    }
  }

  /** The removal works element by element, so it distributes over
      concatenation. */
  lemma {:induction false} WithoutConcat(a: seq<CustomStep>, b: seq<CustomStep>, ordinals: set<int>)
    ensures WithoutOrdinals(a + b, ordinals) == WithoutOrdinals(a, ordinals) + WithoutOrdinals(b, ordinals)
  {
    if |a| == 0 {
      assert a + b == b;
    } else {
      assert (a + b)[0] == a[0] && (a + b)[1..] == a[1..] + b;
      WithoutConcat(a[1..], b, ordinals);
    }
  }

  /** Removing one set of ordinals and then another is removing both. */
  lemma {:induction false} WithoutTwice(s: seq<CustomStep>, first: set<int>, second: set<int>)
    ensures WithoutOrdinals(WithoutOrdinals(s, first), second) == WithoutOrdinals(s, first + second)
  {
    if |s| > 0 {
      var head := if s[0].step.loadState in first then [] else [s[0]];
      WithoutTwice(s[1..], first, second);
      WithoutConcat(head, WithoutOrdinals(s[1..], first), second);
      if head != [] {
        assert [s[0]][1..] == [];
        assert WithoutOrdinals(head, second) == if s[0].step.loadState in second then [] else [s[0]];
      }
    }
  }

  /** Removing the ordinal of the one entry that has it closes the list up
      around that entry. */
  lemma {:induction false} WithoutOnly(s: seq<CustomStep>, f: nat)
    requires f < |s|
    requires forall j :: 0 <= j < |s| && j != f ==> s[j].step.loadState != s[f].step.loadState
    ensures WithoutOrdinals(s, {s[f].step.loadState}) == s[..f] + s[f + 1..]
  {
    var o := {s[f].step.loadState};
    if f == 0 {
      assert forall e :: e in s[1..] ==> e.step.loadState !in o;
      WithoutNothing(s[1..], o);
    } else {
      var tail := s[1..];
      assert tail[f - 1] == s[f];
      WithoutOnly(tail, f - 1);
      assert s[0].step.loadState !in o;
      assert WithoutOrdinals(s, o) == [s[0]] + (tail[..f - 1] + tail[f..]);
      assert [s[0]] + tail[..f - 1] == s[..f];
      assert tail[f..] == s[f + 1..];
    }
  }

  /** With distinct ordinals, removing the entry found for an ordinal keeps
      every other entry in its place. */
  lemma RemoveByOrdinalInOrder(s: seq<CustomStep>, ordinal: int)
    ensures DistinctOrdinals(s) ==> RemoveByOrdinal(s, ordinal) == WithoutOrdinals(s, {ordinal})
  {
    if DistinctOrdinals(s) {
      match FindFirst(s, (e: CustomStep) => e.step.loadState == ordinal)
      case None =>
        WithoutNothing(s, {ordinal});
      case Some(f) =>
        assert FirstWithStep(s, ordinal, f);
        WithoutOnly(s, f);
    }
  }

  /** The loop body of the prefix, over the whole chain: `Generate` for each
      step in order, then removal of its pending entry. */
  function GenerateChain(generators: map<string, Handler>, toGenerate: seq<CustomStep>, steps: seq<Step>): (r: Generated)
    ensures |r.trace| == |steps|
    ensures forall k :: 0 <= k < |steps| ==> r.trace[k] == Call(steps[k], Generate(generators, steps[k].name))
    ensures forall e :: e in r.toGenerate ==> e in toGenerate
    ensures DistinctOrdinals(toGenerate) ==>
              && DistinctOrdinals(r.toGenerate)
              && forall e :: e in r.toGenerate <==> e in toGenerate && e.step.loadState !in TraceOrdinals(r.trace)
    ensures DistinctOrdinals(toGenerate) ==> r.toGenerate == WithoutOrdinals(toGenerate, TraceOrdinals(r.trace))
    decreases |steps|
  {
    if |steps| == 0 then
      assert TraceOrdinals([]) == {};
      WithoutNothing(toGenerate, {});
      Generated(toGenerate, [])
    else
      var s := steps[0];
      var rest := GenerateChain(generators, RemoveByOrdinal(toGenerate, s.loadState), steps[1..]);
      var call := Call(s, Generate(generators, s.name));
      ChainStepPending(toGenerate, call, rest.trace, rest.toGenerate);
      Generated(rest.toGenerate, [call] + rest.trace)
  }

  /** One round of the prefix's loop on the pending list: if the rest of the
      chain leaves the list with its call ordinals removed in order, then
      so does the whole chain, this call's entry included. */
  lemma ChainStepPending(toGenerate: seq<CustomStep>, call: Call, restTrace: seq<Call>, restPending: seq<CustomStep>)
    requires var removed := RemoveByOrdinal(toGenerate, call.step.loadState);
             && (forall e :: e in restPending ==> e in removed)
             && (DistinctOrdinals(removed) ==>
                   DistinctOrdinals(restPending) && restPending == WithoutOrdinals(removed, TraceOrdinals(restTrace)))
    ensures forall e :: e in restPending ==> e in toGenerate
    ensures DistinctOrdinals(toGenerate) ==>
              && DistinctOrdinals(restPending)
              && forall e :: e in restPending <==> e in toGenerate && e.step.loadState !in TraceOrdinals([call] + restTrace)
    ensures DistinctOrdinals(toGenerate) ==> restPending == WithoutOrdinals(toGenerate, TraceOrdinals([call] + restTrace))
  {
    var o := call.step.loadState;
    assert TraceOrdinals([call] + restTrace) == {o} + TraceOrdinals(restTrace);
    RemoveByOrdinalDistinct(toGenerate, o);
    RemoveByOrdinalInOrder(toGenerate, o);
    WithoutTwice(toGenerate, {o}, TraceOrdinals(restTrace));
    RemoveByOrdinalShrinks(toGenerate, o);
    WithoutMembers(toGenerate, TraceOrdinals([call] + restTrace));
  }

  /** The injection branch of the prefix for the pending entry at `i`: the
      chain from its after-step is generated in order, and the load state is
      rewound to the after-step. */
  function Inject(generators: map<string, Handler>, toGenerate: seq<CustomStep>, h: Host, i: nat): (r: PrefixResult)
    requires i < |toGenerate| && EntriesAscend(toGenerate)
    ensures var chain := FindConsecutiveSteps(toGenerate, toGenerate[i].after);
            && |r.trace| == |chain|
            && forall k :: 0 <= k < |chain| ==> r.trace[k] == Call(chain[k], Generate(generators, chain[k].name))
    ensures r.host == h.(loadState := toGenerate[i].after.loadState) && r.state == h.loadState
  {
    var toInject := toGenerate[i];
    var chain := FindConsecutiveSteps(toGenerate, toInject.after);
    var g := GenerateChain(generators, toGenerate, chain);
    PrefixResult(h.(loadState := toInject.after.loadState), g.toGenerate, g.trace, h.loadState)
  }

  /** What an injection does to the pending list: every generated step was
      pending, the steps come in rising ordinal order, and with distinct
      ordinals the entries left pending are exactly those not generated. */
  lemma InjectUpdatesPending(generators: map<string, Handler>, toGenerate: seq<CustomStep>, h: Host, i: nat)
    requires i < |toGenerate| && EntriesAscend(toGenerate)
    ensures var r := Inject(generators, toGenerate, h, i);
            && (forall e :: e in r.toGenerate ==> e in toGenerate)
            && (forall k :: 0 <= k < |r.trace| ==> r.trace[k].step.loadState in Ordinals(toGenerate))
            && (forall a, b :: 0 <= a < b < |r.trace| ==> r.trace[a].step.loadState < r.trace[b].step.loadState)
            && (DistinctOrdinals(toGenerate) ==>
                  && DistinctOrdinals(r.toGenerate)
                  && r.toGenerate == WithoutOrdinals(toGenerate, TraceOrdinals(r.trace)))
  {
    var chain := FindConsecutiveSteps(toGenerate, toGenerate[i].after);
    var r := Inject(generators, toGenerate, h, i);
    assert r.toGenerate == GenerateChain(generators, toGenerate, chain).toGenerate;
    forall k | 0 <= k < |r.trace| ensures r.trace[k].step.loadState in Ordinals(toGenerate) {
      var e :| e in toGenerate && e.step == chain[k];
    }
  }

  /** `Prefix`: `__state` is always the incoming load state. When the guards
      pass and a pending entry has the current load state as its step, that
      entry (the first such) is injected; otherwise nothing changes. */
  function Prefix(nativeCount: int, generators: map<string, Handler>, toGenerate: seq<CustomStep>, h: Host): (r: PrefixResult)
    requires EntriesAscend(toGenerate)
    ensures r.state == h.loadState
    ensures !Intercepts(nativeCount, h) || h.loadState !in Ordinals(toGenerate) ==>
              r.host == h && r.toGenerate == toGenerate && r.trace == []
    ensures Intercepts(nativeCount, h) ==>
              forall i :: FirstWithStep(toGenerate, h.loadState, i) ==> r == Inject(generators, toGenerate, h, i)
  {
    var passThrough := PrefixResult(h, toGenerate, [], h.loadState);
    if !Intercepts(nativeCount, h) then passThrough
    else
      match FindFirst(toGenerate, (e: CustomStep) => e.step.loadState == h.loadState)
      case None => passThrough
      case Some(i) =>
        assert forall j :: FirstWithStep(toGenerate, h.loadState, j) ==> j == i;
        Inject(generators, toGenerate, h, i)
  }

  /** The pending-list facts of an injection hold of every prefix call. */
  lemma PrefixUpdatesPending(nativeCount: int, generators: map<string, Handler>, toGenerate: seq<CustomStep>, h: Host)
    requires EntriesAscend(toGenerate)
    ensures var r := Prefix(nativeCount, generators, toGenerate, h);
            && (forall e :: e in r.toGenerate ==> e in toGenerate)
            && (forall k :: 0 <= k < |r.trace| ==> r.trace[k].step.loadState in Ordinals(toGenerate))
            && (forall a, b :: 0 <= a < b < |r.trace| ==> r.trace[a].step.loadState < r.trace[b].step.loadState)
            && (DistinctOrdinals(toGenerate) ==>
                  && DistinctOrdinals(r.toGenerate)
                  && r.toGenerate == WithoutOrdinals(toGenerate, TraceOrdinals(r.trace)))
  {
    var k := FindFirst(toGenerate, (e: CustomStep) => e.step.loadState == h.loadState);
    if Intercepts(nativeCount, h) && k.Some? {
      assert FirstWithStep(toGenerate, h.loadState, k.value);
      InjectUpdatesPending(generators, toGenerate, h, k.value);
    } else {
      assert TraceOrdinals([]) == {};
      WithoutNothing(toGenerate, {});
    }
  }

  /** `Postfix`: no guards; if a pending entry is spliced after the load state
      the tick started from (`__state`), the load state becomes that entry's
      step; only the load state can change. */
  function Postfix(toGenerate: seq<CustomStep>, h: Host, state: int): (r: Host)
    ensures r == h.(loadState := r.loadState)
    ensures (forall i :: 0 <= i < |toGenerate| ==> toGenerate[i].after.loadState != state) ==> r == h
    ensures forall i :: FirstWithAfter(toGenerate, state, i) ==> r.loadState == toGenerate[i].step.loadState
  {
    match FindFirst(toGenerate, (e: CustomStep) => e.after.loadState == state)
    case None => h
    case Some(i) =>
      assert FirstWithAfter(toGenerate, state, i);
      h.(loadState := toGenerate[i].step.loadState)
  }

  /** One host tick: prefix, the host's own `Update`, postfix. The postfix
      sees the pending list as the prefix left it. */
  function Tick(nativeCount: int, generators: map<string, Handler>, toGenerate: seq<CustomStep>,
                h: Host, update: Host -> Host): (r: TickResult)
    requires EntriesAscend(toGenerate)
    ensures forall e :: e in r.toGenerate ==> e in toGenerate
    ensures EntriesAscend(r.toGenerate)
    ensures forall a, b :: 0 <= a < b < |r.trace| ==> r.trace[a].step.loadState < r.trace[b].step.loadState
    ensures DistinctOrdinals(toGenerate) ==> DistinctOrdinals(r.toGenerate) && Consumes(toGenerate, r.trace, r.toGenerate)
    ensures !Intercepts(nativeCount, h) ==>
              r.trace == [] && r.toGenerate == toGenerate && r.host == Postfix(toGenerate, update(h), h.loadState)
  {
    var p := Prefix(nativeCount, generators, toGenerate, h);
    PrefixUpdatesPending(nativeCount, generators, toGenerate, h);
    TickResult(Postfix(p.toGenerate, update(p.host), p.state), p.toGenerate, p.trace)
  }

  /** `after` is what is left of the pending list `before` once the calls
      of `trace` were made: each call was for a pending step, no ordinal was
      generated twice, and exactly the generated ordinals left the list, the
      remaining entries keeping their order. */
  ghost predicate Consumes(before: seq<CustomStep>, trace: seq<Call>, after: seq<CustomStep>) {
    && (forall k :: 0 <= k < |trace| ==> trace[k].step.loadState in Ordinals(before))
    && (forall a, b :: 0 <= a < b < |trace| ==> trace[a].step.loadState != trace[b].step.loadState)
    && after == WithoutOrdinals(before, TraceOrdinals(trace))
  }

  /** Consumption composes over consecutive stretches of ticks. */
  lemma ConsumesCompose(p0: seq<CustomStep>, t1: seq<Call>, p1: seq<CustomStep>, t2: seq<Call>, p2: seq<CustomStep>)
    requires Consumes(p0, t1, p1) && Consumes(p1, t2, p2)
    ensures Consumes(p0, t1 + t2, p2)
  {
    var trace := t1 + t2;
    assert TraceOrdinals(trace) == TraceOrdinals(t1) + TraceOrdinals(t2);
    WithoutTwice(p0, TraceOrdinals(t1), TraceOrdinals(t2));
    WithoutMembers(p0, TraceOrdinals(t1));
    forall k | 0 <= k < |t2|
      ensures t2[k].step.loadState in Ordinals(p0)
      ensures t2[k].step.loadState !in TraceOrdinals(t1)
    {
      assert t2[k].step.loadState in Ordinals(p1);
      var e :| e in p1 && e.step.loadState == t2[k].step.loadState;
      assert e in p0;
    }
    forall a, b | 0 <= a < b < |trace| ensures trace[a].step.loadState != trace[b].step.loadState {
      if b < |t1| {
        assert trace[a] == t1[a] && trace[b] == t1[b];
      } else if a < |t1| {
        assert trace[a] == t1[a] && trace[b] == t2[b - |t1|];
        assert trace[a] in t1;
      } else {
        assert trace[a] == t2[a - |t1|] && trace[b] == t2[b - |t1|];
      }
    }
    forall k | 0 <= k < |trace| ensures trace[k].step.loadState in Ordinals(p0) {
      if k >= |t1| {
        assert trace[k] == t2[k - |t1|];
      }
    }
  }

  /** Consumption composes whenever the first list has distinct ordinals,
      which is when the first stretch is known to consume. */
  lemma ConsumesComposeIfDistinct(p0: seq<CustomStep>, t1: seq<Call>, p1: seq<CustomStep>, t2: seq<Call>, p2: seq<CustomStep>)
    requires DistinctOrdinals(p0) ==> Consumes(p0, t1, p1)
    requires DistinctOrdinals(p0) ==> Consumes(p1, t2, p2)
    ensures DistinctOrdinals(p0) ==> Consumes(p0, t1 + t2, p2)
  {
    if DistinctOrdinals(p0) {
      ConsumesCompose(p0, t1, p1, t2, p2);
    }
  }

  /** The host's `Update` never switches generation on by itself. */
  ghost predicate NeverEnables(update: Host -> Host) {
    forall x: Host :: !x.generateNew ==> !update(x).generateNew
  }

  /** None of the updates of a run switches generation on by itself. */
  ghost predicate NoneEnables(updates: seq<Host -> Host>) {
    forall i :: 0 <= i < |updates| ==> NeverEnables(updates[i])
  }

  /** One host tick per element of `updates`, with the generator calls of
      all of them in order. The game's `Update` may behave differently on
      every tick (a background load task completing, state outside the
      modelled fields), so each tick has its own. */
  function Run(nativeCount: int, generators: map<string, Handler>, toGenerate: seq<CustomStep>,
               h: Host, updates: seq<Host -> Host>): (r: TickResult)
    requires EntriesAscend(toGenerate)
    ensures forall e :: e in r.toGenerate ==> e in toGenerate
    ensures DistinctOrdinals(toGenerate) ==> Consumes(toGenerate, r.trace, r.toGenerate)
    ensures !h.generateNew && NoneEnables(updates) ==>
              r.trace == [] && r.toGenerate == toGenerate && !r.host.generateNew
    decreases |updates|
  {
    if |updates| == 0 then
      assert TraceOrdinals([]) == {};
      WithoutNothing(toGenerate, {});
      TickResult(h, toGenerate, [])
    else
      var t := Tick(nativeCount, generators, toGenerate, h, updates[0]);
      var rest := Run(nativeCount, generators, t.toGenerate, t.host, updates[1..]);
      ConsumesComposeIfDistinct(toGenerate, t.trace, t.toGenerate, rest.trace, rest.toGenerate);
      TickResult(rest.host, rest.toGenerate, t.trace + rest.trace)
  }

  /** One tick with generation switched off leaves the pending list alone
      and only the host's `Update` can switch generation on. */
  lemma DisabledTick(nativeCount: int, generators: map<string, Handler>,
                     toGenerate: seq<CustomStep>, h: Host, update: Host -> Host)
    requires EntriesAscend(toGenerate) && !h.generateNew
    ensures var t := Tick(nativeCount, generators, toGenerate, h, update);
            t.trace == [] && t.toGenerate == toGenerate && t.host.generateNew == update(h).generateNew
  {
    assert !Intercepts(nativeCount, h);
  }

  /** The postfix has no guards of its own: even on a tick the prefix lets
      through untouched, a pending entry spliced after the starting load
      state redirects the host to that entry's step, whatever `Update` did. */
  lemma TickDetoursWithoutGuards(nativeCount: int, generators: map<string, Handler>, toGenerate: seq<CustomStep>,
                                 h: Host, update: Host -> Host, i: nat)
    requires EntriesAscend(toGenerate) && !Intercepts(nativeCount, h)
    requires FirstWithAfter(toGenerate, h.loadState, i)
    ensures Tick(nativeCount, generators, toGenerate, h, update).host == update(h).(loadState := toGenerate[i].step.loadState)
  {
  }
}
