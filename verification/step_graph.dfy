/** Plugin.cs, startup: building the list of custom steps from the ordered
    `(stepName, afterStepName)` declarations, and resolving a step name to its
    load state. The host's native enumeration is a sequence of names whose
    index is the ordinal, so the native count N is its length. */
module StepGraph {
  import opened Wrappers
  import opened Lists
  import opened Steps

  /** One `[CustomState(stepName, afterStepName)]` declaration. */
  datatype Declaration = Declaration(stepName: string, afterStepName: string)

  /** The exception `GetLoadState` throws for a name it cannot resolve. */
  datatype LookupError = StepNotFound(name: string)

  /** The plugin's two step lists: every registered splice, and those still
      waiting to be generated. */
  datatype Graph = Graph(customSteps: seq<CustomStep>, toGenerate: seq<CustomStep>)

  /** What startup registration leaves behind: the lists as filled so far and
      the exception, if one aborted it. */
  datatype Registration = Registration(graph: Graph, error: Option<LookupError>)

  /** `GetLoadState`: the first custom step with this name wins; otherwise the
      native name's ordinal; otherwise the lookup throws. */
  function GetLoadState(customSteps: seq<CustomStep>, natives: seq<string>, name: string): (r: Result<int, LookupError>)
    ensures r.Failure? <==> (forall i :: 0 <= i < |customSteps| ==> customSteps[i].step.name != name) && name !in natives
    ensures r.Failure? ==> r.error == StepNotFound(name)
  {
    match FindFirst(customSteps, (c: CustomStep) => c.step.name == name)
    case Some(i) => Success(customSteps[i].step.loadState)
    case None =>
      match FindFirst(natives, (n: string) => n == name)
      case Some(k) => Success(k)
      case None => Failure(StepNotFound(name))
  }

  /** A custom step shadows everything after it: the first custom step with
      the name is what the lookup resolves to. */
  lemma GetLoadStateFirstCustom(customSteps: seq<CustomStep>, natives: seq<string>, name: string, i: nat)
    requires i < |customSteps| && customSteps[i].step.name == name
    requires forall j :: 0 <= j < i ==> customSteps[j].step.name != name
    ensures GetLoadState(customSteps, natives, name) == Success(customSteps[i].step.loadState)
  {
    var k := FindFirst(customSteps, (c: CustomStep) => c.step.name == name);
    assert k == Some(i);
  }

  /** With no custom step of that name, a native name resolves to its first
      index in the native enumeration. */
  lemma GetLoadStateNative(customSteps: seq<CustomStep>, natives: seq<string>, name: string)
    requires forall i :: 0 <= i < |customSteps| ==> customSteps[i].step.name != name
    requires name in natives
    ensures var r := GetLoadState(customSteps, natives, name);
            r.Success? && 0 <= r.value < |natives| && natives[r.value] == name && name !in natives[..r.value]
  {
    var k := FindFirst(natives, (n: string) => n == name);
    assert FindFirst(customSteps, (c: CustomStep) => c.step.name == name).None?;
    assert name !in natives[..k.value] by {
      forall j | 0 <= j < k.value ensures natives[..k.value][j] != name { assert natives[..k.value][j] == natives[j]; }
    }
  }

  /** The registration invariant: the k-th custom step has ordinal N + k, and
      its after-step is exactly what `GetLoadState` resolved from the steps
      registered before it. */
  ghost predicate WellFormed(natives: seq<string>, cs: seq<CustomStep>) {
    forall i :: 0 <= i < |cs| ==>
      && cs[i].step.loadState == |natives| + i
      && GetLoadState(cs[..i], natives, cs[i].after.name) == Success(cs[i].after.loadState)
  }

  /** One declaration: a new step with the next ordinal, spliced after the
      resolved step, appended to both lists. */
  function RegisterOne(natives: seq<string>, g: Graph, d: Declaration): (r: Result<Graph, LookupError>)
    ensures r.Failure? <==> GetLoadState(g.customSteps, natives, d.afterStepName).Failure?
    ensures r.Failure? ==> r.error == StepNotFound(d.afterStepName)
    ensures r.Success? ==>
              && |r.value.customSteps| == |g.customSteps| + 1
              && r.value.customSteps[..|g.customSteps|] == g.customSteps
              && r.value.toGenerate == g.toGenerate + [r.value.customSteps[|g.customSteps|]]
              && r.value.customSteps[|g.customSteps|].step == Step(d.stepName, |natives| + |g.customSteps|)
              && r.value.customSteps[|g.customSteps|].after.name == d.afterStepName
  {
    var step := Step(d.stepName, |natives| + |g.customSteps|);
    match GetLoadState(g.customSteps, natives, d.afterStepName)
    case Failure(e) => Failure(e)
    case Success(afterState) =>
      var entry := CustomStep(step, Step(d.afterStepName, afterState));
      Success(Graph(g.customSteps + [entry], g.toGenerate + [entry]))
  }

  /** `entries` were created, in order, from the leading declarations of
      `decls`: same step name, same after-step name. */
  ghost predicate Declares(entries: seq<CustomStep>, decls: seq<Declaration>) {
    && |entries| <= |decls|
    && forall k :: 0 <= k < |entries| ==>
         entries[k].step.name == decls[k].stepName && entries[k].after.name == decls[k].afterStepName
  }

  lemma DeclaresCons(e: CustomStep, entries: seq<CustomStep>, d: Declaration, decls: seq<Declaration>)
    requires e.step.name == d.stepName && e.after.name == d.afterStepName
    requires Declares(entries, decls)
    ensures Declares([e] + entries, [d] + decls)
  {
    forall k | 0 < k < |entries| + 1
      ensures ([e] + entries)[k] == entries[k - 1] && ([d] + decls)[k] == decls[k - 1]
    {
    }
  }

  /** A successful declaration appends one entry, with the next ordinal and
      the declared names, and keeps the registration invariant. */
  lemma RegisterOneKeepsWellFormed(natives: seq<string>, g: Graph, d: Declaration)
    requires WellFormed(natives, g.customSteps) && g.toGenerate == g.customSteps
    requires RegisterOne(natives, g, d).Success?
    ensures var g' := RegisterOne(natives, g, d).value;
            && g'.toGenerate == g'.customSteps
            && WellFormed(natives, g'.customSteps)
            && |g'.customSteps| == |g.customSteps| + 1
            && g.customSteps <= g'.customSteps
            && g'.customSteps[|g.customSteps|].step.name == d.stepName
            && g'.customSteps[|g.customSteps|].after.name == d.afterStepName
  {
    var cs, n := g.customSteps, |g.customSteps|;
    var afterState := GetLoadState(cs, natives, d.afterStepName).value;
    var entry := CustomStep(Step(d.stepName, |natives| + n), Step(d.afterStepName, afterState));
    var cs' := cs + [entry];
    assert RegisterOne(natives, g, d).value == Graph(cs', cs');
    forall i | 0 <= i < |cs'|
      ensures cs'[i].step.loadState == |natives| + i
      ensures GetLoadState(cs'[..i], natives, cs'[i].after.name) == Success(cs'[i].after.loadState)
    {
      if i < n {
        assert cs'[..i] == cs[..i] && cs'[i] == cs[i];
      } else {
        assert cs'[..i] == cs && cs'[i] == entry;
      }
    }
  }

  /** The declarations processed in order from graph `g`; the first one that
      does not resolve stops registration and is reported. */
  function RegisterFrom(natives: seq<string>, g: Graph, decls: seq<Declaration>): (r: Registration)
    requires g.toGenerate == g.customSteps
    ensures r.graph.toGenerate == r.graph.customSteps
    ensures g.customSteps <= r.graph.customSteps
    ensures |r.graph.customSteps| <= |g.customSteps| + |decls|
    decreases |decls|
  {
    if |decls| == 0 then Registration(g, None)
    else
      match RegisterOne(natives, g, decls[0])
      case Failure(e) => Registration(g, Some(e))
      case Success(g') => RegisterFrom(natives, g', decls[1..])
  }

  /** Registration from a well-formed graph keeps it well-formed. */
  lemma {:induction false} RegisterFromKeepsWellFormed(natives: seq<string>, g: Graph, decls: seq<Declaration>)
    requires WellFormed(natives, g.customSteps) && g.toGenerate == g.customSteps
    ensures WellFormed(natives, RegisterFrom(natives, g, decls).graph.customSteps)
    decreases |decls|
  {
    if |decls| > 0 && RegisterOne(natives, g, decls[0]).Success? {
      RegisterOneKeepsWellFormed(natives, g, decls[0]);
      RegisterFromKeepsWellFormed(natives, RegisterOne(natives, g, decls[0]).value, decls[1..]);
    }
  }

  /** The entries appended are the leading declarations, in order. */
  lemma {:induction false} RegisterFromDeclares(natives: seq<string>, g: Graph, decls: seq<Declaration>)
    requires g.toGenerate == g.customSteps
    ensures Declares(RegisterFrom(natives, g, decls).graph.customSteps[|g.customSteps|..], decls)
    decreases |decls|
  {
    var r := RegisterFrom(natives, g, decls);
    var n := |g.customSteps|;
    if |decls| == 0 || RegisterOne(natives, g, decls[0]).Failure? {
      assert r.graph.customSteps[n..] == [];
    } else {
      var g' := RegisterOne(natives, g, decls[0]).value;
      var e := g'.customSteps[n];
      assert e.step.name == decls[0].stepName && e.after.name == decls[0].afterStepName;
      RegisterFromDeclares(natives, g', decls[1..]);
      var cs := RegisterFrom(natives, g', decls[1..]).graph.customSteps;
      assert cs[n..] == [e] + cs[n + 1..];
      DeclaresCons(e, cs[n + 1..], decls[0], decls[1..]);
      assert [decls[0]] + decls[1..] == decls;
    }
  }

  /** Registration completes exactly when no declaration fails. */
  lemma {:induction false} RegisterFromCompletes(natives: seq<string>, g: Graph, decls: seq<Declaration>)
    requires g.toGenerate == g.customSteps
    ensures var r := RegisterFrom(natives, g, decls);
            r.error.None? <==> |r.graph.customSteps| == |g.customSteps| + |decls|
    decreases |decls|
  {
    if |decls| > 0 {
      match RegisterOne(natives, g, decls[0])
      case Failure(e) =>
        assert RegisterFrom(natives, g, decls) == Registration(g, Some(e));
      case Success(g') =>
        assert RegisterFrom(natives, g, decls) == RegisterFrom(natives, g', decls[1..]);
        RegisterFromCompletes(natives, g', decls[1..]);
    }
  }

  /** Registration stops exactly at the first declaration whose after-name
      does not resolve against the steps registered so far, and reports it. */
  lemma {:induction false} RegisterFromStopsAtFailure(natives: seq<string>, g: Graph, decls: seq<Declaration>)
    requires g.toGenerate == g.customSteps
    ensures var r := RegisterFrom(natives, g, decls);
            r.error.Some? ==>
              && |g.customSteps| <= |r.graph.customSteps| < |g.customSteps| + |decls|
              && var d := decls[|r.graph.customSteps| - |g.customSteps|];
                 && r.error.value == StepNotFound(d.afterStepName)
                 && GetLoadState(r.graph.customSteps, natives, d.afterStepName).Failure?
    decreases |decls|
  {
    if |decls| > 0 {
      match RegisterOne(natives, g, decls[0])
      case Failure(e) =>
        assert RegisterFrom(natives, g, decls) == Registration(g, Some(e));
      case Success(g') =>
        var r := RegisterFrom(natives, g', decls[1..]);
        assert RegisterFrom(natives, g, decls) == r;
        assert |g'.customSteps| == |g.customSteps| + 1;
        RegisterFromStopsAtFailure(natives, g', decls[1..]);
        if r.error.Some? {
          var k := |r.graph.customSteps| - |g'.customSteps|;
          var d := decls[k + 1];
          assert decls[1..][k] == d;
        }
    }
  }

  /** `RegisterCustomStates` over an explicit, ordered declaration list,
      starting from the empty lists that plugin loading creates. */
  function RegisterCustomStates(natives: seq<string>, decls: seq<Declaration>): (r: Registration)
    ensures r.graph.toGenerate == r.graph.customSteps
    ensures WellFormed(natives, r.graph.customSteps)
    ensures Declares(r.graph.customSteps, decls)
    ensures forall k :: 0 <= k < |r.graph.customSteps| ==> r.graph.customSteps[k].step.loadState == |natives| + k
    ensures r.error.None? <==> |r.graph.customSteps| == |decls|
    ensures r.error.Some? ==>
              var d := decls[|r.graph.customSteps|];
              && r.error.value == StepNotFound(d.afterStepName)
              && GetLoadState(r.graph.customSteps, natives, d.afterStepName).Failure?
  {
    var empty := Graph([], []);
    RegisterFromKeepsWellFormed(natives, empty, decls);
    RegisterFromDeclares(natives, empty, decls);
    RegisterFromCompletes(natives, empty, decls);
    RegisterFromStopsAtFailure(natives, empty, decls);
    var r := RegisterFrom(natives, empty, decls);
    assert r.graph.customSteps[0..] == r.graph.customSteps;
    r
  }

  /** Every registered splice points backwards: the after-step's ordinal is
      below the step's own, so the after-relation has no cycle. */
  lemma {:induction false} AfterPrecedesStep(natives: seq<string>, cs: seq<CustomStep>, i: nat)
    requires WellFormed(natives, cs) && i < |cs|
    ensures cs[i].after.loadState < cs[i].step.loadState
    ensures 0 <= cs[i].after.loadState
  {
    var prior := cs[..i];
    var name := cs[i].after.name;
    match FindFirst(prior, (c: CustomStep) => c.step.name == name)
    case Some(j) =>
      assert prior[j] == cs[j];
    case None =>
  }

  /** Ordinals of registered steps are pairwise distinct. */
  lemma OrdinalsDistinct(natives: seq<string>, cs: seq<CustomStep>, i: nat, j: nat)
    requires WellFormed(natives, cs) && i < j < |cs|
    ensures cs[i].step.loadState != cs[j].step.loadState
  {
  }

  /** A declaration whose after-name is neither native nor declared earlier in
      the list aborts registration at or before that declaration. */
  lemma ForwardReferenceFails(natives: seq<string>, decls: seq<Declaration>, k: nat)
    requires k < |decls|
    requires decls[k].afterStepName !in natives
    requires forall j :: 0 <= j < k ==> decls[j].stepName != decls[k].afterStepName
    ensures RegisterCustomStates(natives, decls).error.Some?
    ensures |RegisterCustomStates(natives, decls).graph.customSteps| <= k
  {

  }
}
