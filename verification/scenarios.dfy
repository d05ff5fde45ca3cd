/** Concrete runs of the whole splice: registration from declarations, then
    host ticks with a host `Update` that simply moves on to the next native
    state. Natives are `A`, `B`, `C` with ordinals 0, 1, 2. */
module Scenarios {
  import opened Wrappers
  import opened Steps
  import opened StepGraph
  import opened Generators
  import opened Chains
  import opened Interception

  const natives: seq<string> := ["A", "B", "C"]

  const generators: map<string, Handler> := map["X" := "GenerateX", "Y" := "GenerateY"]

  /** The host's own `Update` in these runs: it processes the current state
      and advances both the cursor and the load state by one. */
  function Advance(x: Host): (r: Host)
    ensures r.loadState == x.loadState + 1 && r.loadCursor == x.loadCursor + 1
    ensures r.generateNew == x.generateNew
  {
    x.(loadCursor := x.loadCursor + 1, loadState := x.loadState + 1)
  }

  /** A new game at the first native state, with generation switched on. */
  const start: Host := Host(0, 0, true, true, false)

  const a: Step := Step("A", 0)
  const x: CustomStep := CustomStep(Step("X", 3), a)
  const y: CustomStep := CustomStep(Step("Y", 4), Step("X", 3))
  const yAfterA: CustomStep := CustomStep(Step("Y", 4), a)

  /** `X` after `A` gets the first ordinal past the natives. */
  lemma SingleRegistration()
    ensures RegisterCustomStates(natives, [Declaration("X", "A")]) == Registration(Graph([x], [x]), None)
  {
  }

  /** A first tick at `A` with nothing pending for `A` itself: the prefix
      lets the tick through, the host moves on, and the postfix redirects it
      to the first pending step spliced after `A`. */
  lemma DetourFromStart(pending: seq<CustomStep>)
    requires EntriesAscend(pending)
    requires |pending| > 0 && pending[0].after.loadState == 0 && 0 !in Ordinals(pending)
    ensures Tick(|natives|, generators, pending, start, Advance)
            == TickResult(start.(loadCursor := 1, loadState := pending[0].step.loadState), pending, [])
  {
    assert Prefix(|natives|, generators, pending, start) == PrefixResult(start, pending, [], 0);
    assert FirstWithAfter(pending, 0, 0);
  }

  /** First tick at `A`: nothing to inject, the host moves on, and the
      postfix redirects it to `X`, the step spliced after `A`. */
  lemma SingleFirstTick()
    ensures Tick(|natives|, generators, [x], start, Advance) == TickResult(start.(loadCursor := 1, loadState := 3), [x], [])
  {
    assert 0 !in Ordinals([x]);
    DetourFromStart([x]);
  }

  /** The chain from `A` with only `X` pending is `X` alone. */
  lemma SingleChain()
    ensures FindConsecutiveSteps([x], a) == [x.step]
  {
    assert BuildStepMap([x]) == map[a := x.step];
  }

  /** Prefix at `X`: generate `X`, drop it from the pending list, rewind
      the host to `A`, and hand `X`'s ordinal to the postfix. */
  lemma SinglePrefix()
    ensures var h := start.(loadCursor := 1, loadState := 3);
            Prefix(|natives|, generators, [x], h) == PrefixResult(h.(loadState := 0), [], [Call(x.step, Some("GenerateX"))], 3)
  {
    var h := start.(loadCursor := 1, loadState := 3);
    SingleChain();
    assert FirstWithStep([x], 3, 0);
    assert RemoveByOrdinal([x], 3) == [];
    assert GenerateChain(generators, [], []) == Generated([], []);
    assert GenerateChain(generators, [x], [x.step]) == Generated([], [Call(x.step, Some("GenerateX"))]);
    assert Inject(generators, [x], h, 0) == PrefixResult(h.(loadState := 0), [], [Call(x.step, Some("GenerateX"))], 3);
  }

  /** Second tick at `X`: after the prefix, the host moves on from `A` to
      `B`, and the postfix finds nothing spliced after `X`. `X` has been
      generated once and nothing is pending. */
  lemma SingleSecondTick()
    ensures Tick(|natives|, generators, [x], start.(loadCursor := 1, loadState := 3), Advance)
            == TickResult(start.(loadCursor := 2, loadState := 1), [], [Call(Step("X", 3), Some("GenerateX"))])
  {
    SinglePrefix();
  }

  /** `X` after `A` and `Y` after `X`: the ordinals follow declaration
      order, and `Y`'s after-step resolves to the custom step `X`. */
  lemma ChainRegistration()
    ensures RegisterCustomStates(natives, [Declaration("X", "A"), Declaration("Y", "X")]) == Registration(Graph([x, y], [x, y]), None)
  {
  }

  /** First tick at `A`: the postfix detours to `X`. */
  lemma ChainFirstTick()
    ensures Tick(|natives|, generators, [x, y], start, Advance) == TickResult(start.(loadCursor := 1, loadState := 3), [x, y], [])
  {
    assert 0 !in Ordinals([x, y]);
    DetourFromStart([x, y]);
  }

  /** The step map of `X` after `A` and `Y` after `X`. */
  lemma ChainStepMap()
    ensures BuildStepMap([x, y]) == map[a := x.step, x.step := y.step]
  {
    assert [x, y][1..] == [y];
  }

  /** The chain from `A` follows `X` and then `Y`. */
  lemma ChainChain()
    ensures FindConsecutiveSteps([x, y], a) == [x.step, y.step]
  {
    var m := map[a := x.step, x.step := y.step];
    ChainStepMap();
    assert Walk(m, y.step) == [];
    assert Walk(m, x.step) == [y.step];
  }

  /** Prefix at `X`: the whole chain `X`, `Y` is generated in one tick and
      both leave the pending list. */
  lemma ChainPrefix()
    ensures var h := start.(loadCursor := 1, loadState := 3);
            Prefix(|natives|, generators, [x, y], h)
              == PrefixResult(h.(loadState := 0), [], [Call(x.step, Some("GenerateX")), Call(y.step, Some("GenerateY"))], 3)
  {
    var h := start.(loadCursor := 1, loadState := 3);
    ChainInject();
    assert Intercepts(|natives|, h);
    assert FirstWithStep([x, y], 3, 0);
  }

  /** Injecting the pending entry `X` generates the chain from `A`. */
  lemma ChainInject()
    ensures var h := start.(loadCursor := 1, loadState := 3);
            Inject(generators, [x, y], h, 0)
              == PrefixResult(h.(loadState := 0), [], [Call(x.step, Some("GenerateX")), Call(y.step, Some("GenerateY"))], 3)
  {
    ChainChain();
    ChainGenerate();
  }

  /** Generating the chain `X`, `Y` calls both generators in order and
      empties the pending list. */
  lemma ChainGenerate()
    ensures GenerateChain(generators, [x, y], [x.step, y.step])
            == Generated([], [Call(x.step, Some("GenerateX")), Call(y.step, Some("GenerateY"))])
  {
    assert FirstWithStep([x, y], 3, 0);
    assert FirstWithStep([y], 4, 0);
    assert RemoveByOrdinal([x, y], 3) == [y];
    assert RemoveByOrdinal([y], 4) == [];
    assert [x.step, y.step][1..] == [y.step];
    assert GenerateChain(generators, [y], [y.step]) == Generated([], [Call(y.step, Some("GenerateY"))]);
  }

  /** Second tick at `X`: after the whole chain, the host moves on to `B`. */
  lemma ChainSecondTick()
    ensures Tick(|natives|, generators, [x, y], start.(loadCursor := 1, loadState := 3), Advance)
            == TickResult(start.(loadCursor := 2, loadState := 1), [], [Call(x.step, Some("GenerateX")), Call(y.step, Some("GenerateY"))])
  {
    ChainPrefix();
  }

  /** `X` and `Y` both after `A`. */
  lemma ForkRegistration()
    ensures RegisterCustomStates(natives, [Declaration("X", "A"), Declaration("Y", "A")]) == Registration(Graph([x, yAfterA], [x, yAfterA]), None)
  {
  }

  /** First tick at `A`: the postfix takes the first pending entry spliced
      after `A` and detours to `X`. */
  lemma ForkFirstTick()
    ensures Tick(|natives|, generators, [x, yAfterA], start, Advance) == TickResult(start.(loadCursor := 1, loadState := 3), [x, yAfterA], [])
  {
    assert 0 !in Ordinals([x, yAfterA]);
    DetourFromStart([x, yAfterA]);
  }

  /** The step map keeps the later entry for `A`, so the chain from `A` is
      `Y` alone. */
  lemma ForkChain()
    ensures FindConsecutiveSteps([x, yAfterA], a) == [yAfterA.step]
  {
    var m := BuildStepMap([x, yAfterA]);
    assert [x, yAfterA][1..] == [yAfterA];
    assert m == map[a := yAfterA.step];
    assert Walk(m, yAfterA.step) == [];
  }

  /** Prefix at `X`: the entry found is `X`, but the chain from its
      after-step generates `Y` only, so `X` stays pending. */
  lemma ForkPrefix()
    ensures var h := start.(loadCursor := 1, loadState := 3);
            Prefix(|natives|, generators, [x, yAfterA], h) == PrefixResult(h.(loadState := 0), [x], [Call(yAfterA.step, Some("GenerateY"))], 3)
  {
    var h := start.(loadCursor := 1, loadState := 3);
    ForkChain();
    assert FirstWithStep([x, yAfterA], 3, 0);
    assert FirstWithStep([x, yAfterA], 4, 1);
    assert RemoveByOrdinal([x, yAfterA], 4) == [x];
    assert GenerateChain(generators, [x], []) == Generated([x], []);
    assert GenerateChain(generators, [x, yAfterA], [yAfterA.step]) == Generated([x], [Call(yAfterA.step, Some("GenerateY"))]);
  }

  /** Second tick at `X`: `Y` has been generated, `X` is still pending, and
      the host has moved on to `B`, past the only step `X` is spliced after. */
  lemma ForkSecondTick()
    ensures Tick(|natives|, generators, [x, yAfterA], start.(loadCursor := 1, loadState := 3), Advance)
            == TickResult(start.(loadCursor := 2, loadState := 1), [x], [Call(yAfterA.step, Some("GenerateY"))])
  {
    ForkPrefix();
  }

  /** A declaration after a name that is neither native nor declared
      earlier aborts registration, keeping what was registered before it. */
  lemma UnknownAfterStep()
    ensures RegisterCustomStates(natives, [Declaration("X", "A"), Declaration("Y", "Z"), Declaration("W", "B")])
              == Registration(Graph([x], [x]), Some(StepNotFound("Z")))
  {
    assert RegisterOne(natives, Graph([], []), Declaration("X", "A")) == Success(Graph([x], [x]));
    assert GetLoadState([x], natives, "Z").Failure?;
  }

  /** A tagged method that cannot be bound as an `Action` stops the scan:
      the method for `X` found before it is kept, and the later method for
      `X` that would have overwritten it is never reached. */
  lemma UnbindableMethodStopsScan()
    ensures RegisterStateGenerateMethods([GenerateMethod("X", "GenerateX", true), GenerateMethod("Y", "GenerateY", false),
                                          GenerateMethod("X", "GenerateX2", true)])
            == GeneratorRegistration(map["X" := "GenerateX"], Some(NotAnAction("Y")))
  {
  }

  /** A generator is looked up by step name; a step without one is only
      reported. */
  lemma MissingGenerator()
    ensures Generate(generators, "X") == Some("GenerateX")
    ensures Generate(generators, "W") == None
  {
  }
}
