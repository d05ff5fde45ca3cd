/** Plugin.cs, callbacks: the name-to-generator dictionary filled from the
    `[GenerateState(name)]` methods, its cross-check against the registered
    custom steps, and the dispatch used while splicing. A generator body is
    opaque; it is identified by a handler name. */
module Generators {
  import opened Wrappers
  import opened Lists
  import opened Steps

  /** Identity of a generator method. */
  type Handler = string

  /** One `[GenerateState(stateName)]` method. `bindsAsAction` says whether
      `Delegate.CreateDelegate(typeof(Action), method)` accepts it: the scan
      also finds instance methods and methods of other shapes, and only a
      static, parameterless, void method binds. */
  datatype GenerateMethod = GenerateMethod(stateName: string, handler: Handler, bindsAsAction: bool)

  /** The exception that ends the scan: the method tagged for this state
      name cannot be bound as an `Action`. */
  datatype BindError = NotAnAction(stateName: string)

  /** The generator dictionary after the scan, and the exception that cut it
      short, if any. */
  datatype GeneratorRegistration = GeneratorRegistration(generators: map<string, Handler>, error: Option<BindError>)

  /** The outcome of validation: custom steps with and without a generator. */
  datatype Validation = Validation(found: seq<CustomStep>, notFound: seq<CustomStep>)

  /** The state names the methods are registered under. */
  function StateNames(methods: seq<GenerateMethod>): (r: set<string>) {
    set m | m in methods :: m.stateName
  }

  /** How many of the methods, from the front, bind as an `Action`: the scan
      gets that far before the first exception. */
  function LeadingBindable(methods: seq<GenerateMethod>): (r: nat)
    ensures r <= |methods|
    ensures forall j :: 0 <= j < r ==> methods[j].bindsAsAction
    ensures r < |methods| ==> !methods[r].bindsAsAction
  {
    if |methods| == 0 || !methods[0].bindsAsAction then 0
    else 1 + LeadingBindable(methods[1..])
  }

  /** Every method stored under its state name, a later method overwriting
      an earlier one. */
  function StoreAll(methods: seq<GenerateMethod>): (r: map<string, Handler>)
    ensures r.Keys == StateNames(methods)
  {
    if |methods| == 0 then map[]
    else
      var n := |methods| - 1;
      var last, prefix := methods[n], methods[..n];
      assert methods == prefix + [last];
      assert StateNames(methods) == StateNames(prefix) + {last.stateName};
      StoreAll(prefix)[last.stateName := last.handler]
  }

  /** The overwriting store keeps, for a name, the last method carrying it. */
  lemma {:induction false} StoreAllLastWins(methods: seq<GenerateMethod>, i: nat)
    requires i < |methods|
    requires forall j :: i < j < |methods| ==> methods[j].stateName != methods[i].stateName
    ensures StoreAll(methods)[methods[i].stateName] == methods[i].handler
  {
    var n := |methods| - 1;
    if i < n {
      var prefix, last := methods[..n], methods[n];
      assert forall j :: i < j < n ==> prefix[j] == methods[j];
      StoreAllLastWins(prefix, i);
      var m := StoreAll(prefix);
      assert StoreAll(methods) == m[last.stateName := last.handler];
      assert last.stateName != methods[i].stateName;
    }
  }

  /** `RegisterStateGenerateMethods`: the discovered methods are stored in
      order under their state names, a later method overwriting an earlier
      one, until the first that does not bind as an `Action` throws. What was
      stored before the throw stays in the dictionary, which the already
      applied patch goes on using. */
  function RegisterStateGenerateMethods(methods: seq<GenerateMethod>): (r: GeneratorRegistration)
    ensures r.generators.Keys == StateNames(methods[..LeadingBindable(methods)])
    ensures r.error.None? <==> forall j :: 0 <= j < |methods| ==> methods[j].bindsAsAction
    ensures r.error.Some? ==> LeadingBindable(methods) < |methods|
                              && r.error.value == NotAnAction(methods[LeadingBindable(methods)].stateName)
  {
    var k := LeadingBindable(methods);
    GeneratorRegistration(StoreAll(methods[..k]), if k == |methods| then None else Some(NotAnAction(methods[k].stateName)))
  }

  /** Last write wins: a method the scan reaches, whose state name no later
      method reached by the scan reuses, is the handler the dictionary ends
      up holding for that name. */
  lemma LastRegistrationWins(methods: seq<GenerateMethod>, i: nat)
    requires i < LeadingBindable(methods)
    requires forall j :: i < j < LeadingBindable(methods) ==> methods[j].stateName != methods[i].stateName
    ensures RegisterStateGenerateMethods(methods).generators[methods[i].stateName] == methods[i].handler
  {
    var k := LeadingBindable(methods);
    var stored := methods[..k];
    assert forall j :: i <= j < k ==> stored[j] == methods[j];
    StoreAllLastWins(stored, i);
  }

  /** `ValidateStateGenerateMethods`: the custom steps split by whether a
      generator is registered under the step's name. */
  function ValidateStateGenerateMethods(customSteps: seq<CustomStep>, generators: map<string, Handler>): (r: Validation)
    ensures forall i :: 0 <= i < |r.found| ==> r.found[i] in customSteps && r.found[i].step.name in generators
    ensures forall i :: 0 <= i < |r.notFound| ==> r.notFound[i] in customSteps && r.notFound[i].step.name !in generators
    ensures forall i :: 0 <= i < |customSteps| ==> customSteps[i] in r.found || customSteps[i] in r.notFound
    ensures multiset(r.found) + multiset(r.notFound) == multiset(customSteps)
  {
    var has := (c: CustomStep) => c.step.name in generators;
    var lacks := (c: CustomStep) => c.step.name !in generators;
    FilterPartition(customSteps, has, lacks);
    Validation(Filter(customSteps, has), Filter(customSteps, lacks))
  }

  /** Validation raises its warning exactly when some custom step has no
      generator. */
  predicate MissingGeneratorWarning(v: Validation) {
    |v.notFound| > 0
  }

  /** `Generate`: the handler run for a step name, or `None` on the path that
      only logs an error because no generator is registered. */
  function Generate(generators: map<string, Handler>, stateName: string): (r: Option<Handler>)
    ensures r.None? <==> stateName !in generators
    ensures r.Some? ==> r.value == generators[stateName]
  {
    if stateName in generators then Some(generators[stateName]) else None
  }

  /** After registration, `Generate` for a name runs the last method
      registered under it. */
  lemma GenerateRunsLastRegistered(methods: seq<GenerateMethod>, i: nat)
    requires i < LeadingBindable(methods)
    requires forall j :: i < j < LeadingBindable(methods) ==> methods[j].stateName != methods[i].stateName
    ensures Generate(RegisterStateGenerateMethods(methods).generators, methods[i].stateName) == Some(methods[i].handler)
  {
    LastRegistrationWins(methods, i);
  }

  /** After registration, `Generate` runs nothing exactly for the names no
      method reached by the scan was registered under; with every method
      bindable, those are the names no method carries. */
  lemma GenerateWithoutMethod(methods: seq<GenerateMethod>, stateName: string)
    ensures Generate(RegisterStateGenerateMethods(methods).generators, stateName).None?
            <==> stateName !in StateNames(methods[..LeadingBindable(methods)])
    ensures (forall j :: 0 <= j < |methods| ==> methods[j].bindsAsAction) ==>
              (Generate(RegisterStateGenerateMethods(methods).generators, stateName).None? <==> stateName !in StateNames(methods))
  {
    if forall j :: 0 <= j < |methods| ==> methods[j].bindsAsAction {
      assert LeadingBindable(methods) == |methods|;
      assert methods[..|methods|] == methods;
    }
  }

  /** A step is on both sides of the validation split only if it is not
      there at all: the two parts are disjoint. */
  lemma ValidationDisjoint(customSteps: seq<CustomStep>, generators: map<string, Handler>, c: CustomStep)
    ensures var v := ValidateStateGenerateMethods(customSteps, generators);
            !(c in v.found && c in v.notFound)
  {
  }

  /** The warning is raised exactly when some custom step's name has no
      generator, and then `Generate` for that name runs nothing. */
  lemma {:induction false} WarningIffMissing(customSteps: seq<CustomStep>, generators: map<string, Handler>)
    ensures MissingGeneratorWarning(ValidateStateGenerateMethods(customSteps, generators))
            <==> exists i :: 0 <= i < |customSteps| && Generate(generators, customSteps[i].step.name).None?
  {
    var v := ValidateStateGenerateMethods(customSteps, generators);
    if |v.notFound| > 0 {
      assert v.notFound[0] in customSteps;
      var i :| 0 <= i < |customSteps| && customSteps[i] == v.notFound[0];
      assert Generate(generators, customSteps[i].step.name).None?;
    }
  }
}
