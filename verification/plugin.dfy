/** Plugin.cs as a whole: what startup registers is what the per-tick
    splice consumes. */
module Plugin {
  import opened StepGraph
  import opened Generators
  import opened Chains
  import opened Interception

  /** A pending list produced by registration, complete or cut short, meets
      what the splice needs: every entry points backwards, so chains end,
      and no two entries share an ordinal. */
  lemma RegisteredListIsSpliceable(natives: seq<string>, decls: seq<Declaration>)
    ensures EntriesAscend(RegisterCustomStates(natives, decls).graph.toGenerate)
    ensures DistinctOrdinals(RegisterCustomStates(natives, decls).graph.toGenerate)
  {
    var cs := RegisterCustomStates(natives, decls).graph.customSteps;
    forall e | e in cs ensures e.after.loadState < e.step.loadState {
      var i :| 0 <= i < |cs| && cs[i] == e;
      AfterPrecedesStep(natives, cs, i);
    }
  }

  /** Startup followed by any number of host ticks, each with its own
      `Update`, with whatever generators the scan stored before it stopped:
      every generator call is for a registered custom step, no step is generated twice, and exactly
      the generated steps have left the pending list. */
  lemma EachStepGeneratedAtMostOnce(natives: seq<string>, decls: seq<Declaration>, methods: seq<GenerateMethod>,
                                    h: Host, updates: seq<Host -> Host>)
    ensures var pending := RegisterCustomStates(natives, decls).graph.toGenerate;
            EntriesAscend(pending)
            && Consumes(pending, Run(|natives|, RegisterStateGenerateMethods(methods).generators, pending, h, updates).trace,
                        Run(|natives|, RegisterStateGenerateMethods(methods).generators, pending, h, updates).toGenerate)
  {
    RegisteredListIsSpliceable(natives, decls);
  }
}
