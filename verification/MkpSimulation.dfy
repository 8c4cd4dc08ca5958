/**
  The evaluation of one task set under fixed patterns (src/mkeval/mkpsimulation.cpp):
  the simulation is skipped when the sufficient test passes.
 */
module MkpSimulations {
  import opened TmsMath
  import opened Machine
  import opened MkpSoundness
  import opened Simulations

  /** The periods and the window lengths of the first n tasks. */
  ghost function PeriodsAndWindows(specs: seq<TaskSpec>, n: nat): seq<nat>
    requires Testable(specs) && n <= |specs|
  {
    if n == 0 then []
    else PeriodsAndWindows(specs, n - 1) + [specs[n - 1].period] + [specs[n - 1].model.k]
  }

  /** `calcFeasibilityPeriod`: the least common multiple of all periods and window lengths. */
  method CalcFeasibilityPeriod(specs: seq<TaskSpec>) returns (feasibilityPeriod: nat)
    requires Testable(specs)
    ensures LeastCommonMultiple(PeriodsAndWindows(specs, |specs|), feasibilityPeriod)
  {
    hide LeastMultiple, Divides, LeastCommonMultiple;
    feasibilityPeriod := 1;
    MultipleOfNothing();
    for i := 0 to |specs|
      invariant feasibilityPeriod > 0 && LeastCommonMultiple(PeriodsAndWindows(specs, i), feasibilityPeriod)
    {
      ghost var before := feasibilityPeriod;
      feasibilityPeriod := CalculateLcm(feasibilityPeriod, specs[i].period);
      ghost var between := feasibilityPeriod;
      feasibilityPeriod := CalculateLcm(feasibilityPeriod, specs[i].model.k);
      MultipleOfOneMore(PeriodsAndWindows(specs, i), before, specs[i].period, between);
      MultipleOfOneMore(PeriodsAndWindows(specs, i) + [specs[i].period], between, specs[i].model.k, feasibilityPeriod);
    }
  }

  /** What the evaluation is about: the verdict of the run over the feasibility period. */
  ghost predicate RunSucceeds(sys: System, feasibilityPeriod: nat)
    requires ValidSystem(sys)
  {
    RunFor(sys, Initial(sys), feasibilityPeriod).1
  }

  class MkpSimulation {
    const specs: seq<TaskSpec>
    const simulation: Simulation
    var feasibilityPeriod: nat
    var simulated: bool
    var success: bool
    var sTestSuccess: bool

    constructor (simulation: Simulation, specs: seq<TaskSpec>)
      requires specs == Specs(simulation.tasks) && Testable(specs)
      ensures this.simulation == simulation && this.specs == specs
      ensures !simulated && LeastCommonMultiple(PeriodsAndWindows(specs, |specs|), feasibilityPeriod)
    {
      this.simulation, this.specs := simulation, specs;
      simulated, success, sTestSuccess := false, false, false;
      var period := CalcFeasibilityPeriod(specs);
      feasibilityPeriod := period;
    }

    /**
      Decides whether the task set is schedulable. For task sets as the
      generator builds them the answer is always the one that the simulation
      gives, or would have given.
     */
    method Simulate() returns (r: bool)
      requires specs == Specs(simulation.tasks) && Testable(specs)
      requires simulation.Valid() && !simulation.finalised
      requires simulation.View() == Initial(simulation.Sys())
      modifies this, simulation, simulation.scheduler, simulation.scheduler.dlmon, simulation.scheduler.mySchedule
      modifies Footprints(simulation.tasks)
      ensures simulated && r == success && feasibilityPeriod == old(feasibilityPeriod)
      ensures sTestSuccess <==> PassesTest(specs)
      ensures sTestSuccess ==> simulation.View() == old(simulation.View())
      ensures !sTestSuccess ==> simulation.View() == RunFor(simulation.Sys(), Initial(simulation.Sys()), feasibilityPeriod).0
      ensures ValidSystem(simulation.Sys())
      ensures r <==> sTestSuccess || RunSucceeds(simulation.Sys(), feasibilityPeriod)
      ensures MkpSystem(simulation.Sys()) ==> (r <==> RunSucceeds(simulation.Sys(), feasibilityPeriod))
    {
      hide Simulation.View, Simulation.Plan, PassesTest, Testable, RunFor, RunSucceeds, MkpSystem, Specs, ValidSystem, Footprints, Simulation.Valid;
      var r', passed := Evaluate();
      Record(r', passed);
      return success;
    }

    /** The decision itself. */
    method Evaluate() returns (r: bool, passed: bool)
      requires specs == Specs(simulation.tasks) && Testable(specs)
      requires simulation.Valid() && !simulation.finalised
      requires simulation.View() == Initial(simulation.Sys())
      modifies simulation, simulation.scheduler, simulation.scheduler.dlmon, simulation.scheduler.mySchedule
      modifies Footprints(simulation.tasks)
      ensures feasibilityPeriod == old(feasibilityPeriod) && ValidTasks(simulation.tasks)
      ensures passed <==> PassesTest(specs)
      ensures passed ==> simulation.View() == old(simulation.View())
      ensures !passed ==> simulation.View() == RunFor(simulation.Sys(), Initial(simulation.Sys()), feasibilityPeriod).0
      ensures ValidSystem(simulation.Sys())
      ensures r <==> passed || RunSucceeds(simulation.Sys(), feasibilityPeriod)
      ensures MkpSystem(simulation.Sys()) ==> (r <==> RunSucceeds(simulation.Sys(), feasibilityPeriod))
    {
      SimulationFacts();
      hide Simulation.Valid, Simulation.View, Simulation.Plan, PassesTest, Testable, RunFor, RunSucceeds, MkpSystem, Specs, ValidSystem, Footprints;
      passed := Test();
      r := passed;
      if !r {
        r := RunPeriod();
      } else {
        TrustedTest(simulation.Sys(), feasibilityPeriod);
      }
    }

    /** The sufficient test, which does not touch the simulation. */
    method Test() returns (passed: bool)
      requires Testable(specs) && simulation.Valid() && ValidTasks(simulation.tasks)
      ensures simulation.Valid() && ValidTasks(simulation.tasks) && simulation.View() == old(simulation.View())
      ensures passed <==> PassesTest(specs)
    {
      hide Simulation.Valid, Simulation.View, Simulation.Plan, PassesTest, Testable, Footprints, ValidTasks;
      Allocated(simulation.tasks);
      passed := TestSufficientSchedulability(specs);
    }

    lemma SimulationFacts()
      requires simulation.Valid()
      ensures ValidSystem(simulation.Sys()) && simulation.Sys().specs == Specs(simulation.tasks)
      ensures ValidTasks(simulation.tasks)
      ensures this !in Footprints(simulation.tasks)
      ensures forall o :: o in Footprints(simulation.tasks) ==> allocated(o)
    {
      simulation.ValidFacts();
      NotShared();
      Allocated(simulation.tasks);
    }

    method RunPeriod() returns (r: bool)
      requires simulation.Valid() && !simulation.finalised
      requires simulation.View() == Initial(simulation.Sys())
      modifies simulation, simulation.scheduler, simulation.scheduler.dlmon, simulation.scheduler.mySchedule
      modifies Footprints(simulation.tasks)
      ensures feasibilityPeriod == old(feasibilityPeriod) && ValidTasks(simulation.tasks)
      ensures ValidSystem(simulation.Sys())
      ensures simulation.View() == RunFor(simulation.Sys(), Initial(simulation.Sys()), feasibilityPeriod).0
      ensures r <==> RunSucceeds(simulation.Sys(), feasibilityPeriod)
    {
      SimulationFacts();
      hide Simulation.Valid, Simulation.View, Simulation.Plan, RunFor, Specs, ValidSystem, Footprints;
      var ec := simulation.Run(feasibilityPeriod);
      simulation.ValidFacts();
      r := ec == Ended(0);
    }

    lemma NotShared()
      requires ValidTasks(simulation.tasks)
      ensures this !in Footprints(simulation.tasks)
    {
      forall i, o | 0 <= i < |simulation.tasks| && o in simulation.tasks[i].Footprint()
        ensures o != this
      {
        OwnObjects(simulation.tasks[i], o);
      }
    }

    method Record(r: bool, passed: bool)
      requires ValidTasks(simulation.tasks)
      modifies `success, `sTestSuccess, `simulated
      ensures simulated && success == r && sTestSuccess == passed
      ensures simulation.View() == old(simulation.View())
    {
      NotShared();
      hide Simulation.View, Footprints, Specs, Simulation.Plan, ValidTasks;
      Note(r, passed);
    }

    method Note(r: bool, passed: bool)
      modifies `success, `sTestSuccess, `simulated
      ensures simulated && success == r && sTestSuccess == passed
    {
      sTestSuccess, success, simulated := passed, r, true;
    }
  }

  /** A run that the test makes unnecessary would have succeeded. */
  lemma TrustedTest(sys: System, period: nat)
    requires ValidSystem(sys) && Testable(sys.specs) && PassesTest(sys.specs)
    ensures MkpSystem(sys) ==> RunFor(sys, Initial(sys), period).1
  {
    if MkpSystem(sys) {
      PassedTestNeverFails(sys, period);
    }
  }
}
