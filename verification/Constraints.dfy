/** Task sets in which every task has an (m,k)-constraint. */
module Constraints {
  import opened MkPattern
  import opened MkWindow
  import opened Machine

  ghost predicate Constrained(model: Model) {
    !model.Periodic? && ValidMk(model.m, model.k)
  }

  ghost predicate AllConstrained(specs: seq<TaskSpec>) {
    forall i :: 0 <= i < |specs| ==> Constrained(specs[i].model)
  }

  /** The tasks whose cancellation hooks report the state of the window. */
  ghost predicate ReportWindow(specs: seq<TaskSpec>) {
    forall i :: 0 <= i < |specs| ==>
                  specs[i].model.Mk? || specs[i].model.Dbp? || (specs[i].model.Mkp? && specs[i].model.relaxed)
  }

  /** The m newest outcomes with which each monitor starts are successes. */
  ghost predicate NewestSuccesses(specs: seq<TaskSpec>) {
    forall i :: 0 <= i < |specs| && !specs[i].model.Periodic? ==> NewestSucceeded(specs[i].model.m, specs[i].initial)
  }
}
