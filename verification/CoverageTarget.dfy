/** The fuzzer's corpus behind the feature collection of the tracer: no hypothesis about repeated features is left. */
module CoverageTarget {
  import opened Collections
  import opened FeatureSlots
  import opened Frequencies
  import opened InputModel
  import opened Widths
  import Features
  import TracePCs

  /** What the tracer holds when an input has run. */
  type Executor = Data -> Features.Snapshot

  /** The callback gets what `CollectFeatures` reports, cut to 32 bits, and the feature numbers fit in them. */
  ghost predicate CollectedFrom(target: Target, execute: Executor) {
    forall u | target(u).Some? ::
      var snapshot := execute(u);
      && Features.Valid(snapshot) && Features.Total(snapshot) <= U32
      && target(u).value == TracePCs.Cut(Features.Reported(snapshot))
  }

  lemma CollectedOnce(target: Target, execute: Executor)
    requires CollectedFrom(target, execute)
    ensures ReportsOnce(target)
  {
    hide Features.Reported, Features.Total, Features.Valid;
    forall u | target(u).Some? ensures NoDuplicates(target(u).value) {
      TracePCs.CutFits(execute(u));
    }
  }

  /** One run on a target whose features are collected. */
  lemma CollectedRunOneInv(st: State, opts: Options, target: Target, execute: Executor,
                           ii: int, data: Data, force: bool, traced: bool)
    requires CollectedFrom(target, execute)
    requires Inv(st, target) && -1 <= ii < |st.infos| && data != [] && target(data).Some?
    ensures var features := target(data).value;
            && CanVisit(st, opts, ii, features, |data|, |features|)
            && var st' := RunOne(st, opts, ii, data, features, force, traced).0;
            && Inv(st', target) && |st'.infos| >= |st.infos|
            && forall i | 0 <= i < |st.infos| ::
                 || st'.infos[i].u == st.infos[i].u
                 || (st'.infos[i].u == [] && st'.infos[i].numFeatures == 0)
                 || (i == ii && st'.infos[i].u == data && |data| < |st.infos[i].u|
                     && Elements(st.infos[i].uniq) <= Elements(features))
  {
    hide Inv, CanVisit, RunOne;
    CollectedOnce(target, execute);
    RunOneInv(st, opts, target, ii, data, target(data).value, force, traced);
  }

  /** Every sequence of runs keeps the corpus consistent and the frequencies conserved, and no assertion of the
      next run fails. */
  lemma CollectedReachable(calls: seq<Call>, states: seq<State>, opts: Options, target: Target, execute: Executor,
                           k: nat, s: nat, next: Call)
    requires CollectedFrom(target, execute) && IsRun(calls, states, opts, target) && k <= |calls| && s < FEATURE_SET_SIZE
    ensures Inv(states[k], target)
    ensures var e := states[k].entropy; |e.global| == FEATURE_SET_SIZE && TotalCount(e.lists, s) <= e.global[s]
    ensures -1 <= next.ii < |states[k].infos| && next.data != [] && target(next.data).Some? ==>
              var features := target(next.data).value;
              CanVisit(states[k], opts, next.ii, features, |next.data|, |features|)
  {
    hide Inv, CanVisit, Makes;
    CollectedOnce(target, execute);
    ReachableInv(calls, states, opts, target, k);
    FrequenciesConserved(calls, states, opts, target, k, s);
    if -1 <= next.ii < |states[k].infos| && next.data != [] && target(next.data).Some? {
      CollectedRunOneInv(states[k], opts, target, execute, next.ii, next.data, next.force, next.traced);
    }
  }
}
