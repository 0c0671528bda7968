/** At most one running download of a model. */
module DownloadUnique {
  // The steps that break it, and the runs that keep it.

  import opened DownloadProofs
  import opened DownloadProtocol
  import opened DownloadTheorems
  import opened Wrappers

  /** No two running downloads are of one model. */
  ghost predicate Unique(s: State) {
    forall t: nat, u: nat :: !Duplicated(s, t, u)
  }

  predicate Running(s: State, name: string) {
    exists t :: 0 <= t < |s.tasks| && s.tasks[t].status == Downloading && s.tasks[t].name == name
  }

  /** New model info for a model with a running download that is no longer tracked. */
  predicate StartsTwin(s: State, e: Event) {
    && e.InfoArrives? && e.info.NewInfo? && e.request < |s.names|
    && Running(s, s.names[e.request]) && !CanMerge(s, s.names[e.request])
  }

  /** From a state with at most one running download for each model, a step leads to another
      exactly when it does not start a twin. */
  lemma {:induction false} UniqueExact(s: State, budget: int, e: Event)
    requires Inv(s, budget) && Enabled(s, e) && Unique(s)
    ensures Unique(Next(s, e)) <==> !StartsTwin(s, e)
  {
    if e.InfoArrives? {
      ArriveUnique(s, e.request, e.info);
    } else if e.DownloadEnds? {
      EndEffect(s, e.task, e.fetched);
      FewerRunning(s, Next(s, e));
    } else {
      FewerRunning(s, Next(s, e));
    }
  }

  /** The tasks are the same, but some may have been completed. */
  ghost predicate Fewer(s: State, u: State) {
    && |u.tasks| == |s.tasks|
    && (forall t :: 0 <= t < |s.tasks| && u.tasks[t].status == Downloading ==>
          s.tasks[t].status == Downloading && u.tasks[t].name == s.tasks[t].name)
  }

  lemma {:induction false} FewerRunning(s: State, u: State)
    requires Fewer(s, u) && Unique(s)
    ensures Unique(u)
  {
    forall t: nat, v: nat ensures !Duplicated(u, t, v) {
      assert !Duplicated(s, t, v);
    }
  }

  lemma {:induction false} ArriveUnique(s: State, r: nat, info: InfoResult)
    requires Enabled(s, InfoArrives(r, info)) && TasksStarted(s) && Unique(s)
    ensures Unique(Arrive(s, r, info)) <==> !StartsTwin(s, InfoArrives(r, info))
  {
    var t := s.(awaiting := s.awaiting - multiset{r});
    FewerRunning(s, t);
    if info.NewInfo? {
      StartUnique(t, r, s.names[r], info.hash);
    } else {
      FewerRunning(s, Arrive(s, r, info));
    }
  }

  lemma {:induction false} StartUnique(s: State, r: nat, name: string, hash: string)
    requires TasksStarted(s) && Unique(s)
    ensures Unique(Start(s, r, name, hash)) <==> !(Running(s, name) && !CanMerge(s, name))
  {
    var u := Start(s, r, name, hash);
    if CanMerge(s, name) {
      FewerRunning(s, u);
    } else if Running(s, name) {
      var t :| 0 <= t < |s.tasks| && s.tasks[t].status == Downloading && s.tasks[t].name == name;
      assert Duplicated(u, t, |s.tasks|);
    } else {
      forall t: nat, v: nat ensures !Duplicated(u, t, v) {
        assert !Duplicated(s, t, v);
      }
    }
  }

  // ---------------------------------------------------------------- runs

  /** Every state of the run satisfies Unique. */
  ghost predicate AlwaysUnique(s: State, events: seq<Event>)
    decreases |events|
  {
    Unique(s) && (events == [] || (Enabled(s, events[0]) && AlwaysUnique(Next(s, events[0]), events[1..])))
  }

  ghost predicate NeverTwin(s: State, events: seq<Event>)
    decreases |events|
  {
    events == [] || (Enabled(s, events[0]) && !StartsTwin(s, events[0]) && NeverTwin(Next(s, events[0]), events[1..]))
  }

  ghost predicate NeverStale(s: State, events: seq<Event>)
    decreases |events|
  {
    events == [] || (Enabled(s, events[0]) && !(events[0].RemovalRuns? && StaleRemoval(s))
                      && NeverStale(Next(s, events[0]), events[1..]))
  }

  lemma {:induction false} RunUnique(s: State, budget: int, events: seq<Event>, end: State)
    requires Inv(s, budget) && Unique(s) && IsRun(s, events, end)
    ensures AlwaysUnique(s, events) <==> NeverTwin(s, events)
    decreases |events|
  {
    if events != [] {
      var next := Next(s, events[0]);
      assert IsRun(next, events[1..], end);
      UniqueExact(s, budget, events[0]);
      StepKeeps(s, budget, events[0]);
      if Unique(next) {
        RunUnique(next, budget, events[1..], end);
      }
    }
  }

  /** A run never has two downloads of one model at once exactly when no step of it starts a twin. */
  lemma {:induction false} RunUniqueExact(budget: int, events: seq<Event>, s: State)
    requires IsRun(Initial(budget), events, s)
    ensures AlwaysUnique(Initial(budget), events) <==> NeverTwin(Initial(budget), events)
  {
    InitialInv(budget);
    RunUnique(Initial(budget), budget, events, s);
  }

  lemma {:induction false} RunTracked(s: State, budget: int, events: seq<Event>, end: State)
    requires Inv(s, budget) && Tracked(s) && IsRun(s, events, end) && NeverStale(s, events)
    ensures Tracked(end)
    decreases |events|
  {
    if events != [] {
      assert IsRun(Next(s, events[0]), events[1..], end);
      TrackedExact(s, budget, events[0]);
      StepKeeps(s, budget, events[0]);
      RunTracked(Next(s, events[0]), budget, events[1..], end);
    }
  }

  /** Without a stale removal every running download is tracked at the end of a run, and no other
      download of its model is running. */
  lemma {:induction false} NoStaleRemoval(budget: int, events: seq<Event>, s: State)
    requires IsRun(Initial(budget), events, s) && NeverStale(Initial(budget), events)
    ensures Tracked(s) && Unique(s)
  {
    InitialInv(budget);
    RunTracked(Initial(budget), budget, events, s);
    forall t: nat, u: nat ensures !Duplicated(s, t, u) {
      if Duplicated(s, t, u) {
        TrackedIsUnique(s, t, u);
      }
    }
  }
}
