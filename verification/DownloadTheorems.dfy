/** The main results about every run of the download protocol. */
module DownloadTheorems {
  import opened Wrappers
  import opened DownloadProtocol
  import opened DownloadProofs

  // ---------------------------------------------------------------- exactly one place

  /** Task t has not completed and will answer r. */
  ghost predicate HeldBy(s: State, t: nat, r: nat) {
    t < |s.tasks| && s.tasks[t].status != Complete && r in s.tasks[t].handlers
  }

  /** The k-th completion called is the one of r. */
  ghost predicate RepliedAt(s: State, k: nat, r: nat) {
    k < |s.answers| && s.answers[k].request == r
  }

  ghost predicate OnlyAwaiting(s: State, r: nat) {
    && s.awaiting[r] == 1
    && (forall t: nat :: !HeldBy(s, t, r)) && (forall k: nat :: !RepliedAt(s, k, r))
  }

  ghost predicate OnlyInTask(s: State, r: nat, t: nat) {
    && HeldBy(s, t, r) && multiset(s.tasks[t].handlers)[r] == 1
    && (forall u: nat :: u != t ==> !HeldBy(s, u, r))
    && r !in s.awaiting && (forall k: nat :: !RepliedAt(s, k, r))
  }

  ghost predicate OnlyReplied(s: State, r: nat, k: nat) {
    && RepliedAt(s, k, r) && (forall j: nat :: j != k ==> !RepliedAt(s, j, r))
    && r !in s.awaiting && (forall t: nat :: !HeldBy(s, t, r))
  }

  ghost predicate RepliedOnce(s: State, r: nat) {
    exists k: nat :: OnlyReplied(s, r, k)
  }

  lemma {:induction false} AllHas(n: nat, r: nat)
    ensures All(n)[r] == if r < n then 1 else 0
  {
    if n > 0 { AllHas(n - 1, r); }
  }

  lemma {:induction false} WaitingHas(tasks: seq<Task>, t: nat, r: nat)
    requires t < |tasks|
    ensures HandlersOf(tasks[t])[r] <= Waiting(tasks)[r]
  {
    if t < |tasks| - 1 { WaitingHas(tasks[..|tasks| - 1], t, r); }
  }

  lemma {:induction false} WaitingTwo(tasks: seq<Task>, t: nat, u: nat, r: nat)
    requires t < u < |tasks|
    ensures HandlersOf(tasks[t])[r] + HandlersOf(tasks[u])[r] <= Waiting(tasks)[r]
  {
    var front := tasks[..|tasks| - 1];
    if u < |tasks| - 1 { WaitingTwo(front, t, u, r); }
    else { WaitingHas(front, t, r); }
  }

  lemma {:induction false} WaitingFrom(tasks: seq<Task>, r: nat) returns (t: nat)
    requires Waiting(tasks)[r] > 0
    ensures t < |tasks| && HandlersOf(tasks[t])[r] > 0
  {
    var n := |tasks| - 1;
    if HandlersOf(tasks[n])[r] > 0 { t := n; }
    else { t := WaitingFrom(tasks[..n], r); }
  }

  lemma {:induction false} RepliedHas(answers: seq<Answered>, k: nat, r: nat)
    requires k < |answers| && answers[k].request == r
    ensures Replied(answers)[r] >= 1
  {
    if k < |answers| - 1 { RepliedHas(answers[..|answers| - 1], k, r); }
  }

  lemma {:induction false} RepliedTwo(answers: seq<Answered>, j: nat, k: nat, r: nat)
    requires j < k < |answers| && answers[j].request == r == answers[k].request
    ensures Replied(answers)[r] >= 2
  {
    var front := answers[..|answers| - 1];
    if k < |answers| - 1 { RepliedTwo(front, j, k, r); }
    else { RepliedHas(front, j, r); }
  }

  lemma {:induction false} RepliedFrom(answers: seq<Answered>, r: nat) returns (k: nat)
    requires Replied(answers)[r] > 0
    ensures k < |answers| && answers[k].request == r
  {
    var n := |answers| - 1;
    if answers[n].request == r { k := n; }
    else { k := RepliedFrom(answers[..n], r); }
  }

  lemma {:induction false} HeldCounts(s: State, r: nat)
    ensures forall t: nat :: HeldBy(s, t, r) ==> 1 <= multiset(s.tasks[t].handlers)[r] <= Waiting(s.tasks)[r]
    ensures forall t: nat, u: nat :: t != u && HeldBy(s, t, r) && HeldBy(s, u, r) ==> Waiting(s.tasks)[r] >= 2
    ensures forall k: nat :: RepliedAt(s, k, r) ==> Replied(s.answers)[r] >= 1
    ensures forall j: nat, k: nat :: j != k && RepliedAt(s, j, r) && RepliedAt(s, k, r)
                                     ==> Replied(s.answers)[r] >= 2
  {
    forall t: nat | HeldBy(s, t, r) ensures 1 <= multiset(s.tasks[t].handlers)[r] <= Waiting(s.tasks)[r] {
      WaitingHas(s.tasks, t, r);
    }
    forall t: nat, u: nat | t != u && HeldBy(s, t, r) && HeldBy(s, u, r) ensures Waiting(s.tasks)[r] >= 2 {
      if t < u { WaitingTwo(s.tasks, t, u, r); } else { WaitingTwo(s.tasks, u, t, r); }
    }
    forall k: nat | RepliedAt(s, k, r) ensures Replied(s.answers)[r] >= 1 {
      RepliedHas(s.answers, k, r);
    }
    forall j: nat, k: nat | j != k && RepliedAt(s, j, r) && RepliedAt(s, k, r)
      ensures Replied(s.answers)[r] >= 2
    {
      if j < k { RepliedTwo(s.answers, j, k, r); } else { RepliedTwo(s.answers, k, j, r); }
    }
  }

  /** In every reachable state each request is in exactly one place: its model info is on
      its way, or exactly one uncompleted task holds it, once, or it was answered, once. */
  lemma {:induction false} ExactlyOnePlace(budget: int, events: seq<Event>, s: State, r: nat)
    requires IsRun(Initial(budget), events, s) && r < |s.names|
    ensures OnlyAwaiting(s, r) || (exists t: nat :: OnlyInTask(s, r, t)) || RepliedOnce(s, r)
  {
    InitialInv(budget);
    RunKeeps(Initial(budget), budget, events, s);
    AllHas(|s.names|, r);
    assert Places(s)[r] == s.awaiting[r] + Waiting(s.tasks)[r] + Replied(s.answers)[r] == 1;
    HeldCounts(s, r);
    if s.awaiting[r] == 1 {
      assert OnlyAwaiting(s, r);
    } else if Waiting(s.tasks)[r] == 1 {
      var t := WaitingFrom(s.tasks, r);
      assert HeldBy(s, t, r);
      assert OnlyInTask(s, r, t);
    } else {
      var k := RepliedFrom(s.answers, r);
      assert RepliedAt(s, k, r);
      assert OnlyReplied(s, r, k);
    }
  }

  /** All info calls and downloads have finished. */
  ghost predicate AtRest(s: State) {
    s.awaiting == multiset{} && forall t :: 0 <= t < |s.tasks| ==> s.tasks[t].status == Complete
  }

  /** When everything has finished, every completion was called exactly once, and no
      completion was called for anything else. */
  lemma {:induction false} AnsweredExactlyOnce(budget: int, events: seq<Event>, s: State)
    requires IsRun(Initial(budget), events, s) && AtRest(s)
    ensures forall r: nat :: r < |s.names| ==> RepliedOnce(s, r)
    ensures forall k :: 0 <= k < |s.answers| ==> s.answers[k].request < |s.names|
  {
    forall r: nat | r < |s.names| ensures RepliedOnce(s, r) {
      ExactlyOnePlace(budget, events, s, r);
    }
    InitialInv(budget);
    RunKeeps(Initial(budget), budget, events, s);
    forall k | 0 <= k < |s.answers| ensures s.answers[k].request < |s.names| {
      var r := s.answers[k].request;
      RepliedHas(s.answers, k, r);
      AllHas(|s.names|, r);
      assert Places(s)[r] >= Replied(s.answers)[r];
    }
  }

  // ---------------------------------------------------------------- the budget

  ghost function Downloads(tasks: seq<Task>): nat {
    if tasks == [] then 0 else Downloads(tasks[..|tasks| - 1]) + tasks[|tasks| - 1].started
  }

  lemma {:induction false} DownloadsOnce(tasks: seq<Task>)
    requires forall t :: 0 <= t < |tasks| ==> tasks[t].started == 1
    ensures Downloads(tasks) == |tasks|
  {
    if tasks != [] { DownloadsOnce(tasks[..|tasks| - 1]); }
  }

  /** The retries left and the retries made always add up to the budget; the retries left
      never go negative; each task downloads its file once; and all downloads together are
      at most the requests and the budget. */
  lemma {:induction false} BudgetConserved(budget: int, events: seq<Event>, s: State)
    requires IsRun(Initial(budget), events, s)
    ensures s.retries + s.retried == budget
    ensures budget >= 0 ==> s.retries >= 0
    ensures forall t :: 0 <= t < |s.tasks| ==> s.tasks[t].started == 1 && s.tasks[t].status != Ready
    ensures Downloads(s.tasks) <= |s.names| + if budget >= 0 then budget else 0
  {
    InitialInv(budget);
    RunKeeps(Initial(budget), budget, events, s);
    DownloadsOnce(s.tasks);
  }

  // ---------------------------------------------------------------- the store

  /** Whenever there is a local model, its recorded hash is that of the download that wrote
      the file on disk, and that download was for this model. */
  lemma {:induction false} StoreCoherent(budget: int, events: seq<Event>, s: State, name: string)
    requires IsRun(Initial(budget), events, s) && LocalModel(s, name).Some?
    ensures name in s.files && s.files[name] < |s.tasks|
    ensures s.tasks[s.files[name]].name == name
    ensures LocalModel(s, name) == Some(s.tasks[s.files[name]].hash)
  {
    InitialInv(budget);
    RunKeeps(Initial(budget), budget, events, s);
  }

  // ---------------------------------------------------------------- how long a run can be

  ghost function Active(tasks: seq<Task>): nat {
    if tasks == [] then 0
    else Active(tasks[..|tasks| - 1]) + if tasks[|tasks| - 1].status == Complete then 0 else 1
  }

  lemma {:induction false} ActiveUpdate(tasks: seq<Task>, t: nat, task: Task)
    requires t < |tasks|
    ensures Active(tasks[t := task]) + (if tasks[t].status == Complete then 0 else 1)
         == Active(tasks) + (if task.status == Complete then 0 else 1)
  {
    var n := |tasks| - 1;
    if t < n {
      ActiveUpdate(tasks[..n], t, task);
      assert tasks[t := task][..n] == tasks[..n][t := task];
    } else {
      assert tasks[t := task][..n] == tasks[..n];
    }
  }

  /** The steps still to come: three for each info call and each retry, one for each handler,
      running download and queued removal. */
  ghost function Potential(s: State): nat {
    3 * |s.awaiting| + |Waiting(s.tasks)| + Active(s.tasks) + |s.removals|
    + 3 * (if s.retries > 0 then s.retries else 0)
  }

  predicate IsStep(e: Event) {
    e.InfoArrives? || e.DownloadEnds? || e.RemovalRuns?
  }

  lemma {:induction false} EndedPotential(s: State, u: State, t: nat)
    requires t < |s.tasks| && s.tasks[t].status == Downloading && Ended(s, u, t)
    ensures Potential(u) + 1 <= Potential(s)
  {
    var done := s.tasks[t].(status := Complete);
    WaitingUpdate(s.tasks, t, done);
    ActiveUpdate(s.tasks, t, done);
    SizeOfSum(Waiting(u.tasks), multiset(s.tasks[t].handlers), Waiting(s.tasks), multiset{});
  }

  lemma {:induction false} SizeOfSum(a: multiset<nat>, x: multiset<nat>, b: multiset<nat>, y: multiset<nat>)
    requires a + x == b + y
    ensures |a| + |x| == |b| + |y|
  {
    assert |a + x| == |a| + |x| && |b + y| == |b| + |y|;
  }

  lemma {:induction false} EndPotential(s: State, t: nat, fetched: Fetched)
    requires Enabled(s, DownloadEnds(t, fetched)) && Coherent(s)
    ensures Potential(End(s, t, fetched)) + 1 <= Potential(s)
  {
    EndEffect(s, t, fetched);
    EndedPotential(s, End(s, t, fetched), t);
  }

  lemma {:induction false} MergePotential(tasks: seq<Task>, t: nat, r: nat)
    requires t < |tasks| && tasks[t].status == Downloading
    ensures var more := tasks[t := tasks[t].(handlers := tasks[t].handlers + [r])];
            |Waiting(more)| == |Waiting(tasks)| + 1 && Active(more) == Active(tasks)
  {
    var h := tasks[t].handlers;
    var merged := tasks[t].(handlers := h + [r]);
    WaitingUpdate(tasks, t, merged);
    ActiveUpdate(tasks, t, merged);
    SizeOfSum(Waiting(tasks[t := merged]), multiset(h), Waiting(tasks), multiset(h + [r]));
    assert |multiset(h)| == |h| && |multiset(h + [r])| == |h + [r]|;
  }

  lemma {:induction false} NewTaskPotential(tasks: seq<Task>, task: Task, r: nat)
    requires task.status == Downloading && task.handlers == [r]
    ensures |Waiting(tasks + [task])| == |Waiting(tasks)| + 1 && Active(tasks + [task]) == Active(tasks) + 1
  {
    WaitingAppend(tasks, task);
    assert (tasks + [task])[..|tasks|] == tasks;
    assert |multiset(task.handlers)| == |task.handlers|;
  }

  lemma {:induction false} StartPotential(s: State, r: nat, name: string, hash: string)
    requires TasksStarted(s)
    ensures var u := Start(s, r, name, hash);
            |Waiting(u.tasks)| + Active(u.tasks) <= |Waiting(s.tasks)| + Active(s.tasks) + 2
  {
    if CanMerge(s, name) {
      MergePotential(s.tasks, s.current[name], r);
    } else {
      NewTaskPotential(s.tasks, Resume(Task(name, hash, Ready, [r], 0)), r);
    }
  }

  lemma {:induction false} ArrivePotential(s: State, r: nat, info: InfoResult)
    requires Enabled(s, InfoArrives(r, info)) && TasksStarted(s)
    ensures Potential(Arrive(s, r, info)) + 1 <= Potential(s)
  {
    var t := s.(awaiting := s.awaiting - multiset{r});
    TakeOne(s.awaiting, r);
    assert Potential(s) == Potential(t) + 3;
    if info.NewInfo? {
      StartPotential(t, r, s.names[r], info.hash);
      OnlyTasks(t, Start(t, r, s.names[r], info.hash));
    } else {
      OnlyTasks(t, Arrive(s, r, info));
    }
  }

  lemma {:induction false} OnlyTasks(s: State, u: State)
    requires u.awaiting == s.awaiting && u.retries == s.retries && u.removals == s.removals
    ensures Potential(u) - Potential(s) == |Waiting(u.tasks)| + Active(u.tasks) - |Waiting(s.tasks)| - Active(s.tasks)
  {
  }

  lemma {:induction false} RequestPotential(s: State, name: string)
    ensures Potential(Next(s, Request(name))) == Potential(s) + 3
  {
    MoveOne(s.awaiting, multiset{}, |s.names|);
  }

  lemma {:induction false} StepPotential(s: State, budget: int, e: Event)
    requires Inv(s, budget) && Enabled(s, e)
    ensures Potential(Next(s, e)) + (if IsStep(e) then 1 else 0) <= Potential(s) + (if e.Request? then 3 else 0)
  {
    if e.Request? {
      RequestPotential(s, e.name);
    } else if e.InfoArrives? {
      ArrivePotential(s, e.request, e.info);
    } else if e.DownloadEnds? {
      EndPotential(s, e.task, e.fetched);
    } else if e.RemovalRuns? {
      RemovalPotential(s);
    } else {
      DeletePotential(s, e.name, e.removeFails);
    }
  }

  lemma {:induction false} RemovalPotential(s: State)
    requires s.removals != []
    ensures Potential(Next(s, RemovalRuns)) + 1 == Potential(s)
  {
  }

  lemma {:induction false} DeletePotential(s: State, name: string, removeFails: bool)
    ensures Potential(Next(s, Delete(name, removeFails))) == Potential(s)
  {
  }

  ghost function Steps(events: seq<Event>): nat {
    if events == [] then 0 else (if IsStep(events[0]) then 1 else 0) + Steps(events[1..])
  }

  ghost function Requests(events: seq<Event>): nat {
    if events == [] then 0 else (if events[0].Request? then 1 else 0) + Requests(events[1..])
  }

  lemma {:induction false} RunPotential(s: State, budget: int, events: seq<Event>, end: State)
    requires Inv(s, budget) && IsRun(s, events, end)
    ensures Potential(end) + Steps(events) <= Potential(s) + 3 * Requests(events)
    decreases |events|
  {
    if events != [] {
      StepKeeps(s, budget, events[0]);
      StepPotential(s, budget, events[0]);
      RunPotential(Next(s, events[0]), budget, events[1..], end);
    }
  }

  /** A run with n requests takes at most 3n + 3 budget steps, so after finitely many steps
      every run without new requests is at rest. */
  lemma {:induction false} RunsAreFinite(budget: nat, events: seq<Event>, s: State)
    requires IsRun(Initial(budget), events, s)
    ensures Steps(events) <= 3 * Requests(events) + 3 * budget
  {
    InitialInv(budget);
    RunPotential(Initial(budget), budget, events, s);
  }

  /** A state that is not at rest has an enabled step. */
  lemma {:induction false} NotStuck(budget: int, events: seq<Event>, s: State)
    requires IsRun(Initial(budget), events, s) && !AtRest(s)
    ensures exists e :: IsStep(e) && Enabled(s, e)
  {
    InitialInv(budget);
    RunKeeps(Initial(budget), budget, events, s);
    if s.awaiting != multiset{} {
      var r :| r in s.awaiting;
      AllHas(|s.names|, r);
      assert Places(s)[r] >= s.awaiting[r] >= 1;
      assert Enabled(s, InfoArrives(r, NotModified));
    } else {
      var t :| 0 <= t < |s.tasks| && s.tasks[t].status != Complete;
      assert Enabled(s, DownloadEnds(t, NetworkError));
    }
  }

  // ---------------------------------------------------------------- merging

  /** Every running download is the tracked one of its model, so later requests join it. */
  ghost predicate Tracked(s: State) {
    forall t :: 0 <= t < |s.tasks| && s.tasks[t].status == Downloading ==> IsCurrent(s, t)
  }

  ghost predicate IsCurrent(s: State, t: nat)
    requires t < |s.tasks|
  {
    s.tasks[t].name in s.current && s.current[s.tasks[t].name] == t
  }

  /** Two downloads of one model run at the same time. */
  ghost predicate Duplicated(s: State, t: nat, u: nat) {
    && t < |s.tasks| && u < |s.tasks| && t != u
    && s.tasks[t].status == Downloading && s.tasks[u].status == Downloading
    && s.tasks[t].name == s.tasks[u].name
  }

  /** The removal that runs next finds a task under its name that is not complete. */
  predicate StaleRemoval(s: State) {
    && s.removals != []
    && CanMerge(s, s.removals[0])
  }

  /** So while all are tracked, at most one download of a model is running. */
  lemma {:induction false} TrackedIsUnique(s: State, t: nat, u: nat)
    requires Tracked(s) && t < |s.tasks| && u < |s.tasks|
    requires s.tasks[t].status == Downloading && s.tasks[u].status == Downloading
    requires s.tasks[t].name == s.tasks[u].name
    ensures t == u
  {
    assert IsCurrent(s, t) && IsCurrent(s, u);
  }

  /** Exactly which step loses track of a running download: a stale removal, and no other. */
  lemma {:induction false} TrackedExact(s: State, budget: int, e: Event)
    requires Inv(s, budget) && Enabled(s, e) && Tracked(s)
    ensures Tracked(Next(s, e)) <==> !(e.RemovalRuns? && StaleRemoval(s))
  {
    if e.InfoArrives? {
      ArriveTracked(s, e.request, e.info);
    } else if e.DownloadEnds? {
      EndEffect(s, e.task, e.fetched);
      EndedTracked(s, End(s, e.task, e.fetched), e.task);
    } else if e.RemovalRuns? {
      RemovalTracked(s);
    } else {
      SameTracked(s, Next(s, e));
    }
  }

  lemma {:induction false} SameTracked(s: State, u: State)
    requires u.tasks == s.tasks && u.current == s.current && Tracked(s)
    ensures Tracked(u)
  {
    forall t | 0 <= t < |u.tasks| && u.tasks[t].status == Downloading ensures IsCurrent(u, t) {
      assert IsCurrent(s, t);
    }
  }

  lemma {:induction false} ArriveTracked(s: State, r: nat, info: InfoResult)
    requires Enabled(s, InfoArrives(r, info)) && TasksStarted(s) && Tracked(s)
    ensures Tracked(Arrive(s, r, info))
  {
    var t := s.(awaiting := s.awaiting - multiset{r});
    SameTracked(s, t);
    if info.NewInfo? { StartTracked(t, r, s.names[r], info.hash); }
    else { SameTracked(t, Arrive(s, r, info)); }
  }

  lemma {:induction false} StartTracked(s: State, r: nat, name: string, hash: string)
    requires TasksStarted(s) && Tracked(s)
    ensures Tracked(Start(s, r, name, hash))
  {
    var u := Start(s, r, name, hash);
    forall t | 0 <= t < |u.tasks| && u.tasks[t].status == Downloading ensures IsCurrent(u, t) {
      if t < |s.tasks| { assert IsCurrent(s, t); }
    }
  }

  lemma {:induction false} EndedTracked(s: State, u: State, t: nat)
    requires t < |s.tasks| && Ended(s, u, t) && Tracked(s)
    ensures Tracked(u)
  {
    forall i | 0 <= i < |u.tasks| && u.tasks[i].status == Downloading ensures IsCurrent(u, i) {
      assert IsCurrent(s, i);
    }
  }

  lemma {:induction false} RemovalTracked(s: State)
    requires TasksStarted(s) && Tracked(s) && s.removals != []
    ensures Tracked(Next(s, RemovalRuns)) <==> !StaleRemoval(s)
  {
    var u, name := Next(s, RemovalRuns), s.removals[0];
    if StaleRemoval(s) {
      var t := s.current[name];
      assert s.tasks[t].status == Downloading && !IsCurrent(u, t);
    } else {
      forall t | 0 <= t < |u.tasks| && u.tasks[t].status == Downloading ensures IsCurrent(u, t) {
        assert IsCurrent(s, t);
      }
    }
  }

  lemma {:induction false} RunMore(s: State, e: Event, events: seq<Event>, end: State)
    requires Enabled(s, e) && IsRun(Next(s, e), events, end)
    ensures IsRun(s, [e] + events, end)
  {
    assert ([e] + events)[1..] == events;
  }

  /** The merged requests 0 and 1 have both failed, and request 2 is waiting for its info;
      two removals are queued. */
  ghost function BothFailed(n: string, h: string): State {
    State([n, n, n], multiset{2}, [Task(n, h, Complete, [0, 1], 1)], map[n := 0], 1, 0, [n, n],
          [Answered(0, Failure(InternalError)), Answered(1, Failure(InternalError))], map[], map[])
  }

  /** Requests 0 and 1 share a running download. */
  function Shared(n: string, h: string): State {
    State([n, n], multiset{}, [Task(n, h, Downloading, [0, 1], 1)], map[n := 0], 1, 0, [], [], map[], map[])
  }

  lemma {:induction false} ReachShared(n: string, h: string, events: seq<Event>, end: State)
    returns (all: seq<Event>)
    requires IsRun(Shared(n, h), events, end)
    ensures IsRun(Initial(1), all, end)
  {
    var s1 := State([n], multiset{0}, [], map[], 1, 0, [], [], map[], map[]);
    var s2 := State([n, n], multiset{0, 1}, [], map[], 1, 0, [], [], map[], map[]);
    var s3 := State([n, n], multiset{1}, [Task(n, h, Downloading, [0], 1)], map[n := 0], 1, 0, [], [], map[], map[]);
    MergeStep(s3, n, h);
    RunMore(s3, InfoArrives(1, NewInfo(h)), events, end);
    all := [InfoArrives(1, NewInfo(h))] + events;
    StartStep(s2, s3, n, h);
    RunMore(s2, InfoArrives(0, NewInfo(h)), all, end);
    all := [InfoArrives(0, NewInfo(h))] + all;
    assert Next(s1, Request(n)) == s2;
    RunMore(s1, Request(n), all, end);
    all := [Request(n)] + all;
    assert Next(Initial(1), Request(n)) == s1;
    RunMore(Initial(1), Request(n), all, end);
    all := [Request(n)] + all;
  }

  lemma {:induction false} MergeStep(s: State, n: string, h: string)
    requires s == State([n, n], multiset{1}, [Task(n, h, Downloading, [0], 1)], map[n := 0], 1, 0, [], [], map[], map[])
    ensures Next(s, InfoArrives(1, NewInfo(h))) == Shared(n, h)
  {
    assert multiset{1} - multiset{1} == multiset{};
    assert [0] + [1] == [0, 1];
  }

  lemma {:induction false} StartStep(s: State, u: State, n: string, h: string)
    requires s == State([n, n], multiset{0, 1}, [], map[], 1, 0, [], [], map[], map[])
    requires u == State([n, n], multiset{1}, [Task(n, h, Downloading, [0], 1)], map[n := 0], 1, 0, [], [], map[], map[])
    ensures Next(s, InfoArrives(0, NewInfo(h))) == u
  {
    assert multiset{0, 1} - multiset{0} == multiset{1};
  }

  lemma {:induction false} ReachBothFailed(n: string, h: string, events: seq<Event>, end: State)
    returns (all: seq<Event>)
    requires IsRun(BothFailed(n, h), events, end)
    ensures IsRun(Initial(1), all, end)
  {
    var s4 := Shared(n, h);
    var s5 := BothFailed(n, h).(names := [n, n], awaiting := multiset{});
    BothFail(s4, s5, n, h);
    assert Next(s5, Request(n)) == BothFailed(n, h);
    all := [Request(n)] + events;
    RunMore(s5, Request(n), events, end);
    RunMore(s4, DownloadEnds(0, OtherError), all, end);
    all := ReachShared(n, h, [DownloadEnds(0, OtherError)] + all, end);
  }

  lemma {:induction false} BothFail(s: State, u: State, n: string, h: string)
    requires s == Shared(n, h)
    requires u == BothFailed(n, h).(names := [n, n], awaiting := multiset{})
    ensures Next(s, DownloadEnds(0, OtherError)) == u
  {
    var t := s.(tasks := [Task(n, h, Complete, [0, 1], 1)]);
    var v := Deliver(t, 0, n, Failure(InternalError));
    assert [0, 1][1..] == [1] && [1][1..] == [];
    assert DeliverAll(t, [0, 1], n, Failure(InternalError)) == Deliver(v, 1, n, Failure(InternalError));
  }

  /** A stale removal does happen: two merged requests queue two removals, and the second
      one drops the task of a later request, so that a fourth request downloads again. */
  lemma {:induction false} DuplicateDownload(n: string, h: string)
    ensures exists events, s :: IsRun(Initial(1), events, s) && Duplicated(s, 1, 2)
  {
    var s0 := BothFailed(n, h);
    var s1 := s0.(removals := [n], current := map[]);
    var tasks := s0.tasks + [Task(n, h, Downloading, [2], 1)];
    var s2 := s1.(awaiting := multiset{}, tasks := tasks, current := map[n := 1]);
    assert Next(s0, RemovalRuns) == s1;
    var end, events := SecondDownload(s2, n, h);
    assert Next(s1, InfoArrives(2, NewInfo(h))) == s2;
    RunMore(s1, InfoArrives(2, NewInfo(h)), events, end);
    events := [InfoArrives(2, NewInfo(h))] + events;
    RunMore(s0, RemovalRuns, events, end);
    events := ReachBothFailed(n, h, [RemovalRuns] + events, end);
  }

  /** Request 2 downloads as task 1, and one more removal is queued. */
  lemma {:induction false} SecondDownload(s: State, n: string, h: string) returns (end: State, events: seq<Event>)
    requires |s.tasks| == 2 && s.tasks[1] == Task(n, h, Downloading, [2], 1)
    requires s.names == [n, n, n] && s.awaiting == multiset{} && s.current == map[n := 1] && s.removals == [n]
    ensures IsRun(s, events, end) && Duplicated(end, 1, 2)
  {
    var s3 := s.(removals := [], current := map[]);
    var s4 := s3.(names := [n, n, n, n], awaiting := multiset{3});
    end := s4.(awaiting := multiset{}, tasks := s.tasks + [Task(n, h, Downloading, [3], 1)], current := map[n := 2]);
    assert Next(s, RemovalRuns) == s3;
    assert Next(s3, Request(n)) == s4;
    assert Next(s4, InfoArrives(3, NewInfo(h))) == end;
    RunMore(s4, InfoArrives(3, NewInfo(h)), [], end);
    events := [InfoArrives(3, NewInfo(h))] + [];
    RunMore(s3, Request(n), events, end);
    events := [Request(n)] + events;
    RunMore(s, RemovalRuns, events, end);
    events := [RemovalRuns] + events;
  }
}
