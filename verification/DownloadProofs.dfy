/**
 What every step of the download protocol keeps, and so every run: each request is in exactly one
 place, the retry budget is conserved, each task downloads once, and what is recorded of a model
 fits the file on disk.  Each kind of step has its own lemmas; StepKeeps puts them together.
 */
module DownloadProofs {
  import opened Wrappers
  import opened DownloadProtocol

  // ---------------------------------------------------------------- where the requests are

  ghost function All(n: nat): multiset<nat> {
    if n == 0 then multiset{} else All(n - 1) + multiset{n - 1}
  }

  ghost function HandlersOf(task: Task): multiset<nat> {
    if task.status == Complete then multiset{} else multiset(task.handlers)
  }

  /** The requests held by tasks that are not complete. */
  ghost function Waiting(tasks: seq<Task>): multiset<nat> {
    if tasks == [] then multiset{}
    else Waiting(tasks[..|tasks| - 1]) + HandlersOf(tasks[|tasks| - 1])
  }

  ghost function Replied(answers: seq<Answered>): multiset<nat> {
    if answers == [] then multiset{}
    else Replied(answers[..|answers| - 1]) + multiset{answers[|answers| - 1].request}
  }

  ghost function Places(s: State): multiset<nat> {
    s.awaiting + Waiting(s.tasks) + Replied(s.answers)
  }

  ghost predicate Placed(s: State) {
    Places(s) == All(|s.names|)
  }

  // ---------------------------------------------------------------- the other invariants

  ghost predicate TasksStarted(s: State) {
    && (forall t :: 0 <= t < |s.tasks| ==> s.tasks[t].status != Ready && s.tasks[t].started == 1)
    && (forall n :: n in s.current ==> s.current[n] < |s.tasks| && s.tasks[s.current[n]].name == n)
  }

  ghost predicate Budgeted(s: State, budget: int) {
    && s.retries + s.retried == budget
    && (budget >= 0 ==> s.retries >= 0)
    && (budget < 0 ==> s.retried == 0)
    && |s.tasks| + |s.awaiting| <= |s.names| + s.retried
  }

  /** The recorded hash of a model belongs to the download that wrote the file on disk. */
  ghost predicate Coherent(s: State) {
    && (forall n :: n in s.files ==> s.files[n] < |s.tasks| && s.tasks[s.files[n]].name == n)
    && (forall n :: n in s.files && n in s.defaults ==> s.defaults[n] == s.tasks[s.files[n]].hash)
  }

  ghost predicate Inv(s: State, budget: int) {
    Placed(s) && TasksStarted(s) && Budgeted(s, budget) && Coherent(s)
  }

  // ---------------------------------------------------------------- lemmas on the parts

  lemma {:induction false} WaitingAppend(tasks: seq<Task>, task: Task)
    ensures Waiting(tasks + [task]) == Waiting(tasks) + HandlersOf(task)
  {
    assert (tasks + [task])[..|tasks|] == tasks;
  }

  lemma {:induction false} WaitingUpdate(tasks: seq<Task>, t: nat, task: Task)
    requires t < |tasks|
    ensures Waiting(tasks[t := task]) + HandlersOf(tasks[t]) == Waiting(tasks) + HandlersOf(task)
  {
    var n := |tasks| - 1;
    var front, last := tasks[..n], tasks[n];
    assert tasks == front + [last];
    WaitingAppend(front, last);
    if t < n {
      WaitingUpdate(front, t, task);
      assert tasks[t := task] == front[t := task] + [last];
      WaitingAppend(front[t := task], last);
      AddToBoth(Waiting(front[t := task]), HandlersOf(tasks[t]), Waiting(front), HandlersOf(task),
                HandlersOf(last));
    } else {
      assert tasks[t := task] == front + [task];
      WaitingAppend(front, task);
      AddToBoth(Waiting(front), multiset{}, Waiting(front), multiset{}, HandlersOf(task));
    }
  }

  lemma {:induction false} AddToBoth(
      a: multiset<nat>, x: multiset<nat>, b: multiset<nat>, y: multiset<nat>, h: multiset<nat>)
    requires a + x == b + y
    ensures (a + h) + x == (b + h) + y
  {
    assert (a + h) + x == (a + x) + h == (b + y) + h;
  }

  lemma {:induction false} RepliedAppend(answers: seq<Answered>, a: Answered)
    ensures Replied(answers + [a]) == Replied(answers) + multiset{a.request}
  {
    assert (answers + [a])[..|answers|] == answers;
  }

  /** What a delivery may change, and what it conserves. */
  ghost predicate Delivered(s: State, u: State, handlers: multiset<nat>) {
    && u.names == s.names && u.tasks == s.tasks && u.current == s.current
    && u.files == s.files && u.defaults == s.defaults
    && u.awaiting + Replied(u.answers) == s.awaiting + Replied(s.answers) + handlers
    && u.retries + u.retried == s.retries + s.retried
    && u.retried >= s.retried && (s.retries >= 0 ==> u.retries >= 0)
    && (s.retries <= 0 ==> u.retries == s.retries)
    && |u.awaiting| - |s.awaiting| == u.retried - s.retried
    && |u.removals| <= |s.removals| + |handlers|
  }

  lemma {:induction false} DeliverOne(s: State, r: nat, name: string, result: Answer)
    ensures Delivered(s, Deliver(s, r, name, result), multiset{r})
  {
    if result == Failure(ExpiredURL) && s.retries > 0 {
      MoveOne(s.awaiting, Replied(s.answers), r);
    } else {
      var answer := if result == Failure(ExpiredURL) then Failure(InternalError) else result;
      RepliedAppend(s.answers, Answered(r, answer));
      assert s.awaiting + (Replied(s.answers) + multiset{r}) == s.awaiting + Replied(s.answers) + multiset{r};
    }
  }

  lemma {:induction false} MoveOne(a: multiset<nat>, b: multiset<nat>, r: nat)
    ensures (a + multiset{r}) + b == a + b + multiset{r} && |a + multiset{r}| == |a| + 1
  {
  }

  lemma {:induction false} DeliveredTwice(
      s: State, t: State, u: State, r: nat, handlers: multiset<nat>, all: multiset<nat>)
    requires Delivered(s, t, multiset{r}) && Delivered(t, u, handlers) && all == multiset{r} + handlers
    ensures Delivered(s, u, all)
  {
    var a, b := s.awaiting, Replied(s.answers);
    assert (a + b + multiset{r}) + handlers == a + b + all;
  }

  lemma {:induction false} NothingDelivered(s: State)
    ensures Delivered(s, s, multiset{})
  {
  }

  lemma {:induction false} DeliverBefore(s: State, handlers: seq<nat>, name: string, result: Answer, u: State)
    requires handlers != [] && Delivered(Deliver(s, handlers[0], name, result), u, multiset(handlers[1..]))
    ensures Delivered(s, u, multiset(handlers))
  {
    DeliverOne(s, handlers[0], name, result);
    assert handlers == [handlers[0]] + handlers[1..];
    DeliveredTwice(
      s, Deliver(s, handlers[0], name, result), u, handlers[0], multiset(handlers[1..]), multiset(handlers));
  }

  lemma {:induction false} DeliverEvery(s: State, handlers: seq<nat>, name: string, result: Answer)
    ensures Delivered(s, DeliverAll(s, handlers, name, result), multiset(handlers))
    decreases |handlers|
  {
    if handlers == [] {
      NothingDelivered(s);
    } else {
      var t := Deliver(s, handlers[0], name, result);
      DeliverEvery(t, handlers[1..], name, result);
      DeliverBefore(s, handlers, name, result, DeliverAll(t, handlers[1..], name, result));
    }
  }

  // ---------------------------------------------------------------- every step

  lemma {:induction false} SaveKeeps(s: State, t: nat, saving: Saving)
    requires t < |s.tasks| && Coherent(s)
    ensures var u := Save(s, t, saving).0;
            Coherent(u) && u == s.(files := u.files, defaults := u.defaults)
  {
  }

  lemma {:induction false} HandleKeeps(s: State, t: nat, fetched: Fetched)
    requires t < |s.tasks| && Coherent(s)
    ensures var u := Handle(s, t, fetched).0;
            Coherent(u) && u == s.(files := u.files, defaults := u.defaults)
  {
    match fetched
    case Response(_, _, saving) => SaveKeeps(s, t, saving);
    case _ =>
  }

  /** The numbers of the budget move together. */
  ghost predicate BudgetMoves(s: State, u: State) {
    && u.retries + u.retried == s.retries + s.retried
    && u.retried >= s.retried && (s.retries >= 0 ==> u.retries >= 0)
    && (s.retries <= 0 ==> u.retries == s.retries)
    && |u.awaiting| - |s.awaiting| == u.retried - s.retried
  }

  /** What ending the download of task t does. */
  ghost predicate Ended(s: State, u: State, t: nat)
    requires t < |s.tasks|
  {
    && u.names == s.names && u.current == s.current
    && u.tasks == s.tasks[t := s.tasks[t].(status := Complete)]
    && u.awaiting + Replied(u.answers) == s.awaiting + Replied(s.answers) + multiset(s.tasks[t].handlers)
    && BudgetMoves(s, u)
    && |u.removals| <= |s.removals| + |s.tasks[t].handlers|
  }

  lemma {:induction false} EndEffect(s: State, t: nat, fetched: Fetched)
    requires t < |s.tasks| && Coherent(s)
    ensures Ended(s, End(s, t, fetched), t) && Coherent(End(s, t, fetched))
  {
    var task := s.tasks[t];
    var done := s.(tasks := s.tasks[t := task.(status := Complete)]);
    assert Coherent(done);
    HandleKeeps(done, t, fetched);
    var (u, result) := Handle(done, t, fetched);
    DeliverEvery(u, task.handlers, task.name, result);
  }

  lemma {:induction false} EndPlaces(
      a: multiset<nat>, r: multiset<nat>, w: multiset<nat>, v: multiset<nat>, h: multiset<nat>,
      a': multiset<nat>, r': multiset<nat>)
    requires v + h == w && a' + r' == a + r + h
    ensures a' + v + r' == a + w + r
  {
    assert a' + v + r' == (a' + r') + v == a + r + (h + v);
  }

  /** Ending a download moves its handlers to the replies or back to awaiting. */
  lemma {:induction false} EndedPlaced(s: State, u: State, t: nat)
    requires t < |s.tasks| && s.tasks[t].status == Downloading && Ended(s, u, t) && Placed(s)
    ensures Placed(u)
  {
    WaitingUpdate(s.tasks, t, s.tasks[t].(status := Complete));
    EndPlaces(s.awaiting, Replied(s.answers), Waiting(s.tasks), Waiting(u.tasks),
              multiset(s.tasks[t].handlers), u.awaiting, Replied(u.answers));
  }

  lemma {:induction false} EndKeeps(s: State, budget: int, t: nat, fetched: Fetched)
    requires Inv(s, budget) && Enabled(s, DownloadEnds(t, fetched))
    ensures Inv(End(s, t, fetched), budget)
  {
    var u := End(s, t, fetched);
    EndEffect(s, t, fetched);
    EndedPlaced(s, u, t);
    EndedRest(s, u, budget, t);
  }

  lemma {:induction false} EndedRest(s: State, u: State, budget: int, t: nat)
    requires t < |s.tasks| && Ended(s, u, t) && TasksStarted(s) && Budgeted(s, budget)
    ensures TasksStarted(u) && Budgeted(u, budget)
  {
  }

  /** What happens to the request r whose model info has arrived: it is answered, or handed
      to a task. */
  ghost predicate Arrived(s: State, u: State, r: nat) {
    && u.names == s.names && u.retries == s.retries && u.retried == s.retried
    && u.files == s.files && u.defaults == s.defaults && u.removals == s.removals
    && u.awaiting + multiset{r} == s.awaiting
    && Waiting(u.tasks) + Replied(u.answers) == Waiting(s.tasks) + Replied(s.answers) + multiset{r}
    && |s.tasks| <= |u.tasks| <= |s.tasks| + 1
    && (forall t :: 0 <= t < |s.tasks| ==> u.tasks[t].name == s.tasks[t].name && u.tasks[t].hash == s.tasks[t].hash)
  }

  lemma {:induction false} TakeOne(a: multiset<nat>, r: nat)
    requires r in a
    ensures a - multiset{r} + multiset{r} == a
  {
  }

  lemma {:induction false} ReplyArrives(s: State, r: nat, answer: Answer)
    requires r in s.awaiting
    ensures Arrived(s, Reply(s.(awaiting := s.awaiting - multiset{r}), r, answer), r)
  {
    TakeOne(s.awaiting, r);
    RepliedAppend(s.answers, Answered(r, answer));
    var a, b, c := Waiting(s.tasks), Replied(s.answers), multiset{r};
    assert a + (b + c) == a + b + c;
  }

  lemma {:induction false} MergeArrives(s: State, r: nat, i: nat)
    requires r in s.awaiting && i < |s.tasks| && s.tasks[i].status == Downloading
    ensures var merged := s.tasks[i].(handlers := s.tasks[i].handlers + [r]);
            Arrived(s, s.(awaiting := s.awaiting - multiset{r}, tasks := s.tasks[i := merged]), r)
  {
    TakeOne(s.awaiting, r);
    MergeWaiting(s.tasks, i, r, Replied(s.answers));
    MergeKeepsNames(s.tasks, i, s.tasks[i].handlers + [r]);
  }

  lemma {:induction false} MergeKeepsNames(tasks: seq<Task>, i: nat, handlers: seq<nat>)
    requires i < |tasks|
    ensures var merged := tasks[i := tasks[i].(handlers := handlers)];
            forall t :: 0 <= t < |tasks| ==> merged[t].name == tasks[t].name && merged[t].hash == tasks[t].hash
  {
  }

  lemma {:induction false} MergeWaiting(tasks: seq<Task>, i: nat, r: nat, replied: multiset<nat>)
    requires i < |tasks| && tasks[i].status == Downloading
    ensures Waiting(tasks[i := tasks[i].(handlers := tasks[i].handlers + [r])]) + replied
         == Waiting(tasks) + replied + multiset{r}
  {
    var h := tasks[i].handlers;
    var merged := tasks[i].(handlers := h + [r]);
    WaitingUpdate(tasks, i, merged);
    assert multiset(h + [r]) == multiset(h) + multiset{r};
    MergePlaces(Waiting(tasks[i := merged]), Waiting(tasks), replied, multiset(h), multiset{r});
  }

  lemma {:induction false} MergePlaces(
      w': multiset<nat>, w: multiset<nat>, a: multiset<nat>, h: multiset<nat>, r: multiset<nat>)
    requires w' + h == w + (h + r)
    ensures w' + a == w + a + r
  {
    forall x ensures w'[x] == w[x] + r[x] {
      assert (w' + h)[x] == (w + (h + r))[x];
    }
  }

  lemma {:induction false} NewTaskArrives(s: State, r: nat, task: Task, current: map<string, nat>)
    requires r in s.awaiting && task.status == Downloading && task.handlers == [r]
    ensures Arrived(s, s.(awaiting := s.awaiting - multiset{r}, tasks := s.tasks + [task], current := current), r)
  {
    TakeOne(s.awaiting, r);
    WaitingAppend(s.tasks, task);
    var a, b, c := Waiting(s.tasks), Replied(s.answers), multiset{r};
    assert multiset([r]) == c;
    assert a + c + b == a + b + c;
  }

  lemma {:induction false} StartArrives(s: State, r: nat, name: string, hash: string)
    requires r in s.awaiting && TasksStarted(s)
    ensures Arrived(s, Start(s.(awaiting := s.awaiting - multiset{r}), r, name, hash), r)
  {
    if CanMerge(s, name) {
      MergeArrives(s, r, s.current[name]);
    } else {
      NewTaskArrives(s, r, Resume(Task(name, hash, Ready, [r], 0)), s.current[name := |s.tasks|]);
    }
  }

  lemma {:induction false} StartKeepsStarted(s: State, r: nat, name: string, hash: string)
    requires TasksStarted(s)
    ensures TasksStarted(Start(s, r, name, hash))
  {
    var u := Start(s, r, name, hash);
    if CanMerge(s, name) {
      var t := s.current[name];
      MergedStarted(s, u, t, s.tasks[t].(handlers := s.tasks[t].handlers + [r]));
    } else {
      NewTaskStarted(s, u, Resume(Task(name, hash, Ready, [r], 0)));
    }
  }

  lemma {:induction false} MergedStarted(s: State, u: State, t: nat, merged: Task)
    requires TasksStarted(s) && t < |s.tasks| && merged == s.tasks[t].(handlers := merged.handlers)
    requires u.tasks == s.tasks[t := merged] && u.current == s.current
    ensures TasksStarted(u)
  {
  }

  lemma {:induction false} NewTaskStarted(s: State, u: State, task: Task)
    requires TasksStarted(s) && task.status == Downloading && task.started == 1
    requires u.tasks == s.tasks + [task] && u.current == s.current[task.name := |s.tasks|]
    ensures TasksStarted(u)
  {
  }

  lemma {:induction false} ArriveEffect(s: State, r: nat, info: InfoResult)
    requires Enabled(s, InfoArrives(r, info)) && TasksStarted(s)
    ensures Arrived(s, Arrive(s, r, info), r) && TasksStarted(Arrive(s, r, info))
  {
    match info
    case NewInfo(hash) =>
      StartArrives(s, r, s.names[r], hash);
      StartKeepsStarted(s.(awaiting := s.awaiting - multiset{r}), r, s.names[r], hash);
    case NotModified =>
      var local := LocalModel(s, s.names[r]);
      ReplyArrives(s, r, if local.Some? then Model(local.value) else Failure(InternalError));
    case InfoFailed(error) => ReplyArrives(s, r, Failure(error));
  }

  lemma {:induction false} ArrivedKeeps(s: State, u: State, budget: int, r: nat)
    requires Arrived(s, u, r) && Placed(s) && Budgeted(s, budget) && Coherent(s)
    ensures Placed(u) && Budgeted(u, budget) && Coherent(u)
  {
    var a, w, p := u.awaiting, Waiting(u.tasks), Replied(u.answers);
    assert a + w + p == a + (w + p);
    assert s.awaiting + Waiting(s.tasks) + Replied(s.answers)
        == (a + multiset{r}) + (Waiting(s.tasks) + Replied(s.answers));
    assert |s.awaiting| == |u.awaiting| + 1;
  }

  lemma {:induction false} ArriveKeeps(s: State, budget: int, r: nat, info: InfoResult)
    requires Inv(s, budget) && Enabled(s, InfoArrives(r, info))
    ensures Inv(Arrive(s, r, info), budget)
  {
    ArriveEffect(s, r, info);
    ArrivedKeeps(s, Arrive(s, r, info), budget, r);
  }

  lemma {:induction false} RequestKeeps(s: State, budget: int, name: string)
    requires Inv(s, budget)
    ensures Inv(Next(s, Request(name)), budget)
  {
    var n := |s.names|;
    MoveOne(s.awaiting, Waiting(s.tasks), n);
    MoveOne(s.awaiting + Waiting(s.tasks), Replied(s.answers), n);
  }

  lemma {:induction false} DeleteKeeps(s: State, budget: int, name: string, removeFails: bool)
    requires Inv(s, budget)
    ensures Inv(Next(s, Delete(name, removeFails)), budget)
  {
  }

  /** One step keeps everything. */
  lemma {:induction false} StepKeeps(s: State, budget: int, e: Event)
    requires Inv(s, budget) && Enabled(s, e)
    ensures Inv(Next(s, e), budget)
  {
    match e
    case Request(name) => RequestKeeps(s, budget, name);
    case InfoArrives(r, info) => ArriveKeeps(s, budget, r, info);
    case DownloadEnds(t, fetched) => EndKeeps(s, budget, t, fetched);
    case RemovalRuns =>
    case Delete(name, removeFails) => DeleteKeeps(s, budget, name, removeFails);
  }

  lemma {:induction false} RunKeeps(s: State, budget: int, events: seq<Event>, end: State)
    requires Inv(s, budget) && IsRun(s, events, end)
    ensures Inv(end, budget)
    decreases |events|
  {
    if events != [] {
      StepKeeps(s, budget, events[0]);
      RunKeeps(Next(s, events[0]), budget, events[1..], end);
    }
  }

  lemma {:induction false} InitialInv(budget: int)
    ensures Inv(Initial(budget), budget)
  {
  }
}
