/** The model download protocol as a transition system. */
module DownloadProtocol {
  // Its steps are atomic: a request arrives, its model info arrives, a file download ends, a queued
  // removal runs, a model is deleted.

  import opened Wrappers

  // ---------------------------------------------------------------- data

  datatype Status = Ready | Downloading | Complete

  /** A download task; handlers are the requests its completion will answer, in the order in
      which they were merged; started counts the file downloads it has begun. */
  datatype Task = Task(name: string, hash: string, status: Status, handlers: seq<nat>, started: nat)

  datatype Error =
    | NotFound | InvalidArgument | PermissionDenied | FailedPrecondition | NotEnoughSpace
    | ExpiredURL | InternalError

  /** A model is known by the hash recorded for it. */
  datatype Answer = Model(hash: string) | Failure(error: Error)

  datatype InfoResult = NewInfo(hash: string) | NotModified | InfoFailed(error: Error)

  /** What happens when the downloaded file is put in its place. */
  datatype Saving = NoDirectory | RemoveFails | MoveFails(outOfSpace: bool) | Saved

  /** How a file download ends. */
  datatype Fetched =
    | NetworkError
    | OtherError
    | Response(code: int, urlExpired: bool, saving: Saving)

  datatype Answered = Answered(request: nat, answer: Answer)

  datatype State = State(
    names: seq<string>,          // the model each request asks for
    awaiting: multiset<nat>,     // requests whose model info is on its way
    tasks: seq<Task>,            // every task ever made
    current: map<string, nat>,   // the task being tracked for a model
    retries: int,                // retries still allowed
    retried: nat,                // retries made
    removals: seq<string>,       // removals waiting on the serial queue
    answers: seq<Answered>,      // completions called, in order
    files: map<string, nat>,     // the task that wrote the file on disk
    defaults: map<string, string>)  // the hash recorded for a model

  datatype Event =
    | Request(name: string)
    | InfoArrives(request: nat, info: InfoResult)
    | DownloadEnds(task: nat, fetched: Fetched)
    | RemovalRuns
    | Delete(name: string, removeFails: bool)

  function Initial(retries: int): State {
    State([], multiset{}, [], map[], retries, 0, [], [], map[], map[])
  }

  // ---------------------------------------------------------------- the store

  /** getLocalModel: both parts of the store must be there. */
  function LocalModel(s: State, name: string): Option<string> {
    if name in s.defaults && name in s.files then Some(s.defaults[name]) else None
  }

  /** moveFile and what follows it: the file and the recorded hash after a good response. */
  function Save(s: State, t: nat, saving: Saving): (State, Answer)
    requires t < |s.tasks|
  {
    var name, hash := s.tasks[t].name, s.tasks[t].hash;
    if saving == NoDirectory then (s, Failure(InternalError))
    else if name in s.files && saving == RemoveFails then (s, Failure(InternalError))
    else
      var removed := s.(files := s.files - {name});
      match saving
      case MoveFails(outOfSpace) => (removed, Failure(if outOfSpace then NotEnoughSpace else InternalError))
      case _ => (s.(files := s.files[name := t], defaults := s.defaults[name := hash]), Model(hash))
  }

  /** The result handed to the completion of a task. */
  function Handle(s: State, t: nat, fetched: Fetched): (State, Answer)
    requires t < |s.tasks|
  {
    match fetched
    case NetworkError => (s, Failure(FailedPrecondition))
    case OtherError => (s, Failure(InternalError))
    case Response(code, urlExpired, saving) =>
      if 200 <= code < 299 then Save(s, t, saving)
      else if code == 400 then (s, Failure(if urlExpired then ExpiredURL else InvalidArgument))
      else if code == 401 || code == 403 then (s, Failure(PermissionDenied))
      else if code == 404 then (s, Failure(NotFound))
      else (s, Failure(InternalError))
  }

  // ---------------------------------------------------------------- steps

  function Reply(s: State, r: nat, answer: Answer): State {
    s.(answers := s.answers + [Answered(r, answer)])
  }

  /** The completion of one request: answer it, or retry when the URL has expired and the
      budget allows; then queue a removal.  When the budget is used up the completion ends
      before it queues one. */
  function Deliver(s: State, r: nat, name: string, result: Answer): State {
    if result == Failure(ExpiredURL) then
      if s.retries > 0 then
        s.(retries := s.retries - 1, retried := s.retried + 1, awaiting := s.awaiting + multiset{r},
           removals := s.removals + [name])
      else Reply(s, r, Failure(InternalError))
    else
      Reply(s, r, result).(removals := s.removals + [name])
  }

  function DeliverAll(s: State, handlers: seq<nat>, name: string, result: Answer): State
    decreases |handlers|
  {
    if handlers == [] then s
    else DeliverAll(Deliver(s, handlers[0], name, result), handlers[1..], name, result)
  }

  function Resume(task: Task): Task {
    if task.status == Downloading then task
    else task.(status := Downloading, started := task.started + 1)
  }

  predicate CanMerge(s: State, name: string) {
    name in s.current && s.current[name] < |s.tasks| && s.tasks[s.current[name]].status != Complete
  }

  /** New model info: join the task that is being tracked, or start a new one. */
  function Start(s: State, r: nat, name: string, hash: string): State {
    if CanMerge(s, name) then
      var t := s.current[name];
      var merged := s.tasks[t].(handlers := s.tasks[t].handlers + [r]);
      s.(tasks := s.tasks[t := if merged.status == Ready then Resume(merged) else merged])
    else
      s.(tasks := s.tasks + [Resume(Task(name, hash, Ready, [r], 0))], current := s.current[name := |s.tasks|])
  }

  function Arrive(s: State, r: nat, info: InfoResult): State
    requires r < |s.names|
  {
    var t := s.(awaiting := s.awaiting - multiset{r});
    match info
    case NewInfo(hash) => Start(t, r, s.names[r], hash)
    case NotModified =>
      (match LocalModel(t, s.names[r])
       case Some(hash) => Reply(t, r, Model(hash))
       case None => Reply(t, r, Failure(InternalError)))
    case InfoFailed(error) => Reply(t, r, Failure(error))
  }

  function End(s: State, t: nat, fetched: Fetched): State
    requires t < |s.tasks|
  {
    var task := s.tasks[t];
    var (u, result) := Handle(s.(tasks := s.tasks[t := task.(status := Complete)]), t, fetched);
    DeliverAll(u, task.handlers, task.name, result)
  }

  predicate Enabled(s: State, e: Event) {
    match e
    case Request(_) => true
    case InfoArrives(r, _) => r in s.awaiting && r < |s.names|
    case DownloadEnds(t, _) => t < |s.tasks| && s.tasks[t].status == Downloading
    case RemovalRuns => s.removals != []
    case Delete(_, _) => true
  }

  function Next(s: State, e: Event): State
    requires Enabled(s, e)
  {
    match e
    case Request(name) =>
      s.(names := s.names + [name], awaiting := s.awaiting + multiset{|s.names|})
    case InfoArrives(r, info) => Arrive(s, r, info)
    case DownloadEnds(t, fetched) => End(s, t, fetched)
    case RemovalRuns => s.(removals := s.removals[1..], current := s.current - {s.removals[0]})
    case Delete(name, removeFails) =>
      if LocalModel(s, name).None? || removeFails then s
      else s.(files := s.files - {name}, defaults := s.defaults - {name})
  }

  /** The states of a run that only takes enabled steps. */
  ghost predicate IsRun(s: State, events: seq<Event>, end: State)
    decreases |events|
  {
    if events == [] then end == s
    else Enabled(s, events[0]) && IsRun(Next(s, events[0]), events[1..], end)
  }
}
