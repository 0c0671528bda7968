/** What the completions of a download are called with. */
module DownloadAnswers {
  // The exact effect of ending a download on its handlers, and that every model handed out really
  // comes from a finished download of that model.

  import opened Wrappers
  import opened DownloadProtocol
  import opened DownloadProofs

  // ---------------------------------------------------------------- one delivery

  function Replies(handlers: seq<nat>, answer: Answer): seq<Answered> {
    if handlers == [] then [] else [Answered(handlers[0], answer)] + Replies(handlers[1..], answer)
  }

  function Repeat(name: string, n: nat): seq<string> {
    if n == 0 then [] else [name] + Repeat(name, n - 1)
  }

  /** How many of n handlers are retried. */
  function Retried(s: State, n: nat, result: Answer): nat {
    if result != Failure(ExpiredURL) || s.retries <= 0 then 0
    else if s.retries < n then s.retries else n
  }

  /** How many of n handlers queue a removal when k of them are retried. */
  function Removing(k: nat, n: nat, result: Answer): nat {
    if result == Failure(ExpiredURL) then k else n
  }

  /** Each handler gets the result of the task, in the order of merging, and queues a removal.
      When the URL has expired, the first handlers are retried as far as the budget goes, and the
      others are told of an internal error and queue none. */
  ghost function DeliveredTo(s: State, handlers: seq<nat>, name: string, result: Answer): State {
    var k := Retried(s, |handlers|, result);
    var answer := if result == Failure(ExpiredURL) then Failure(InternalError) else result;
    s.(retries := s.retries - k,
       retried := s.retried + k,
       awaiting := s.awaiting + multiset(handlers[..k]),
       answers := s.answers + Replies(handlers[k..], answer),
       removals := s.removals + Repeat(name, Removing(k, |handlers|, result)))
  }

  lemma {:induction false} DeliverExact(s: State, handlers: seq<nat>, name: string, result: Answer)
    ensures DeliverAll(s, handlers, name, result) == DeliveredTo(s, handlers, name, result)
    decreases |handlers|
  {
    if handlers == [] {
      assert multiset(handlers[..0]) == multiset{};
    } else {
      var t := Deliver(s, handlers[0], name, result);
      DeliverExact(t, handlers[1..], name, result);
      if result == Failure(ExpiredURL) && s.retries > 0 { RetriedFirst(s, handlers, name, result); }
      else { RepliedFirst(s, handlers, name, result); }
    }
  }

  lemma {:induction false} PrefixOf(a: multiset<nat>, handlers: seq<nat>, k: nat)
    requires 0 < k <= |handlers|
    ensures a + multiset{handlers[0]} + multiset(handlers[1..][..k - 1]) == a + multiset(handlers[..k])
  {
    assert handlers[..k] == [handlers[0]] + handlers[1..][..k - 1];
  }

  lemma {:induction false} RetriedFirst(s: State, handlers: seq<nat>, name: string, result: Answer)
    requires handlers != [] && result == Failure(ExpiredURL) && s.retries > 0
    ensures DeliveredTo(Deliver(s, handlers[0], name, result), handlers[1..], name, result)
         == DeliveredTo(s, handlers, name, result)
  {
    var t, k, rest := Deliver(s, handlers[0], name, result), Retried(s, |handlers|, result), handlers[1..];
    assert Retried(t, |rest|, result) == k - 1;
    PrefixOf(s.awaiting, handlers, k);
    SuffixOf(handlers, k);
    RepeatFirst(s.removals, name, k);
  }

  lemma {:induction false} SuffixOf(handlers: seq<nat>, k: nat)
    requires 0 < k <= |handlers|
    ensures handlers[1..][k - 1..] == handlers[k..]
  {
  }

  lemma {:induction false} RepeatFirst(removals: seq<string>, name: string, k: nat)
    requires k > 0
    ensures removals + [name] + Repeat(name, k - 1) == removals + Repeat(name, k)
  {
  }

  lemma {:induction false} RepliedFirst(s: State, handlers: seq<nat>, name: string, result: Answer)
    requires handlers != [] && (result != Failure(ExpiredURL) || s.retries <= 0)
    ensures DeliveredTo(Deliver(s, handlers[0], name, result), handlers[1..], name, result)
         == DeliveredTo(s, handlers, name, result)
  {
    var answer := if result == Failure(ExpiredURL) then Failure(InternalError) else result;
    var rest := handlers[1..];
    assert handlers[0..] == handlers && rest[0..] == rest && handlers[..0] == [] == rest[..0];
    assert s.answers + [Answered(handlers[0], answer)] + Replies(rest, answer)
        == s.answers + Replies(handlers, answer);
    assert s.removals + [name] + Repeat(name, |rest|) == s.removals + Repeat(name, |handlers|);
  }

  // ---------------------------------------------------------------- which responses are a success

  /** The downloaded file gets into its place: nothing fails, or the removal that would fail is not
      needed. */
  predicate GetsInPlace(s: State, name: string, saving: Saving) {
    saving == Saved || (saving == RemoveFails && name !in s.files)
  }

  /** A download yields a model exactly for a status of 200 up to, but not including, 299 and a file
      that gets into its place. */
  lemma {:induction false} ModelExact(s: State, t: nat, fetched: Fetched)
    requires t < |s.tasks|
    ensures Handle(s, t, fetched).1.Model? <==>
            fetched.Response? && 200 <= fetched.code < 299 && GetsInPlace(s, s.tasks[t].name, fetched.saving)
    ensures fetched.Response? && fetched.code == 299 ==> Handle(s, t, fetched) == (s, Failure(InternalError))
  {
    if fetched.Response? && 200 <= fetched.code < 299 {
      assert Handle(s, t, fetched) == Save(s, t, fetched.saving);
    }
  }

  // ---------------------------------------------------------------- genuine models

  /** Task t finished its download of the model that r asks for, and its hash is h. */
  ghost predicate Source(s: State, t: nat, r: nat, h: string) {
    && t < |s.tasks| && r < |s.names|
    && s.tasks[t].status == Complete && s.tasks[t].name == s.names[r] && s.tasks[t].hash == h
  }

  ghost predicate Genuine(s: State, r: nat, answer: Answer) {
    answer.Model? ==> exists t: nat :: Source(s, t, r, answer.hash)
  }

  ghost predicate AllGenuine(s: State, answers: seq<Answered>) {
    forall k :: 0 <= k < |answers| ==> Genuine(s, answers[k].request, answers[k].answer)
  }

  ghost predicate Named(s: State) {
    && (forall r :: r in s.awaiting ==> r < |s.names|)
    && (forall t :: 0 <= t < |s.tasks| ==> NamedTask(s, s.tasks[t]))
    && (forall n :: n in s.files ==> s.files[n] < |s.tasks| && s.tasks[s.files[n]].status == Complete)
  }

  ghost predicate NamedTask(s: State, task: Task) {
    forall r :: r in task.handlers ==> r < |s.names| && s.names[r] == task.name
  }

  ghost predicate Sound(s: State) {
    TasksStarted(s) && Coherent(s) && Named(s) && AllGenuine(s, s.answers)
  }

  /** Nothing that makes an answer genuine is lost. */
  ghost predicate Extends(s: State, u: State) {
    && s.names <= u.names && |s.tasks| <= |u.tasks|
    && (forall t :: 0 <= t < |s.tasks| ==> && u.tasks[t].name == s.tasks[t].name
                                           && u.tasks[t].hash == s.tasks[t].hash
                                           && (s.tasks[t].status == Complete ==> u.tasks[t].status == Complete))
  }

  lemma {:induction false} StillGenuine(s: State, u: State, answers: seq<Answered>)
    requires AllGenuine(s, answers) && Extends(s, u)
    ensures AllGenuine(u, answers)
  {
    forall k | 0 <= k < |answers| ensures Genuine(u, answers[k].request, answers[k].answer) {
      var r, answer := answers[k].request, answers[k].answer;
      assert Genuine(s, r, answer);
      if answer.Model? {
        var t: nat :| Source(s, t, r, answer.hash);
        assert Source(u, t, r, answer.hash);
      }
    }
  }

  lemma {:induction false} GenuineAppend(s: State, answers: seq<Answered>, more: seq<Answered>)
    requires AllGenuine(s, answers) && AllGenuine(s, more)
    ensures AllGenuine(s, answers + more)
  {
  }

  lemma {:induction false} RepliesGenuine(s: State, handlers: seq<nat>, answer: Answer)
    requires forall r :: r in handlers ==> Genuine(s, r, answer)
    ensures AllGenuine(s, Replies(handlers, answer))
  {
    if handlers != [] {
      RepliesGenuine(s, handlers[1..], answer);
    }
  }

  /** The result of a response is a model only if it is that of the task itself. */
  lemma {:induction false} HandleModel(s: State, t: nat, fetched: Fetched)
    requires t < |s.tasks| && s.tasks[t].status == Complete && Coherent(s) && Named(s)
    ensures var (u, result) := Handle(s, t, fetched);
            && Coherent(u) && Named(u) && u == s.(files := u.files, defaults := u.defaults)
            && (result.Model? ==> result.hash == s.tasks[t].hash)
  {
  }

  lemma {:induction false} EndSound(s: State, t: nat, fetched: Fetched)
    requires Sound(s) && Enabled(s, DownloadEnds(t, fetched))
    ensures Sound(End(s, t, fetched))
  {
    var task := s.tasks[t];
    var done := s.(tasks := s.tasks[t := task.(status := Complete)]);
    assert Extends(s, done);
    StillGenuine(s, done, s.answers);
    assert NamedTask(s, task);
    assert Named(done) by {
      forall i | 0 <= i < |done.tasks| ensures NamedTask(done, done.tasks[i]) {
        assert NamedTask(s, s.tasks[i]);
      }
    }
    assert Coherent(done);
    HandleModel(done, t, fetched);
    var (u, result) := Handle(done, t, fetched);
    StillGenuine(done, u, s.answers);
    HandlersGenuine(u, t, result);
    DeliverSound(u, task.handlers, task.name, result);
  }

  lemma {:induction false} HandlersGenuine(u: State, t: nat, result: Answer)
    requires t < |u.tasks| && u.tasks[t].status == Complete && NamedTask(u, u.tasks[t])
    requires result.Model? ==> result.hash == u.tasks[t].hash
    ensures forall r :: r in u.tasks[t].handlers ==> r < |u.names| && Genuine(u, r, result)
  {
    forall r | r in u.tasks[t].handlers ensures Genuine(u, r, result) {
      if result.Model? { assert Source(u, t, r, result.hash); }
    }
  }

  lemma {:induction false} DeliverSound(s: State, handlers: seq<nat>, name: string, result: Answer)
    requires Sound(s) && forall r :: r in handlers ==> r < |s.names| && Genuine(s, r, result)
    ensures Sound(DeliverAll(s, handlers, name, result))
  {
    DeliverExact(s, handlers, name, result);
    var u := DeliverAll(s, handlers, name, result);
    var k := Retried(s, |handlers|, result);
    var answer := if result == Failure(ExpiredURL) then Failure(InternalError) else result;
    RepliesGenuine(s, handlers[k..], answer);
    GenuineAppend(s, s.answers, Replies(handlers[k..], answer));
    StillGenuine(s, u, u.answers);
    forall r | r in u.awaiting ensures r < |u.names| {
      if r !in s.awaiting {
        assert r in multiset(handlers[..k]);
        assert r in handlers[..k] && r in handlers;
      } else {
        assert Named(s);
      }
    }
    SameNamed(s, u);
  }

  lemma {:induction false} SameNamed(s: State, u: State)
    requires Sound(s) && u.tasks == s.tasks && u.names == s.names && u.files == s.files
    requires u.current == s.current && u.defaults == s.defaults
    requires (forall r :: r in u.awaiting ==> r < |u.names|) && AllGenuine(u, u.answers)
    ensures Sound(u)
  {
    forall i | 0 <= i < |u.tasks| ensures NamedTask(u, u.tasks[i]) {
      assert NamedTask(s, s.tasks[i]);
    }
  }

  lemma {:induction false} ReplySound(s: State, u: State, r: nat, answer: Answer)
    requires Sound(s) && r < |s.names| && Genuine(s, r, answer)
    requires u == Reply(s.(awaiting := s.awaiting - multiset{r}), r, answer)
    ensures Sound(u)
  {
    GenuineAppend(s, s.answers, [Answered(r, answer)]);
    StillGenuine(s, u, u.answers);
    SameNamed(s, u);
  }

  lemma {:induction false} LocalGenuine(s: State, r: nat)
    requires Sound(s) && r < |s.names| && LocalModel(s, s.names[r]).Some?
    ensures Genuine(s, r, Model(LocalModel(s, s.names[r]).value))
  {
    assert Source(s, s.files[s.names[r]], r, s.defaults[s.names[r]]);
  }

  lemma {:induction false} StartSound(s: State, r: nat, hash: string)
    requires Sound(s) && r < |s.names|
    ensures Sound(Start(s, r, s.names[r], hash))
  {
    var name := s.names[r];
    var u := Start(s, r, name, hash);
    StartKeepsStarted(s, r, name, hash);
    assert Extends(s, u);
    StillGenuine(s, u, s.answers);
    forall i | 0 <= i < |u.tasks| ensures NamedTask(u, u.tasks[i]) {
      if i < |s.tasks| { assert NamedTask(s, s.tasks[i]); }
    }
  }

  lemma {:induction false} ArriveSound(s: State, r: nat, info: InfoResult)
    requires Sound(s) && Enabled(s, InfoArrives(r, info))
    ensures Sound(Arrive(s, r, info))
  {
    var t := s.(awaiting := s.awaiting - multiset{r});
    match info
    case NewInfo(hash) =>
      StillGenuine(s, t, s.answers);
      SameNamed(s, t);
      StartSound(t, r, hash);
    case NotModified =>
      var local := LocalModel(s, s.names[r]);
      if local.Some? { LocalGenuine(s, r); }
      ReplySound(s, Arrive(s, r, info), r, if local.Some? then Model(local.value) else Failure(InternalError));
    case InfoFailed(error) =>
      ReplySound(s, Arrive(s, r, info), r, Failure(error));
  }

  lemma {:induction false} OtherSound(s: State, e: Event)
    requires Sound(s) && Enabled(s, e) && !e.InfoArrives? && !e.DownloadEnds?
    ensures Sound(Next(s, e))
  {
    var u := Next(s, e);
    StillGenuine(s, u, s.answers);
    forall i | 0 <= i < |u.tasks| ensures NamedTask(u, u.tasks[i]) {
      assert NamedTask(s, s.tasks[i]);
    }
  }

  lemma {:induction false} RunSound(s: State, events: seq<Event>, end: State)
    requires Sound(s) && IsRun(s, events, end)
    ensures Sound(end)
    decreases |events|
  {
    if events != [] {
      var e := events[0];
      if e.InfoArrives? { ArriveSound(s, e.request, e.info); }
      else if e.DownloadEnds? { EndSound(s, e.task, e.fetched); }
      else { OtherSound(s, e); }
      RunSound(Next(s, e), events[1..], end);
    }
  }

  /** In every run, a completion that is called with a model gets the hash of a finished
      download of the very model its request asked for. */
  lemma {:induction false} AnswersAreGenuine(budget: int, events: seq<Event>, s: State, k: nat)
    requires IsRun(Initial(budget), events, s) && k < |s.answers| && s.answers[k].answer.Model?
    ensures exists t: nat :: Source(s, t, s.answers[k].request, s.answers[k].answer.hash)
  {
    RunSound(Initial(budget), events, s);
    assert Genuine(s, s.answers[k].request, s.answers[k].answer);
  }
}
