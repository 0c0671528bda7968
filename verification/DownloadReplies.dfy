/** What every event of a download answers and stores. */
module DownloadReplies {
  // Said of the fields of the state and of the event alone, for any state: who is told what, which
  // file and which record are there afterwards, and that nothing else changes.

  import opened DownloadAnswers
  import opened DownloadProtocol
  import opened Wrappers

  // ---------------------------------------------------------------- model info

  /** The model that is on the device: both its file and its record are there. */
  ghost predicate OnDevice(s: State, name: string, hash: string) {
    name in s.files && name in s.defaults && s.defaults[name] == hash
  }

  ghost function Asked(s: State, r: nat): State {
    s.(awaiting := s.awaiting - multiset{r})
  }

  /** Not modified: the request gets the model that is on the device, and an internal error exactly
      when there is none. */
  lemma {:induction false} NotModifiedReply(s: State, r: nat) returns (answer: Answer)
    requires Enabled(s, InfoArrives(r, NotModified))
    ensures Next(s, InfoArrives(r, NotModified)) == Asked(s, r).(answers := s.answers + [Answered(r, answer)])
    ensures forall hash :: answer == Model(hash) <==> OnDevice(s, s.names[r], hash)
    ensures answer == Failure(InternalError) <==> !exists hash :: OnDevice(s, s.names[r], hash)
  {
    var name := s.names[r];
    answer := if name in s.files && name in s.defaults then Model(s.defaults[name]) else Failure(InternalError);
    assert name in s.files && name in s.defaults ==> OnDevice(s, name, s.defaults[name]);
  }

  /** The error of the info call is handed on. */
  lemma {:induction false} InfoFailedReply(s: State, r: nat, error: Error)
    requires Enabled(s, InfoArrives(r, InfoFailed(error)))
    ensures Next(s, InfoArrives(r, InfoFailed(error)))
         == Asked(s, r).(answers := s.answers + [Answered(r, Failure(error))])
  {
  }

  /** New info: the request joins, as the last one, the task that is tracked for its model and not
      complete, or gets a task of its own that is downloading and tracked. */
  lemma {:induction false} NewInfoStarts(s: State, r: nat, hash: string)
    requires Enabled(s, InfoArrives(r, NewInfo(hash)))
    requires forall t :: 0 <= t < |s.tasks| ==> s.tasks[t].status != Ready
    ensures var name, u := s.names[r], Next(s, InfoArrives(r, NewInfo(hash)));
            if name in s.current && s.current[name] < |s.tasks| && s.tasks[s.current[name]].status == Downloading then
              var t := s.current[name];
              u == Asked(s, r).(tasks := s.tasks[t := s.tasks[t].(handlers := s.tasks[t].handlers + [r])])
            else
              u == Asked(s, r).(tasks := s.tasks + [Task(name, hash, Downloading, [r], 1)],
                                current := s.current[name := |s.tasks|])
  {
  }

  // ---------------------------------------------------------------- the end of a download

  ghost predicate Accepted(fetched: Fetched) {
    fetched.Response? && 200 <= fetched.code <= 298
  }

  /** The file was received and gets into its place. */
  ghost predicate Succeeds(s: State, name: string, fetched: Fetched) {
    Accepted(fetched) && (fetched.saving == Saved || (fetched.saving == RemoveFails && name !in s.files))
  }

  ghost predicate Expires(fetched: Fetched) {
    fetched.Response? && fetched.code == 400 && fetched.urlExpired
  }

  /** The error that each other end of a download leads to. */
  ghost predicate FailsWith(s: State, name: string, fetched: Fetched, error: Error) {
    match error
    case FailedPrecondition => fetched == NetworkError
    case InvalidArgument => fetched.Response? && fetched.code == 400 && !fetched.urlExpired
    case PermissionDenied => fetched.Response? && (fetched.code == 401 || fetched.code == 403)
    case NotFound => fetched.Response? && fetched.code == 404
    case NotEnoughSpace => Accepted(fetched) && fetched.saving == MoveFails(true)
    case InternalError =>
      || fetched == OtherError
      || (fetched.Response? && !Accepted(fetched) && fetched.code !in {400, 401, 403, 404})
      || (Accepted(fetched) && (|| fetched.saving == NoDirectory
                                || fetched.saving == MoveFails(false)
                                || (fetched.saving == RemoveFails && name in s.files)))
    case ExpiredURL => false
  }

  /** Every end of a download is exactly one of these. */
  lemma {:induction false} EndsExact(s: State, name: string, fetched: Fetched)
    ensures Succeeds(s, name, fetched) ==> !Expires(fetched) && forall e :: !FailsWith(s, name, fetched, e)
    ensures Expires(fetched) ==> forall e :: !FailsWith(s, name, fetched, e)
    ensures Succeeds(s, name, fetched) || Expires(fetched) || exists e :: FailsWith(s, name, fetched, e)
    ensures forall e, f :: FailsWith(s, name, fetched, e) && FailsWith(s, name, fetched, f) ==> e == f
  {
    if !Succeeds(s, name, fetched) && !Expires(fetched) {
      var e := match fetched
        case NetworkError => FailedPrecondition
        case OtherError => InternalError
        case Response(code, _, saving) =>
          if Accepted(fetched) then (if saving == MoveFails(true) then NotEnoughSpace else InternalError)
          else if code == 400 then InvalidArgument
          else if code == 401 || code == 403 then PermissionDenied
          else if code == 404 then NotFound
          else InternalError;
      assert FailsWith(s, name, fetched, e);
    }
  }

  /** The handlers are told, one after the other. */
  ghost predicate Told(before: seq<Answered>, after: seq<Answered>, handlers: seq<nat>, answer: Answer) {
    && |after| == |before| + |handlers| && before <= after
    && forall k :: 0 <= k < |handlers| ==> after[|before| + k] == Answered(handlers[k], answer)
  }

  lemma {:induction false} RepliesAt(handlers: seq<nat>, answer: Answer, k: nat)
    requires k < |handlers|
    ensures |Replies(handlers, answer)| == |handlers|
    ensures Replies(handlers, answer)[k] == Answered(handlers[k], answer)
    decreases |handlers|
  {
    if |handlers| > 1 { RepliesAt(handlers[1..], answer, if k == 0 then 0 else k - 1); }
    else { assert handlers[1..] == []; }
  }

  lemma {:induction false} RepliesTell(before: seq<Answered>, handlers: seq<nat>, answer: Answer)
    ensures Told(before, before + Replies(handlers, answer), handlers, answer)
  {
    if handlers != [] { RepliesAt(handlers, answer, 0); }
    forall k | 0 <= k < |handlers|
      ensures (before + Replies(handlers, answer))[|before| + k] == Answered(handlers[k], answer)
    {
      RepliesAt(handlers, answer, k);
    }
  }

  /** What does not change when a download ends. */
  ghost predicate OnlyEnded(s: State, t: nat, u: State)
    requires t < |s.tasks|
  {
    && u.names == s.names && u.current == s.current
    && u.tasks == s.tasks[t := s.tasks[t].(status := Complete)]
  }

  /** A file that gets into its place is recorded, and every request merged into the task is told of
      the model. */
  lemma {:induction false} SuccessReplies(s: State, t: nat, fetched: Fetched)
    requires Enabled(s, DownloadEnds(t, fetched)) && Succeeds(s, s.tasks[t].name, fetched)
    ensures var task, u := s.tasks[t], Next(s, DownloadEnds(t, fetched));
            && OnlyEnded(s, t, u) && u.awaiting == s.awaiting && u.retries == s.retries
            && Told(s.answers, u.answers, task.handlers, Model(task.hash))
            && u.files == s.files[task.name := t] && u.defaults == s.defaults[task.name := task.hash]
  {
    var u := Handle(Done(s, t), t, fetched).0;
    EndDelivers(s, t, fetched, u, Model(s.tasks[t].hash));
    DeliveredTells(u, s.tasks[t].handlers, s.tasks[t].name, Model(s.tasks[t].hash));
    assert s.tasks[t].handlers[0..] == s.tasks[t].handlers && multiset(s.tasks[t].handlers[..0]) == multiset{};
  }

  /** Every other failure is told to all of them; only a move that fails leaves no file, and the record
      stays. */
  lemma {:induction false} FailureReplies(s: State, t: nat, fetched: Fetched, error: Error)
    requires Enabled(s, DownloadEnds(t, fetched)) && FailsWith(s, s.tasks[t].name, fetched, error)
    ensures var task, u := s.tasks[t], Next(s, DownloadEnds(t, fetched));
            && OnlyEnded(s, t, u) && u.awaiting == s.awaiting && u.retries == s.retries
            && Told(s.answers, u.answers, task.handlers, Failure(error))
            && u.files == (if Accepted(fetched) && fetched.saving.MoveFails? then s.files - {task.name} else s.files)
            && u.defaults == s.defaults
  {
    var u := Handle(Done(s, t), t, fetched).0;
    EndDelivers(s, t, fetched, u, Failure(error));
    DeliveredTells(u, s.tasks[t].handlers, s.tasks[t].name, Failure(error));
    assert s.tasks[t].handlers[0..] == s.tasks[t].handlers && multiset(s.tasks[t].handlers[..0]) == multiset{};
  }

  /** Who is told what, unless the URL has expired. */
  lemma {:induction false} EndTells(s: State, t: nat, fetched: Fetched)
    requires Enabled(s, DownloadEnds(t, fetched))
    ensures var task, u := s.tasks[t], Next(s, DownloadEnds(t, fetched));
            && (Succeeds(s, task.name, fetched) ==> Told(s.answers, u.answers, task.handlers, Model(task.hash)))
            && (forall e :: FailsWith(s, task.name, fetched, e) ==>
                  Told(s.answers, u.answers, task.handlers, Failure(e)))
  {
    if Succeeds(s, s.tasks[t].name, fetched) { SuccessReplies(s, t, fetched); }
    forall e | FailsWith(s, s.tasks[t].name, fetched, e)
      ensures Told(s.answers, Next(s, DownloadEnds(t, fetched)).answers, s.tasks[t].handlers, Failure(e))
    {
      FailureReplies(s, t, fetched, e);
    }
  }

  /** When the URL has expired, the first requests ask again, as many as the budget allows, and the
      others are told of an internal error. */
  lemma {:induction false} ExpiredReplies(s: State, t: nat, fetched: Fetched)
    requires Enabled(s, DownloadEnds(t, fetched)) && Expires(fetched)
    ensures var hs, u := s.tasks[t].handlers, Next(s, DownloadEnds(t, fetched));
            var k := if s.retries <= 0 then 0 else if s.retries < |hs| then s.retries else |hs|;
            && OnlyEnded(s, t, u) && u.files == s.files && u.defaults == s.defaults
            && u.awaiting == s.awaiting + multiset(hs[..k]) && u.retries == s.retries - k
            && Told(s.answers, u.answers, hs[k..], Failure(InternalError))
  {
    var u := Handle(Done(s, t), t, fetched).0;
    EndDelivers(s, t, fetched, u, Failure(ExpiredURL));
    DeliveredTells(u, s.tasks[t].handlers, s.tasks[t].name, Failure(ExpiredURL));
  }

  ghost function Done(s: State, t: nat): State
    requires t < |s.tasks|
  {
    s.(tasks := s.tasks[t := s.tasks[t].(status := Complete)])
  }

  /** u is the state, and result what the completions are called with, once the response is handled. */
  lemma {:induction false} EndDelivers(s: State, t: nat, fetched: Fetched, u: State, result: Answer)
    requires Enabled(s, DownloadEnds(t, fetched)) && Handle(Done(s, t), t, fetched) == (u, result)
    ensures Next(s, DownloadEnds(t, fetched)) == DeliveredTo(u, s.tasks[t].handlers, s.tasks[t].name, result)
  {
    DeliverExact(u, s.tasks[t].handlers, s.tasks[t].name, result);
  }

  lemma {:induction false} DeliveredTells(u: State, handlers: seq<nat>, name: string, result: Answer)
    ensures var answer := if result == Failure(ExpiredURL) then Failure(InternalError) else result;
            Told(u.answers, DeliveredTo(u, handlers, name, result).answers,
                 handlers[Retried(u, |handlers|, result)..], answer)
  {
    var answer := if result == Failure(ExpiredURL) then Failure(InternalError) else result;
    RepliesTell(u.answers, handlers[Retried(u, |handlers|, result)..], answer);
  }

  // ---------------------------------------------------------------- requests, removals, deletion

  /** A request is one more that asks for the name and awaits its info. */
  lemma {:induction false} RequestAsks(s: State, name: string)
    ensures var u := Next(s, Request(name));
            && u == s.(names := u.names, awaiting := u.awaiting)
            && |u.names| == |s.names| + 1 && s.names <= u.names && u.names[|s.names|] == name
            && u.awaiting == s.awaiting + multiset{|s.names|}
  {
  }

  /** A queued removal drops what is tracked under its name, and nothing else. */
  lemma {:induction false} RemovalDrops(s: State)
    requires Enabled(s, RemovalRuns)
    ensures var u := Next(s, RemovalRuns);
            && u == s.(removals := s.removals[1..], current := u.current)
            && (forall n :: n in u.current <==> n in s.current && n != s.removals[0])
            && (forall n :: n in u.current ==> u.current[n] == s.current[n])
  {
  }

  /** A model that is on the device is gone afterwards, file and record, unless the file cannot be
      removed; otherwise nothing happens. */
  lemma {:induction false} DeleteExact(s: State, name: string, removeFails: bool)
    ensures var u := Next(s, Delete(name, removeFails));
            if name in s.files && name in s.defaults && !removeFails then
              && u == s.(files := u.files, defaults := u.defaults)
              && name !in u.files && name !in u.defaults
              && (forall other :: other != name ==> (other in u.files <==> other in s.files))
              && (forall other :: other != name ==> (other in u.defaults <==> other in s.defaults))
              && (forall other :: other in u.files ==> u.files[other] == s.files[other])
              && (forall other :: other in u.defaults ==> u.defaults[other] == s.defaults[other])
            else u == s
  {
  }
}
