/** ModelDownloader and ModelDownloadTask as classes. */
module ModelDownloader {
  // The dictionary of tasks being tracked, the retry counter and the tasks themselves are updated in
  // place by the callbacks.  Each callback is proved to take exactly one step of DownloadProtocol.

  import opened Wrappers
  import P = DownloadProtocol
  import R = DownloadReplies

  class ModelDownloadTask {
    const id: nat   // its place among all tasks made
    const name: string
    const hash: string
    var downloadStatus: P.Status
    var completion: seq<nat>   // the requests whose completions are chained
    var started: nat           // file downloads begun

    ghost function Value(): P.Task
      reads this
    {
      P.Task(name, hash, downloadStatus, completion, started)
    }

    constructor (id: nat, name: string, hash: string, completion: nat)
      ensures this.id == id && Value() == P.Task(name, hash, P.Ready, [completion], 0)
    {
      this.id, this.name, this.hash := id, name, hash;
      downloadStatus := P.Ready;
      this.completion := [completion];
      started := 0;
    }

    predicate CanMergeRequests()
      reads this
    {
      downloadStatus != P.Complete
    }

    predicate CanResume()
      reads this
    {
      downloadStatus == P.Ready
    }

    method Merge(newCompletion: nat)
      modifies this
      ensures Value() == old(Value()).(handlers := old(completion) + [newCompletion])
    {
      completion := completion + [newCompletion];
    }

    method Resume()
      modifies this
      ensures Value() == P.Resume(old(Value()))
    {
      if downloadStatus == P.Downloading {
        return;
      }
      downloadStatus := P.Downloading;
      started := started + 1;
    }

    method Finish()
      modifies this
      ensures Value() == old(Value()).(status := P.Complete)
    {
      downloadStatus := P.Complete;
    }
  }

  ghost function Values(tasks: seq<ModelDownloadTask>): (s: seq<P.Task>)
    reads tasks
    ensures |s| == |tasks|
    ensures forall i :: 0 <= i < |s| ==> s[i] == tasks[i].Value()
  {
    seq(|tasks|, i requires 0 <= i < |tasks| reads tasks => tasks[i].Value())
  }

  class ModelDownloader {
    var numberOfRetries: int
    var currentDownloadTask: map<string, ModelDownloadTask>

    // The network, the queues, the file system and the user defaults.
    var names: seq<string>
    var awaiting: multiset<nat>
    var tasks: seq<ModelDownloadTask>
    var removals: seq<string>
    var answers: seq<P.Answered>
    var files: map<string, nat>
    var defaults: map<string, string>
    ghost var retried: nat

    ghost predicate Valid()
      reads this
    {
      && (forall i :: 0 <= i < |tasks| ==> tasks[i].id == i)
      && (forall n :: n in currentDownloadTask ==> Known(currentDownloadTask[n]))
    }

    ghost predicate Known(task: ModelDownloadTask)
      reads this
    {
      task.id < |tasks| && tasks[task.id] == task
    }

    ghost function Current(): map<string, nat>
      reads this
    {
      map n | n in currentDownloadTask :: currentDownloadTask[n].id
    }

    ghost function Value(): P.State
      reads this, tasks
    {
      P.State(names, awaiting, Values(tasks), Current(), numberOfRetries, retried, removals, answers,
              files, defaults)
    }

    constructor (retries: int)
      ensures Valid() && Value() == P.Initial(retries)
    {
      numberOfRetries, currentDownloadTask := retries, map[];
      names, awaiting, tasks, removals, answers := [], multiset{}, [], [], [];
      files, defaults, retried := map[], map[], 0;
    }

    /** downloadInfoAndModel is called: its model info is on its way. */
    method RequestModel(name: string)
      requires Valid()
      modifies this`names, this`awaiting
      ensures Valid() && Value() == P.Next(old(Value()), P.Request(name))
    {
      awaiting := awaiting + multiset{|names|};
      names := names + [name];
    }

    method GetLocalModel(name: string) returns (hash: Option<string>)
      ensures hash == P.LocalModel(Value(), name)
    {
      if name !in defaults { return None; }
      if name !in files { return None; }
      return Some(defaults[name]);
    }

    method Reply(request: nat, answer: P.Answer)
      modifies this`answers
      ensures Value() == P.Reply(old(Value()), request, answer)
    {
      answers := answers + [P.Answered(request, answer)];
    }

    method AnswerLocally(request: nat, name: string)
      modifies this`answers
      ensures var local := P.LocalModel(old(Value()), name);
              Value() == P.Reply(old(Value()), request,
                                 if local.Some? then P.Model(local.value) else P.Failure(P.InternalError))
    {
      var local := GetLocalModel(name);
      Reply(request, if local.Some? then P.Model(local.value) else P.Failure(P.InternalError));
    }

    /** The callback of downloadModelInfo. */
    method InfoArrives(request: nat, info: P.InfoResult)
      requires Valid() && P.Enabled(Value(), P.InfoArrives(request, info))
      modifies this, tasks
      ensures Valid() && Value() == P.Next(old(Value()), P.InfoArrives(request, info))
      ensures info.NotModified? ==>
                answers == old(answers) + [P.Answered(request,
                  if old(names[request] in files && names[request] in defaults)
                  then P.Model(old(defaults[names[request]])) else P.Failure(P.InternalError))]
      ensures info.InfoFailed? ==> answers == old(answers) + [P.Answered(request, P.Failure(info.error))]
      ensures forall t :: 0 <= t < |tasks| ==> tasks[t] in old(tasks) || fresh(tasks[t])
    {
      awaiting := awaiting - multiset{request};
      match info
      case NewInfo(hash) => StartDownload(request, names[request], hash);
      case NotModified => AnswerLocally(request, names[request]);
      case InfoFailed(error) => Reply(request, P.Failure(error));
    }

    /** The block run on the task queue: merge with the tracked task, or make a new one. */
    method StartDownload(request: nat, name: string, hash: string)
      requires Valid()
      modifies this`tasks, this`currentDownloadTask, tasks
      ensures Valid() && Value() == P.Start(old(Value()), request, name, hash)
      ensures forall t :: 0 <= t < |tasks| ==> tasks[t] in old(tasks) || fresh(tasks[t])
    {
      ghost var tracked := Current();
      if name in currentDownloadTask && currentDownloadTask[name].CanMergeRequests() {
        assert tracked[name] == currentDownloadTask[name].id;
        MergeInto(currentDownloadTask[name], request);
      } else {
        NewDownload(request, name, hash);
      }
    }

    method MergeInto(task: ModelDownloadTask, request: nat)
      requires Valid() && Known(task)
      modifies task
      ensures Valid()
      ensures var s := old(Value());
              var merged := s.tasks[task.id].(handlers := s.tasks[task.id].handlers + [request]);
              Value() == s.(tasks := s.tasks[task.id := if merged.status == P.Ready then P.Resume(merged) else merged])
    {
      ghost var before := Values(tasks);
      task.Merge(request);
      if task.CanResume() {
        task.Resume();
      }
      assert Values(tasks) == before[task.id := task.Value()];
    }

    method NewDownload(request: nat, name: string, hash: string)
      requires Valid()
      modifies this`tasks, this`currentDownloadTask
      ensures Valid() && |tasks| == |old(tasks)| + 1 && tasks[..|old(tasks)|] == old(tasks)
        && fresh(tasks[|old(tasks)|])
      ensures var s := old(Value());
              Value() == s.(tasks := s.tasks + [P.Resume(P.Task(name, hash, P.Ready, [request], 0))],
                            current := s.current[name := |s.tasks|])
    {
      var task := new ModelDownloadTask(|tasks|, name, hash, request);
      task.Resume();
      Track(task);
    }

    method Track(task: ModelDownloadTask)
      requires Valid() && task.id == |tasks|
      modifies this`tasks, this`currentDownloadTask
      ensures Valid() && tasks == old(tasks) + [task]
      ensures Value() == old(Value()).(tasks := old(Values(tasks)) + [task.Value()],
                                       current := old(Current())[task.name := task.id])
    {
      tasks := tasks + [task];
      currentDownloadTask := currentDownloadTask[task.name := task];
      assert Values(tasks) == old(Values(tasks)) + [task.Value()];
      assert Current() == old(Current())[task.name := task.id];
    }

    /** The completion of one request. */
    method Complete(request: nat, name: string, result: P.Answer)
      modifies this`numberOfRetries, this`retried, this`awaiting, this`answers, this`removals
      ensures Value() == P.Deliver(old(Value()), request, name, result)
    {
      if result == P.Failure(P.ExpiredURL) {
        if numberOfRetries > 0 {
          numberOfRetries := numberOfRetries - 1;
          retried := retried + 1;
          awaiting := awaiting + multiset{request};
        } else {
          Reply(request, P.Failure(P.InternalError));
          return;
        }
      } else {
        Reply(request, result);
      }
      removals := removals + [name];
    }

    /** moveFile: the old file is removed first. */
    method MoveFile(task: ModelDownloadTask, saving: P.Saving) returns (error: Option<P.Error>)
      requires saving != P.NoDirectory
      modifies this`files
      ensures error == None ==> files == old(files)[task.name := task.id]
      ensures error != None ==> files == if task.name in old(files) && saving == P.RemoveFails then old(files)
                                         else old(files) - {task.name}
      ensures error == if task.name in old(files) && saving == P.RemoveFails then Some(P.InternalError)
                       else if saving.MoveFails? then
                         Some(if saving.outOfSpace then P.NotEnoughSpace else P.InternalError)
                       else None
    {
      if task.name in files {
        if saving == P.RemoveFails {
          return Some(P.InternalError);
        }
        files := files - {task.name};
      }
      if saving.MoveFails? {
        assert old(files) - {task.name} == files;
        return Some(if saving.outOfSpace then P.NotEnoughSpace else P.InternalError);
      }
      files := files[task.name := task.id];
      return None;
    }

    method HandleResponse(task: ModelDownloadTask, code: int, urlExpired: bool, saving: P.Saving)
      returns (result: P.Answer)
      requires Valid() && Known(task)
      modifies this`files, this`defaults
      ensures (Value(), result) == P.Handle(old(Value()), task.id, P.Response(code, urlExpired, saving))
    {
      if !(200 <= code < 299) {
        if code == 400 {
          return P.Failure(if urlExpired then P.ExpiredURL else P.InvalidArgument);
        } else if code == 401 || code == 403 {
          return P.Failure(P.PermissionDenied);
        } else if code == 404 {
          return P.Failure(P.NotFound);
        } else {
          return P.Failure(P.InternalError);
        }
      }
      if saving == P.NoDirectory {
        return P.Failure(P.InternalError);
      }
      var error := MoveFile(task, saving);
      if error.Some? {
        return P.Failure(error.value);
      }
      defaults := defaults[task.name := task.hash];
      return P.Model(task.hash);
    }

    /** The callback of downloadFile: the task is complete, the response is handled, and the
        chained completions run in the order in which they were merged. */
    method DownloadEnds(task: ModelDownloadTask, fetched: P.Fetched)
      requires Valid() && Known(task) && P.Enabled(Value(), P.DownloadEnds(task.id, fetched))
      modifies this, task
      ensures Valid() && tasks == old(tasks)
      ensures Value() == P.Next(old(Value()), P.DownloadEnds(task.id, fetched))
      ensures R.Succeeds(old(Value()), task.name, fetched) ==>
                R.Told(old(answers), answers, old(task.completion), P.Model(task.hash))
      ensures forall e :: R.FailsWith(old(Value()), task.name, fetched, e) ==>
                R.Told(old(answers), answers, old(task.completion), P.Failure(e))
    {
      ghost var was := Value();
      ghost var before := Values(tasks);
      task.Finish();
      assert Values(tasks) == before[task.id := task.Value()];
      var result;
      match fetched {
        case NetworkError => result := P.Failure(P.FailedPrecondition);
        case OtherError => result := P.Failure(P.InternalError);
        case Response(code, urlExpired, saving) =>
          result := HandleResponse(task, code, urlExpired, saving);
      }
      RunCompletions(task.completion, task.name, result);
      R.EndTells(was, task.id, fetched);
    }

    method RunCompletions(completion: seq<nat>, name: string, result: P.Answer)
      modifies this`numberOfRetries, this`retried, this`awaiting, this`answers, this`removals
      ensures Value() == P.DeliverAll(old(Value()), completion, name, result)
    {
      ghost var goal := P.DeliverAll(Value(), completion, name, result);
      var left := completion;
      while left != []
        invariant P.DeliverAll(Value(), left, name, result) == goal
        decreases |left|
      {
        Complete(left[0], name, result);
        left := left[1..];
      }
    }

    /** A removal queued by a completion runs. */
    method RunRemoval()
      requires Valid() && P.Enabled(Value(), P.RemovalRuns)
      modifies this`currentDownloadTask, this`removals
      ensures Valid() && Value() == P.Next(old(Value()), P.RemovalRuns)
    {
      ghost var current := Current();
      currentDownloadTask := currentDownloadTask - {removals[0]};
      assert Current() == current - {removals[0]};
      removals := removals[1..];
    }

    method DeleteDownloadedModel(name: string, removeFails: bool) returns (done: bool)
      requires Valid()
      modifies this`files, this`defaults
      ensures Valid() && Value() == P.Next(old(Value()), P.Delete(name, removeFails))
      ensures done <==> name in old(files) && name in old(defaults) && !removeFails
      ensures files == (if done then old(files) - {name} else old(files))
      ensures defaults == (if done then old(defaults) - {name} else old(defaults))
    {
      var local := GetLocalModel(name);
      if local.None? || removeFails {
        return false;
      }
      files := files - {name};
      defaults := defaults - {name};
      return true;
    }
  }
}
