/** The callbacks of a downloader, one after the other. */
module DownloadRun {
  // They come in any order in which the network, the queues and the callers can produce them: the
  // objects run through the states of the protocol, and so everything that is proved of its runs holds
  // of them.

  import opened DownloadProtocol
  import opened DownloadTheorems
  import opened ModelDownloader
  import opened Wrappers

  /** The state after a list of events; those that cannot happen when their turn comes are passed
      over. */
  function After(s: State, events: seq<Event>): State
    decreases |events|
  {
    if events == [] then s
    else After(if Enabled(s, events[0]) then Next(s, events[0]) else s, events[1..])
  }

  /** Those of the events that happen. */
  ghost function Taken(s: State, events: seq<Event>): seq<Event>
    decreases |events|
  {
    if events == [] then []
    else if Enabled(s, events[0]) then [events[0]] + Taken(Next(s, events[0]), events[1..])
    else Taken(s, events[1..])
  }

  lemma {:induction false} AfterIsRun(s: State, events: seq<Event>)
    ensures IsRun(s, Taken(s, events), After(s, events))
    decreases |events|
  {
    if events != [] {
      if Enabled(s, events[0]) {
        AfterIsRun(Next(s, events[0]), events[1..]);
        RunMore(s, events[0], Taken(Next(s, events[0]), events[1..]), After(s, events));
      } else {
        AfterIsRun(s, events[1..]);
      }
    }
  }

  /** Whether a callback can come now. */
  method CanHappen(d: ModelDownloader, e: Event) returns (can: bool)
    ensures can <==> Enabled(d.Value(), e)
  {
    match e
    case Request(_) => return true;
    case InfoArrives(r, _) => return r in d.awaiting && r < |d.names|;
    case DownloadEnds(t, _) => return t < |d.tasks| && d.tasks[t].downloadStatus == Downloading;
    case RemovalRuns => return d.removals != [];
    case Delete(_, _) => return true;
  }

  method Happen(d: ModelDownloader, e: Event)
    requires d.Valid() && Enabled(d.Value(), e)
    modifies d, d.tasks
    ensures d.Valid() && d.Value() == Next(old(d.Value()), e)
    ensures forall t :: 0 <= t < |d.tasks| ==> d.tasks[t] in old(d.tasks) || fresh(d.tasks[t])
  {
    match e
    case Request(name) => d.RequestModel(name);
    case InfoArrives(r, info) => d.InfoArrives(r, info);
    case DownloadEnds(t, fetched) => d.DownloadEnds(d.tasks[t], fetched);
    case RemovalRuns => d.RunRemoval();
    case Delete(name, removeFails) =>
      var done := d.DeleteDownloadedModel(name, removeFails);
  }

  /** Calls the callbacks in the order of the events. */
  method RunEvents(retries: int, events: seq<Event>) returns (d: ModelDownloader)
    ensures fresh(d) && d.Valid() && d.Value() == After(Initial(retries), events)
    ensures IsRun(Initial(retries), Taken(Initial(retries), events), d.Value())
  {
    d := new ModelDownloader(retries);
    var left := events;
    while left != []
      invariant fresh(d) && d.Valid() && (forall t :: 0 <= t < |d.tasks| ==> fresh(d.tasks[t]))
      invariant After(d.Value(), left) == After(Initial(retries), events)
      decreases |left|
    {
      var can := CanHappen(d, left[0]);
      if can {
        Happen(d, left[0]);
      }
      left := left[1..];
    }
    AfterIsRun(Initial(retries), events);
  }

  /** What the objects satisfy after any run: each request is in one place, the budget is conserved,
      and every task has started one file download. */
  lemma {:induction false} ObjectsKeepPlaces(d: ModelDownloader, retries: int, events: seq<Event>, request: nat)
    requires IsRun(Initial(retries), events, d.Value())
    ensures d.numberOfRetries + d.retried == retries && (retries >= 0 ==> d.numberOfRetries >= 0)
    ensures forall t :: 0 <= t < |d.tasks| ==> d.tasks[t].started == 1 && d.tasks[t].downloadStatus != Ready
    ensures request < |d.names| ==>
              OnlyAwaiting(d.Value(), request) || (exists t: nat :: OnlyInTask(d.Value(), request, t))
              || RepliedOnce(d.Value(), request)
  {
    var s := d.Value();
    BudgetConserved(retries, events, s);
    if request < |d.names| {
      ExactlyOnePlace(retries, events, s, request);
    }
    forall t | 0 <= t < |d.tasks| ensures d.tasks[t].started == 1 && d.tasks[t].downloadStatus != Ready {
      assert s.tasks[t] == d.tasks[t].Value();
    }
  }

  /** A local model is the one that the task which wrote the file downloaded. */
  lemma {:induction false} ObjectsKeepStore(d: ModelDownloader, retries: int, events: seq<Event>, name: string)
    requires IsRun(Initial(retries), events, d.Value()) && name in d.files && name in d.defaults
    ensures d.files[name] < |d.tasks| && d.tasks[d.files[name]].name == name
    ensures d.tasks[d.files[name]].hash == d.defaults[name]
  {
    var s := d.Value();
    StoreCoherent(retries, events, s, name);
    assert s.tasks[d.files[name]] == d.tasks[d.files[name]].Value();
  }
}
