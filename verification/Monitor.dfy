/** The monitor of an offline download: it polls the downloader, hands a finished download to a transfer job, and
    cleans up when it ends. */
module Monitor {
  import opened Common

  const MAX_RETRY := 10

  datatype Status = Ready | Downloading | Paused | Error | Complete | Canceled | Unknown | Seeding

  /** What the downloader reports. */
  datatype Info = Info(gid: string, text: string, torrent: bool, allLoaded: bool, total: nat)

  function GetStatus(i: Info): Status {
    if i.text == "complete" then Complete
    else if i.text == "active" then (if i.torrent && i.allLoaded then Seeding else Downloading)
    else if i.text == "waiting" then Ready
    else if i.text == "paused" then Paused
    else if i.text == "error" then Error
    else if i.text == "removed" then Canceled
    else Unknown
  }

  type Id = n: nat | n > 0 witness 1

  /** A row of the task table; jobs that have failed, were canceled or are complete have a status from 2 on. */
  datatype Job = Job(isTransfer: bool, status: nat)

  predicate Settled(j: Job) {
    j.isTransfer && j.status >= 2
  }

  /** How the calls of one round turn out: saving the task, validating its files, recording a transfer job, finding
      the recorded one, recording a recycle job. */
  datatype Calls = Calls(saves: bool, valid: bool, newTransfer: Option<Id>, transfer: Option<Job>, newRecycle: bool)

  datatype Poll = Failed | FollowedBy(gid: string) | Reported(info: Info, calls: Calls)

  datatype Event = Transferred(id: nat) | Recycled | TempRemoved | DownloadCanceled

  datatype State = State(retried: nat, taskId: nat, gid: string, total: nat, status: Status, log: seq<Event>)

  function Cleaned(s: State): State {
    s.(log := s.log + [TempRemoved])
  }

  /** One round: the new state, and whether the monitor ends. */
  function Next(s: State, p: Poll): (State, bool) {
    match p
    case Failed =>
      var t := s.(retried := s.retried + 1);
      if t.retried > MAX_RETRY then (Cleaned(t.(status := Error)), true) else (t, false)
    case FollowedBy(gid) => (s.(retried := 0, gid := gid), false)
    case Reported(i, c) =>
      var t := s.(retried := 0, gid := i.gid, status := GetStatus(i), total := i.total);
      if !c.saves then (Cleaned(t.(status := Error)), true)
      else if s.total != i.total && !c.valid then
        (Cleaned(t.(status := Error, log := s.log + [DownloadCanceled])), true)
      else match GetStatus(i)
        case Complete | Seeding => Completed(t, c)
        case Error | Canceled => (Cleaned(t), true)
        case Unknown => (t, true)
        case _ => (t, false)
  }

  function Completed(t: State, c: Calls): (State, bool) {
    if t.taskId == 0 then
      if c.newTransfer.None? then (Cleaned(t.(status := Error)), true)
      else (t.(taskId := c.newTransfer.value, log := t.log + [Transferred(c.newTransfer.value)]), false)
    else if t.status != Complete then (t, false)
    else if c.transfer.None? then (Cleaned(t.(status := Error)), true)
    else if !Settled(c.transfer.value) then (t, false)
    else if c.newRecycle then (t.(log := t.log + [Recycled]), true)
    else (Cleaned(t.(status := Error)), true)
  }

  function Run(s: State, polls: seq<Poll>): (State, bool) {
    if polls == [] then (s, false) else
      var r := Run(s, polls[..|polls| - 1]);
      if r.1 then r else Next(r.0, polls[|polls| - 1])
  }

  // ---------- all runs ----------

  /** What a run has logged before it ends: the transfer job, if this run submitted it. */
  function Submitted(start: State, now: State): seq<Event> {
    if start.taskId == 0 && now.taskId != 0 then [Transferred(now.taskId)] else []
  }

  /** What ending a run logs.  The run recycles only once its transfer job has failed, was canceled or is complete. */
  function Ending(s: State, p: Poll): seq<Event> {
    if p.Failed? || p.FollowedBy? || !p.calls.saves then [TempRemoved]
    else if s.total != p.info.total && !p.calls.valid then [DownloadCanceled, TempRemoved]
    else if GetStatus(p.info) == Unknown then []
    else if GetStatus(p.info) == Complete && s.taskId != 0 && p.calls.transfer.Some? && p.calls.newRecycle then [Recycled]
    else [TempRemoved]
  }

  lemma {:induction false} GoingRunsLog(start: State, polls: seq<Poll>)
    requires start.log == [] && !Run(start, polls).1
    ensures var now := Run(start, polls).0;
            now.log == Submitted(start, now) && (start.taskId != 0 ==> now.taskId == start.taskId)
    decreases |polls|
  {
    if polls != [] {
      GoingRunsLog(start, polls[..|polls| - 1]);
    }
  }

  /** A run submits at most one transfer job, and then ends with one cleanup: it removes the temporary files or
      recycles them, and only an unknown status ends it without either. */
  lemma RunsCleanUpOnce(start: State, polls: seq<Poll>, p: Poll)
    requires start.log == [] && !Run(start, polls).1 && Run(start, polls + [p]).1
    ensures var before, after := Run(start, polls).0, Run(start, polls + [p]).0;
            after.taskId == before.taskId && after.log == Submitted(start, before) + Ending(before, p)
    ensures Ending(Run(start, polls).0, p) == [Recycled] ==>
              Run(start, polls).0.taskId != 0 && p.Reported? && p.calls.transfer.Some? && Settled(p.calls.transfer.value)
    ensures Ending(Run(start, polls).0, p) == [] <==>
              p.Reported? && p.calls.saves && (Run(start, polls).0.total == p.info.total || p.calls.valid) &&
              GetStatus(p.info) == Unknown
  {
    assert (polls + [p])[..|polls|] == polls;
    GoingRunsLog(start, polls);
  }

  function TrailingFailures(polls: seq<Poll>): nat {
    if polls == [] || !polls[|polls| - 1].Failed? then 0 else 1 + TrailingFailures(polls[..|polls| - 1])
  }

  lemma {:induction false} RetriesAreTrailingFailures(start: State, polls: seq<Poll>)
    requires start.retried == 0 && !Run(start, polls).1
    ensures Run(start, polls).0.retried == TrailingFailures(polls) <= MAX_RETRY
    decreases |polls|
  {
    if polls != [] {
      RetriesAreTrailingFailures(start, polls[..|polls| - 1]);
    }
  }

  /** A failing poll ends a run exactly if it is the eleventh in a row. */
  lemma EleventhFailureEnds(start: State, polls: seq<Poll>)
    requires start.retried == 0 && !Run(start, polls).1
    ensures Run(start, polls + [Failed]).1 <==> TrailingFailures(polls + [Failed]) == MAX_RETRY + 1
  {
    assert (polls + [Failed])[..|polls|] == polls;
    RetriesAreTrailingFailures(start, polls);
  }

  /** The download is there: complete, or a torrent that goes on seeding. */
  predicate IsLoaded(p: Poll) {
    p.Reported? && (p.info.text == "complete" || (p.info.text == "active" && p.info.torrent && p.info.allLoaded))
  }

  lemma StepTransfers(s: State, p: Poll)
    requires !Next(s, p).1
    ensures IsLoaded(p) && s.taskId == 0 ==> p.calls.newTransfer == Some(Next(s, p).0.taskId) && Next(s, p).0.taskId != 0
    ensures !(IsLoaded(p) && s.taskId == 0) ==> Next(s, p).0.taskId == s.taskId
  {
  }

  /** A run that goes on has submitted a transfer exactly if some poll found the download loaded. */
  lemma {:induction false} TransfersExactly(start: State, polls: seq<Poll>)
    requires start.taskId == 0 && !Run(start, polls).1
    ensures Run(start, polls).0.taskId == 0 <==> forall i :: 0 <= i < |polls| ==> !IsLoaded(polls[i])
    decreases |polls|
  {
    hide Next, IsLoaded;
    if polls != [] {
      var n := |polls| - 1;
      TransfersExactly(start, polls[..n]);
      StepTransfers(Run(start, polls[..n]).0, polls[n]);
    }
  }

  /** It was the first such poll that did. */
  lemma {:induction false} FirstLoadedTransfers(start: State, polls: seq<Poll>, i: nat)
    requires start.taskId == 0 && !Run(start, polls).1
    requires i < |polls| && IsLoaded(polls[i]) && forall j :: 0 <= j < i ==> !IsLoaded(polls[j])
    ensures polls[i].calls.newTransfer == Some(Run(start, polls).0.taskId)
    decreases |polls|
  {
    hide Next;
    var n := |polls| - 1;
    TransfersExactly(start, polls[..n]);
    StepTransfers(Run(start, polls[..n]).0, polls[n]);
    if i < n {
      FirstLoadedTransfers(start, polls[..n], i);
    }
  }

  /** What a round that goes on leaves: the id to poll for, and size and status as reported. */
  lemma StepReports(s: State, p: Poll)
    requires !Next(s, p).1
    ensures var t := Next(s, p).0;
            match p
            case Failed => t.gid == s.gid && t.total == s.total && t.status == s.status
            case FollowedBy(gid) => t.gid == gid && t.total == s.total && t.status == s.status
            case Reported(i, c) =>
              t.gid == i.gid && t.total == i.total &&
              t.status == if i.text == "complete" then Complete
                          else if i.text == "waiting" then Ready
                          else if i.text == "paused" then Paused
                          else if i.torrent && i.allLoaded then Seeding else Downloading
  {
  }

  /** The id that a run polls for is the one that the latest successful poll gave: the id that the download was
      redirected to, or its own. */
  lemma {:induction false} GidIsTheLatest(start: State, polls: seq<Poll>, i: int)
    requires !Run(start, polls).1 && -1 <= i < |polls| && (i >= 0 ==> !polls[i].Failed?)
    requires forall j :: i < j < |polls| ==> polls[j].Failed?
    ensures Run(start, polls).0.gid ==
            if i < 0 then start.gid else if polls[i].FollowedBy? then polls[i].gid else polls[i].info.gid
    decreases |polls|
  {
    hide Next;
    if polls != [] {
      var n := |polls| - 1;
      StepReports(Run(start, polls[..n]).0, polls[n]);
      if i < n {
        GidIsTheLatest(start, polls[..n], i);
      }
    }
  }

  /** Size and status are those of the latest report. */
  lemma {:induction false} ReportIsTheLatest(start: State, polls: seq<Poll>, i: nat)
    requires !Run(start, polls).1 && i < |polls| && polls[i].Reported?
    requires forall j :: i < j < |polls| ==> !polls[j].Reported?
    ensures var now, info := Run(start, polls).0, polls[i].info;
            now.total == info.total &&
            now.status == if info.text == "complete" then Complete
                          else if info.text == "waiting" then Ready
                          else if info.text == "paused" then Paused
                          else if info.torrent && info.allLoaded then Seeding else Downloading
    decreases |polls|
  {
    hide Next;
    var n := |polls| - 1;
    StepReports(Run(start, polls[..n]).0, polls[n]);
    if i < n {
      ReportIsTheLatest(start, polls[..n], i);
    }
  }

  /** Why a report ends the monitor: saving or validating fails, the downloader gave up, was told to or says something
      unknown, a job cannot be recorded or found, or the transfer is over. */
  datatype Reason = Refused | GaveUp | Removed | NotKnown | Stuck | Over

  predicate EndsFor(s: State, i: Info, c: Calls, why: Reason) {
    match why
    case Refused => !c.saves || (i.total != s.total && !c.valid)
    case GaveUp => i.text == "error"
    case Removed => i.text == "removed"
    case NotKnown => i.text !in ["complete", "active", "waiting", "paused", "error", "removed"]
    case Stuck => (IsLoaded(Reported(i, c)) && s.taskId == 0 && c.newTransfer.None?) ||
                  (i.text == "complete" && s.taskId != 0 && c.transfer.None?)
    case Over => i.text == "complete" && s.taskId != 0 && c.transfer.Some? && c.transfer.value.isTransfer &&
                 c.transfer.value.status >= 2
  }

  lemma StepEnds(s: State, i: Info, c: Calls)
    ensures var (t, ends) := Next(s, Reported(i, c));
            (ends <==> EndsFor(s, i, c, Refused) || EndsFor(s, i, c, GaveUp) || EndsFor(s, i, c, Removed) ||
                       EndsFor(s, i, c, NotKnown) || EndsFor(s, i, c, Stuck) || EndsFor(s, i, c, Over)) &&
            (ends ==> t.status == if EndsFor(s, i, c, Refused) then Error
                                  else if EndsFor(s, i, c, Removed) then Canceled
                                  else if EndsFor(s, i, c, NotKnown) then Unknown
                                  else if EndsFor(s, i, c, Over) && c.newRecycle then Complete else Error)
  {
    hide GetStatus;
    Statuses(i);
  }

  lemma Statuses(i: Info)
    ensures (i.text == "complete" <==> GetStatus(i) == Complete) && (i.text == "error" <==> GetStatus(i) == Error)
    ensures i.text == "removed" <==> GetStatus(i) == Canceled
    ensures i.text == "active" && i.torrent && i.allLoaded <==> GetStatus(i) == Seeding
    ensures GetStatus(i) == Unknown <==> i.text !in ["complete", "active", "waiting", "paused", "error", "removed"]
  {
  }

  /** When a round ends a run, and which status the task is left with. */
  lemma EndsExactly(start: State, polls: seq<Poll>, p: Poll)
    requires start.retried == 0 && !Run(start, polls).1
    ensures var before, (after, ends) := Run(start, polls).0, Run(start, polls + [p]);
            match p
            case Failed => (ends <==> TrailingFailures(polls) == 10) && (ends ==> after.status == Error)
            case FollowedBy(gid) => !ends
            case Reported(i, c) =>
              (ends <==> exists why :: EndsFor(before, i, c, why)) &&
              (ends ==> after.status == if EndsFor(before, i, c, Refused) then Error
                                        else if EndsFor(before, i, c, Removed) then Canceled
                                        else if EndsFor(before, i, c, NotKnown) then Unknown
                                        else if EndsFor(before, i, c, Over) && c.newRecycle then Complete else Error)
  {
    assert (polls + [p])[..|polls|] == polls;
    RetriesAreTrailingFailures(start, polls);
    if p.Reported? {
      hide Next, EndsFor;
      StepEnds(Run(start, polls).0, p.info, p.calls);
    }
  }

  /** A round of the monitor, and whether the transfer job has failed, was canceled or is complete by then. */
  datatype Round = Round(poll: Poll, settled: bool)

  function Polls(rounds: seq<Round>): seq<Poll> {
    seq(|rounds|, i requires 0 <= i < |rounds| => rounds[i].poll)
  }

  /** A job that is found has the status that it has, and a settled job stays settled. */
  ghost predicate Truthful(rounds: seq<Round>) {
    (forall i :: 0 <= i < |rounds| && rounds[i].poll.Reported? && rounds[i].poll.calls.transfer.Some? ==>
       (Settled(rounds[i].poll.calls.transfer.value) <==> rounds[i].settled)) &&
    forall i, j :: 0 <= i < j < |rounds| && rounds[i].settled ==> rounds[j].settled
  }

  /** Ways to end a run that has submitted its transfer, other than by its completion. */
  predicate Breaks(polls: seq<Poll>, total: nat, p: Poll) {
    match p
    case Failed => TrailingFailures(polls) == MAX_RETRY
    case FollowedBy(gid) => false
    case Reported(i, c) =>
      !c.saves || (i.total != total && !c.valid) || GetStatus(i) == Error || GetStatus(i) == Canceled ||
      (GetStatus(i) == Complete && c.transfer.None?)
  }

  /** A run that has submitted a transfer job removes the temporary files exactly if it ends in one of these ways, or if
      the job is settled and the recycle job cannot be recorded. */
  lemma RemovesAfterTransferExactly(start: State, polls: seq<Poll>, p: Poll)
    requires start.log == [] && start.retried == 0 && !Run(start, polls).1 && Run(start, polls).0.taskId != 0
    ensures var before, after := Run(start, polls).0, Run(start, polls + [p]);
            (after.1 && after.0.log != [] && after.0.log[|after.0.log| - 1] == TempRemoved) <==>
            Breaks(polls, before.total, p) ||
            (p.Reported? && GetStatus(p.info) == Complete && p.calls.transfer.Some? && Settled(p.calls.transfer.value) &&
             !p.calls.newRecycle)
  {
    assert (polls + [p])[..|polls|] == polls;
    GoingRunsLog(start, polls);
    RetriesAreTrailingFailures(start, polls);
  }

  /** The clean-up does not wait for the transfer job: over all runs, the files are removed while a submitted job is not
      settled exactly if the run breaks then. */
  lemma FilesVanishUnderTransferExactly(start: State, rounds: seq<Round>, last: Round)
    requires start.log == [] && start.retried == 0 && Truthful(rounds + [last]) && !Run(start, Polls(rounds)).1
    ensures var before, after := Run(start, Polls(rounds)).0, Run(start, Polls(rounds + [last]));
            (before.taskId != 0 && !last.settled && after.1 && after.0.log != [] &&
             after.0.log[|after.0.log| - 1] == TempRemoved) <==>
            (before.taskId != 0 && !last.settled && Breaks(Polls(rounds), before.total, last.poll))
  {
    assert Polls(rounds + [last]) == Polls(rounds) + [last.poll];
    assert (rounds + [last])[|rounds|] == last;
    if Run(start, Polls(rounds)).0.taskId != 0 {
      RemovesAfterTransferExactly(start, Polls(rounds), last.poll);
    }
  }

  /** Such runs exist: the job is submitted in the first round, and its row cannot be read in the second. */
  lemma FilesVanishUnderTransfer(start: State, i: Info, c: Calls, id: Id)
    requires start.log == [] && start.retried == 0 && start.taskId == 0
    requires GetStatus(i) == Complete && i.total == start.total && c.saves && c.newTransfer == Some(id) && c.transfer == None
    ensures Run(start, [Reported(i, c), Reported(i, c)]).1
    ensures Run(start, [Reported(i, c), Reported(i, c)]).0.log == [Transferred(id), TempRemoved]
  {
    var p := Reported(i, c);
    assert [p, p][..1] == [p] && [p][..0] == [];
    assert Run(start, [p]) == Next(start, p);
  }

  // ---------- the monitor ----------

  class Monitor {
    var retried: nat
    var taskId: nat
    var gid: string
    var total: nat
    var status: Status
    var log: seq<Event>

    constructor (start: State)
      ensures Now() == start
    {
      retried, taskId, gid, total, status, log := start.retried, start.taskId, start.gid, start.total, start.status, start.log;
    }

    function Now(): State
      reads this
    {
      State(retried, taskId, gid, total, status, log)
    }

    method RemoveTempFolder()
      modifies this`log
      ensures Now() == Cleaned(old(Now()))
    {
      log := log + [TempRemoved];
    }

    /** UpdateTaskInfo; the error makes the caller end the monitor. */
    method UpdateTaskInfo(i: Info, c: Calls) returns (ok: bool)
      modifies this`gid, this`status, this`total, this`log
      ensures ok <==> c.saves && (i.total == old(total) || c.valid)
      ensures gid == i.gid && status == GetStatus(i) && total == i.total
      ensures log == if c.saves && !ok then old(log) + [DownloadCanceled] else old(log)
    {
      var originSize := total;
      gid, status, total := i.gid, GetStatus(i), i.total;
      if !c.saves {
        return false;
      }
      if originSize != total && !c.valid {
        log := log + [DownloadCanceled];
        return false;
      }
      return true;
    }

    method Transfer(c: Calls) returns (ends: bool)
      requires taskId == 0
      modifies this
      ensures (Now(), ends) == Completed(old(Now()), c)
    {
      if c.newTransfer.None? {
        status := Error;
        RemoveTempFolder();
        return true;
      }
      log := log + [Transferred(c.newTransfer.value)];
      taskId := c.newTransfer.value;
      return false;
    }

    method Complete(c: Calls) returns (ends: bool)
      modifies this
      ensures (Now(), ends) == Completed(old(Now()), c)
    {
      if taskId == 0 {
        ends := Transfer(c);
        return;
      }
      if status == Status.Complete {
        if c.transfer.None? {
          status := Error;
          RemoveTempFolder();
          return true;
        }
        if Settled(c.transfer.value) {
          if !c.newRecycle {
            status := Error;
            RemoveTempFolder();
            return true;
          }
          log := log + [Recycled];
          return true;
        }
      }
      return false;
    }

    method Update(p: Poll) returns (ends: bool)
      modifies this
      ensures (Now(), ends) == Next(old(Now()), p)
    {
      if p.Failed? {
        retried := retried + 1;
        if retried > MAX_RETRY {
          status := Error;
          RemoveTempFolder();
          return true;
        }
        return false;
      }
      retried := 0;
      if p.FollowedBy? {
        gid := p.gid;
        return false;
      }
      var ok := UpdateTaskInfo(p.info, p.calls);
      if !ok {
        status := Error;
        RemoveTempFolder();
        return true;
      }
      match GetStatus(p.info)
      case Complete | Seeding =>
        ends := Complete(p.calls);
      case Error =>
        status := Error;
        RemoveTempFolder();
        return true;
      case Downloading | Ready | Paused =>
        return false;
      case Canceled =>
        status := Canceled;
        RemoveTempFolder();
        return true;
      case Unknown =>
        return true;
    }

    /** The loop, for the rounds that come; it stops at the first that ends the monitor. */
    method Loop(polls: seq<Poll>) returns (ended: bool)
      modifies this
      ensures (Now(), ended) == Run(old(Now()), polls)
    {
      ended := false;
      for i := 0 to |polls|
        invariant !ended && (Now(), ended) == Run(old(Now()), polls[..i])
      {
        assert polls[..i + 1][..i] == polls[..i];
        ended := Update(polls[i]);
        if ended {
          RunStops(old(Now()), polls, i + 1);
          return;
        }
      }
      assert polls[..|polls|] == polls;
    }
  }

  lemma {:induction false} RunStops(s: State, polls: seq<Poll>, i: nat)
    requires i <= |polls| && Run(s, polls[..i]).1
    ensures Run(s, polls) == Run(s, polls[..i])
    decreases |polls|
  {
    if i == |polls| {
      assert polls[..i] == polls;
    } else {
      assert polls[..|polls| - 1][..i] == polls[..i];
      RunStops(s, polls[..|polls| - 1], i);
    }
  }
}
