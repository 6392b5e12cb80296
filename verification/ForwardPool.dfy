/** The download goroutine and the forwarding pool of mppj-go/cmd/receiver/main.go, as a step system.
    Workers are started one by one while others may already have finished. The first to finish
    waits for the rest inside a sync.Once, and closes the channel of rows. */
module ForwardPools {
  import opened Octets
  import opened Options
  import opened Permutations
  import opened WorkerPools

  // What the download passes on, or None where it exits.
  function Downloaded(stream: seq<Bytes>, numRows: nat): Option<seq<Bytes>> {
    if numRows > |stream| then None
    else if numRows == 0 && stream != [] then Some(stream[..1])
    else Some(stream[..numRows])
  }

  // That is the shortest beginning of the stream that has the announced number of rows, and at least
  // one if there is any. The receiver exits exactly if the stream is shorter.
  lemma DownloadedExactly(stream: seq<Bytes>, numRows: nat, rows: seq<Bytes>)
    ensures Downloaded(stream, numRows) == Some(rows) <==>
      && rows <= stream && numRows <= |rows| <= (if numRows == 0 then 1 else numRows)
      && (rows == [] ==> stream == [])
    ensures Downloaded(stream, numRows).None? <==> |stream| < numRows
  {
    assert rows <= stream ==> rows == stream[..|rows|];
  }

  // The download loop: it stops after numRows rows, and exits if the stream ends before. The
  // count is only checked after a row, so that a row is taken even if none was announced.
  method Download(stream: seq<Bytes>, numRows: nat) returns (rows: Option<seq<Bytes>>)
    ensures rows == Downloaded(stream, numRows)
  {
    var rc := 0;
    var inRowApi: seq<Bytes> := [];
    while true
      invariant rc <= |stream| && inRowApi == stream[..rc]
      invariant rc == 0 || rc < numRows
      decreases |stream| - rc
    {
      if rc == |stream| {
        if rc < numRows {
          return None;
        }
        break;
      }
      inRowApi := inRowApi + [stream[rc]];
      rc := rc + 1;
      if rc >= numRows {
        break;
      }
    }
    assert inRowApi == stream[..rc];
    assert rc == if numRows == 0 && stream != [] then 1 else numRows;
    return Some(inRowApi);
  }

  // Where the function passed to once.Do is: not called, blocked in wg.Wait, released by the
  // last wg.Done but not resumed yet, past wg.Wait, or returned.
  datatype Once = Fresh | Blocked | Released | Resumed | Returned

  datatype State = State(
    fetched: nat, apiClosed: bool, taken: nat,  // the channel inRowApi; rows are named by position
    counter: nat,                               // of the WaitGroup
    spawned: nat, idle: nat, busy: set<nat>,    // workers in their loop, and the rows they hold
    atOnce: nat, exited: nat, once: Once,       // workers that called wg.Done
    sent: seq<nat>, closes: nat, lateSends: nat, // the channel inRows
    panicked: bool)                             // wg.Wait found the WaitGroup in use again

  datatype Action = Spawn | Fetch | CloseApi | Take | Send(row: nat) | Finish | EnterOnce | Wake | CloseRows | Leave

  datatype Forwarder = Forwarder(workers: nat, total: nat) {
    function Init(): State {
      State(0, false, 0, 0, 0, 0, {}, 0, 0, Fresh, [], 0, 0, false)
    }

    predicate Enabled(s: State, a: Action) {
      !s.panicked &&
        match a
        case Spawn => s.spawned < workers
        case Fetch => s.fetched < total
        case CloseApi => s.fetched == total && !s.apiClosed
        case Take => s.idle > 0 && s.taken < s.fetched
        case Send(row) => row in s.busy
        case Finish => s.idle > 0 && s.apiClosed && s.taken == s.fetched && s.counter > 0
        case EnterOnce => s.atOnce > 0 && s.once == Fresh
        case Wake => s.once == Released
        case CloseRows => s.once == Resumed
        case Leave => s.atOnce > 0 && s.once == Returned
    }

    function Step(s: State, a: Action): State
      requires Enabled(s, a)
    {
      match a
      case Spawn => s.(counter := s.counter + 1, spawned := s.spawned + 1, idle := s.idle + 1)
      case Fetch => s.(fetched := s.fetched + 1)
      case CloseApi => s.(apiClosed := true)
      case Take => s.(taken := s.taken + 1, idle := s.idle - 1, busy := s.busy + {s.taken})
      case Send(row) =>
        s.(busy := s.busy - {row}, idle := s.idle + 1, sent := s.sent + [row],
           lateSends := if s.closes > 0 then s.lateSends + 1 else s.lateSends)
      case Finish =>
        s.(counter := s.counter - 1, idle := s.idle - 1, atOnce := s.atOnce + 1,
           once := if s.counter == 1 && s.once == Blocked then Released else s.once)
      case EnterOnce => s.(once := if s.counter == 0 then Resumed else Blocked)
      case Wake => if s.counter == 0 then s.(once := Resumed) else s.(panicked := true)
      case CloseRows => s.(once := Returned, closes := s.closes + 1)
      case Leave => s.(atOnce := s.atOnce - 1, exited := s.exited + 1)
    }

    ghost predicate IsRun(run: seq<Action>)
      decreases |run|, 0
    {
      run != [] ==> IsRun(run[..|run| - 1]) && Enabled(After(run[..|run| - 1]), run[|run| - 1])
    }

    ghost function After(run: seq<Action>): State
      requires IsRun(run)
      decreases |run|, 1
    {
      if run == [] then Init() else Step(After(run[..|run| - 1]), run[|run| - 1])
    }

    // ----- What holds in every run -----

    ghost predicate Invariant(s: State) {
      && RowsConserved(s)
      && s.counter == s.idle + |s.busy|
      && s.spawned == s.idle + |s.busy| + s.atOnce + s.exited <= workers
      && OnceInOrder(s)
    }

    // Each row taken is held by one worker, or has been sent once.
    ghost predicate RowsConserved(s: State) {
      && s.taken <= s.fetched <= total
      && (s.apiClosed ==> s.fetched == total)
      && NoDuplicates(s.sent) && Elements(s.sent) !! s.busy
      && Elements(s.sent) + s.busy == Indices(s.taken)
    }

    // A worker is past its loop only if there are no more rows to take, and rows are no more
    // held once wg.Wait was released, even if workers are started later.
    ghost predicate OnceInOrder(s: State) {
      && (s.atOnce + s.exited > 0 ==> s.apiClosed && s.taken == total)
      && (s.once != Fresh ==> s.atOnce + s.exited > 0)
      && (s.once != Returned ==> s.exited == 0)
      && (s.once == Blocked ==> s.counter > 0)
      && (s.once == Released ==> s.atOnce >= 2)
      && (s.once in {Released, Resumed, Returned} ==> s.busy == {})
      && s.closes == (if s.once == Returned then 1 else 0)
      && s.lateSends == 0
      && (s.panicked ==> s.once == Released && s.counter > 0)
    }

    lemma StepKeepsRows(s: State, a: Action)
      requires Invariant(s) && Enabled(s, a)
      ensures RowsConserved(Step(s, a))
    {
      match a
      case Take => Pool.NextIndex(s.sent, s.busy, s.taken);
      case Send(row) => Pool.DoneNext(s.sent, s.busy, row);
      case _ =>
    }

    lemma StepKeepsCounts(s: State, a: Action)
      requires Invariant(s) && Enabled(s, a)
      ensures var s' := Step(s, a);
        && s'.counter == s'.idle + |s'.busy|
        && s'.spawned == s'.idle + |s'.busy| + s'.atOnce + s'.exited <= workers
    {
      if a.Take? {
        assert s.taken !in Indices(s.taken);
      }
    }

    lemma StepKeepsOnce(s: State, a: Action)
      requires Invariant(s) && Enabled(s, a)
      ensures OnceInOrder(Step(s, a))
    {
    }

    lemma {:induction false} RunsKeepInvariant(run: seq<Action>)
      requires IsRun(run)
      ensures Invariant(After(run))
    {
      if run != [] {
        var front, a := run[..|run| - 1], run[|run| - 1];
        RunsKeepInvariant(front);
        StepKeepsRows(After(front), a);
        StepKeepsCounts(After(front), a);
        StepKeepsOnce(After(front), a);
      }
    }

    // In every interleaving inRows is closed at most once, has by then received every downloaded
    // row exactly once, and receives nothing after that.
    lemma ClosedAfterAllRows(run: seq<Action>)
      requires IsRun(run)
      ensures After(run).closes <= 1 && After(run).lateSends == 0
      ensures After(run).closes == 1 ==> IsPermutation(After(run).sent, total)
    {
      RunsKeepInvariant(run);
      var s := After(run);
      if s.closes == 1 {
        AllIndices(s.sent, total);
      }
    }

    // ----- No deadlock -----

    // A run that does not panic only stops when every worker has returned and inRows is closed.
    lemma NoDeadlock(run: seq<Action>)
      requires IsRun(run) && workers >= 1
      requires !After(run).panicked && forall a :: !Enabled(After(run), a)
      ensures After(run).closes == 1 && After(run).exited == workers
      ensures IsPermutation(After(run).sent, total)
    {
      RunsKeepInvariant(run);
      Stuck(After(run));
      ClosedAfterAllRows(run);
    }

    lemma Stuck(s: State)
      requires Invariant(s) && workers >= 1 && !s.panicked && forall a :: !Enabled(s, a)
      ensures s.closes == 1 && s.exited == workers
    {
      forall row
        ensures row !in s.busy
      {
        assert !Enabled(s, Send(row));
      }
      assert s.busy == {};
      assert !Enabled(s, Spawn) && !Enabled(s, Fetch) && !Enabled(s, CloseApi) && !Enabled(s, Take)
        && !Enabled(s, Finish);
      assert !Enabled(s, EnterOnce) && !Enabled(s, Wake) && !Enabled(s, CloseRows) && !Enabled(s, Leave);
    }

    function Remaining(s: State): int {
      4 * (workers - s.spawned) + 3 * s.idle + 3 * |s.busy| + s.atOnce
      + (total - s.fetched) + 2 * (total - s.taken) + |s.busy| + OnceRemaining(s.once)
      + (if s.apiClosed then 0 else 1) + (if s.panicked then 0 else 1)
    }

    function OnceRemaining(once: Once): nat {
      match once
      case Fresh => 4
      case Blocked => 3
      case Released => 2
      case Resumed => 1
      case Returned => 0
    }

    // No run is longer than this, so every run stops.
    lemma RunsStop(run: seq<Action>)
      requires IsRun(run)
      ensures |run| <= 4 * workers + 3 * total + 6
    {
      RunsKeepInvariant(run);
      RunsAreFinite(run);
    }

    lemma {:induction false} RunsAreFinite(run: seq<Action>)
      requires IsRun(run)
      ensures |run| + Remaining(After(run)) <= 4 * workers + 3 * total + 6
    {
      if run != [] {
        var front, a := run[..|run| - 1], run[|run| - 1];
        RunsAreFinite(front);
        RunsKeepInvariant(front);
        StepReduces(After(front), a);
      }
    }

    lemma StepReduces(s: State, a: Action)
      requires Invariant(s) && Enabled(s, a)
      ensures Remaining(Step(s, a)) < Remaining(s)
    {
      if a.Take? {
        assert s.taken !in Indices(s.taken);
      }
    }

    // ----- The WaitGroup -----

    lemma Extend(run: seq<Action>, a: Action)
      requires IsRun(run) && Enabled(After(run), a)
      ensures IsRun(run + [a]) && After(run + [a]) == Step(After(run), a)
    {
      assert (run + [a])[..|run|] == run;
    }

    // One worker forwards all rows before another one is started.
    lemma OneWorkerForwards(k: nat) returns (run: seq<Action>, sent: seq<nat>)
      requires workers >= 1 && k <= total
      ensures IsRun(run) && After(run) == State(k, false, k, 1, 1, 1, {}, 0, 0, Fresh, sent, 0, 0, false)
    {
      if k == 0 {
        run, sent := [], [];
        Extend(run, Spawn);
        run := run + [Spawn];
      } else {
        run, sent := OneWorkerForwards(k - 1);
        Extend(run, Fetch);
        run := run + [Fetch];
        Extend(run, Take);
        run := run + [Take];
        Extend(run, Send(k - 1));
        run, sent := run + [Send(k - 1)], sent + [k - 1];
      }
    }

    // A pool can close inRows: one worker is enough.
    lemma CanClose() returns (run: seq<Action>)
      requires workers >= 1
      ensures IsRun(run) && After(run).closes == 1
    {
      var sent;
      run, sent := OneWorkerForwards(total);
      Extend(run, CloseApi);
      run := run + [CloseApi];
      Extend(run, Finish);
      run := run + [Finish];
      Extend(run, EnterOnce);
      run := run + [EnterOnce];
      Extend(run, CloseRows);
      run := run + [CloseRows];
    }

    // A worker is started after wg.Wait was released and before it has resumed.
    lemma LateSpawnPanics() returns (run: seq<Action>)
      requires workers >= 3
      ensures IsRun(run) && After(run).panicked
    {
      var sent;
      run, sent := OneWorkerForwards(total);
      Extend(run, CloseApi);
      run := run + [CloseApi];
      Extend(run, Spawn);
      run := run + [Spawn];
      Extend(run, Finish);
      run := run + [Finish];
      Extend(run, EnterOnce);
      run := run + [EnterOnce];
      Extend(run, Finish);
      run := run + [Finish];
      Extend(run, Spawn);
      run := run + [Spawn];
      Extend(run, Wake);
      run := run + [Wake];
    }

    // The pool can panic exactly if it has three or more workers.
    lemma PanicsExactly()
      ensures (exists run: seq<Action> :: IsRun(run) && After(run).panicked) <==> workers >= 3
    {
      if workers >= 3 {
        var run := LateSpawnPanics();
      }
      if run: seq<Action> :| IsRun(run) && After(run).panicked {
        RunsKeepInvariant(run);
      }
    }
  }
}
