/** The helper's server, from mppj-go/cmd/helper/main.go, as a step system: any number of PushRows
    and PullRows calls interleave with the conversion and with each other. */
module HelperServers {
  import opened DataSources
  import opened Helpers
  import opened Messages
  import opened Octets
  import opened Options
  import opened Permutations
  import opened Suites
  import opened Tables

  // Where a PushRows call is: in its loop, past SendAndClose, or returned.
  datatype Phase = Receiving | Drained | Done | Broken

  datatype PushCall<P> = PushCall(source: SourceID, tindex: nat, rows: seq<EncRow<P>>, phase: Phase) {
    predicate Active() { phase == Receiving || phase == Drained }
  }

  // A PullRows call: waiting for the table, sending it, or returned.
  datatype PullCall = Waiting | Sending(sent: seq<Bytes>) | Stopped(sent: seq<Bytes>) | Aborted {
    predicate HasTable() { Sending? || Stopped? }
  }

  type ConvertedTable<P> = seq<Option<EncRowWithHint<P>>>

  datatype State<P> = State(
    expected: map<SourceID, nat>,
    onceDone: bool, startCloses: nat,
    incomingCloses: nat, lateSends: nat,      // closes of incomingEncRows, and sends after one
    tasks: seq<ConvertRowTask<P>>,            // what was sent on incomingEncRows
    table: Option<ConvertedTable<P>>,         // what the conversion returned
    convTables: seq<ConvertedTable<P>>,       // content of that channel
    overflows: nat,                           // conversion workers that found no slot for their row
    zeroRows: nat,                            // nil points dereferenced in a slot without row
    stopCloses: nat,
    calls: seq<PushCall<P>>, pulls: seq<PullCall>)
  {
    // A channel was misused.
    predicate ChannelPanic() {
      startCloses > 1 || incomingCloses > 1 || lateSends > 0 || stopCloses > 1
    }

    predicate Panicked() { ChannelPanic() || overflows > 0 || zeroRows > 0 }
  }

  datatype Action<P> =
    | Push(source: SourceID)             // PushRows, up to the end of its first critical section
    | Receive(call: nat, row: EncRow<P>) // a message arrives, decodes, and is passed on
    | Break(call: nat)                   // an error ends the call
    | Eof(call: nat)                     // end of the stream, and SendAndClose
    | Finish(call: nat)                  // the second critical section
    | Convert(res: ConvertedTable<P>)    // the conversion ends
    | Overflow                           // a conversion worker has a row more than there are slots
    | Pull
    | Take(pull: nat)
    | SendRow(pull: nat)
    | BreakPull(pull: nat)
    | Stop(pull: nat)

  // The rows passed on by the calls, one call after the other.
  function PushedTasks<P>(calls: seq<PushCall<P>>): seq<ConvertRowTask<P>> {
    if calls == [] then [] else
      var last := calls[|calls| - 1];
      PushedTasks(calls[..|calls| - 1]) + TableTasks(last.rows, last.tindex)
  }

  function WithRow<P>(calls: seq<PushCall<P>>, i: nat, row: EncRow<P>): seq<PushCall<P>>
    requires i < |calls|
  {
    calls[i := calls[i].(rows := calls[i].rows + [row])]
  }

  lemma {:induction false} PushedNext<P>(calls: seq<PushCall<P>>, i: nat, row: EncRow<P>)
    requires i < |calls|
    ensures multiset(PushedTasks(WithRow(calls, i, row)))
      == multiset(PushedTasks(calls)) + multiset{ConvertRowTask(row, calls[i].tindex)}
  {
    var front, last := calls[..|calls| - 1], calls[|calls| - 1];
    assert calls == front + [last];
    PushedLast(front, last);
    if i < |front| {
      PushedNext(front, i, row);
      assert WithRow(calls, i, row) == WithRow(front, i, row) + [last];
      PushedLast(WithRow(front, i, row), last);
    } else {
      var last' := last.(rows := last.rows + [row]);
      assert WithRow(calls, i, row) == front + [last'];
      PushedLast(front, last');
      TasksNext(last.rows, row, last.tindex);
    }
  }

  lemma PushedLast<P>(front: seq<PushCall<P>>, last: PushCall<P>)
    ensures PushedTasks(front + [last]) == PushedTasks(front) + TableTasks(last.rows, last.tindex)
  {
    assert (front + [last])[..|front|] == front;
  }

  lemma TasksNext<P>(rows: seq<EncRow<P>>, row: EncRow<P>, tindex: nat)
    ensures TableTasks(rows + [row], tindex) == TableTasks(rows, tindex) + [ConvertRowTask(row, tindex)]
  {
  }

  lemma {:induction false} PushedKept<P>(calls: seq<PushCall<P>>, i: nat, phase: Phase)
    requires i < |calls|
    ensures PushedTasks(calls[i := calls[i].(phase := phase)]) == PushedTasks(calls)
  {
    var last := |calls| - 1;
    var next := calls[i := calls[i].(phase := phase)];
    if i < last {
      PushedKept(calls[..last], i, phase);
      assert next[..last] == calls[..last][i := next[i]];
    } else {
      assert next[..last] == calls[..last];
    }
  }

  datatype Server<!P(!new)> = Server(
    S: Suite<P>, sid: Bytes, keys: HelperKeys, rpk: PublicKeys<P>, rowPerm: seq<nat>, sources: seq<SourceID>)
  {
    // newHelperServer; of equal source ids the last one gives the index.
    function Expected(n: nat): (r: map<SourceID, nat>)
      requires n <= |sources|
      ensures forall id :: id in r <==> id in sources[..n]
    {
      if n == 0 then map[] else Expected(n - 1)[sources[n - 1] := n - 1]
    }

    function Init(): State<P> {
      State(Expected(|sources|), false, 0, 0, 0, [], None, [], 0, 0, 0, [], [])
    }

    predicate InPhase(s: State<P>, call: nat, phase: Phase) {
      call < |s.calls| && s.calls[call].phase == phase
    }

    // The action can happen next. A panic ends the process.
    ghost predicate Enabled(s: State<P>, a: Action<P>) {
      !s.Panicked() &&
        match a
        case Push(_) => true
        case Receive(call, _) => InPhase(s, call, Receiving)
        case Break(call) => InPhase(s, call, Receiving)
        case Eof(call) => InPhase(s, call, Receiving)
        case Finish(call) => InPhase(s, call, Drained)
        case Convert(res) => s.incomingCloses > 0 && s.table.None?
          && IsConvertedTable(S, sid, keys, rpk, rowPerm, s.tasks, res)
        case Overflow => |s.tasks| > |rowPerm|
        case Pull => true
        case Take(pull) => pull < |s.pulls| && s.pulls[pull].Waiting? && s.convTables != []
        case SendRow(pull) => IsSending(s, pull) && |s.pulls[pull].sent| < |s.table.value|
        case BreakPull(pull) => IsSending(s, pull)
        case Stop(pull) => IsSending(s, pull) && |s.pulls[pull].sent| == |s.table.value|
    }

    predicate IsSending(s: State<P>, pull: nat) {
      pull < |s.pulls| && s.pulls[pull].Sending? && s.table.Some?
    }

    function AtPhase(s: State<P>, call: nat, phase: Phase): State<P>
      requires call < |s.calls|
    {
      s.(calls := s.calls[call := s.calls[call].(phase := phase)])
    }

    // The second critical section of PushRows.
    function Finished(s: State<P>, call: nat): State<P>
      requires call < |s.calls|
    {
      var expected := s.expected - {s.calls[call].source};
      AtPhase(s, call, Done).(expected := expected,
        incomingCloses := if expected == map[] then s.incomingCloses + 1 else s.incomingCloses)
    }

    function Step(s: State<P>, a: Action<P>): State<P>
      requires Enabled(s, a)
    {
      match a
      case Push(source) =>
        if source !in s.expected then s else
          s.(startCloses := if s.onceDone then s.startCloses else s.startCloses + 1, onceDone := true,
             calls := s.calls + [PushCall(source, s.expected[source], [], Receiving)])
      case Receive(call, row) =>
        if s.incomingCloses > 0 then s.(lateSends := s.lateSends + 1) else
          s.(tasks := s.tasks + [ConvertRowTask(row, s.calls[call].tindex)],
             calls := WithRow(s.calls, call, row))
      case Break(call) => AtPhase(s, call, Broken)
      case Eof(call) => AtPhase(s, call, Drained)
      case Finish(call) => Finished(s, call)
      case Convert(res) => s.(table := Some(res), convTables := s.convTables + [res])
      case Overflow => s.(overflows := s.overflows + 1)
      case Pull => s.(pulls := s.pulls + [Waiting])
      case Take(pull) => s.(pulls := s.pulls[pull := Sending([])], convTables := s.convTables[1..])
      case SendRow(pull) => SendNext(s, pull)
      case BreakPull(pull) => s.(pulls := s.pulls[pull := Aborted])
      case Stop(pull) => s.(pulls := s.pulls[pull := Stopped(s.pulls[pull].sent)], stopCloses := s.stopCloses + 1)
    }

    function SendNext(s: State<P>, pull: nat): State<P>
      requires IsSending(s, pull) && |s.pulls[pull].sent| < |s.table.value|
    {
      var sent := s.pulls[pull].sent;
      match s.table.value[|sent|]
      case None => s.(zeroRows := s.zeroRows + 1)
      case Some(row) => s.(pulls := s.pulls[pull := Sending(sent + [EncRowWithHintMsg(S, row)])])
    }

    // ----- Runs -----

    ghost predicate IsRun(run: seq<Action<P>>)
      decreases |run|, 0
    {
      run != [] ==> IsRun(run[..|run| - 1]) && Enabled(After(run[..|run| - 1]), run[|run| - 1])
    }

    ghost function After(run: seq<Action<P>>): State<P>
      requires IsRun(run)
      decreases |run|, 1
    {
      if run == [] then Init() else Step(After(run[..|run| - 1]), run[|run| - 1])
    }

    // No source opens a session while it has one open.
    ghost predicate NonOverlapping(run: seq<Action<P>>)
      requires IsRun(run)
    {
      run != [] ==> NonOverlapping(run[..|run| - 1]) && OpensAlone(After(run[..|run| - 1]), run[|run| - 1])
    }

    ghost predicate OpensAlone(s: State<P>, a: Action<P>) {
      a.Push? ==> forall i :: 0 <= i < |s.calls| && s.calls[i].source == a.source ==> !s.calls[i].Active()
    }

    // ----- What holds in every run -----

    ghost predicate Invariant(s: State<P>) {
      && StartOnce(s)
      && multiset(s.tasks) == multiset(PushedTasks(s.calls))
      && Indexed(s)
      && DoneUnexpected(s)
      && PullsInTurn(s)
      && (s.stopCloses == 1 <==> AnyStopped(s))
      && ConvertedAfterClose(s)
      && SentInOrder(s)
      && RowPanics(s)
    }

    ghost predicate StartOnce(s: State<P>) {
      && (s.onceDone <==> s.calls != [])
      && s.startCloses == if s.onceDone then 1 else 0
    }

    // The index that a call uses is its source's, and sources are only ever removed.
    ghost predicate Indexed(s: State<P>) {
      && (forall id :: id in s.expected ==> id in Init().expected && s.expected[id] == Init().expected[id])
      && (forall i :: 0 <= i < |s.calls| ==> IsIndexed(s.calls[i]))
    }

    ghost predicate IsIndexed(call: PushCall<P>) {
      call.source in Init().expected && call.tindex == Init().expected[call.source]
    }

    // Exactly the sources with a finished call are no longer expected.
    ghost predicate DoneUnexpected(s: State<P>) {
      && (forall i :: 0 <= i < |s.calls| && s.calls[i].phase == Done ==> s.calls[i].source !in s.expected)
      && (forall id :: id in Init().expected && id !in s.expected ==> HasDone(s, id))
      && (s.incomingCloses > 0 ==> s.expected == map[])
      && (s.expected == map[] && Init().expected != map[] ==> s.incomingCloses > 0)
    }

    ghost predicate HasDone(s: State<P>, id: SourceID) {
      exists i :: 0 <= i < |s.calls| && s.calls[i].phase == Done && s.calls[i].source == id
    }

    // At most one call gets the table, and only that one closes stop.
    ghost predicate PullsInTurn(s: State<P>) {
      && |s.convTables| <= 1
      && (s.table.None? ==> s.convTables == [])
      && (s.table.None? || s.convTables != [] ==>
        s.stopCloses == 0 && forall j :: 0 <= j < |s.pulls| ==> s.pulls[j].Waiting?)
      && (forall i, j :: 0 <= i < j < |s.pulls| ==> s.pulls[i].Waiting? || s.pulls[j].Waiting?)
      && (forall j :: 0 <= j < |s.pulls| && s.pulls[j].Sending? ==> s.stopCloses == 0)
      && s.stopCloses <= 1
    }

    ghost predicate AnyStopped(s: State<P>) {
      exists j: nat :: IsStopped(s, j)
    }

    ghost predicate IsStopped(s: State<P>, j: nat) {
      j < |s.pulls| && s.pulls[j].Stopped?
    }

    ghost predicate ConvertedAfterClose(s: State<P>) {
      s.table.Some? ==> s.incomingCloses > 0 && IsConvertedTable(S, sid, keys, rpk, rowPerm, s.tasks, s.table.value)
    }

    // A call has sent the first rows of the table.
    ghost predicate SentInOrder(s: State<P>) {
      forall j :: 0 <= j < |s.pulls| && s.pulls[j].HasTable() ==>
        s.table.Some? && IsPrefixSent(s.table.value, s.pulls[j])
    }

    ghost predicate IsPrefixSent(table: ConvertedTable<P>, pull: PullCall)
      requires pull.HasTable()
    {
      && |pull.sent| <= |table|
      && (pull.Stopped? ==> |pull.sent| == |table|)
      && (forall k :: 0 <= k < |pull.sent| ==> table[k].Some? && pull.sent[k] == EncRowWithHintMsg(S, table[k].value))
    }

    // A worker panics only if there are too many rows, a PullRows call only at an empty slot.
    ghost predicate RowPanics(s: State<P>) {
      && (s.overflows > 0 ==> |s.tasks| > |rowPerm|)
      && (s.zeroRows > 0 ==> s.table.Some? && !AllSome(s.table.value))
    }

    lemma InitKeepsInvariant()
      ensures Invariant(Init())
    {
    }

    lemma StepKeepsIndexed(s: State<P>, a: Action<P>)
      requires Invariant(s) && Enabled(s, a)
      ensures Indexed(Step(s, a))
    {
      ExpectedShrinks(s, a);
      forall i | 0 <= i < |Step(s, a).calls|
        ensures IsIndexed(Step(s, a).calls[i])
      {
        CallStaysIndexed(s, a, i);
      }
    }

    lemma ExpectedShrinks(s: State<P>, a: Action<P>)
      requires Enabled(s, a)
      ensures forall id :: id in Step(s, a).expected ==> id in s.expected && Step(s, a).expected[id] == s.expected[id]
    {
    }

    lemma CallStaysIndexed(s: State<P>, a: Action<P>, i: nat)
      requires Indexed(s) && Enabled(s, a) && i < |Step(s, a).calls|
      ensures IsIndexed(Step(s, a).calls[i])
    {
      if i < |s.calls| {
        assert IsIndexed(s.calls[i]);
      }
    }

    lemma StepKeepsTasks(s: State<P>, a: Action<P>)
      requires Invariant(s) && Enabled(s, a)
      ensures var s' := Step(s, a); multiset(s'.tasks) == multiset(PushedTasks(s'.calls))
    {
      match a
      case Receive(call, row) => PushedNext(s.calls, call, row);
      case Push(source) => PushAddsNothing(s, source);
      case _ => PhasesKeepPushed(s, a);
    }

    lemma PushAddsNothing(s: State<P>, source: SourceID)
      requires Enabled(s, Push(source))
      ensures PushedTasks(Step(s, Push(source)).calls) == PushedTasks(s.calls)
      ensures Step(s, Push(source)).tasks == s.tasks
    {
      if source in s.expected {
        PushedLast(s.calls, PushCall(source, s.expected[source], [], Receiving));
      }
    }

    lemma PhasesKeepPushed(s: State<P>, a: Action<P>)
      requires Enabled(s, a) && !a.Push? && !a.Receive?
      ensures PushedTasks(Step(s, a).calls) == PushedTasks(s.calls) && Step(s, a).tasks == s.tasks
    {
      match a
      case Break(call) => PushedKept(s.calls, call, Broken);
      case Eof(call) => PushedKept(s.calls, call, Drained);
      case Finish(call) => PushedKept(s.calls, call, Done);
      case _ =>
    }

    lemma StepKeepsDone(s: State<P>, a: Action<P>)
      requires Invariant(s) && Enabled(s, a)
      ensures DoneUnexpected(Step(s, a))
    {
      var s' := Step(s, a);
      forall id | id in Init().expected && id !in s'.expected
        ensures HasDone(s', id)
      {
        if id in s.expected {
          RemovedIsDone(s, a, id);
        } else {
          DoneStays(s, a, id);
        }
      }
      forall i | 0 <= i < |s'.calls| && s'.calls[i].phase == Done
        ensures s'.calls[i].source !in s'.expected
      {
        DoneSource(s, a, i);
      }
      ClosedWhenEmpty(s, a);
    }

    lemma RemovedIsDone(s: State<P>, a: Action<P>, id: SourceID)
      requires Enabled(s, a) && id in s.expected && id !in Step(s, a).expected
      ensures HasDone(Step(s, a), id)
    {
      assert a.Finish? && Step(s, a).calls[a.call].phase == Done;
    }

    lemma ClosedWhenEmpty(s: State<P>, a: Action<P>)
      requires Enabled(s, a) && (s.incomingCloses > 0 ==> s.expected == map[])
      ensures Step(s, a).incomingCloses > 0 ==> Step(s, a).expected == map[]
      ensures Step(s, a).incomingCloses >= s.incomingCloses
      ensures Step(s, a).expected == map[] ==> s.expected == map[] || Step(s, a).incomingCloses > 0
    {
    }

    lemma DoneStays(s: State<P>, a: Action<P>, id: SourceID)
      requires Enabled(s, a) && HasDone(s, id)
      ensures HasDone(Step(s, a), id)
    {
      var i :| 0 <= i < |s.calls| && s.calls[i].phase == Done && s.calls[i].source == id;
      assert Step(s, a).calls[i] == s.calls[i];
    }

    lemma DoneSource(s: State<P>, a: Action<P>, i: nat)
      requires DoneUnexpected(s) && Enabled(s, a) && InPhase(Step(s, a), i, Done)
      ensures Step(s, a).calls[i].source !in Step(s, a).expected
    {
      if !a.Finish? {
        assert InPhase(s, i, Done);
      }
    }

    predicate IsPullAction(a: Action<P>) {
      a.Convert? || a.Pull? || a.Take? || a.SendRow? || a.BreakPull? || a.Stop?
    }

    // The steps of PushRows calls do not touch what PullRows uses.
    lemma PushKeepsPulls(s: State<P>, a: Action<P>)
      requires Invariant(s) && Enabled(s, a) && !IsPullAction(a)
      ensures PullsInTurn(Step(s, a)) && ConvertedAfterClose(Step(s, a)) && SentInOrder(Step(s, a))
    {
    }

    lemma PullKeepsTurn(s: State<P>, a: Action<P>)
      requires Invariant(s) && Enabled(s, a) && IsPullAction(a)
      ensures PullsInTurn(Step(s, a))
    {
      if a.Take? {
        TakeKeepsTurn(s, a.pull);
      } else if a.Convert? {
        ConvertKeepsTurn(s, a.res);
      } else if a.SendRow? || a.BreakPull? {
        SendKeepsTurn(s, a);
      }
    }

    lemma SendKeepsTurn(s: State<P>, a: Action<P>)
      requires Invariant(s) && Enabled(s, a) && (a.SendRow? || a.BreakPull?)
      ensures PullsInTurn(Step(s, a))
    {
    }

    lemma TakeKeepsTurn(s: State<P>, pull: nat)
      requires Invariant(s) && Enabled(s, Take(pull))
      ensures PullsInTurn(Step(s, Take(pull)))
    {
    }

    lemma ConvertKeepsTurn(s: State<P>, res: ConvertedTable<P>)
      requires Invariant(s) && Enabled(s, Convert(res))
      ensures PullsInTurn(Step(s, Convert(res)))
    {
    }

    lemma StepKeepsStopped(s: State<P>, a: Action<P>)
      requires Invariant(s) && Enabled(s, a)
      ensures Step(s, a).stopCloses == 1 <==> AnyStopped(Step(s, a))
    {
      if a.Stop? {
        assert IsStopped(Step(s, a), a.pull);
        assert s.stopCloses == 0;
      } else {
        forall j: nat {
          StoppedKept(s, a, j);
        }
      }
    }

    lemma StoppedKept(s: State<P>, a: Action<P>, j: nat)
      requires Enabled(s, a) && !a.Stop?
      ensures IsStopped(Step(s, a), j) <==> IsStopped(s, j)
      ensures Step(s, a).stopCloses == s.stopCloses
    {
    }

    lemma PullKeepsOrder(s: State<P>, a: Action<P>)
      requires Invariant(s) && Enabled(s, a) && IsPullAction(a)
      ensures ConvertedAfterClose(Step(s, a)) && SentInOrder(Step(s, a))
    {
      var s' := Step(s, a);
      forall j | 0 <= j < |s'.pulls|
        ensures s'.pulls[j].HasTable() ==> s'.table.Some? && IsPrefixSent(s'.table.value, s'.pulls[j])
      {
        SentNext(s, a, j);
      }
    }

    lemma SentNext(s: State<P>, a: Action<P>, j: nat)
      requires PullsInTurn(s) && SentInOrder(s) && Enabled(s, a) && IsPullAction(a) && j < |Step(s, a).pulls|
      ensures var s' := Step(s, a);
        s'.pulls[j].HasTable() ==> s'.table.Some? && IsPrefixSent(s'.table.value, s'.pulls[j])
    {
      match a
      case Convert(res) => assert j < |s.pulls| ==> s.pulls[j].Waiting?;
      case SendRow(pull) => SentOneMore(s, pull, j);
      case _ =>
    }

    lemma SentOneMore(s: State<P>, pull: nat, j: nat)
      requires SentInOrder(s) && Enabled(s, SendRow(pull)) && j < |s.pulls|
      ensures var s' := SendNext(s, pull); s'.pulls[j].HasTable() ==> IsPrefixSent(s.table.value, s'.pulls[j])
    {
      assert s.pulls[j].HasTable() ==> IsPrefixSent(s.table.value, s.pulls[j]);
    }

    lemma StepKeepsStart(s: State<P>, a: Action<P>)
      requires StartOnce(s) && Enabled(s, a)
      ensures StartOnce(Step(s, a))
    {
    }

    lemma StepKeepsRowPanics(s: State<P>, a: Action<P>)
      requires Invariant(s) && Enabled(s, a)
      ensures RowPanics(Step(s, a))
    {
    }

    lemma StepKeepsInvariant(s: State<P>, a: Action<P>)
      requires Invariant(s) && Enabled(s, a)
      ensures Invariant(Step(s, a))
    {
      StepKeepsStart(s, a);
      StepKeepsIndexed(s, a);
      StepKeepsTasks(s, a);
      StepKeepsDone(s, a);
      StepKeepsStopped(s, a);
      StepKeepsRowPanics(s, a);
      if IsPullAction(a) {
        PullKeepsTurn(s, a);
        PullKeepsOrder(s, a);
      } else {
        PushKeepsPulls(s, a);
      }
    }

    lemma {:induction false} RunsKeepInvariant(run: seq<Action<P>>)
      requires IsRun(run)
      ensures Invariant(After(run))
    {
      if run == [] {
        InitKeepsInvariant();
      } else {
        RunsKeepInvariant(run[..|run| - 1]);
        StepKeepsInvariant(After(run[..|run| - 1]), run[|run| - 1]);
      }
    }

    // ----- Sessions that do not overlap -----

    ghost predicate Exclusive(s: State<P>) {
      && (forall i :: 0 <= i < |s.calls| && s.calls[i].Active() ==> s.calls[i].source in s.expected)
      && (forall i, j :: 0 <= i < j < |s.calls| && s.calls[i].source == s.calls[j].source ==>
        s.calls[i].phase == Broken)
      && s.incomingCloses <= 1 && s.lateSends == 0
    }

    // What a step does to the calls: it moves an active one, or adds one of an expected source.
    lemma CallAfter(s: State<P>, a: Action<P>, i: nat)
      requires Enabled(s, a) && i < |Step(s, a).calls|
      ensures i < |s.calls| ==> Step(s, a).calls[i].source == s.calls[i].source
      ensures i < |s.calls| && !s.calls[i].Active() ==> Step(s, a).calls[i].phase == s.calls[i].phase
      ensures i >= |s.calls| ==>
        i == |s.calls| && a.Push? && Step(s, a).calls[i].source == a.source && a.source in s.expected
    {
    }

    lemma StepKeepsActive(s: State<P>, a: Action<P>, i: nat)
      requires Invariant(s) && Exclusive(s) && Enabled(s, a) && OpensAlone(s, a)
      requires i < |Step(s, a).calls| && Step(s, a).calls[i].Active()
      ensures Step(s, a).calls[i].source in Step(s, a).expected
    {
      CallAfter(s, a, i);
      if a.Finish? {
        assert i != a.call && s.calls[i].Active() && s.calls[a.call].Active();
        assert s.calls[i].source != s.calls[a.call].source;
      }
    }

    lemma StepKeepsBroken(s: State<P>, a: Action<P>, i: nat, j: nat)
      requires Invariant(s) && Exclusive(s) && Enabled(s, a) && OpensAlone(s, a)
      requires i < j < |Step(s, a).calls| && Step(s, a).calls[i].source == Step(s, a).calls[j].source
      ensures Step(s, a).calls[i].phase == Broken
    {
      CallAfter(s, a, i);
      CallAfter(s, a, j);
      assert j < |s.calls| ==> s.calls[i].source == s.calls[j].source && s.calls[i].phase == Broken;
      assert j == |s.calls| ==> !s.calls[i].Active() && s.calls[i].phase != Done;
    }

    lemma StepKeepsExclusive(s: State<P>, a: Action<P>)
      requires Invariant(s) && Exclusive(s) && Enabled(s, a) && OpensAlone(s, a)
      ensures Exclusive(Step(s, a))
    {
      var s' := Step(s, a);
      forall i | 0 <= i < |s'.calls| && s'.calls[i].Active()
        ensures s'.calls[i].source in s'.expected
      {
        StepKeepsActive(s, a, i);
      }
      forall i, j | 0 <= i < j < |s'.calls| && s'.calls[i].source == s'.calls[j].source
        ensures s'.calls[i].phase == Broken
      {
        StepKeepsBroken(s, a, i, j);
      }
      StepKeepsCloses(s, a);
    }

    lemma StepKeepsCloses(s: State<P>, a: Action<P>)
      requires Invariant(s) && Exclusive(s) && Enabled(s, a) && OpensAlone(s, a)
      ensures Step(s, a).incomingCloses <= 1 && Step(s, a).lateSends == 0
    {
      if a.Receive? || a.Finish? {
        assert s.calls[a.call].source in s.expected;
      }
    }

    // Without overlap, every open session's source stays expected, and no channel is misused.
    lemma {:induction false} SafeWithoutOverlap(run: seq<Action<P>>)
      requires IsRun(run) && NonOverlapping(run)
      ensures Exclusive(After(run)) && !After(run).ChannelPanic()
    {
      RunsKeepInvariant(run);
      if run != [] {
        SafeWithoutOverlap(run[..|run| - 1]);
        RunsKeepInvariant(run[..|run| - 1]);
        StepKeepsExclusive(After(run[..|run| - 1]), run[|run| - 1]);
      }
    }

    // Overlap or not, start and stop are closed at most once, whatever PullRows calls there are:
    // start when a first source has been admitted, stop when a call has sent the whole table.
    lemma StartAndStopOnce(run: seq<Action<P>>)
      requires IsRun(run)
      ensures After(run).startCloses == if After(run).calls == [] then 0 else 1
      ensures After(run).stopCloses == if AnyStopped(After(run)) then 1 else 0
    {
      RunsKeepInvariant(run);
    }

    // ----- Sessions that overlap -----

    ghost predicate CanPanic(run: seq<Action<P>>) {
      exists more: seq<Action<P>> :: IsRun(run + more) && After(run + more).ChannelPanic()
    }

    ghost predicate AnyActive(s: State<P>) {
      exists i :: 0 <= i < |s.calls| && s.calls[i].Active()
    }

    lemma Extend(run: seq<Action<P>>, a: Action<P>)
      requires IsRun(run) && Enabled(After(run), a)
      ensures IsRun(run + [a]) && After(run + [a]) == Step(After(run), a)
    {
      assert (run + [a])[..|run|] == run;
    }

    lemma {:induction false} PrefixIsRun(run: seq<Action<P>>, more: seq<Action<P>>)
      requires IsRun(run + more)
      ensures IsRun(run)
    {
      if more == [] {
        assert run + more == run;
      } else {
        assert (run + more)[..|run + more| - 1] == run + more[..|more| - 1];
        PrefixIsRun(run, more[..|more| - 1]);
      }
    }

    // The channel is closed, and nobody is left who could use it.
    ghost predicate Quiet(s: State<P>) {
      s.expected == map[] && s.incomingCloses == 1 && s.lateSends == 0 && !AnyActive(s)
    }

    lemma StepKeepsQuiet(s: State<P>, a: Action<P>)
      requires Quiet(s) && Enabled(s, a)
      ensures Quiet(Step(s, a))
    {
      var s' := Step(s, a);
      forall i | 0 <= i < |s'.calls|
        ensures !s'.calls[i].Active()
      {
        CallAfter(s, a, i);
      }
    }

    lemma {:induction false} QuietRuns(run: seq<Action<P>>, more: seq<Action<P>>)
      requires IsRun(run + more) && IsRun(run) && Quiet(After(run))
      ensures Quiet(After(run + more))
    {
      if more == [] {
        assert run + more == run;
      } else {
        var front := run + more[..|more| - 1];
        assert (run + more)[..|run + more| - 1] == front;
        QuietRuns(run, more[..|more| - 1]);
        StepKeepsQuiet(After(front), more[|more| - 1]);
      }
    }

    // An open session can always run to its end.
    lemma Complete(run: seq<Action<P>>, i: nat)
      requires IsRun(run) && !After(run).Panicked() && InPhase(After(run), i, Receiving)
      ensures IsRun(run + [Eof(i), Finish(i)])
      ensures After(run + [Eof(i), Finish(i)]) == Finished(After(run), i)
    {
      Extend(run, Eof(i));
      Extend(run + [Eof(i)], Finish(i));
      assert run + [Eof(i), Finish(i)] == run + [Eof(i)] + [Finish(i)];
      FinishedAfterDrained(After(run), i);
    }

    lemma FinishedAfterDrained(s: State<P>, i: nat)
      requires i < |s.calls|
      ensures Finished(AtPhase(s, i, Drained), i) == Finished(s, i)
    {
    }

    lemma ActivePanics(run: seq<Action<P>>, i: nat)
      requires IsRun(run) && !After(run).Panicked() && After(run).incomingCloses > 0 && After(run).expected == map[]
      requires i < |After(run).calls| && After(run).calls[i].Active()
      ensures CanPanic(run)
    {
      if After(run).calls[i].phase == Drained {
        Extend(run, Finish(i));
        assert After(run + [Finish(i)]).ChannelPanic();
      } else {
        Complete(run, i);
        assert After(run + [Eof(i), Finish(i)]).ChannelPanic();
      }
    }

    // Once the channel is closed, a misuse can still happen exactly if a session is open. By
    // SafeWithoutOverlap, that takes a source which had two sessions open at a time.
    lemma PanicsExactly(run: seq<Action<P>>)
      requires IsRun(run) && !After(run).Panicked() && After(run).incomingCloses > 0
      ensures CanPanic(run) <==> AnyActive(After(run))
    {
      RunsKeepInvariant(run);
      if AnyActive(After(run)) {
        var i :| 0 <= i < |After(run).calls| && After(run).calls[i].Active();
        ActivePanics(run, i);
      } else if CanPanic(run) {
        var more: seq<Action<P>> :| IsRun(run + more) && After(run + more).ChannelPanic();
        QuietRuns(run, more);
        RunsKeepInvariant(run + more);
      }
    }

    // ----- One session per source -----

    ghost predicate NoneBreaks(run: seq<Action<P>>) {
      forall n :: 0 <= n < |run| ==> !run[n].Break?
    }

    lemma OnlyBreakBreaks(s: State<P>, a: Action<P>, i: nat)
      requires Enabled(s, a) && !a.Break? && InPhase(Step(s, a), i, Broken)
      ensures InPhase(s, i, Broken)
    {
    }

    lemma {:induction false} NoneBroken(run: seq<Action<P>>)
      requires IsRun(run) && NoneBreaks(run)
      ensures forall i :: 0 <= i < |After(run).calls| ==> After(run).calls[i].phase != Broken
    {
      if run != [] {
        var front, a := run[..|run| - 1], run[|run| - 1];
        NoneBroken(front);
        forall i | 0 <= i < |After(run).calls|
          ensures After(run).calls[i].phase != Broken
        {
          if InPhase(After(run), i, Broken) {
            OnlyBreakBreaks(After(front), a, i);
          }
        }
      }
    }

    function CallSources(calls: seq<PushCall<P>>): (r: seq<SourceID>)
      ensures |r| == |calls| && forall i :: 0 <= i < |r| ==> r[i] == calls[i].source
    {
      seq(|calls|, i requires 0 <= i < |calls| => calls[i].source)
    }

    // When no session breaks and none overlaps, each source has one session.
    lemma OneCallEach(run: seq<Action<P>>)
      requires IsRun(run) && NonOverlapping(run) && NoneBreaks(run)
      ensures NoDuplicates(CallSources(After(run).calls))
      ensures After(run).incomingCloses > 0 ==> Elements(CallSources(After(run).calls)) == Elements(sources)
    {
      NoneBroken(run);
      SafeWithoutOverlap(run);
      RunsKeepInvariant(run);
      var ids := CallSources(After(run).calls);
      assert sources[..|sources|] == sources;
      forall i, j | 0 <= i < j < |ids|
        ensures ids[i] != ids[j]
      {
        assert After(run).calls[i].phase != Broken;
      }
      forall id | id in ids
        ensures id in sources
      {
        var i :| 0 <= i < |ids| && ids[i] == id;
        assert IsIndexed(After(run).calls[i]);
      }
      forall id | id in sources && After(run).incomingCloses > 0
        ensures id in ids
      {
        DoneListed(After(run), id);
      }
    }

    lemma DoneListed(s: State<P>, id: SourceID)
      requires DoneUnexpected(s) && s.incomingCloses > 0 && id in Init().expected
      ensures id in CallSources(s.calls)
    {
      var i :| 0 <= i < |s.calls| && s.calls[i].phase == Done && s.calls[i].source == id;
      assert CallSources(s.calls)[i] == id;
    }

    // ----- What PullRows sends -----

    // A PullRows call has the table only after every listed source has finished a session; and
    // then no session is open any more, if sessions never overlapped.
    lemma PullAfterPush(run: seq<Action<P>>, j: nat)
      requires IsRun(run)
      requires j < |After(run).pulls| && !After(run).pulls[j].Waiting?
      ensures forall id :: id in sources ==> HasDone(After(run), id)
      ensures NonOverlapping(run) ==> !AnyActive(After(run))
    {
      RunsKeepInvariant(run);
      if NonOverlapping(run) {
        SafeWithoutOverlap(run);
      }
      assert sources[..|sources|] == sources;
    }

    // When a call has sent the whole table, its messages are those of conversions of exactly the
    // rows that were pushed.
    lemma PulledRows(run: seq<Action<P>>, j: nat)
      requires IsRun(run) && j < |After(run).pulls| && After(run).pulls[j].Stopped?
      ensures var s, sent := After(run), After(run).pulls[j].sent;
        && multiset(s.tasks) == multiset(PushedTasks(s.calls))
        && s.table.Some? && IsConvertedTable(S, sid, keys, rpk, rowPerm, s.tasks, s.table.value)
        && |sent| == |s.table.value|
        && forall k :: 0 <= k < |sent| ==>
          s.table.value[k].Some? && sent[k] == EncRowWithHintMsg(S, s.table.value[k].value)
    {
      RunsKeepInvariant(run);
    }

    // ----- The number of rows -----

    // The table, once converted, and the rows it was made of do not change.
    lemma {:induction false} TableStays(run: seq<Action<P>>, more: seq<Action<P>>)
      requires IsRun(run) && IsRun(run + more) && After(run).table.Some?
      ensures After(run + more).table == After(run).table && After(run + more).tasks == After(run).tasks
    {
      if more == [] {
        assert run + more == run;
      } else {
        var front := run + more[..|more| - 1];
        assert (run + more)[..|run + more| - 1] == front;
        TableStays(run, more[..|more| - 1]);
        RunsKeepInvariant(front);
        StepKeepsTable(After(front), more[|more| - 1]);
      }
    }

    lemma StepKeepsTable(s: State<P>, a: Action<P>)
      requires ConvertedAfterClose(s) && Enabled(s, a) && s.table.Some?
      ensures Step(s, a).table == s.table && Step(s, a).tasks == s.tasks
    {
    }

    // A PullRows call that has sent the first k rows, none of them missing.
    lemma {:induction false} SendRows(run: seq<Action<P>>, pull: nat, k: nat) returns (more: seq<Action<P>>)
      requires IsRun(run) && !After(run).Panicked() && IsSending(After(run), pull) && After(run).pulls[pull].sent == []
      requires k <= |After(run).table.value| && forall i :: 0 <= i < k ==> After(run).table.value[i].Some?
      ensures IsRun(run + more) && !After(run + more).Panicked() && After(run + more).table == After(run).table
      ensures IsSending(After(run + more), pull) && |After(run + more).pulls[pull].sent| == k
      ensures forall n :: 0 <= n < |more| ==> more[n] == SendRow(pull)
    {
      if k == 0 {
        more := [];
        assert run + more == run;
      } else {
        var front := SendRows(run, pull, k - 1);
        Extend(run + front, SendRow(pull));
        more := front + [SendRow(pull)];
        assert run + more == run + front + [SendRow(pull)];
      }
    }

    ghost predicate CanMeetZeroRow(run: seq<Action<P>>) {
      exists more: seq<Action<P>> :: IsRun(run + more) && After(run + more).zeroRows > 0
    }

    // While nobody has taken the table, a PullRows call can still panic at an empty slot exactly
    // if fewer rows were pushed than there are slots.
    lemma ZeroRowExactly(run: seq<Action<P>>)
      requires IsRun(run) && !After(run).Panicked() && After(run).convTables != [] && IsPermutation(rowPerm, |rowPerm|)
      ensures CanMeetZeroRow(run) <==> |After(run).tasks| < |rowPerm|
    {
      RunsKeepInvariant(run);
      var s := After(run);
      AllSlotsExactly(S, sid, keys, rpk, rowPerm, s.tasks, s.table.value);
      if |s.tasks| < |rowPerm| {
        ZeroRowFollows(run);
      } else if CanMeetZeroRow(run) {
        var more: seq<Action<P>> :| IsRun(run + more) && After(run + more).zeroRows > 0;
        RunsKeepInvariant(run + more);
        TableStays(run, more);
      }
    }

    lemma ZeroRowFollows(run: seq<Action<P>>)
      requires IsRun(run) && Invariant(After(run)) && !After(run).Panicked() && After(run).convTables != []
      requires !AllSome(After(run).table.value)
      ensures CanMeetZeroRow(run)
    {
      var k := FirstEmpty(After(run).table.value);
      var pull := TakeTable(run);
      var taken := run + [Pull, Take(pull)];
      var more := SendRows(taken, pull, k);
      MeetZeroRow(taken + more, pull);
      var rest := [Pull, Take(pull)] + more + [SendRow(pull)];
      Regroup(run, [Pull, Take(pull)], more, [SendRow(pull)]);
      CanMeet(run, rest);
    }

    lemma Regroup(a: seq<Action<P>>, b: seq<Action<P>>, c: seq<Action<P>>, d: seq<Action<P>>)
      ensures a + (b + c + d) == a + b + c + d
    {
    }

    lemma CanMeet(run: seq<Action<P>>, more: seq<Action<P>>)
      requires IsRun(run + more) && After(run + more).zeroRows > 0
      ensures CanMeetZeroRow(run)
    {
    }

    lemma MeetZeroRow(run: seq<Action<P>>, pull: nat)
      requires IsRun(run) && !After(run).Panicked() && IsSending(After(run), pull)
      requires |After(run).pulls[pull].sent| < |After(run).table.value|
      requires After(run).table.value[|After(run).pulls[pull].sent|].None?
      ensures IsRun(run + [SendRow(pull)]) && After(run + [SendRow(pull)]).zeroRows > 0
    {
      Extend(run, SendRow(pull));
    }

    lemma TakeTable(run: seq<Action<P>>) returns (pull: nat)
      requires IsRun(run) && !After(run).Panicked() && After(run).table.Some? && After(run).convTables != []
      ensures IsRun(run + [Pull, Take(pull)]) && !After(run + [Pull, Take(pull)]).Panicked()
      ensures After(run + [Pull, Take(pull)]).table == After(run).table
      ensures IsSending(After(run + [Pull, Take(pull)]), pull) && After(run + [Pull, Take(pull)]).pulls[pull].sent == []
    {
      pull := |After(run).pulls|;
      Extend(run, Pull);
      Extend(run + [Pull], Take(pull));
      assert run + [Pull] + [Take(pull)] == run + [Pull, Take(pull)];
    }

    lemma FirstEmpty(table: ConvertedTable<P>) returns (k: nat)
      requires !AllSome(table)
      ensures k < |table| && table[k].None? && forall i :: 0 <= i < k ==> table[i].Some?
    {
      k := 0;
      while table[k].Some?
        invariant k < |table| && forall i :: 0 <= i < k ==> table[i].Some?
        invariant !AllSome(table)
        decreases |table| - k
      {
        k := k + 1;
      }
    }

    // A call that has sent the whole table proves that the rows filled the slots.
    lemma StoppedFillsSlots(run: seq<Action<P>>, j: nat)
      requires IsRun(run) && IsPermutation(rowPerm, |rowPerm|)
      requires j < |After(run).pulls| && After(run).pulls[j].Stopped?
      ensures |After(run).tasks| == |rowPerm|
    {
      PulledRows(run, j);
      AllSlotsExactly(S, sid, keys, rpk, rowPerm, After(run).tasks, After(run).table.value);
    }

    // If sessions do not overlap and the rows pushed fill the slots, nothing panics at all.
    lemma NothingPanics(run: seq<Action<P>>)
      requires IsRun(run) && NonOverlapping(run) && IsPermutation(rowPerm, |rowPerm|)
      requires |After(run).tasks| == |rowPerm|
      ensures !After(run).Panicked()
    {
      SafeWithoutOverlap(run);
      RunsKeepInvariant(run);
      var s := After(run);
      if s.table.Some? {
        AllSlotsExactly(S, sid, keys, rpk, rowPerm, s.tasks, s.table.value);
      }
    }
  }
}
