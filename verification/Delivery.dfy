/** When the helper's server can deliver: exactly which closed servers can convert their rows and send
    the whole table, and that any session whose rows fill the slots can be served. */
module Deliveries {
  import opened Helpers
  import opened HelperServers
  import opened Messages
  import opened Options
  import opened Permutations
  import opened Tables

  // NewHelper makes a share per source, and a permutation of the slots.
  ghost predicate IsEquipped<P(!new)>(server: Server<P>) {
    server.S.Laws() && IsPermutation(server.rowPerm, |server.rowPerm|)
    && |server.keys.padKeyShares| >= |server.sources|
  }

  lemma {:induction false} ExpectedBelow<P(!new)>(server: Server<P>, n: nat, id: SourceID)
    requires n <= |server.sources| && id in server.Expected(n)
    ensures server.Expected(n)[id] < n
  {
    if id != server.sources[n - 1] {
      assert id in server.Expected(n - 1);
      ExpectedBelow(server, n - 1, id);
    }
  }

  // The index of an unambiguous source is its position.
  lemma {:induction false} ExpectedIndex<P(!new)>(server: Server<P>, n: nat, i: nat)
    requires NoDuplicates(server.sources) && i < n <= |server.sources|
    ensures server.sources[i] in server.Expected(n) && server.Expected(n)[server.sources[i]] == i
  {
    if i < n - 1 {
      ExpectedIndex(server, n - 1, i);
      ExpectedNext(server, n, server.sources[i]);
    }
  }

  lemma ExpectedNext<P(!new)>(server: Server<P>, n: nat, id: SourceID)
    requires 0 < n <= |server.sources| && id in server.Expected(n - 1) && id != server.sources[n - 1]
    ensures id in server.Expected(n) && server.Expected(n)[id] == server.Expected(n - 1)[id]
  {
  }

  lemma {:induction false} PushedBelow<P(!new)>(calls: seq<PushCall<P>>, n: nat)
    requires forall i :: 0 <= i < |calls| ==> calls[i].tindex < n
    ensures forall t :: 0 <= t < |PushedTasks(calls)| ==> PushedTasks(calls)[t].tableIndex < n
  {
    if calls != [] {
      var front, last := calls[..|calls| - 1], calls[|calls| - 1];
      PushedBelow(front, n);
      assert PushedTasks(calls) == PushedTasks(front) + TableTasks(last.rows, last.tindex);
    }
  }

  lemma TasksHaveShares<P(!new)>(server: Server<P>, s: State<P>)
    requires server.Invariant(s)
    ensures forall t :: 0 <= t < |s.tasks| ==> s.tasks[t].tableIndex < |server.sources|
  {
    forall i | 0 <= i < |s.calls|
      ensures s.calls[i].tindex < |server.sources|
    {
      assert server.IsIndexed(s.calls[i]);
      ExpectedBelow(server, |server.sources|, s.calls[i].source);
    }
    PushedBelow(s.calls, |server.sources|);
    forall t | 0 <= t < |s.tasks|
      ensures s.tasks[t].tableIndex < |server.sources|
    {
      assert s.tasks[t] in multiset(PushedTasks(s.calls));
    }
  }

  // Once the channel is closed the conversion can deliver a table exactly if there are not more
  // rows than slots.
  lemma ConvertsExactly<P(!new)>(server: Server<P>, run: seq<Action<P>>)
    requires IsEquipped(server) && server.IsRun(run) && !server.After(run).Panicked()
    requires server.After(run).incomingCloses > 0 && server.After(run).table.None?
    ensures (exists res :: server.Enabled(server.After(run), Convert(res)))
      <==> |server.After(run).tasks| <= |server.rowPerm|
  {
    var s := server.After(run);
    server.RunsKeepInvariant(run);
    TasksHaveShares(server, s);
    ConvertedTableExactly(server.S, server.sid, server.keys, server.rpk, server.rowPerm, s.tasks);
    assert forall res :: server.Enabled(s, Convert(res)) <==>
      IsConvertedTable(server.S, server.sid, server.keys, server.rpk, server.rowPerm, s.tasks, res);
  }

  // After the close the rows are settled.
  lemma {:induction false} ClosedStays<P(!new)>(server: Server<P>, run: seq<Action<P>>, more: seq<Action<P>>)
    requires server.IsRun(run) && server.IsRun(run + more) && server.After(run).incomingCloses > 0
    ensures server.After(run + more).incomingCloses > 0
    ensures server.After(run + more).tasks == server.After(run).tasks
  {
    if more == [] {
      assert run + more == run;
    } else {
      var front := run + more[..|more| - 1];
      assert (run + more)[..|run + more| - 1] == front;
      ClosedStays(server, run, more[..|more| - 1]);
      ClosedStep(server, server.After(front), more[|more| - 1]);
    }
  }

  lemma ClosedStep<P(!new)>(server: Server<P>, s: State<P>, a: Action<P>)
    requires s.incomingCloses > 0 && server.Enabled(s, a)
    ensures server.Step(s, a).incomingCloses > 0 && server.Step(s, a).tasks == s.tasks
  {
  }

  // No PullRows call has had the table.
  ghost predicate NotTaken<P(!new)>(s: State<P>) {
    s.table.None? || s.convTables != []
  }

  ghost predicate CanStop<P(!new)>(server: Server<P>, run: seq<Action<P>>) {
    exists more :: server.IsRun(run + more) && server.AnyStopped(server.After(run + more))
  }

  // A closed server whose table nobody has had can still send all of it exactly if the rows
  // pushed fill the slots.
  lemma DeliversExactly<P(!new)>(server: Server<P>, run: seq<Action<P>>)
    requires IsEquipped(server) && server.IsRun(run) && !server.After(run).Panicked()
    requires server.After(run).incomingCloses > 0 && NotTaken(server.After(run))
    ensures CanStop(server, run) <==> |server.After(run).tasks| == |server.rowPerm|
  {
    if |server.After(run).tasks| == |server.rowPerm| {
      var more, pull := Deliver(server, run);
      assert server.IsStopped(server.After(run + more), pull);
    }
    if CanStop(server, run) {
      var more :| server.IsRun(run + more) && server.AnyStopped(server.After(run + more));
      var j: nat :| server.IsStopped(server.After(run + more), j);
      server.StoppedFillsSlots(run + more, j);
      ClosedStays(server, run, more);
    }
  }

  ghost predicate OnlyPulls<P(!new)>(server: Server<P>, more: seq<Action<P>>) {
    forall n :: 0 <= n < |more| ==> server.IsPullAction(more[n])
  }

  lemma PullsTogether<P(!new)>(server: Server<P>, first: seq<Action<P>>, second: seq<Action<P>>)
    requires OnlyPulls(server, first) && OnlyPulls(server, second)
    ensures OnlyPulls(server, first + second)
  {
  }

  // The steps that deliver: the conversion ends, and a PullRows call takes the table and sends it.
  lemma Deliver<P(!new)>(server: Server<P>, run: seq<Action<P>>) returns (more: seq<Action<P>>, pull: nat)
    requires IsEquipped(server) && server.IsRun(run) && !server.After(run).Panicked()
    requires server.After(run).incomingCloses > 0 && NotTaken(server.After(run))
    requires |server.After(run).tasks| == |server.rowPerm|
    ensures server.IsRun(run + more) && server.IsStopped(server.After(run + more), pull)
    ensures OnlyPulls(server, more)
  {
    if server.After(run).table.None? {
      ConvertsExactly(server, run);
      var res :| server.Enabled(server.After(run), Convert(res));
      more, pull := ConvertAndSend(server, run, res);
    } else {
      more, pull := SendTable(server, run);
    }
  }

  // Any table that the conversion can deliver can be sent.
  lemma ConvertAndSend<P(!new)>(server: Server<P>, run: seq<Action<P>>, res: ConvertedTable<P>)
    returns (more: seq<Action<P>>, pull: nat)
    requires IsEquipped(server) && server.IsRun(run) && server.Enabled(server.After(run), Convert(res))
    requires |server.After(run).tasks| == |server.rowPerm|
    ensures server.IsRun(run + more) && server.IsStopped(server.After(run + more), pull)
    ensures server.After(run + more).table == Some(res) && OnlyPulls(server, more)
  {
    var first: seq<Action<P>> := [Convert(res)];
    ConvertNow(server, run, res);
    var rest;
    rest, pull := SendTable(server, run + first);
    more := first + rest;
    OneThenOthers(server, Convert(res), rest);
    SameRun(run, first, rest);
  }

  lemma SameRun<P(!new)>(run: seq<Action<P>>, first: seq<Action<P>>, rest: seq<Action<P>>)
    ensures run + (first + rest) == run + first + rest
  {
  }

  lemma OneThenOthers<P(!new)>(server: Server<P>, a: Action<P>, rest: seq<Action<P>>)
    requires server.IsPullAction(a) && OnlyPulls(server, rest)
    ensures OnlyPulls(server, [a] + rest)
  {
  }

  lemma ConvertNow<P(!new)>(server: Server<P>, run: seq<Action<P>>, res: ConvertedTable<P>)
    requires server.IsRun(run) && server.Enabled(server.After(run), Convert(res))
    ensures server.IsRun(run + [Convert(res)])
    ensures var s := server.After(run + [Convert(res)]);
      !s.Panicked() && s.table == Some(res) && s.convTables != [] && s.tasks == server.After(run).tasks
  {
    server.Extend(run, Convert(res));
  }

  lemma SendTable<P(!new)>(server: Server<P>, run: seq<Action<P>>) returns (more: seq<Action<P>>, pull: nat)
    requires IsEquipped(server) && server.IsRun(run) && !server.After(run).Panicked()
    requires server.After(run).table.Some? && server.After(run).convTables != []
    requires |server.After(run).tasks| == |server.rowPerm|
    ensures server.IsRun(run + more) && server.IsStopped(server.After(run + more), pull)
    ensures server.After(run + more).table == server.After(run).table && OnlyPulls(server, more)
  {
    var s := server.After(run);
    server.RunsKeepInvariant(run);
    AllSlotsExactly(server.S, server.sid, server.keys, server.rpk, server.rowPerm, s.tasks, s.table.value);
    pull := server.TakeTable(run);
    var taken: seq<Action<P>> := [Pull, Take(pull)];
    var rest := SendAndStop(server, run + taken, pull);
    PullsTogether(server, taken, rest);
    more := taken + rest;
    SameRun(run, taken, rest);
    server.TableStays(run, more);
  }

  lemma SendAndStop<P(!new)>(server: Server<P>, run: seq<Action<P>>, pull: nat) returns (more: seq<Action<P>>)
    requires server.IsRun(run) && !server.After(run).Panicked() && server.IsSending(server.After(run), pull)
    requires server.After(run).pulls[pull].sent == [] && AllSome(server.After(run).table.value)
    ensures server.IsRun(run + more) && server.IsStopped(server.After(run + more), pull) && OnlyPulls(server, more)
  {
    var rows := server.SendRows(run, pull, |server.After(run).table.value|);
    StopNow(server, run + rows, pull);
    PullsTogether(server, rows, [Stop(pull)]);
    more := rows + [Stop(pull)];
    SameRun(run, rows, [Stop(pull)]);
  }

  lemma StopNow<P(!new)>(server: Server<P>, run: seq<Action<P>>, pull: nat)
    requires server.IsRun(run) && !server.After(run).Panicked() && server.IsSending(server.After(run), pull)
    requires |server.After(run).pulls[pull].sent| == |server.After(run).table.value|
    ensures server.IsRun(run + [Stop(pull)]) && server.IsStopped(server.After(run + [Stop(pull)]), pull)
  {
    server.Extend(run, Stop(pull));
  }

  // ----- Serving a session -----

  // A run in which sessions neither overlap nor break.
  ghost predicate IsClean<P(!new)>(server: Server<P>, run: seq<Action<P>>) {
    server.IsRun(run) && server.NonOverlapping(run) && server.NoneBreaks(run)
  }

  lemma CleanStep<P(!new)>(server: Server<P>, run: seq<Action<P>>, a: Action<P>)
    requires IsClean(server, run) && server.Enabled(server.After(run), a)
    requires server.OpensAlone(server.After(run), a) && !a.Break?
    ensures IsClean(server, run + [a]) && server.After(run + [a]) == server.Step(server.After(run), a)
  {
    server.Extend(run, a);
    assert (run + [a])[..|run|] == run;
  }

  lemma {:induction false} PullsStayClean<P(!new)>(server: Server<P>, run: seq<Action<P>>, more: seq<Action<P>>)
    requires IsClean(server, run) && server.IsRun(run + more) && OnlyPulls(server, more)
    ensures IsClean(server, run + more) && server.After(run + more).calls == server.After(run).calls
  {
    if more == [] {
      assert run + more == run;
    } else {
      var front, a := more[..|more| - 1], more[|more| - 1];
      LastPull(server, run, more);
      PullsStayClean(server, run, front);
      OnePullStaysClean(server, run + front, a, run + more);
    }
  }

  lemma OnePullStaysClean<P(!new)>(server: Server<P>, run: seq<Action<P>>, a: Action<P>, next: seq<Action<P>>)
    requires IsClean(server, run) && server.Enabled(server.After(run), a) && server.IsPullAction(a) && next == run + [a]
    ensures IsClean(server, next) && server.After(next).calls == server.After(run).calls
  {
    CleanStep(server, run, a);
  }

  lemma LastPull<P(!new)>(server: Server<P>, run: seq<Action<P>>, more: seq<Action<P>>)
    requires more != [] && server.IsRun(run + more) && OnlyPulls(server, more)
    ensures var front, a := more[..|more| - 1], more[|more| - 1];
      && run + more == run + front + [a] && server.IsRun(run + front) && server.Enabled(server.After(run + front), a)
      && server.IsPullAction(a) && OnlyPulls(server, front)
  {
    var front, a := more[..|more| - 1], more[|more| - 1];
    assert (run + more)[..|run + more| - 1] == run + front && (run + more)[|run + more| - 1] == a;
    assert run + more == run + front + [a];
  }

  // The state after a call has passed rows on.
  function PassedOn<P(!new)>(s: State<P>, call: nat, rows: seq<EncRow<P>>): State<P>
    requires call < |s.calls|
  {
    s.(calls := s.calls[call := s.calls[call].(rows := s.calls[call].rows + rows)],
       tasks := s.tasks + TableTasks(rows, s.calls[call].tindex))
  }

  lemma PassedOnOneMore<P(!new)>(s: State<P>, call: nat, rows: seq<EncRow<P>>, row: EncRow<P>)
    requires call < |s.calls|
    ensures PassedOn(PassedOn(s, call, rows), call, [row]) == PassedOn(s, call, rows + [row])
  {
    TasksNext(rows, row, s.calls[call].tindex);
    TasksNext([], row, s.calls[call].tindex);
    var passed := s.calls[call].(rows := s.calls[call].rows + rows);
    assert passed.rows + [row] == s.calls[call].rows + (rows + [row]);
    assert s.tasks + TableTasks(rows, passed.tindex) + TableTasks([row], passed.tindex)
      == s.tasks + TableTasks(rows + [row], passed.tindex);
  }

  lemma {:induction false} PassRows<P(!new)>(server: Server<P>, run: seq<Action<P>>, call: nat, rows: seq<EncRow<P>>)
    returns (next: seq<Action<P>>)
    requires IsClean(server, run) && !server.After(run).Panicked() && server.After(run).incomingCloses == 0
    requires server.InPhase(server.After(run), call, Receiving)
    ensures IsClean(server, next) && server.After(next) == PassedOn(server.After(run), call, rows)
  {
    if rows == [] {
      next := run;
      PassedOnNone(server.After(run), call);
    } else {
      var front, last := rows[..|rows| - 1], rows[|rows| - 1];
      var before := PassRows(server, run, call, front);
      next := before + [Receive(call, last)];
      PassOneMore(server, server.After(run), before, call, front, last);
      assert rows == front + [last];
    }
  }

  lemma PassedOnNone<P(!new)>(s: State<P>, call: nat)
    requires call < |s.calls|
    ensures PassedOn(s, call, []) == s
  {
    var none: seq<EncRow<P>> := [];
    assert s.calls[call].rows + none == s.calls[call].rows && TableTasks(none, s.calls[call].tindex) == [];
  }

  lemma PassOneMore<P(!new)>(server: Server<P>, s: State<P>, before: seq<Action<P>>, call: nat, rows: seq<EncRow<P>>,
    row: EncRow<P>)
    requires IsClean(server, before) && server.InPhase(s, call, Receiving)
    requires !s.Panicked() && s.incomingCloses == 0 && server.After(before) == PassedOn(s, call, rows)
    ensures IsClean(server, before + [Receive(call, row)])
    ensures server.After(before + [Receive(call, row)]) == PassedOn(s, call, rows + [row])
  {
    PassedOnStaysOpen(server, s, call, rows);
    CleanStep(server, before, Receive(call, row));
    ReceiveIsPassing(server, server.After(before), call, row);
    PassedOnOneMore(s, call, rows, row);
  }

  lemma PassedOnStaysOpen<P(!new)>(server: Server<P>, s: State<P>, call: nat, rows: seq<EncRow<P>>)
    requires server.InPhase(s, call, Receiving)
    ensures server.InPhase(PassedOn(s, call, rows), call, Receiving)
    ensures PassedOn(s, call, rows).Panicked() == s.Panicked()
    ensures PassedOn(s, call, rows).incomingCloses == s.incomingCloses
  {
  }

  lemma ReceiveIsPassing<P(!new)>(server: Server<P>, s: State<P>, call: nat, row: EncRow<P>)
    requires server.Enabled(s, Receive(call, row)) && s.incomingCloses == 0
    ensures server.Step(s, Receive(call, row)) == PassedOn(s, call, [row])
  {
    TasksNext([], row, s.calls[call].tindex);
  }

  // What pushing leaves as it is.
  ghost predicate SameElsewhere<P(!new)>(s: State<P>, s': State<P>) {
    s'.table == s.table && s'.convTables == s.convTables
  }

  lemma OpenSession<P(!new)>(server: Server<P>, run: seq<Action<P>>, id: SourceID)
    requires IsClean(server, run) && !server.After(run).Panicked() && server.After(run).incomingCloses == 0
    requires id in server.After(run).expected
    requires forall i :: 0 <= i < |server.After(run).calls| ==> !server.After(run).calls[i].Active()
    ensures IsClean(server, run + [Push(id)])
    ensures var s, s' := server.After(run), server.After(run + [Push(id)]);
      && s'.calls == s.calls + [PushCall(id, s.expected[id], [], Receiving)] && s'.expected == s.expected
      && s'.incomingCloses == 0 && !s'.Panicked() && SameElsewhere(s, s') && s'.tasks == s.tasks
  {
    server.RunsKeepInvariant(run);
    CleanStep(server, run, Push(id));
  }

  lemma EndSession<P(!new)>(server: Server<P>, run: seq<Action<P>>, call: nat) returns (next: seq<Action<P>>)
    requires IsClean(server, run) && !server.After(run).Panicked() && server.InPhase(server.After(run), call, Receiving)
    ensures IsClean(server, next) && server.After(next) == server.Finished(server.After(run), call)
  {
    CleanStep(server, run, Eof(call));
    CleanStep(server, run + [Eof(call)], Finish(call));
    next := run + [Eof(call)] + [Finish(call)];
    server.FinishedAfterDrained(server.After(run), call);
  }

  // A source opens a session, sends its rows, and ends it.
  lemma PushSource<P(!new)>(server: Server<P>, run: seq<Action<P>>, id: SourceID, rows: seq<EncRow<P>>)
    returns (next: seq<Action<P>>)
    requires IsClean(server, run) && !server.After(run).Panicked() && server.After(run).incomingCloses == 0
    requires id in server.After(run).expected
    requires forall i :: 0 <= i < |server.After(run).calls| ==> !server.After(run).calls[i].Active()
    ensures IsClean(server, next) && !server.After(next).Panicked()
    ensures var s, s' := server.After(run), server.After(next);
      && s'.calls == s.calls + [PushCall(id, s.expected[id], rows, Done)] && s'.expected == s.expected - {id}
      && s'.incomingCloses == (if s'.expected == map[] then 1 else 0) && SameElsewhere(s, s')
      && s'.tasks == s.tasks + TableTasks(rows, s.expected[id])
  {
    var call := |server.After(run).calls|;
    OpenSession(server, run, id);
    var passed := PassRows(server, run + [Push(id)], call, rows);
    SessionPassed(server.After(run + [Push(id)]), call, rows);
    next := EndSession(server, passed, call);
  }

  lemma SessionPassed<P(!new)>(s: State<P>, call: nat, rows: seq<EncRow<P>>)
    requires call < |s.calls| && s.calls[call].rows == []
    ensures PassedOn(s, call, rows).calls == s.calls[call := s.calls[call].(rows := rows)]
  {
    assert [] + rows == rows;
  }

  // The calls that the first k sources leave behind.
  function DoneCalls<P(!new)>(sources: seq<SourceID>, rows: seq<seq<EncRow<P>>>, k: nat): (r: seq<PushCall<P>>)
    requires k <= |sources| == |rows|
    ensures |r| == k && forall i :: 0 <= i < k ==> r[i] == PushCall(sources[i], i, rows[i], Done)
  {
    seq(k, i requires 0 <= i < k => PushCall(sources[i], i, rows[i], Done))
  }

  // The first k sources have pushed their rows, one after the other.
  ghost predicate HavePushed<P(!new)>(server: Server<P>, s: State<P>, rows: seq<seq<EncRow<P>>>, k: nat)
    requires k <= |server.sources| == |rows|
  {
    && s.calls == DoneCalls(server.sources, rows, k) && s.table.None? && s.convTables == []
    && s.tasks == PushedTasks(s.calls)
    && (forall id :: id in s.expected <==> id in server.sources[k..])
    && s.incomingCloses == (if k == |server.sources| && k > 0 then 1 else 0)
  }

  lemma {:induction false} PushAll<P(!new)>(server: Server<P>, rows: seq<seq<EncRow<P>>>, k: nat)
    returns (run: seq<Action<P>>)
    requires NoDuplicates(server.sources) && k <= |server.sources| == |rows|
    ensures IsClean(server, run) && !server.After(run).Panicked() && HavePushed(server, server.After(run), rows, k)
  {
    if k == 0 {
      run := [];
      NonePushed(server, rows);
    } else {
      var before := PushAll(server, rows, k - 1);
      run := PushNext(server, before, rows, k);
    }
  }

  lemma PushNext<P(!new)>(server: Server<P>, before: seq<Action<P>>, rows: seq<seq<EncRow<P>>>, k: nat)
    returns (run: seq<Action<P>>)
    requires NoDuplicates(server.sources) && 0 < k <= |server.sources| == |rows|
    requires IsClean(server, before) && !server.After(before).Panicked()
    requires HavePushed(server, server.After(before), rows, k - 1)
    ensures IsClean(server, run) && !server.After(run).Panicked() && HavePushed(server, server.After(run), rows, k)
  {
    var s, id := server.After(before), server.sources[k - 1];
    server.RunsKeepInvariant(before);
    NextExpected(server, s, rows, k);
    run := PushSource(server, before, id, rows[k - 1]);
    OneMorePushed(server, s, server.After(run), rows, k);
  }

  lemma NonePushed<P(!new)>(server: Server<P>, rows: seq<seq<EncRow<P>>>)
    requires |server.sources| == |rows|
    ensures HavePushed(server, server.Init(), rows, 0)
  {
    assert server.sources[..|server.sources|] == server.sources == server.sources[0..];
  }

  lemma NextExpected<P(!new)>(server: Server<P>, s: State<P>, rows: seq<seq<EncRow<P>>>, k: nat)
    requires NoDuplicates(server.sources) && 0 < k <= |server.sources| == |rows|
    requires server.Indexed(s) && HavePushed(server, s, rows, k - 1)
    ensures server.sources[k - 1] in s.expected && s.expected[server.sources[k - 1]] == k - 1
    ensures s.incomingCloses == 0 && forall i :: 0 <= i < |s.calls| ==> !s.calls[i].Active()
  {
    assert server.sources[k - 1..][0] == server.sources[k - 1];
    ExpectedIndex(server, |server.sources|, k - 1);
  }

  lemma OneMorePushed<P(!new)>(server: Server<P>, s: State<P>, s': State<P>, rows: seq<seq<EncRow<P>>>, k: nat)
    requires NoDuplicates(server.sources) && 0 < k <= |server.sources| == |rows|
    requires HavePushed(server, s, rows, k - 1) && SameElsewhere(s, s')
    requires s'.calls == s.calls + [PushCall(server.sources[k - 1], k - 1, rows[k - 1], Done)]
    requires s'.expected == s.expected - {server.sources[k - 1]}
    requires s'.tasks == s.tasks + TableTasks(rows[k - 1], k - 1)
    requires s'.incomingCloses == if s'.expected == map[] then 1 else 0
    ensures HavePushed(server, s', rows, k)
  {
    RestExpected(server, k);
    assert s'.calls == DoneCalls(server.sources, rows, k);
    PushedLast(s.calls, PushCall(server.sources[k - 1], k - 1, rows[k - 1], Done));
    NoneExpected(s', server.sources[k..]);
  }

  lemma NoneExpected<P(!new)>(s: State<P>, rest: seq<SourceID>)
    requires forall id :: id in s.expected <==> id in rest
    ensures s.expected == map[] <==> rest == []
  {
    if rest != [] {
      assert rest[0] in s.expected;
    }
  }

  lemma RestExpected<P(!new)>(server: Server<P>, k: nat)
    requires NoDuplicates(server.sources) && 0 < k <= |server.sources|
    ensures forall id :: id in server.sources[k..] <==> id in server.sources[k - 1..] && id != server.sources[k - 1]
    ensures server.sources[k..] == [] <==> k == |server.sources|
  {
    assert server.sources[k - 1..] == [server.sources[k - 1]] + server.sources[k..];
  }
}
