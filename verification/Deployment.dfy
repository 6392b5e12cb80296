/** The protocol over the network: sources push rows to the helper's server, the receiver pulls the
    converted rows, forwards them, and joins. */
module Deployments {
  import opened Completion
  import opened DataSources
  import opened Deliveries
  import opened EndToEnd
  import ForwardPools
  import opened HelperServers
  import opened Helpers
  import opened Messages
  import opened Octets
  import opened Options
  import opened Permutations
  import opened Protocol
  import opened Receivers
  import opened Suites
  import opened Tables

  ghost predicate Serves<P(!new)>(server: Server<P>, s: Session<P>) {
    && s.wire && server.S == s.S && server.sid == s.sid && server.keys == s.keys && server.rpk == s.rpk
    && server.sources == s.sources && IsPermutation(server.rowPerm, |server.rowPerm|)
  }

  // What the helper gets when a source sends a row.
  function Transmitted<P(!new)>(S: Suite<P>, row: EncRow<P>): Option<EncRow<P>> {
    var msg :- EncRowMsg(S, row);
    GetEncRowFromMsg(S, msg)
  }

  // The rows that a call received are those that its source sent.
  ghost predicate SentBySource<P(!new)>(s: Session<P>, call: PushCall<P>) {
    call.source in s.tables &&
    exists prepared: seq<EncRow<P>> ::
      IsPrepared(s.S, s.sid, s.rpk, s.tables[call.source], prepared) && AllTransmitted(s.S, prepared, call.rows)
  }

  ghost predicate AllTransmitted<P(!new)>(S: Suite<P>, rows: seq<EncRow<P>>, received: seq<EncRow<P>>) {
    |received| == |rows| && forall k :: 0 <= k < |rows| ==> Transmitted(S, rows[k]) == Some(received[k])
  }

  // What the helper receives are the prepared rows with the first ciphertext of each value.
  lemma ReceivedAreSent<P(!new)>(s: Session<P>, call: PushCall<P>) returns (prepared: seq<EncRow<P>>)
    requires s.Valid() && s.wire && SentBySource(s, call)
    ensures IsPrepared(s.S, s.sid, s.rpk, s.tables[call.source], prepared)
    ensures |call.rows| == |prepared| && forall k :: 0 <= k < |prepared| ==> call.rows[k] == s.SentRow(prepared[k])
  {
    prepared :| IsPrepared(s.S, s.sid, s.rpk, s.tables[call.source], prepared)
      && AllTransmitted(s.S, prepared, call.rows);
    forall k | 0 <= k < |prepared|
      ensures call.rows[k] == s.SentRow(prepared[k])
    {
      assert Transmitted(s.S, prepared[k]) == Some(call.rows[k]);
      EncRowArrives(s.S, prepared[k]);
      FirstOnly(s, prepared[k]);
    }
  }

  lemma FirstOnly<P(!new)>(s: Session<P>, row: EncRow<P>)
    requires s.wire && |row.cval| >= 1
    ensures s.SentRow(row) == EncRow(row.cuid, [row.cval[0]])
  {
    assert row.cval[..1] == [row.cval[0]];
    assert |row.cval| == 1 ==> row.cval == [row.cval[0]];
  }

  ghost predicate AllSent<P(!new)>(s: Session<P>, calls: seq<PushCall<P>>) {
    forall i :: 0 <= i < |calls| ==> IsSentCall(s, calls[i])
  }

  ghost predicate IsSentCall<P(!new)>(s: Session<P>, call: PushCall<P>) {
    SentBySource(s, call) && call.tindex < |s.sources| && s.sources[call.tindex] == call.source
  }

  lemma {:induction false} CallsFed<P(!new)>(server: Server<P>, s: Session<P>, calls: seq<PushCall<P>>)
    returns (origins: seq<Origin>)
    requires s.Valid() && s.wire && AllSent(s, calls) && NoDuplicates(server.CallSources(calls))
    ensures FedFrom(s, PushedTasks(calls), origins, server.CallSources(calls))
  {
    if calls == [] {
      origins := [];
    } else {
      var front, last := calls[..|calls| - 1], calls[|calls| - 1];
      var ids := server.CallSources(front);
      assert server.CallSources(calls) == ids + [last.source];
      assert forall i :: 0 <= i < |front| ==> IsSentCall(s, calls[i]);
      var before := CallsFed(server, s, front);
      assert IsSentCall(s, last);
      var prepared := ReceivedAreSent(s, last);
      var more := TableFed(s, prepared, last.rows, last.tindex);
      FedNext(s, PushedTasks(front), before, ids, last.rows, more, last.tindex);
      origins := before + more;
    }
  }

  lemma IndexOfCall<P(!new)>(server: Server<P>, call: PushCall<P>)
    requires NoDuplicates(server.sources) && server.IsIndexed(call)
    ensures call.tindex < |server.sources| && server.sources[call.tindex] == call.source
  {
    var n := |server.sources|;
    assert server.sources[..n] == server.sources;
    var i :| 0 <= i < n && server.sources[i] == call.source;
    ExpectedIndex(server, n, i);
  }

  // The tasks of the server are the sources' rows.
  lemma ServerTasks<P(!new)>(server: Server<P>, s: Session<P>, run: seq<HelperServers.Action<P>>)
    returns (origins: seq<Origin>)
    requires s.Valid() && Serves(server, s)
    requires server.IsRun(run) && server.NonOverlapping(run) && server.NoneBreaks(run)
    requires server.After(run).incomingCloses > 0
    requires forall i :: 0 <= i < |server.After(run).calls| ==> SentBySource(s, server.After(run).calls[i])
    ensures s.TasksFrom(server.After(run).tasks, origins)
  {
    var end := server.After(run);
    server.OneCallEach(run);
    server.RunsKeepInvariant(run);
    forall i | 0 <= i < |end.calls|
      ensures IsSentCall(s, end.calls[i])
    {
      assert server.IsIndexed(end.calls[i]);
      IndexOfCall(server, end.calls[i]);
    }
    var pushed := CallsFed(server, s, end.calls);
    AllSourcesFed(server, s, end.calls, pushed);
    var p := MultisetPermutation(PushedTasks(end.calls), end.tasks);
    s.CoversPermutation(pushed, p);
    origins := Select(pushed, p);
  }

  lemma AllSourcesFed<P(!new)>(server: Server<P>, s: Session<P>, calls: seq<PushCall<P>>, origins: seq<Origin>)
    requires FedFrom(s, PushedTasks(calls), origins, server.CallSources(calls))
    requires Elements(server.CallSources(calls)) == Elements(s.sources)
    ensures s.Covers(origins)
  {
    forall o: Origin
      ensures o in origins <==> s.IsOrigin(o)
    {
      if s.IsOrigin(o) {
        assert s.sources[o.source] in Elements(server.CallSources(calls));
      }
    }
  }

  // ----- The receiver's side -----

  // A PullRows call announces and sends its whole table. These are the rows that the forwarding
  // pool has passed to JoinTablesStream when it closes the channel.
  ghost predicate Forwarded<P(!new)>(S: Suite<P>, sent: seq<Bytes>, pool: ForwardPools.Forwarder,
    steps: seq<ForwardPools.Action>,
    inRows: seq<EncRowWithHint<P>>)
  {
    var msgs := ForwardPools.Downloaded(sent, |sent|);
    && msgs.Some? && pool.total == |msgs.value| && pool.IsRun(steps) && pool.After(steps).closes == 1
    && |inRows| == |pool.After(steps).sent|
    && forall k :: 0 <= k < |inRows| ==> IsDecoded(S, msgs.value, pool.After(steps).sent[k], inRows[k])
  }

  ghost predicate IsDecoded<P(!new)>(S: Suite<P>, msgs: seq<Bytes>, position: nat, row: EncRowWithHint<P>) {
    position < |msgs| && GetEncRowWithHintFromMsg(S, msgs[position]) == Some(row)
  }

  // Forwarding only reorders the rows of the helper's table.
  lemma ForwardedRows<P(!new)>(S: Suite<P>, table: seq<EncRowWithHint<P>>, sent: seq<Bytes>,
    pool: ForwardPools.Forwarder,
    steps: seq<ForwardPools.Action>, inRows: seq<EncRowWithHint<P>>) returns (order: seq<nat>)
    requires S.Laws() && Forwarded(S, sent, pool, steps, inRows)
    requires |sent| == |table| && forall k :: 0 <= k < |sent| ==> sent[k] == EncRowWithHintMsg(S, table[k])
    ensures IsPermutation(order, |table|) && inRows == Select(table, order)
  {
    assert sent[..|sent|] == sent;
    pool.ClosedAfterAllRows(steps);
    order := pool.After(steps).sent;
    forall k | 0 <= k < |inRows|
      ensures inRows[k] == table[order[k]]
    {
      assert IsDecoded(S, sent, order[k], inRows[k]);
      EncRowWithHintArrives(S, table[order[k]]);
    }
  }

  // A run of the server in which sessions neither overlapped nor broke, every source sent its
  // table, and a PullRows call has sent the helper's.
  ghost predicate Served<P(!new)>(server: Server<P>, s: Session<P>, run: seq<HelperServers.Action<P>>, pull: nat) {
    && Serves(server, s) && server.IsRun(run) && server.NonOverlapping(run) && server.NoneBreaks(run)
    && (forall i :: 0 <= i < |server.After(run).calls| ==> SentBySource(s, server.After(run).calls[i]))
    && pull < |server.After(run).pulls| && server.After(run).pulls[pull].Stopped?
  }

  // Whatever a PullRows call has sent when it ends, for any reason: if as many rows were announced as
  // its table has, the receiver goes on exactly if all of them were sent, and has exactly these.
  lemma DownloadsWhole<P(!new)>(server: Server<P>, run: seq<HelperServers.Action<P>>, pull: nat)
    requires server.IsRun(run) && pull < |server.After(run).pulls| && server.After(run).pulls[pull].HasTable()
    ensures server.After(run).table.Some?
    ensures var table, sent := server.After(run).table.value, server.After(run).pulls[pull].sent;
      ForwardPools.Downloaded(sent, |table|) == if |sent| == |table| then Some(sent) else None
  {
    server.RunsKeepInvariant(run);
    var table, sent := server.After(run).table.value, server.After(run).pulls[pull].sent;
    assert server.IsPrefixSent(table, server.After(run).pulls[pull]);
    ForwardPools.DownloadedExactly(sent, |table|, sent);
  }

  // The helper's table holds the rows of all tables, each once, and is what is sent.
  lemma ServedTable<P(!new)>(server: Server<P>, s: Session<P>, run: seq<HelperServers.Action<P>>, pull: nat)
    returns (origins: seq<Origin>)
    requires s.Valid() && Served(server, s, run, pull)
    ensures server.After(run).table.Some? && AllSome(server.After(run).table.value)
    ensures s.RowsFrom(Values(server.After(run).table.value), origins)
    ensures server.After(run).pulls[pull].sent == MessagesOf(s.S, Values(server.After(run).table.value))
  {
    var end := server.After(run);
    server.RunsKeepInvariant(run);
    server.PulledRows(run, pull);
    var taskOrigins := ServerTasks(server, s, run);
    var rows := Values(end.table.value);
    origins := s.ConvertedRowsFrom(end.tasks, taskOrigins, server.rowPerm, end.table.value, rows);
  }

  // What the receiver forwards are the rows of all tables, each once.
  lemma DeployedRows<P(!new)>(server: Server<P>, s: Session<P>, run: seq<HelperServers.Action<P>>, pull: nat,
    pool: ForwardPools.Forwarder, steps: seq<ForwardPools.Action>, inRows: seq<EncRowWithHint<P>>)
    returns (origins: seq<Origin>)
    requires s.Valid() && Served(server, s, run, pull)
    requires Forwarded(s.S, server.After(run).pulls[pull].sent, pool, steps, inRows)
    ensures s.RowsFrom(inRows, origins)
  {
    var tableOrigins := ServedTable(server, s, run, pull);
    var rows := Values(server.After(run).table.value);
    var order := ForwardedRows(s.S, rows, server.After(run).pulls[pull].sent, pool, steps, inRows);
    s.ArrivedRowsFrom(rows, tableOrigins, order);
    origins := Select(tableOrigins, order);
  }

  // Over the network, too, for all runs of the server and of the forwarding pool: the output is
  // the join of what is delivered of the tables, and if the values of the shared uids are intact,
  // so have fewer than 30 bytes, a permutation of the plaintext join.
  lemma DeploymentRefinesJoin<P(!new)>(server: Server<P>, s: Session<P>, run: seq<HelperServers.Action<P>>, pull: nat,
    pool: ForwardPools.Forwarder, steps: seq<ForwardPools.Action>, inRows: seq<EncRowWithHint<P>>,
    values: seq<seq<Bytes>>, plain: seq<seq<Bytes>>)
    requires s.Valid() && s.NymInjective() && Served(server, s, run, pull)
    requires Forwarded(s.S, server.After(run).pulls[pull].sent, pool, steps, inRows)
    requires IsJoined(s.S, s.sid, s.sources, s.rsk, inRows, values)
    requires IsJoin(s.tables, s.sources, plain)
    ensures IsJoin(s.ReceivedTables(), s.sources, values)
    ensures s.SharedIntact() ==> multiset(values) == multiset(plain)
  {
    var origins := DeployedRows(server, s, run, pull, pool, steps, inRows);
    s.JoinedIsJoin(inRows, origins, values);
    if s.SharedIntact() {
      s.IntactJoin(values);
      JoinIsUnique(s.tables, s.sources, values, plain);
    }
  }

  // And for every order of forwarding the receiver, its pool included, completes exactly if no
  // ciphertext of any row holds an identity point, every uid has a grouping key, and for shared
  // uids the values are delivered and the payloads open.
  lemma DeploymentCompletesExactly<P(!new)>(server: Server<P>, s: Session<P>, run: seq<HelperServers.Action<P>>,
    pull: nat, order: seq<nat>)
    requires s.Valid() && s.NymInjective() && Served(server, s, run, pull)
    requires IsPermutation(order, |server.After(run).pulls[pull].sent|)
    ensures server.After(run).table.Some? && AllSome(server.After(run).table.value)
    ensures var rows := Values(server.After(run).table.value);
      && |rows| == |server.After(run).pulls[pull].sent|
      && ((AllDecode(s.S, server.After(run).pulls[pull].sent)
          && NymsDefined(s.S, s.rsk.bsk, Select(rows, order))
          && GroupsOpen(s.S, s.sid, s.sources, s.rsk, Select(rows, order)))
        <==> (AllRowsSerializable(s.S, rows) && s.NymsHaveKeys() && s.SharedDelivered()
          && exists origins :: s.RowsFrom(rows, origins) && s.CommonRowsOpen(rows, origins)))
  {
    var origins := ServedTable(server, s, run, pull);
    WireCompletesForSome(s, Values(server.After(run).table.value), origins, order);
  }

  lemma WireCompletesForSome<P(!new)>(s: Session<P>, rows: seq<EncRowWithHint<P>>, origins: seq<Origin>,
    order: seq<nat>)
    requires s.Valid() && s.NymInjective() && s.RowsFrom(rows, origins) && IsPermutation(order, |rows|)
    ensures WireReceiverCompletes(s, rows, order) <==>
      (AllRowsSerializable(s.S, rows) && s.NymsHaveKeys() && s.SharedDelivered()
      && exists origins' :: s.RowsFrom(rows, origins') && s.CommonRowsOpen(rows, origins'))
  {
    WireCompletesExactly(s, rows, origins, order);
    if origins' :| s.RowsFrom(rows, origins') && s.CommonRowsOpen(rows, origins') {
      WireCompletesExactly(s, rows, origins', order);
    }
  }

  // The helper's table was made with some draws.
  lemma DeploymentDraws<P(!new)>(server: Server<P>, s: Session<P>, run: seq<HelperServers.Action<P>>, pull: nat)
    returns (tasks: seq<ConvertRowTask<P>>, origins: seq<Origin>, draws: seq<Draws>)
    requires s.Valid() && Served(server, s, run, pull)
    ensures server.After(run).table.Some? && AllSome(server.After(run).table.value)
    ensures s.TasksFrom(tasks, origins)
    ensures TableDrawn(s, tasks, draws, server.rowPerm, Values(server.After(run).table.value))
  {
    var end := server.After(run);
    server.RunsKeepInvariant(run);
    server.PulledRows(run, pull);
    var taskOrigins := ServerTasks(server, s, run);
    var storing;
    storing, draws := DrawsOfTable(s, end.tasks, server.rowPerm, end.table.value);
    TasksReordered(s, end.tasks, taskOrigins, storing);
    tasks, origins := Select(end.tasks, storing), Select(taskOrigins, storing);
  }

  // On these draws completion depends as follows.
  lemma DeploymentCompletesOnDraws<P(!new)>(server: Server<P>, s: Session<P>, run: seq<HelperServers.Action<P>>,
    pull: nat, order: seq<nat>, tasks: seq<ConvertRowTask<P>>, origins: seq<Origin>, draws: seq<Draws>)
    requires s.Valid() && s.NymInjective() && Served(server, s, run, pull)
    requires server.After(run).table.Some? && AllSome(server.After(run).table.value)
    requires IsPermutation(order, |server.After(run).table.value|) && s.TasksFrom(tasks, origins)
    requires TableDrawn(s, tasks, draws, server.rowPerm, Values(server.After(run).table.value))
    ensures server.After(run).pulls[pull].sent == MessagesOf(s.S, Values(server.After(run).table.value))
    ensures WireReceiverCompletes(s, Values(server.After(run).table.value), order) <==>
      && s.NymsHaveKeys() && s.SharedDelivered() && DrawsAvoidIdentity(s, tasks, origins, draws)
      && DrawsDecode(s, tasks, draws)
  {
    var tableOrigins := ServedTable(server, s, run, pull);
    WireCompletesOnDraws(s, tasks, origins, draws, server.rowPerm, Values(server.After(run).table.value), order);
  }

  // ----- Sessions that are served -----

  // If all messages decode, what a pool has forwarded when it closes its channel are the rows.
  lemma DecodedIsForwarded<P(!new)>(s: Session<P>, rows: seq<EncRowWithHint<P>>, pool: ForwardPools.Forwarder,
    steps: seq<ForwardPools.Action>) returns (inRows: seq<EncRowWithHint<P>>)
    requires s.Valid() && AllDecode(s.S, MessagesOf(s.S, rows))
    requires pool.total == |rows| && pool.IsRun(steps) && pool.After(steps).closes == 1
    ensures Forwarded(s.S, MessagesOf(s.S, rows), pool, steps, inRows)
  {
    var msgs, order := MessagesOf(s.S, rows), pool.After(steps).sent;
    pool.ClosedAfterAllRows(steps);
    assert msgs[..|msgs|] == msgs;
    inRows := Select(rows, order);
    forall k | 0 <= k < |inRows|
      ensures IsDecoded(s.S, msgs, order[k], inRows[k])
    {
      EncRowWithHintArrives(s.S, rows[order[k]]);
    }
  }

  // The tasks of a session whose sources push one after the other.
  function SessionTasks<P(!new)>(s: Session<P>, rows: seq<seq<EncRow<P>>>): seq<ConvertRowTask<P>>
    requires |rows| == |s.sources|
  {
    PushedTasks(DoneCalls(s.sources, rows, |rows|))
  }

  // Any session whose sources' rows fill the slots can be served, with any table that the
  // conversion can make of them.
  lemma CanBeServed<P(!new)>(server: Server<P>, s: Session<P>, rows: seq<seq<EncRow<P>>>, res: ConvertedTable<P>)
    returns (run: seq<HelperServers.Action<P>>, pull: nat)
    requires s.Valid() && Serves(server, s) && s.sources != [] && |rows| == |s.sources|
    requires forall i :: 0 <= i < |rows| ==> SentBySource(s, PushCall(s.sources[i], i, rows[i], Done))
    requires |SessionTasks(s, rows)| == |server.rowPerm|
    requires IsConvertedTable(s.S, s.sid, s.keys, s.rpk, server.rowPerm, SessionTasks(s, rows), res)
    ensures Served(server, s, run, pull) && server.After(run).table == Some(res)
  {
    var pushed := PushAll(server, rows, |rows|);
    var more;
    more, pull := ConvertAndSend(server, pushed, res);
    PullsStayClean(server, pushed, more);
    run := pushed + more;
  }

  // And if all its messages decode, a table can be forwarded.
  lemma CanBeForwarded<P(!new)>(server: Server<P>, s: Session<P>, run: seq<HelperServers.Action<P>>, pull: nat)
    returns (pool: ForwardPools.Forwarder, steps: seq<ForwardPools.Action>, inRows: seq<EncRowWithHint<P>>)
    requires s.Valid() && Served(server, s, run, pull)
    requires AllDecode(s.S, server.After(run).pulls[pull].sent)
    ensures Forwarded(s.S, server.After(run).pulls[pull].sent, pool, steps, inRows)
  {
    var origins := ServedTable(server, s, run, pull);
    var rows := Values(server.After(run).table.value);
    pool := ForwardPools.Forwarder(1, |rows|);
    steps := pool.CanClose();
    inRows := DecodedIsForwarded(s, rows, pool, steps);
  }
}
