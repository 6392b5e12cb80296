/** A whole run in memory, as mppj-go/mppj_test.go makes it, with its comparison against the
    plaintext join. */
module EndToEnd {
  import opened DataSources
  import opened Groups
  import opened Helpers
  import opened Messages
  import opened Octets
  import opened Options
  import opened Permutations
  import opened Protocol
  import opened Receivers
  import opened Suites
  import opened Tables

  // ----- From prepared tables to the helper's tasks -----

  // tasks are the rows of the tables named by ids, each of them once.
  ghost predicate FedFrom<P(!new)>(s: Session<P>, tasks: seq<ConvertRowTask<P>>, origins: seq<Origin>,
    ids: seq<SourceID>) {
    && NoDuplicates(origins) && |tasks| == |origins|
    && (forall t :: 0 <= t < |tasks| ==> s.IsTaskOf(tasks[t], origins[t]))
    && (forall o :: o in origins <==> s.IsOrigin(o) && s.sources[o.source] in ids)
  }

  ghost predicate AllPrepared<P(!new)>(s: Session<P>, tables: map<SourceID, seq<EncRow<P>>>) {
    forall id :: id in tables ==> id in s.tables && IsPrepared(s.S, s.sid, s.rpk, s.tables[id], tables[id])
  }

  ghost predicate IndexesSources(sources: seq<SourceID>, sourceIndices: map<SourceID, nat>) {
    forall i :: 0 <= i < |sources| ==> sources[i] in sourceIndices && sourceIndices[sources[i]] == i
  }

  // The origins of the rows of table i, for its uids in the order of the rows.
  function OriginsIn(i: nat, uids: seq<Bytes>): (r: seq<Origin>)
    ensures |r| == |uids| && forall t :: 0 <= t < |uids| ==> r[t] == Origin(i, uids[t])
  {
    seq(|uids|, t requires 0 <= t < |uids| => Origin(i, uids[t]))
  }

  lemma OriginsInTable<P(!new)>(s: Session<P>, i: nat, uids: seq<Bytes>, o: Origin)
    requires i < |s.sources| && s.sources[i] in s.tables
    requires Elements(uids) == s.tables[s.sources[i]].Keys
    ensures o in OriginsIn(i, uids) <==> s.IsOrigin(o) && o.source == i
  {
    var origins := OriginsIn(i, uids);
    if s.IsOrigin(o) && o.source == i {
      assert o.uid in Elements(uids);
      var t :| 0 <= t < |uids| && uids[t] == o.uid;
      assert origins[t] == o;
    }
    if o in origins {
      var t :| 0 <= t < |uids| && origins[t] == o;
      assert uids[t] in Elements(uids);
    }
  }

  // A table's rows, as they are sent, are tasks.
  lemma TableFed<P(!new)>(s: Session<P>, prepared: seq<EncRow<P>>, rows: seq<EncRow<P>>, i: nat)
    returns (origins: seq<Origin>)
    requires i < |s.sources| && s.sources[i] in s.tables
    requires IsPrepared(s.S, s.sid, s.rpk, s.tables[s.sources[i]], prepared)
    requires |rows| == |prepared| && forall t :: 0 <= t < |rows| ==> rows[t] == s.SentRow(prepared[t])
    ensures NoDuplicates(origins) && |origins| == |rows|
    ensures forall t :: 0 <= t < |rows| ==> s.IsTaskOf(TableTasks(rows, i)[t], origins[t])
    ensures forall o :: o in origins <==> s.IsOrigin(o) && o.source == i
  {
    var table := s.tables[s.sources[i]];
    var uids: seq<Bytes> :| NoDuplicates(uids) && PreparesInOrder(s.S, s.sid, s.rpk, table, uids, prepared);
    origins := OriginsIn(i, uids);
    forall o: Origin
      ensures o in origins <==> s.IsOrigin(o) && o.source == i
    {
      OriginsInTable(s, i, uids, o);
    }
    forall t | 0 <= t < |rows|
      ensures s.IsTaskOf(TableTasks(rows, i)[t], origins[t])
    {
      SentIsTask(s, prepared[t], rows[t], i, uids[t]);
    }
  }

  lemma SentIsTask<P(!new)>(s: Session<P>, prepared: EncRow<P>, row: EncRow<P>, i: nat, uid: Bytes)
    requires s.IsOrigin(Origin(i, uid)) && row == s.SentRow(prepared)
    requires IsProcessed(s.S, s.sid, s.rpk, uid, s.Value(Origin(i, uid)), prepared)
    ensures s.IsTaskOf(ConvertRowTask(row, i), Origin(i, uid))
  {
  }

  lemma FedNext<P(!new)>(s: Session<P>, tasks: seq<ConvertRowTask<P>>, origins: seq<Origin>, ids: seq<SourceID>,
    rows: seq<EncRow<P>>, more: seq<Origin>, i: nat)
    requires NoDuplicates(s.sources) && FedFrom(s, tasks, origins, ids)
    requires i < |s.sources| && s.sources[i] !in ids
    requires NoDuplicates(more) && |more| == |rows|
    requires forall t :: 0 <= t < |rows| ==> s.IsTaskOf(TableTasks(rows, i)[t], more[t])
    requires forall o :: o in more <==> s.IsOrigin(o) && o.source == i
    ensures FedFrom(s, tasks + TableTasks(rows, i), origins + more, ids + [s.sources[i]])
  {
    forall j, k | 0 <= j < |origins| && 0 <= k < |more|
      ensures origins[j] != more[k]
    {
      assert origins[j] in origins && more[k] in more;
    }
    forall o: Origin
      ensures o in origins + more <==> s.IsOrigin(o) && s.sources[o.source] in ids + [s.sources[i]]
    {
    }
  }

  lemma FrontAndLast(ids: seq<SourceID>)
    requires NoDuplicates(ids) && ids != []
    ensures var front, last := ids[..|ids| - 1], ids[|ids| - 1];
      && NoDuplicates(front) && Elements(front) <= Elements(ids) && last in Elements(ids) && last !in front
      && ids == front + [last]
  {
  }

  lemma {:induction false} TablesFed<P(!new)>(s: Session<P>, tables: map<SourceID, seq<EncRow<P>>>,
    sourceIndices: map<SourceID, nat>,
    ids: seq<SourceID>) returns (origins: seq<Origin>)
    requires s.Valid() && !s.wire && AllPrepared(s, tables) && IndexesSources(s.sources, sourceIndices)
    requires NoDuplicates(ids) && Elements(ids) <= tables.Keys
    ensures FedFrom(s, FeedTasks(tables, sourceIndices, ids), origins, ids)
  {
    if ids == [] {
      origins := [];
    } else {
      var front, last := ids[..|ids| - 1], ids[|ids| - 1];
      FrontAndLast(ids);
      var before := TablesFed(s, tables, sourceIndices, front);
      var i := s.SourceIndex(last);
      var more := TableFed(s, tables[last], tables[last], i);
      FedNext(s, FeedTasks(tables, sourceIndices, front), before, front, tables[last], more, i);
      origins := before + more;
    }
  }

  // Whatever the order in which Convert ranges over the tables, its tasks are the tables' rows.
  lemma PreparedTasks<P(!new)>(s: Session<P>, tables: map<SourceID, seq<EncRow<P>>>, sourceIndices: map<SourceID, nat>,
    ids: seq<SourceID>) returns (origins: seq<Origin>)
    requires s.Valid() && !s.wire && AllPrepared(s, tables) && IndexesSources(s.sources, sourceIndices)
    requires NoDuplicates(ids) && Elements(ids) == tables.Keys == s.tables.Keys
    ensures s.TasksFrom(FeedTasks(tables, sourceIndices, ids), origins)
  {
    origins := TablesFed(s, tables, sourceIndices, ids);
    forall o: Origin
      ensures o in origins <==> s.IsOrigin(o)
    {
      if s.IsOrigin(o) {
        assert s.sources[o.source] in Elements(ids);
      }
    }
  }

  lemma TasksInRange<P(!new)>(s: Session<P>, tasks: seq<ConvertRowTask<P>>, origins: seq<Origin>)
    requires s.Valid() && s.TasksFrom(tasks, origins)
    ensures forall i :: 0 <= i < |tasks| ==> tasks[i].tableIndex < |s.keys.padKeyShares|
  {
    forall i | 0 <= i < |tasks|
      ensures tasks[i].tableIndex < |s.keys.padKeyShares|
    {
      assert s.IsTaskOf(tasks[i], origins[i]);
    }
  }

  // ----- The number of rows -----

  function RowTotal(tables: map<SourceID, TablePlain>, sources: seq<SourceID>): nat {
    if sources == [] then 0 else
      var last := sources[|sources| - 1];
      RowTotal(tables, sources[..|sources| - 1]) + if last in tables then |tables[last]| else 0
  }

  lemma ListUids(table: TablePlain) returns (uids: seq<Bytes>)
    ensures NoDuplicates(uids) && Elements(uids) == table.Keys && |uids| == |table|
  {
    uids := [];
    var left := table.Keys;
    while left != {}
      invariant left <= table.Keys && NoDuplicates(uids) && Elements(uids) == table.Keys - left
    {
      var uid :| uid in left;
      assert uid !in Elements(uids);
      assert Elements(uids + [uid]) == Elements(uids) + {uid};
      uids, left := uids + [uid], left - {uid};
    }
    ElementsCardinality(uids);
    assert |table.Keys| == |table|;
  }

  // A listing of the rows of the first k tables.
  lemma {:induction false} FirstTables<P(!new)>(s: Session<P>, k: nat) returns (origins: seq<Origin>)
    requires s.Valid() && k <= |s.sources|
    ensures NoDuplicates(origins) && |origins| == RowTotal(s.tables, s.sources[..k])
    ensures forall o :: o in origins <==> s.IsOrigin(o) && o.source < k
  {
    if k == 0 {
      origins := [];
    } else {
      var before := FirstTables(s, k - 1);
      var i := k - 1;
      assert s.sources[i] in Elements(s.sources);
      var uids := ListUids(s.tables[s.sources[i]]);
      forall o: Origin
        ensures o in OriginsIn(i, uids) <==> s.IsOrigin(o) && o.source == i
      {
        OriginsInTable(s, i, uids, o);
      }
      assert s.sources[..k][..k - 1] == s.sources[..k - 1];
      origins := before + OriginsIn(i, uids);
    }
  }

  lemma CoversCount<P(!new)>(s: Session<P>, origins: seq<Origin>)
    requires s.Valid() && s.Covers(origins)
    ensures |origins| == RowTotal(s.tables, s.sources)
  {
    var listed := FirstTables(s, |s.sources|);
    assert s.sources[..|s.sources|] == s.sources;
    assert Elements(listed) == Elements(origins);
    ElementsCardinality(listed);
    ElementsCardinality(origins);
  }

  // ----- The run -----

  // One prepared table for each table; None if the values of one do not embed.
  method PrepareAll<P(!new)>(S: Suite<P>, sid: Bytes, rpk: PublicKeys<P>, tables: map<SourceID, TablePlain>, n: nat)
    returns (r: Option<map<SourceID, seq<EncRow<P>>>>)
    requires S.Laws() && n >= 1
    ensures r.Some? <==> forall id :: id in tables ==> Embeddable(S, tables[id])
    ensures r.Some? ==> r.value.Keys == tables.Keys
    ensures r.Some? ==> forall id :: id in tables ==> IsPrepared(S, sid, rpk, tables[id], r.value[id])
  {
    var encTables: map<SourceID, seq<EncRow<P>>> := map[];
    var left := tables.Keys;
    while left != {}
      invariant left <= tables.Keys && encTables.Keys == tables.Keys - left
      invariant forall id :: id in encTables ==>
        Embeddable(S, tables[id]) && IsPrepared(S, sid, rpk, tables[id], encTables[id])
    {
      var id :| id in left;
      var ds := new DataSource(S, sid, rpk);
      var prepTable := ds.Prepare(rpk, tables[id], n);
      if prepTable.None? {
        return None;
      }
      encTables := encTables[id := prepTable.value];
      left := left - {id};
    }
    return Some(encTables);
  }

  // No value makes Prepare block.
  ghost predicate AllEmbeddable<P(!new)>(s: Session<P>) {
    forall id :: id in s.tables ==> Embeddable(s.S, s.tables[id])
  }

  // The parties of a run, and what they have in common.
  ghost predicate Fits<P(!new)>(helper: Helper<P>, receiver: Receiver<P>)
    reads helper
  {
    && helper.Valid() && helper.S == receiver.S && helper.sid == receiver.sid
    && |helper.padKeyShares| == |receiver.sourceIDs| <= 256
    && IndexesSources(receiver.sourceIDs, helper.sourceIndices) && NoDuplicates(receiver.sourceIDs)
    && KeyPairs(receiver.S.group, receiver.recvSK, receiver.recvPK)
  }

  // The session of a run in memory.
  ghost function SessionOf<P(!new)>(helper: Helper<P>, receiver: Receiver<P>,
    tables: map<SourceID, TablePlain>): Session<P>
    reads helper
  {
    Session(receiver.S, receiver.sid, receiver.sourceIDs, helper.Keys(),
      receiver.recvSK, receiver.recvPK, tables, false)
  }

  method Setup<P(!new)>(S: Suite<P>, sid: Bytes, sources: seq<SourceID>, nRows: nat) returns (helper: Helper<P>,
    receiver: Receiver<P>)
    requires S.Laws() && NoDuplicates(sources) && |sources| <= 256
    ensures fresh(helper) && fresh(receiver) && Fits(helper, receiver)
    ensures receiver.S == S && receiver.sid == sid && receiver.sourceIDs == sources
    ensures |helper.rowPerm| == nRows * |sources|
  {
    var k: nat, b: nat, e: nat :| true;
    var shares := RandomScalars(|sources|);
    helper := new Helper(S, sid, sources, nRows, k, shares);
    receiver := new Receiver<P>.WithFreshKeys(S, sid, sources, b, e);
  }

  // The helper's table is missing exactly if a value does not embed or the tables have more rows
  // than there are slots, has an empty slot exactly if they have fewer, and otherwise has each
  // row of each table once.
  ghost predicate HoldsTables<P(!new)>(s: Session<P>, slots: nat, conv: Option<seq<Option<EncRowWithHint<P>>>>) {
    && (conv.Some? <==> AllEmbeddable(s) && RowTotal(s.tables, s.sources) <= slots)
    && (conv.Some? ==> |conv.value| == slots)
    && (conv.Some? ==> (AllSome(conv.value) <==> RowTotal(s.tables, s.sources) == slots))
    && (conv.Some? && AllSome(conv.value) ==> exists origins :: s.RowsFrom(Values(conv.value), origins))
  }

  lemma ConversionHoldsTables<P(!new)>(s: Session<P>, rowPerm: seq<nat>, tasks: seq<ConvertRowTask<P>>,
    origins: seq<Origin>,
    conv: Option<seq<Option<EncRowWithHint<P>>>>)
    requires s.Valid() && AllEmbeddable(s) && IsPermutation(rowPerm, |rowPerm|) && s.TasksFrom(tasks, origins)
    requires conv.Some? <==> |tasks| <= |rowPerm|
    requires conv.Some? ==> IsConvertedTable(s.S, s.sid, s.keys, s.rpk, rowPerm, tasks, conv.value)
    ensures HoldsTables(s, |rowPerm|, conv)
  {
    CoversCount(s, origins);
    if conv.Some? {
      AllSlotsExactly(s.S, s.sid, s.keys, s.rpk, rowPerm, tasks, conv.value);
      if AllSome(conv.value) {
        var origins' := s.ConvertedRowsFrom(tasks, origins, rowPerm, conv.value, Values(conv.value));
      }
    }
  }

  // The sources prepare their tables, and the helper converts them.
  method PrepareAndConvert<P(!new)>(helper: Helper<P>, receiver: Receiver<P>, tables: map<SourceID, TablePlain>, n: nat)
    returns (conv: Option<seq<Option<EncRowWithHint<P>>>>)
    requires Fits(helper, receiver) && tables.Keys == Elements(receiver.sourceIDs) && n >= 1
    ensures HoldsTables(SessionOf(helper, receiver, tables), |helper.rowPerm|, conv)
  {
    var encTables := PrepareAll(helper.S, helper.sid, receiver.recvPK, tables, n);
    if encTables.None? {
      return None;
    }
    conv := helper.Convert(receiver.recvPK, encTables.value, n);
    FeedHoldsTables(SessionOf(helper, receiver, tables), helper, encTables.value, conv);
  }

  lemma FeedHoldsTables<P(!new)>(s: Session<P>, helper: Helper<P>, encTables: map<SourceID, seq<EncRow<P>>>,
    conv: Option<seq<Option<EncRowWithHint<P>>>>)
    requires s.Valid() && !s.wire && AllEmbeddable(s)
    requires helper.Valid() && helper.S == s.S && helper.sid == s.sid && helper.Keys() == s.keys
    requires IndexesSources(s.sources, helper.sourceIndices)
    requires AllPrepared(s, encTables) && encTables.Keys == s.tables.Keys && helper.IsConversion(s.rpk, encTables, conv)
    ensures HoldsTables(s, |helper.rowPerm|, conv)
  {
    var tasks: seq<ConvertRowTask<P>> :|
      && IsFeed(encTables, helper.sourceIndices, tasks)
      && (conv.Some? <==> |tasks| <= |helper.rowPerm| && forall i :: 0 <= i < |tasks| ==>
        tasks[i].tableIndex < |helper.padKeyShares|)
      && (conv.Some? ==> IsConvertedTable(s.S, s.sid, s.keys, s.rpk, helper.rowPerm, tasks, conv.value));
    var ids: seq<SourceID> :|
      NoDuplicates(ids) && Elements(ids) == encTables.Keys && tasks == FeedTasks(encTables, helper.sourceIndices, ids);
    var origins := PreparedTasks(s, encTables, helper.sourceIndices, ids);
    TasksInRange(s, tasks, origins);
    ConversionHoldsTables(s, helper.rowPerm, tasks, origins, conv);
  }

  // What the receiver is given makes it complete: no slot is empty, all rows have grouping keys,
  // and all complete groups open.
  ghost predicate ReceiverCompletes<P(!new)>(s: Session<P>, conv: Option<seq<Option<EncRowWithHint<P>>>>) {
    && conv.Some? && AllSome(conv.value)
    && NymsDefined(s.S, s.rsk.bsk, Values(conv.value))
    && GroupsOpen(s.S, s.sid, s.sources, s.rsk, Values(conv.value))
  }

  // In terms of the tables and keys: no slot is empty, every uid has a grouping key, and for
  // shared uids the values are delivered and no payload holds an identity point.
  ghost predicate Completes<P(!new)>(s: Session<P>, conv: Option<seq<Option<EncRowWithHint<P>>>>) {
    conv.Some? && AllSome(conv.value) && s.NymsHaveKeys() && s.SharedDelivered()
    && exists origins :: s.RowsFrom(Values(conv.value), origins) && s.CommonRowsOpen(Values(conv.value), origins)
  }

  lemma CompletesIfOpen<P(!new)>(s: Session<P>, slots: nat, conv: Option<seq<Option<EncRowWithHint<P>>>>)
    requires s.Valid() && s.NymInjective() && HoldsTables(s, slots, conv)
    ensures Completes(s, conv) <==> ReceiverCompletes(s, conv)
  {
    if conv.Some? && AllSome(conv.value) {
      FullTableOpens(s, Values(conv.value));
    }
  }

  lemma FullTableOpens<P(!new)>(s: Session<P>, rows: seq<EncRowWithHint<P>>)
    requires s.Valid() && s.NymInjective() && exists origins :: s.RowsFrom(rows, origins)
    ensures (s.NymsHaveKeys() && s.SharedDelivered() && exists origins ::
      s.RowsFrom(rows, origins) && s.CommonRowsOpen(rows, origins))
      <==> NymsDefined(s.S, s.rsk.bsk, rows) && GroupsOpen(s.S, s.sid, s.sources, s.rsk, rows)
  {
    if origins :| s.RowsFrom(rows, origins) && s.CommonRowsOpen(rows, origins) {
      s.CompletesExactly(rows, origins);
    } else {
      var origins :| s.RowsFrom(rows, origins);
      s.CompletesExactly(rows, origins);
    }
  }

  // What a completed run outputs.
  lemma CompletedJoins<P(!new)>(s: Session<P>, slots: nat, conv: Option<seq<Option<EncRowWithHint<P>>>>,
    values: seq<seq<Bytes>>)
    requires s.Valid() && s.NymInjective() && HoldsTables(s, slots, conv) && conv.Some? && AllSome(conv.value)
    requires IsJoined(s.S, s.sid, s.sources, s.rsk, Values(conv.value), values)
    ensures IsJoin(s.ReceivedTables(), s.sources, values)
    ensures s.SharedIntact() ==> IsJoin(s.tables, s.sources, values)
  {
    var origins :| s.RowsFrom(Values(conv.value), origins);
    s.JoinedIsJoin(Values(conv.value), origins, values);
    if s.SharedIntact() {
      s.IntactJoin(values);
    }
  }

  // A run in memory. ok is false if it panics or never ends.
  method Run<P(!new)>(helper: Helper<P>, receiver: Receiver<P>, tables: map<SourceID, TablePlain>, n: nat)
    returns (conv: Option<seq<Option<EncRowWithHint<P>>>>, joined: JoinTable, ok: bool)
    requires Fits(helper, receiver) && tables.Keys == Elements(receiver.sourceIDs) && n >= 1
    ensures fresh(joined) && joined.sourceids == receiver.sourceIDs
    ensures var s := SessionOf(helper, receiver, tables);
      && s.Valid() && HoldsTables(s, |helper.rowPerm|, conv)
      && (ok <==> ReceiverCompletes(s, conv))
      && (ok ==> IsJoined(s.S, s.sid, s.sources, s.rsk, Values(conv.value), joined.values))
    ensures var s := SessionOf(helper, receiver, tables);
      s.NymInjective() ==>
        && (ok <==> Completes(s, conv))
        && (ok ==> IsJoin(s.ReceivedTables(), s.sources, joined.values))
        && (ok && s.SharedIntact() ==> IsJoin(tables, s.sources, joined.values))
  {
    ghost var s := SessionOf(helper, receiver, tables);
    conv := PrepareAndConvert(helper, receiver, tables, n);
    if s.NymInjective() {
      CompletesIfOpen(s, |helper.rowPerm|, conv);
    }
    if conv.None? {
      joined := new JoinTable(receiver.sourceIDs);
      return conv, joined, false;
    }
    joined, ok := receiver.JoinTables(conv.value, |tables|, n);
    if s.NymInjective() && ok {
      CompletedJoins(s, |helper.rowPerm|, conv, joined.values);
    }
  }

  // EqualContents accepts what the receiver can learn of the tables for the plaintext join.
  ghost predicate JoinsAccepted<P(!new)>(s: Session<P>) {
    exists plain, received ::
      IsJoin(s.tables, s.sources, plain) && IsJoin(s.ReceivedTables(), s.sources, received)
      && Accepts(s.sources, plain, s.sources, received)
  }

  lemma AcceptedExactly<P(!new)>(s: Session<P>, plain: seq<seq<Bytes>>, received: seq<seq<Bytes>>)
    requires IsJoin(s.tables, s.sources, plain) && IsJoin(s.ReceivedTables(), s.sources, received)
    ensures JoinsAccepted(s) <==> Accepts(s.sources, plain, s.sources, received)
  {
    if JoinsAccepted(s) {
      var plain', received' :| IsJoin(s.tables, s.sources, plain') && IsJoin(s.ReceivedTables(), s.sources, received')
        && Accepts(s.sources, plain', s.sources, received');
      JoinIsUnique(s.tables, s.sources, plain', plain);
      JoinIsUnique(s.ReceivedTables(), s.sources, received', received);
      AcceptsReordered(s.sources, plain', received', plain, received);
    }
  }

  // What can be compared after a run, whether or not uids share grouping keys.
  ghost predicate Compared<P(!new)>(s: Session<P>, conv: Option<seq<Option<EncRowWithHint<P>>>>, accepted: bool) {
    && ReceiverCompletes(s, conv)
    && exists plain, values ::
        IsJoin(s.tables, s.sources, plain) && IsJoined(s.S, s.sid, s.sources, s.rsk, Values(conv.value), values)
        && (accepted <==> Accepts(s.sources, plain, s.sources, values))
  }

  // TestMPPJ: a run passes the comparison with the plaintext join exactly if it completes and
  // what is delivered of the tables is accepted; intact values always are.
  method TestMPPJ<P(!new)>(S: Suite<P>, sid: Bytes, sourceIDs: seq<SourceID>, tables: map<SourceID, TablePlain>,
    nRows: nat, n: nat)
    returns (helper: Helper<P>, receiver: Receiver<P>, conv: Option<seq<Option<EncRowWithHint<P>>>>, passed: bool)
    requires S.Laws() && n >= 1
    requires NoDuplicates(sourceIDs) && |sourceIDs| <= 256 && tables.Keys == Elements(sourceIDs)
    ensures Fits(helper, receiver) && receiver.S == S && receiver.sid == sid && receiver.sourceIDs == sourceIDs
    ensures var s := SessionOf(helper, receiver, tables);
      && HoldsTables(s, nRows * |sourceIDs|, conv)
      && (if passed then Compared(s, conv, true) else !ReceiverCompletes(s, conv) || Compared(s, conv, false))
    ensures var s := SessionOf(helper, receiver, tables);
      s.NymInjective() ==>
        && (passed <==> Completes(s, conv) && JoinsAccepted(s))
        && (s.SharedIntact() ==> (passed <==> Completes(s, conv)))
  {
    helper, receiver := Setup(S, sid, sourceIDs, nRows);
    var intersectionMPPJ, ok;
    conv, intersectionMPPJ, ok := Run(helper, receiver, tables, n);
    if !ok {
      return helper, receiver, conv, false;
    }
    var joinedTablesPlain := IntersectSimple(tables, sourceIDs);
    var equal := joinedTablesPlain.EqualContents(intersectionMPPJ);
    passed := equal == Some(true);
    assert Compared(SessionOf(helper, receiver, tables), conv, passed);
    Comparison(SessionOf(helper, receiver, tables), joinedTablesPlain.values, intersectionMPPJ.values);
  }

  lemma Comparison<P(!new)>(s: Session<P>, plain: seq<seq<Bytes>>, values: seq<seq<Bytes>>)
    requires IsJoin(s.tables, s.sources, plain)
    ensures IsJoin(s.ReceivedTables(), s.sources, values) ==>
      (JoinsAccepted(s) <==> Accepts(s.sources, plain, s.sources, values))
    ensures IsJoin(s.tables, s.sources, values) ==> Accepts(s.sources, plain, s.sources, values)
  {
    if IsJoin(s.ReceivedTables(), s.sources, values) {
      AcceptedExactly(s, plain, values);
    }
    if IsJoin(s.tables, s.sources, values) {
      JoinIsUnique(s.tables, s.sources, plain, values);
      AcceptsPermutations(s.sources, plain, values);
    }
  }
}
