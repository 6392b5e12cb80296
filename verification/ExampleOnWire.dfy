/** The hypotheses of the theorems about the network can be met: two sources that share a uid push
    their rows, the server delivers, and the receiver's pool forwards. */
module ExamplesOnWire {
  import opened Completion
  import opened DataSources
  import Deliveries
  import opened Deployments
  import opened ElGamal
  import opened Embedding
  import opened Examples
  import ForwardPools
  import opened Helpers
  import HelperServers
  import opened Messages
  import opened ModelSuites
  import opened Octets
  import opened Options
  import opened Padding
  import opened Permutations
  import opened Protocol
  import opened Suites
  import opened Vectors

  ghost function WireExample(): Session<Residue> {
    Example().(wire := true)
  }

  ghost function WireServer(): HelperServers.Server<Residue> {
    HelperServers.Server(ExampleSuite(), [], Example().keys, PublicKeys(0, 0), Range(2), ["a", "b"])
  }

  // ----- The sources' rows -----

  lemma PowerOf(a: Residue, n: nat)
    requires n * a < Order()
    ensures ResidueGroup().Exp(a, n) == n * a
  {
    var k := ExpIsMultiple(a, n);
    assert k >= 1 ==> k * Order() >= Order();
  }

  // An encryption with the randomness one, under the identity as key.
  lemma EncryptsPlainly(m: Residue)
    ensures PKEEncrypt(ResidueGroup(), 0, m, 1) == Ciphertext(1, m)
  {
    PowerOf(1, 1);
    PowerOf(0, 1);
  }

  lemma OnePointOf<P(!new)>(S: Suite<P>, val: Bytes) returns (m: P)
    requires S.Laws() && Embeds(S, val) && |val| < 30
    ensures ValuePoints(S, val) == Some([m]) && m != S.group.one
  {
    var chunk := Chunks(Pad(val, 30))[0];
    EmbedsHasPoints(S, val);
    m := ValuePoints(S, val).value[0];
    assert m == MessageFromBytes(S, chunk).value;
    assert [ValuePoints(S, val).value[0]] == ValuePoints(S, val).value;
    EmbeddedCoordinate(S, chunk);
  }

  ghost predicate IsPlainRow(row: EncRow<Residue>) {
    row.cuid == Ciphertext(1, 1) && |row.cval| == 1 && row.cval[0].c0 == 1 && row.cval[0].c1 != 0
  }

  // A row that a source can send.
  lemma ExampleRow(val: Bytes) returns (row: EncRow<Residue>)
    requires IsExampleValue(val)
    ensures IsPlainRow(row) && IsProcessed(ExampleSuite(), [], PublicKeys(0, 0), UID, val, row)
  {
    LawsHold(ExampleB());
    ExampleEmbeds(val);
    var m := OnePointOf(ExampleSuite(), val);
    EncryptsPlainly(1);
    EncryptsPlainly(m);
    row := EncRow(Ciphertext(1, 1), [Ciphertext(1, m)]);
    assert EncryptAll(ResidueGroup(), 0, [m], [1]) == [Ciphertext(1, m)];
    assert ProcessedRow(ExampleSuite(), [], PublicKeys(0, 0), UID, val, 1, [1]) == Some(row);
  }

  lemma PlainRowArrives(row: EncRow<Residue>)
    requires IsPlainRow(row)
    ensures Transmitted(ExampleSuite(), row) == Some(row)
  {
    LawsHold(ExampleB());
    EncRowArrives(ExampleSuite(), row);
    assert row.cval == [row.cval[0]];
  }

  lemma RowSent(i: nat, val: Bytes, row: EncRow<Residue>)
    requires i < 2 && WireExample().tables[WireExample().sources[i]] == map[UID := val]
    requires IsPlainRow(row) && IsProcessed(ExampleSuite(), [], PublicKeys(0, 0), UID, val, row)
    ensures SentBySource(WireExample(), HelperServers.PushCall(WireExample().sources[i], i, [row], HelperServers.Done))
  {
    var s, table := WireExample(), map[UID := val];
    PlainRowArrives(row);
    assert Elements([UID]) == table.Keys;
    assert PreparesInOrder(s.S, s.sid, s.rpk, table, [UID], [row]);
    assert IsPrepared(s.S, s.sid, s.rpk, table, [row]);
    assert AllTransmitted(s.S, [row], [row]);
  }

  // ----- The helper's table -----

  const NO_DRAWS: Draws := Draws(0, 0, [0], 0, 0)

  lemma EvalPlainly(key: nat, a: Residue)
    requires key * a < Order()
    ensures OPRFEval(ResidueGroup(), key, 0, Ciphertext(a, a), 0) == Ciphertext(key * a, key * a)
  {
    PowerOf(a, key);
  }

  ghost predicate IsReady(task: ConvertRowTask<Residue>, out: EncRowWithHint<Residue>) {
    IsConverted(ExampleSuite(), [], Example().keys, PublicKeys(0, 0), task, out) && RowSerializable(ExampleSuite(), out)
  }

  ghost predicate IsPlainTask(task: ConvertRowTask<Residue>) {
    IsPlainRow(task.row) && task.tableIndex < 2
  }

  ghost predicate AllPlain(tasks: seq<ConvertRowTask<Residue>>) {
    forall i :: 0 <= i < |tasks| ==> IsPlainTask(tasks[i])
  }

  // Without randomness the helper converts a plain row to points other than the identity.
  lemma ConvertedPlainly(task: ConvertRowTask<Residue>) returns (out: EncRowWithHint<Residue>)
    requires IsPlainTask(task)
    ensures IsReady(task, out)
  {
    LawsHold(ExampleB());
    OrderAboveAll();
    EvalPlainly(1000, 1);
    EvalPlainly(2, 1000);
    EvalPlainly(1, 1000);
    out := Convertible(ExampleSuite(), [], Example().keys, PublicKeys(0, 0), task, NO_DRAWS);
    assert out.cnyme == Ciphertext(1000, 1000) && out.chint == Ciphertext(1000, 1000);
    assert out.cvalKey == Ciphertext(2000, 2000);
  }

  lemma OrderAboveAll()
    ensures Order() > 2000
  {
    Pow256Monotone(2, FIELD_BYTES);
    assert Pow256(2) == 65536;
  }

  // The rows in the order of their tasks.
  lemma TableInOrder<P(!new)>(S: Suite<P>, sid: Bytes, keys: HelperKeys, rpk: PublicKeys<P>,
    tasks: seq<ConvertRowTask<P>>, outs: seq<EncRowWithHint<P>>) returns (res: seq<Option<EncRowWithHint<P>>>)
    requires |tasks| == |outs|
    requires forall i :: 0 <= i < |outs| ==> IsConverted(S, sid, keys, rpk, tasks[i], outs[i])
    ensures AllSome(res) && Values(res) == outs
    ensures IsConvertedTable(S, sid, keys, rpk, Range(|tasks|), tasks, res)
  {
    var order := Range(|tasks|);
    res := seq(|outs|, i requires 0 <= i < |outs| => Some(outs[i]));
    assert IsPermutation(order, |tasks|);
    assert StoredInOrder(S, sid, keys, rpk, order, tasks, order, res);
  }

  ghost function Ready(task: ConvertRowTask<Residue>): (out: EncRowWithHint<Residue>)
    requires IsPlainTask(task)
    ensures IsReady(task, out)
  {
    CanBeReady(task);
    var out :| IsReady(task, out);
    out
  }

  lemma CanBeReady(task: ConvertRowTask<Residue>)
    requires IsPlainTask(task)
    ensures exists out :: IsReady(task, out)
  {
    var out := ConvertedPlainly(task);
  }

  lemma TableOfPlain(tasks: seq<ConvertRowTask<Residue>>) returns (res: seq<Option<EncRowWithHint<Residue>>>)
    requires AllPlain(tasks)
    ensures AllSome(res) && AllRowsSerializable(ExampleSuite(), Values(res))
    ensures IsConvertedTable(ExampleSuite(), [], Example().keys, PublicKeys(0, 0), Range(|tasks|), tasks, res)
  {
    var outs := seq(|tasks|, i requires 0 <= i < |tasks| => Ready(tasks[i]));
    res := TableInOrder(ExampleSuite(), [], Example().keys, PublicKeys(0, 0), tasks, outs);
  }

  // ----- The run -----

  lemma WireExampleIsValid()
    ensures WireExample().Valid() && WireExample().NymInjective() && WireExample().NymsHaveKeys()
    ensures Serves(WireServer(), WireExample())
  {
    ExampleIsValid();
    ExampleNyms();
  }

  ghost predicate IsPlainTable(rows: seq<EncRow<Residue>>) {
    |rows| == 1 && IsPlainRow(rows[0])
  }

  ghost predicate IsRowOf(s: Session<Residue>, i: nat, rows: seq<EncRow<Residue>>)
    requires i < |s.sources|
  {
    IsPlainTable(rows) && SentBySource(s, HelperServers.PushCall(s.sources[i], i, rows, HelperServers.Done))
  }

  lemma SourceRows(i: nat, val: Bytes) returns (rows: seq<EncRow<Residue>>)
    requires i < 2 && WireExample().tables[WireExample().sources[i]] == map[UID := val] && IsExampleValue(val)
    ensures IsRowOf(WireExample(), i, rows)
  {
    var row := ExampleRow(val);
    RowSent(i, val, row);
    rows := [row];
  }

  lemma ExampleRows() returns (rows: seq<seq<EncRow<Residue>>>)
    ensures |rows| == 2 && IsRowOf(WireExample(), 0, rows[0]) && IsRowOf(WireExample(), 1, rows[1])
  {
    var rowsA := SourceRows(0, [1]);
    var rowsB := SourceRows(1, [2, 3]);
    rows := [rowsA, rowsB];
  }

  lemma TasksOfTwo(rows: seq<seq<EncRow<Residue>>>)
    requires |rows| == 2 && IsPlainTable(rows[0]) && IsPlainTable(rows[1])
    ensures |SessionTasks(WireExample(), rows)| == 2 && AllPlain(SessionTasks(WireExample(), rows))
  {
    var s := WireExample();
    var calls := Deliveries.DoneCalls(s.sources, rows, 2);
    assert calls == [calls[0]] + [calls[1]] && [calls[0]] == [] + [calls[0]];
    HelperServers.PushedLast([calls[0]], calls[1]);
    HelperServers.PushedLast([], calls[0]);
  }

  lemma BothSent<P(!new)>(s: Session<P>, rows: seq<seq<EncRow<P>>>)
    requires |rows| == |s.sources| == 2
    requires SentBySource(s, HelperServers.PushCall(s.sources[0], 0, rows[0], HelperServers.Done))
    requires SentBySource(s, HelperServers.PushCall(s.sources[1], 1, rows[1], HelperServers.Done))
    ensures forall i :: 0 <= i < |rows| ==>
      SentBySource(s, HelperServers.PushCall(s.sources[i], i, rows[i], HelperServers.Done))
  {
  }

  lemma ExampleServed() returns (run: seq<HelperServers.Action<Residue>>, pull: nat,
    res: HelperServers.ConvertedTable<Residue>)
    ensures Served(WireServer(), WireExample(), run, pull) && WireServer().After(run).table == Some(res)
    ensures AllSome(res) && AllRowsSerializable(ExampleSuite(), Values(res))
  {
    WireExampleIsValid();
    var rows := ExampleRows();
    BothSent(WireExample(), rows);
    TasksOfTwo(rows);
    res := TableOfPlain(SessionTasks(WireExample(), rows));
    run, pull := CanBeServed(WireServer(), WireExample(), rows, res);
  }

  // There are a run of the server and of the pool as the theorems assume them.
  lemma NetworkHypothesesHold() returns (run: seq<HelperServers.Action<Residue>>, pull: nat,
    pool: ForwardPools.Forwarder, steps: seq<ForwardPools.Action>, inRows: seq<EncRowWithHint<Residue>>)
    ensures WireExample().Valid() && WireExample().NymInjective() && WireExample().NymsHaveKeys()
    ensures Served(WireServer(), WireExample(), run, pull)
    ensures Forwarded(ExampleSuite(), WireServer().After(run).pulls[pull].sent, pool, steps, inRows)
  {
    WireExampleIsValid();
    var res;
    run, pull, res := ExampleServed();
    AllDecodeExactly(ExampleSuite(), Values(res));
    var origins := ServedTable(WireServer(), WireExample(), run, pull);
    pool, steps, inRows := CanBeForwarded(WireServer(), WireExample(), run, pull);
  }
}
