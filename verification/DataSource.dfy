/** The data sources, from mppj-go/party_datasource.go. */
module DataSources {
  import opened ElGamal
  import opened Groups
  import opened Messages
  import opened Octets
  import opened Options
  import opened Permutations
  import opened Suites
  import opened Tables
  import opened Vectors

  datatype PublicKeys<P> = PublicKeys(bpk: P, epk: P)
  datatype SecretKeys = SecretKeys(bsk: nat, esk: nat)

  ghost predicate KeyPairs<P(!new)>(G: Group<P>, rsk: SecretKeys, rpk: PublicKeys<P>) {
    KeyPair(G, rsk.bsk, rpk.bpk) && KeyPair(G, rsk.esk, rpk.epk)
  }

  function ProcessedRow<P(!new)>(S: Suite<P>, sid: Bytes, rpk: PublicKeys<P>, uid: Bytes, val: Bytes, r: nat,
    rs: seq<nat>): Option<EncRow<P>>
    requires |rs| == |val| / 30 + 1
  {
    var cval :- EncryptedVector(S, rpk.epk, val, rs);
    Some(EncRow(OPRFBlind(S, rpk.bpk, uid, sid, r), cval))
  }

  // row is an encryption of (uid, val), for some randomness.
  ghost predicate IsProcessed<P(!new)>(S: Suite<P>, sid: Bytes, rpk: PublicKeys<P>, uid: Bytes, val: Bytes,
    row: EncRow<P>) {
    exists r: nat, rs: seq<nat> :: |rs| == |val| / 30 + 1 && ProcessedRow(S, sid, rpk, uid, val, r, rs) == Some(row)
  }

  // What an encrypted row stands for: the hashed uid and the points of the value.
  lemma ProcessedMeans<P(!new)>(S: Suite<P>, sid: Bytes, rpk: PublicKeys<P>, uid: Bytes, val: Bytes, row: EncRow<P>)
    requires IsProcessed(S, sid, rpk, uid, val, row)
    ensures Encrypts(S.group, rpk.bpk, row.cuid, S.HashToPoint(uid, sid))
    ensures ValuePoints(S, val).Some? && EncryptsAll(S.group, rpk.epk, row.cval, ValuePoints(S, val).value)
  {
    var r: nat, rs: seq<nat> :| |rs| == |val| / 30 + 1 && ProcessedRow(S, sid, rpk, uid, val, r, rs) == Some(row);
    EncryptionEncryptsAll(S.group, rpk.epk, ValuePoints(S, val).value, rs);
  }

  // The receiver's keys open a row: the uid's hash, and the value exactly if it embeds early enough.
  lemma ProcessedDecrypts<P(!new)>(S: Suite<P>, sid: Bytes, rsk: SecretKeys, rpk: PublicKeys<P>, uid: Bytes,
    val: Bytes, row: EncRow<P>)
    requires S.Laws() && KeyPairs(S.group, rsk, rpk) && IsProcessed(S, sid, rpk, uid, val, row)
    ensures PKEDecrypt(S.group, rsk.bsk, row.cuid) == S.HashToPoint(uid, sid)
    ensures DecryptedVector(S, rsk.esk, row.cval) == Some(val) <==> Embeds(S, val)
    ensures |row.cval| == 1 <==> |val| < 30
  {
    ProcessedMeans(S, sid, rpk, uid, val, row);
    DecryptRecovers(S.group, rsk.bsk, rpk.bpk, row.cuid, S.HashToPoint(uid, sid));
    VectorRoundTrip(S, rsk.esk, rpk.epk, val, row.cval);
  }

  // One row per entry of the table, in some order.
  ghost predicate IsPrepared<P(!new)>(S: Suite<P>, sid: Bytes, rpk: PublicKeys<P>, table: TablePlain,
    rows: seq<EncRow<P>>) {
    exists uids: seq<Bytes> :: NoDuplicates(uids) && PreparesInOrder(S, sid, rpk, table, uids, rows)
  }

  ghost predicate PreparesInOrder<P(!new)>(S: Suite<P>, sid: Bytes, rpk: PublicKeys<P>, table: TablePlain,
    uids: seq<Bytes>, rows: seq<EncRow<P>>) {
    && Elements(uids) == table.Keys
    && |rows| == |uids|
    && forall j :: 0 <= j < |uids| ==> uids[j] in table && IsProcessed(S, sid, rpk, uids[j], table[uids[j]], rows[j])
  }

  ghost predicate Embeddable<P(!new)>(S: Suite<P>, table: TablePlain) {
    forall uid :: uid in table ==> ValuePoints(S, table[uid]).Some?
  }

  // The state that the feeder, the workers and the closing goroutine of PrepareStream share.
  datatype Pipeline<P> = Pipeline(
    fed: nat, rowsClosed: bool,                   // the rows channel
    taken: nat, idle: nat, busy: multiset<Bytes>, // the workers, and the uids they work on
    finished: nat, aborted: multiset<Bytes>,      // workers that called Done, and that returned without
    out: seq<EncRow<P>>, outClosed: bool)         // the output channel
  {
    // Workers that have not called Done.
    function WaitGroup(): nat { idle + |busy| + |aborted| }

    predicate Enabled(order: seq<Bytes>) {
      || fed < |order|
      || !rowsClosed
      || (idle > 0 && (taken < fed || rowsClosed))
      || |busy| > 0
      || (rowsClosed && WaitGroup() == 0 && !outClosed)
    }

    // Bounds the number of steps that are left.
    ghost function Remaining(order: seq<Bytes>): int {
      |order| - fed + 3 * (|order| - taken) + 2 * |busy| + idle
      + (if rowsClosed then 0 else 1) + (if outClosed then 0 else 1)
    }

    function Take(order: seq<Bytes>): Pipeline<P>
      requires idle > 0 && taken < |order|
    {
      this.(taken := taken + 1, idle := idle - 1, busy := busy + multiset{order[taken]})
    }

    function Emit(uid: Bytes, row: EncRow<P>): Pipeline<P> {
      this.(busy := busy - multiset{uid}, idle := idle + 1, out := out + [row])
    }

    function Abort(uid: Bytes): Pipeline<P> {
      this.(busy := busy - multiset{uid}, aborted := aborted + multiset{uid})
    }

    function Finish(): Pipeline<P>
      requires idle > 0
    {
      this.(idle := idle - 1, finished := finished + 1)
    }
  }

  class DataSource<P(!new)> {
    const S: Suite<P>
    const sid: Bytes
    const rpk: PublicKeys<P>

    constructor (S: Suite<P>, sid: Bytes, rpk: PublicKeys<P>)
      ensures this.S == S && this.sid == sid && this.rpk == rpk
    {
      this.S, this.sid, this.rpk := S, sid, rpk;
    }

    // processRow, with its draws
    method ProcessRow(uid: Bytes, val: Bytes, r: nat, rs: seq<nat>) returns (row: Option<EncRow<P>>)
      requires S.Laws() && |rs| == |val| / 30 + 1
      ensures row.Some? <==> ValuePoints(S, val).Some?
      ensures row == ProcessedRow(S, sid, rpk, uid, val, r, rs)
    {
      var cuid := OPRFBlind(S, rpk.bpk, uid, sid, r);
      var cval := PKEEncryptVector(S, rpk.epk, val, rs);
      if cval.None? {
        return None;
      }
      return Some(EncRow(cuid, cval.value));
    }

    method ProcessAfresh(uid: Bytes, val: Bytes) returns (row: Option<EncRow<P>>)
      requires S.Laws()
      ensures row.Some? <==> ValuePoints(S, val).Some?
      ensures row.Some? ==> IsProcessed(S, sid, rpk, uid, val, row.value)
    {
      var r: nat :| true;
      var rs := RandomScalars(|val| / 30 + 1);
      row := ProcessRow(uid, val, r, rs);
    }

    // The rows taken are being worked on, have been emitted, or made a worker abort.
    ghost predicate Conserved(order: seq<Bytes>, n: nat, p: Pipeline<P>, processed: seq<Bytes>) {
      && p.taken <= p.fed <= |order|
      && (p.rowsClosed ==> p.fed == |order|)
      && multiset(processed) + p.busy + p.aborted == multiset(order[..p.taken])
      && n == p.idle + |p.busy| + p.finished + |p.aborted|
      && (p.finished > 0 ==> p.rowsClosed && p.taken == |order|)
      && (p.outClosed ==> p.WaitGroup() == 0)
    }

    // The rows emitted are encryptions of the entries processed.
    ghost predicate Faithful(table: TablePlain, p: Pipeline<P>, processed: seq<Bytes>) {
      && |processed| == |p.out|
      && (forall j :: 0 <= j < |processed| ==>
          processed[j] in table && IsProcessed(S, sid, rpk, processed[j], table[processed[j]], p.out[j]))
      && (forall uid :: uid in p.aborted ==> uid in table && ValuePoints(S, table[uid]).None?)
    }

    // Each step of the feeder and of the closing goroutine keeps the invariant.
    lemma FeederSteps(order: seq<Bytes>, n: nat, p: Pipeline<P>, processed: seq<Bytes>)
      requires Conserved(order, n, p, processed)
      ensures p.fed < |order| ==> Conserved(order, n, p.(fed := p.fed + 1), processed)
      ensures p.fed == |order| ==> Conserved(order, n, p.(rowsClosed := true), processed)
      ensures p.rowsClosed && p.WaitGroup() == 0 ==> Conserved(order, n, p.(outClosed := true), processed)
    {
    }

    // So does each step of a worker.
    lemma WorkerTakes(order: seq<Bytes>, n: nat, p: Pipeline<P>, processed: seq<Bytes>)
      requires Conserved(order, n, p, processed) && p.idle > 0
      ensures p.taken < p.fed ==>
        Conserved(order, n, p.Take(order), processed) && p.Take(order).Remaining(order) < p.Remaining(order)
      ensures p.rowsClosed && p.taken == p.fed ==>
        Conserved(order, n, p.Finish(), processed) && p.Finish().Remaining(order) < p.Remaining(order)
    {
      if p.taken < p.fed {
        assert order[..p.taken + 1] == order[..p.taken] + [order[p.taken]];
      }
    }

    lemma WorkerEmits(table: TablePlain, order: seq<Bytes>, n: nat, p: Pipeline<P>, processed: seq<Bytes>, uid: Bytes,
      row: EncRow<P>)
      requires Conserved(order, n, p, processed) && Faithful(table, p, processed) && uid in p.busy
      requires uid in table && IsProcessed(S, sid, rpk, uid, table[uid], row)
      ensures Conserved(order, n, p.Emit(uid, row), processed + [uid])
      ensures Faithful(table, p.Emit(uid, row), processed + [uid])
      ensures p.Emit(uid, row).Remaining(order) < p.Remaining(order)
    {
      assert |p.Emit(uid, row).busy| == |p.busy| - 1;
    }

    lemma WorkerAborts(table: TablePlain, order: seq<Bytes>, n: nat, p: Pipeline<P>, processed: seq<Bytes>, uid: Bytes)
      requires Conserved(order, n, p, processed) && Faithful(table, p, processed) && uid in p.busy
      requires uid in table && ValuePoints(S, table[uid]).None?
      ensures Conserved(order, n, p.Abort(uid), processed)
      ensures Faithful(table, p.Abort(uid), processed)
      ensures p.Abort(uid).Remaining(order) < p.Remaining(order)
    {
      assert |p.Abort(uid).busy| == |p.busy| - 1;
    }

    // The goroutines run in any interleaving until none can move. The result is the content
    // of the output channel, and whether it was closed.
    method PrepareStream(table: TablePlain, n: nat) returns (out: seq<EncRow<P>>, closed: bool)
      requires S.Laws() && n >= 1
      ensures closed <==> Embeddable(S, table)
      ensures closed ==> IsPrepared(S, sid, rpk, table, out) && |out| == |table|
    {
      var order := ShuffledUids(table);
      var p := Pipeline(0, false, 0, n, multiset{}, 0, multiset{}, [], false);
      ghost var processed: seq<Bytes> := [];
      while p.Enabled(order)
        invariant Conserved(order, n, p, processed)
        invariant Faithful(table, p, processed)
        decreases p.Remaining(order)
      {
        FeederSteps(order, n, p, processed);
        if
        case p.fed < |order| =>
          p := p.(fed := p.fed + 1);
        case p.fed == |order| && !p.rowsClosed =>
          p := p.(rowsClosed := true);
        case p.idle > 0 && p.taken < p.fed =>
          WorkerTakes(order, n, p, processed);
          p := p.Take(order);
        case |p.busy| > 0 =>
          var uid :| uid in p.busy;
          InTable(table, order, n, p, processed, uid);
          var row := ProcessAfresh(uid, table[uid]);
          if row.None? {
            WorkerAborts(table, order, n, p, processed, uid);
            p := p.Abort(uid);
          } else {
            WorkerEmits(table, order, n, p, processed, uid, row.value);
            p := p.Emit(uid, row.value);
            processed := processed + [uid];
          }
        case p.idle > 0 && p.rowsClosed && p.taken == p.fed =>
          WorkerTakes(order, n, p, processed);
          p := p.Finish();
        case p.rowsClosed && p.WaitGroup() == 0 && !p.outClosed =>
          p := p.(outClosed := true);
      }
      Drained(table, order, n, p, processed);
      return p.out, p.outClosed;
    }

    // The order in which the feeder sends the rows: any order of ranging, shuffled.
    method ShuffledUids(table: TablePlain) returns (order: seq<Bytes>)
      ensures NoDuplicates(order) && Elements(order) == table.Keys
    {
      order := [];
      var left := table.Keys;
      while left != {}
        invariant left <= table.Keys && NoDuplicates(order) && Elements(order) == table.Keys - left
      {
        var uid :| uid in left;
        assert uid !in Elements(order);
        assert Elements(order + [uid]) == Elements(order) + {uid};
        order := order + [uid];
        left := left - {uid};
      }
    }

    lemma InTable(table: TablePlain, order: seq<Bytes>, n: nat, p: Pipeline<P>, processed: seq<Bytes>, uid: Bytes)
      requires Elements(order) == table.Keys && Conserved(order, n, p, processed) && uid in p.busy
      ensures uid in table
    {
      assert uid in multiset(order[..p.taken]);
      assert uid in Elements(order);
    }

    // When nothing can move, either the output is closed and complete, or a worker has aborted.
    lemma Drained(table: TablePlain, order: seq<Bytes>, n: nat, p: Pipeline<P>, processed: seq<Bytes>)
      requires n >= 1 && NoDuplicates(order) && Elements(order) == table.Keys
      requires Conserved(order, n, p, processed) && Faithful(table, p, processed) && !p.Enabled(order)
      ensures p.outClosed <==> Embeddable(S, table)
      ensures p.outClosed ==> IsPrepared(S, sid, rpk, table, p.out) && |p.out| == |table|
    {
      if p.outClosed {
        assert order[..p.taken] == order;
        MultisetKeepsNoDuplicates(order, processed);
        ElementsCardinality(processed);
        assert PreparesInOrder(S, sid, rpk, table, processed, p.out);
        forall uid | uid in table
          ensures ValuePoints(S, table[uid]).Some?
        {
          assert uid in Elements(processed);
          var j :| 0 <= j < |processed| && processed[j] == uid;
          ProcessedMeans(S, sid, rpk, uid, table[uid], p.out[j]);
        }
      } else {
        var uid :| uid in p.aborted;
      }
    }

    // The rpk argument is not used: rows are encrypted under the key given at construction.
    // None stands for a call that never returns, its range over an unclosed channel blocking.
    method Prepare(rpk: PublicKeys<P>, table: TablePlain, n: nat) returns (r: Option<seq<EncRow<P>>>)
      requires S.Laws() && n >= 1
      ensures r.Some? <==> Embeddable(S, table)
      ensures r.Some? ==> IsPrepared(S, sid, this.rpk, table, r.value)
    {
      var encRows, closed := PrepareStream(table, n);
      if !closed {
        return None;
      }
      r := Collect(encRows, |table|);
    }

    // The loop of Prepare: a row too many is out of range, a row too few is an error.
    method Collect(encRows: seq<EncRow<P>>, size: nat) returns (r: Option<seq<EncRow<P>>>)
      ensures r == if |encRows| == size then Some(encRows) else None
    {
      var prepared := new Option<EncRow<P>>[size](_ => None);
      var i := 0;
      while i < |encRows|
        invariant i <= |encRows| && i <= size
        invariant forall k :: 0 <= k < i ==> prepared[k] == Some(encRows[k])
      {
        if i >= size {
          return None;
        }
        prepared[i] := Some(encRows[i]);
        i := i + 1;
      }
      if i != size {
        return None;
      }
      var rows := seq(size, k requires 0 <= k < prepared.Length
        && prepared[k].Some? reads prepared => prepared[k].value);
      assert rows == encRows;
      return Some(rows);
    }
  }
}
