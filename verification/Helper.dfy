/** The helper, from mppj-go/party_helper.go: key sharing, conversion and shuffling of rows. */
module Helpers {
  import opened DataSources
  import opened ElGamal
  import opened Groups
  import opened Messages
  import opened Octets
  import opened Options
  import opened Permutations
  import opened Serialization
  import opened Suites
  import opened Tables
  import opened Vectors
  import opened WorkerPools

  datatype ConvertRowTask<P> = ConvertRowTask(row: EncRow<P>, tableIndex: nat)

  // The helper's secrets: the conversion key, the key shares and the pad key.
  datatype HelperKeys = HelperKeys(convK: nat, padKeyShares: seq<nat>, padKey: nat) {
    // The shares add up to the pad key, modulo the group order.
    predicate Additive(order: nat)
      requires order > 0
    {
      padKey == Sum(padKeyShares) % order
    }
  }

  // The random draws of one ConvertRow call.
  datatype Draws = Draws(rNym: nat, ephemeral: nat, rValues: seq<nat>, rKey: nat, rHint: nat)

  // ConvertRow and blindAndHint. An index without a key share is out of range.
  function ConvertedRow<P(!new)>(S: Suite<P>, sid: Bytes, keys: HelperKeys, rpk: PublicKeys<P>,
    task: ConvertRowTask<P>, d: Draws): Option<EncRowWithHint<P>>
    requires |d.rValues| == |task.row.cval|
  {
    if task.tableIndex >= |keys.padKeyShares| then None else
      var G := S.group;
      var joinid := OPRFEval(G, keys.convK, rpk.bpk, task.row.cuid, d.rNym);
      var rp := G.BaseExp(d.ephemeral);
      var cts := ReRandAll(G, rpk.epk, task.row.cval, d.rValues);
      var ad :- SealedPayload(S, KeyFromPoint(S, rp, sid), task.tableIndex, cts);
      var blindkey := MulMessage(G, OPRFEval(G, keys.padKey, rpk.bpk, joinid, d.rKey), rp);
      var hint := OPRFEval(G, keys.padKeyShares[task.tableIndex], rpk.bpk, joinid, d.rHint);
      Some(EncRowWithHint(joinid, ad, blindkey, hint))
  }

  // out is a conversion of the task, for some draws.
  ghost predicate IsConverted<P(!new)>(S: Suite<P>, sid: Bytes, keys: HelperKeys, rpk: PublicKeys<P>,
    task: ConvertRowTask<P>, out: EncRowWithHint<P>) {
    exists d: Draws :: |d.rValues| == |task.row.cval| && ConvertedRow(S, sid, keys, rpk, task, d) == Some(out)
  }

  // What a converted row carries: the pseudonym nym under the receiver's blinding key, the
  // ephemeral point e hidden by nym^padKey, this table's share of that mask, and, sealed under
  // e, the table index and fresh encryptions of the value's points.
  ghost predicate Carries<P(!new)>(S: Suite<P>, sid: Bytes, keys: HelperKeys, rpk: PublicKeys<P>,
    out: EncRowWithHint<P>,
    nym: P, tindex: nat, ms: seq<P>, e: P, cts: seq<Ciphertext<P>>)
  {
    && tindex < |keys.padKeyShares|
    && Encrypts(S.group, rpk.bpk, out.cnyme, nym)
    && Encrypts(S.group, rpk.bpk, out.cvalKey, S.group.Mul(S.group.Exp(nym, keys.padKey), e))
    && Encrypts(S.group, rpk.bpk, out.chint, S.group.Exp(nym, keys.padKeyShares[tindex]))
    && Some(out.cval) == SealedPayload(S, KeyFromPoint(S, e, sid), tindex, cts)
    && EncryptsAll(S.group, rpk.epk, cts, ms)
  }

  lemma DrawsCarry<P(!new)>(S: Suite<P>, sid: Bytes, keys: HelperKeys, rpk: PublicKeys<P>, task: ConvertRowTask<P>,
    d: Draws, out: EncRowWithHint<P>, h: P, ms: seq<P>)
    requires S.Laws() && |d.rValues| == |task.row.cval| && ConvertedRow(S, sid, keys, rpk, task, d) == Some(out)
    requires Encrypts(S.group, rpk.bpk, task.row.cuid, h) && EncryptsAll(S.group, rpk.epk, task.row.cval, ms)
    ensures Carries(S, sid, keys, rpk, out, S.group.Exp(h, keys.convK), task.tableIndex, ms,
      S.group.BaseExp(d.ephemeral), ReRandAll(S.group, rpk.epk, task.row.cval, d.rValues))
  {
    var G := S.group;
    var nym, e := G.Exp(h, keys.convK), G.BaseExp(d.ephemeral);
    ReRandKeepsAll(G, rpk.epk, task.row.cval, ms, d.rValues);
    EvalRaisesMessage(G, keys.convK, rpk.bpk, task.row.cuid, h, d.rNym);
    EvalRaisesMessage(G, keys.padKey, rpk.bpk, out.cnyme, nym, d.rKey);
    MulMultipliesMessage(G, rpk.bpk, OPRFEval(G, keys.padKey, rpk.bpk, out.cnyme, d.rKey), G.Exp(nym, keys.padKey), e);
    EvalRaisesMessage(G, keys.padKeyShares[task.tableIndex], rpk.bpk, out.cnyme, nym, d.rHint);
  }

  lemma ConvertedCarries<P(!new)>(S: Suite<P>, sid: Bytes, keys: HelperKeys, rpk: PublicKeys<P>,
    task: ConvertRowTask<P>,
    out: EncRowWithHint<P>, h: P, ms: seq<P>) returns (e: P, cts: seq<Ciphertext<P>>)
    requires S.Laws() && IsConverted(S, sid, keys, rpk, task, out)
    requires Encrypts(S.group, rpk.bpk, task.row.cuid, h) && EncryptsAll(S.group, rpk.epk, task.row.cval, ms)
    ensures Carries(S, sid, keys, rpk, out, S.group.Exp(h, keys.convK), task.tableIndex, ms, e, cts)
  {
    var d: Draws :| |d.rValues| == |task.row.cval| && ConvertedRow(S, sid, keys, rpk, task, d) == Some(out);
    DrawsCarry(S, sid, keys, rpk, task, d, out, h, ms);
    e, cts := S.group.BaseExp(d.ephemeral), ReRandAll(S.group, rpk.epk, task.row.cval, d.rValues);
  }

  // ----- The conversion pool -----

  // order lists the tasks as they were stored: the j-th of them went to slot rowPerm[j], and
  // no other slot was written.
  ghost predicate StoredInOrder<P(!new)>(S: Suite<P>, sid: Bytes, keys: HelperKeys, rpk: PublicKeys<P>,
    rowPerm: seq<nat>,
    tasks: seq<ConvertRowTask<P>>, order: seq<nat>, res: seq<Option<EncRowWithHint<P>>>)
  {
    && |res| == |rowPerm| >= |order|
    && (forall j :: 0 <= j < |order| ==>
        && order[j] < |tasks| && rowPerm[j] < |res| && res[rowPerm[j]].Some?
        && IsConverted(S, sid, keys, rpk, tasks[order[j]], res[rowPerm[j]].value))
    && (forall j :: |order| <= j < |rowPerm| ==> rowPerm[j] < |res| && res[rowPerm[j]].None?)
  }

  // Every task is converted into a slot of its own, in the order of some permutation.
  ghost predicate IsConvertedTable<P(!new)>(S: Suite<P>, sid: Bytes, keys: HelperKeys, rpk: PublicKeys<P>,
    rowPerm: seq<nat>,
    tasks: seq<ConvertRowTask<P>>, res: seq<Option<EncRowWithHint<P>>>)
  {
    exists order: seq<nat> :: IsPermutation(order, |tasks|)
      && StoredInOrder(S, sid, keys, rpk, rowPerm, tasks, order, res)
  }

  // Storing a converted row in the next slot does not touch the slots filled before.
  lemma NextSlot<P(!new)>(S: Suite<P>, sid: Bytes, keys: HelperKeys, rpk: PublicKeys<P>, rowPerm: seq<nat>,
    tasks: seq<ConvertRowTask<P>>, stored: seq<nat>, id: nat, res: seq<Option<EncRowWithHint<P>>>,
    row: EncRowWithHint<P>)
    requires IsPermutation(rowPerm, |rowPerm|) && |stored| < |rowPerm| && id < |tasks|
    requires StoredInOrder(S, sid, keys, rpk, rowPerm, tasks, stored, res)
    requires IsConverted(S, sid, keys, rpk, tasks[id], row)
    ensures StoredInOrder(S, sid, keys, rpk, rowPerm, tasks, stored + [id], res[rowPerm[|stored|] := Some(row)])
  {
    var slot := rowPerm[|stored|];
    forall j | 0 <= j < |rowPerm| && j != |stored|
      ensures rowPerm[j] != slot
    {
    }
  }

  // A row with a key share can be converted.
  lemma Convertible<P(!new)>(S: Suite<P>, sid: Bytes, keys: HelperKeys, rpk: PublicKeys<P>, task: ConvertRowTask<P>,
    d: Draws)
    returns (row: EncRowWithHint<P>)
    requires S.Laws() && task.tableIndex < |keys.padKeyShares| && |d.rValues| == |task.row.cval|
    ensures ConvertedRow(S, sid, keys, rpk, task, d) == Some(row)
  {
    var cts := ReRandAll(S.group, rpk.epk, task.row.cval, d.rValues);
    PayloadRoundTrip(S, S.group.BaseExp(d.ephemeral), sid, task.tableIndex, cts);
    row := ConvertedRow(S, sid, keys, rpk, task, d).value;
  }

  // The first n tasks, converted with some draws into the first slots.
  lemma {:induction false} TablePrefixExists<P(!new)>(S: Suite<P>, sid: Bytes, keys: HelperKeys, rpk: PublicKeys<P>,
    rowPerm: seq<nat>, tasks: seq<ConvertRowTask<P>>, n: nat) returns (res: seq<Option<EncRowWithHint<P>>>)
    requires S.Laws() && IsPermutation(rowPerm, |rowPerm|) && n <= |tasks| <= |rowPerm|
    requires forall i :: 0 <= i < |tasks| ==> tasks[i].tableIndex < |keys.padKeyShares|
    ensures StoredInOrder(S, sid, keys, rpk, rowPerm, tasks, Range(n), res)
  {
    if n == 0 {
      res := seq(|rowPerm|, _ => None);
    } else {
      var before := TablePrefixExists(S, sid, keys, rpk, rowPerm, tasks, n - 1);
      var d := Draws(0, 0, seq(|tasks[n - 1].row.cval|, _ => 0), 0, 0);
      var row := Convertible(S, sid, keys, rpk, tasks[n - 1], d);
      NextSlot(S, sid, keys, rpk, rowPerm, tasks, Range(n - 1), n - 1, before, row);
      assert Range(n) == Range(n - 1) + [n - 1];
      res := before[rowPerm[n - 1] := Some(row)];
    }
  }

  // Tasks with key shares have a converted table exactly if there are not more of them than slots.
  lemma ConvertedTableExactly<P(!new)>(S: Suite<P>, sid: Bytes, keys: HelperKeys, rpk: PublicKeys<P>,
    rowPerm: seq<nat>, tasks: seq<ConvertRowTask<P>>)
    requires S.Laws() && IsPermutation(rowPerm, |rowPerm|)
    requires forall i :: 0 <= i < |tasks| ==> tasks[i].tableIndex < |keys.padKeyShares|
    ensures (exists res :: IsConvertedTable(S, sid, keys, rpk, rowPerm, tasks, res)) <==> |tasks| <= |rowPerm|
  {
    if |tasks| <= |rowPerm| {
      var res := TablePrefixExists(S, sid, keys, rpk, rowPerm, tasks, |tasks|);
      assert IsPermutation(Range(|tasks|), |tasks|);
      assert IsConvertedTable(S, sid, keys, rpk, rowPerm, tasks, res);
    }
    if res :| IsConvertedTable(S, sid, keys, rpk, rowPerm, tasks, res) {
      AllSlotsExactly(S, sid, keys, rpk, rowPerm, tasks, res);
    }
  }

  lemma AllSlotsFilled<P(!new)>(S: Suite<P>, sid: Bytes, keys: HelperKeys, rpk: PublicKeys<P>, rowPerm: seq<nat>,
    tasks: seq<ConvertRowTask<P>>, order: seq<nat>, res: seq<Option<EncRowWithHint<P>>>)
    requires StoredInOrder(S, sid, keys, rpk, rowPerm, tasks, order, res)
    ensures AllSome(res) ==> |order| == |rowPerm|
  {
    if |order| < |rowPerm| {
      assert res[rowPerm[|order|]].None?;
    }
  }

  // Every slot is filled exactly if there are as many rows as slots.
  lemma AllSlotsExactly<P(!new)>(S: Suite<P>, sid: Bytes, keys: HelperKeys, rpk: PublicKeys<P>, rowPerm: seq<nat>,
    tasks: seq<ConvertRowTask<P>>, res: seq<Option<EncRowWithHint<P>>>)
    requires IsPermutation(rowPerm, |rowPerm|) && IsConvertedTable(S, sid, keys, rpk, rowPerm, tasks, res)
    ensures |tasks| <= |rowPerm| == |res|
    ensures AllSome(res) <==> |tasks| == |rowPerm|
  {
    var order: seq<nat> :|
      IsPermutation(order, |tasks|) && StoredInOrder(S, sid, keys, rpk, rowPerm, tasks, order, res);
    AllSlotsFilled(S, sid, keys, rpk, rowPerm, tasks, order, res);
    if |tasks| == |rowPerm| {
      var inverse := InversePermutation(rowPerm);
      forall k | 0 <= k < |res|
        ensures res[k].Some?
      {
        assert rowPerm[inverse[k]] == k;
      }
    }
  }

  class Helper<P(!new)> {
    const S: Suite<P>
    var sid: Bytes
    var sourceIndices: map<SourceID, nat>
    var convK: nat
    var padKeyShares: seq<nat>
    var padKey: nat
    var rowPerm: seq<nat>

    function Keys(): HelperKeys
      reads this
    {
      HelperKeys(convK, padKeyShares, padKey)
    }

    ghost predicate Valid()
      reads this
    {
      && S.Laws()
      && Keys().Additive(S.group.order)
      && IsPermutation(rowPerm, |rowPerm|)
    }

    // NewHelper, which draws the conversion key and the shares; of equal source ids the last one
    // gives the index.
    constructor (S: Suite<P>, sid: Bytes, sources: seq<SourceID>, nRows: nat, k: nat, shares: seq<nat>)
      requires S.Laws() && |shares| == |sources|
      ensures Valid() && this.S == S && this.sid == sid
      ensures convK == k && padKeyShares == shares && |rowPerm| == nRows * |sources|
      ensures forall id :: id in sourceIndices <==> id in sources
      ensures NoDuplicates(sources) ==> forall i :: 0 <= i < |sources| ==> sourceIndices[sources[i]] == i
    {
      this.S, this.sid := S, sid;
      sourceIndices, convK, padKeyShares, padKey, rowPerm := map[], 0, [], 0, [];
      new;
      for i := 0 to |sources|
        invariant this.S == S && this.sid == sid
        invariant forall id :: id in sourceIndices <==> id in sources[..i]
        invariant NoDuplicates(sources) ==> forall k :: 0 <= k < i ==> sourceIndices[sources[k]] == k
      {
        sourceIndices := sourceIndices[sources[i] := i];
      }
      convK := k;
      GenNonces(shares);
      var shuffle: seq<nat> := RandPerm(nRows * |sources|);
      rowPerm := shuffle;
    }

    // genNonces, with its draws
    method GenNonces(draws: seq<nat>)
      requires S.Laws()
      modifies this`padKeyShares, this`padKey
      ensures padKeyShares == draws && Keys().Additive(S.group.order)
    {
      var nonceSum: nat := 0;
      NoShares(S.group.order);
      var nonces: seq<nat> := [];
      for i := 0 to |draws|
        invariant nonces == draws[..i] && HelperKeys(0, nonces, nonceSum).Additive(S.group.order)
      {
        AddShare(S.group, nonces, draws[i]);
        nonces := nonces + [draws[i]];
        nonceSum := S.group.ScalarAdd(nonceSum, draws[i]);
      }
      padKeyShares, padKey := nonces, nonceSum;
    }

    // blindAndHint
    method BlindAndHint(rpk: PublicKeys<P>, joinid: Ciphertext<P>, value: seq<Ciphertext<P>>, tindex: nat, d: Draws)
      returns (r: Option<(Bytes, Ciphertext<P>, Ciphertext<P>)>)
      requires S.Laws() && |d.rValues| == |value| && tindex < |padKeyShares|
      ensures r.Some?
      ensures var rp := S.group.BaseExp(d.ephemeral);
        && SealedPayload(S, KeyFromPoint(S, rp, sid), tindex, ReRandAll(S.group, rpk.epk, value, d.rValues))
          == Some(r.value.0)
        && r.value.1 == MulMessage(S.group, OPRFEval(S.group, padKey, rpk.bpk, joinid, d.rKey), rp)
        && r.value.2 == OPRFEval(S.group, padKeyShares[tindex], rpk.bpk, joinid, d.rHint)
    {
      var rp := S.group.BaseExp(d.ephemeral);
      var key := KeyFromPoint(S, rp, sid);
      var rerandomized := ReRandVector(S.group, rpk.epk, value, d.rValues);
      var serialized := SerializeCiphertexts(S, rerandomized);
      assert S.KeyAt(S.Marshal(rp), sid);
      var ad := Ctr(S, key, [tindex % 256] + serialized);
      var blindkey := OPRFEval(S.group, padKey, rpk.bpk, joinid, d.rKey);
      blindkey := blindkey.(c1 := S.group.Mul(blindkey.c1, rp));
      var hint := OPRFEval(S.group, padKeyShares[tindex], rpk.bpk, joinid, d.rHint);
      return Some((ad.value, blindkey, hint));
    }

    // ConvertRow, with its draws
    method ConvertRow(rpk: PublicKeys<P>, r: EncRow<P>, rid: nat, d: Draws) returns (out: Option<EncRowWithHint<P>>)
      requires S.Laws() && |d.rValues| == |r.cval|
      ensures out.Some? <==> rid < |padKeyShares|
      ensures out == ConvertedRow(S, sid, Keys(), rpk, ConvertRowTask(r, rid), d)
    {
      if rid >= |padKeyShares| {
        return None;
      }
      var joinid := OPRFEval(S.group, convK, rpk.bpk, r.cuid, d.rNym);
      var parts := BlindAndHint(rpk, joinid, r.cval, rid, d);
      var (ad, blindedkey, hint) := parts.value;
      out := Some(EncRowWithHint(joinid, ad, blindedkey, hint));
    }

    // The workers run in any interleaving. None stands for the panic of a worker that holds a
    // row for which there is no slot left, or no key share.
    method ConvertTablesStream(rpk: PublicKeys<P>, tasks: seq<ConvertRowTask<P>>, n: nat)
      returns (r: Option<seq<Option<EncRowWithHint<P>>>>)
      requires Valid() && n >= 1
      ensures r.Some? <==> |tasks| <= |rowPerm| && forall i :: 0 <= i < |tasks| ==> tasks[i].tableIndex < |padKeyShares|
      ensures r.Some? ==> IsConvertedTable(S, sid, Keys(), rpk, rowPerm, tasks, r.value)
    {
      var res: array<Option<EncRowWithHint<P>>> := new Option<EncRowWithHint<P>>[|rowPerm|](_ => None);
      var p := Pool(0, n, {}, 0, 0);
      ghost var stored: seq<nat> := [];
      while p.idle > 0 || p.busy != {}
        invariant p.Conserved(|tasks|, n, stored)
        invariant StoredInOrder(S, sid, Keys(), rpk, rowPerm, tasks, stored, res[..])
        decreases p.Remaining(|tasks|)
      {
        if
        case p.idle > 0 && p.next < |tasks| =>
          p.ReceiveConserves(|tasks|, n, stored);
          p := p.Receive();
        case p.idle > 0 && p.next == |tasks| =>
          p.ReceiveConserves(|tasks|, n, stored);
          p := p.Exit();
        case p.busy != {} =>
          var id :| id in p.busy;
          p.CompleteConserves(|tasks|, n, stored, id);
          p.DoneBounded(|tasks|, n, stored);
          var ok := ConvertAndStore(rpk, tasks, id, res, p.completed, stored);
          if !ok {
            return None;
          }
          p := p.Complete(id);
          stored := stored + [id];
      }
      p.AllCompleted(|tasks|, n, stored);
      AllShares(rpk, tasks, stored, res[..]);
      return Some(res[..]);
    }

    // A worker converts its row and, under the lock, stores it in the next slot.
    method ConvertAndStore(rpk: PublicKeys<P>, tasks: seq<ConvertRowTask<P>>, id: nat,
      res: array<Option<EncRowWithHint<P>>>, permIndex: nat, ghost stored: seq<nat>) returns (ok: bool)
      requires Valid() && id < |tasks| && permIndex == |stored|
      requires StoredInOrder(S, sid, Keys(), rpk, rowPerm, tasks, stored, res[..])
      modifies res
      ensures ok <==> tasks[id].tableIndex < |padKeyShares| && permIndex < |rowPerm|
      ensures ok ==> StoredInOrder(S, sid, Keys(), rpk, rowPerm, tasks, stored + [id], res[..])
    {
      var d: Draws := DrawAll(|tasks[id].row.cval|);
      var convRow := ConvertRow(rpk, tasks[id].row, tasks[id].tableIndex, d);
      if convRow.None? || permIndex >= |rowPerm| {
        return false;
      }
      NextSlot(S, sid, Keys(), rpk, rowPerm, tasks, stored, id, res[..], convRow.value);
      res[rowPerm[permIndex]] := convRow;
      return true;
    }

    lemma AllShares(rpk: PublicKeys<P>, tasks: seq<ConvertRowTask<P>>, stored: seq<nat>,
      res: seq<Option<EncRowWithHint<P>>>)
      requires IsPermutation(stored, |tasks|) && StoredInOrder(S, sid, Keys(), rpk, rowPerm, tasks, stored, res)
      ensures forall i :: 0 <= i < |tasks| ==> tasks[i].tableIndex < |padKeyShares|
    {
      PermutationCovers(stored, |tasks|);
      forall i: nat | i < |tasks|
        ensures tasks[i].tableIndex < |padKeyShares|
      {
        assert i in stored;
        var j :| 0 <= j < |stored| && stored[j] == i;
      }
    }

    // A possible result for the tables: their rows, fed in some order of the tables, are
    // converted. It fails if they are too many, or a source has no key share.
    ghost predicate IsConversion(rpk: PublicKeys<P>, tables: map<SourceID, seq<EncRow<P>>>,
      r: Option<seq<Option<EncRowWithHint<P>>>>)
      reads this
    {
      exists tasks: seq<ConvertRowTask<P>> ::
        && IsFeed(tables, sourceIndices, tasks)
        && (r.Some? <==> |tasks| <= |rowPerm| && forall i :: 0 <= i < |tasks| ==> tasks[i].tableIndex < |padKeyShares|)
        && (r.Some? ==> IsConvertedTable(S, sid, Keys(), rpk, rowPerm, tasks, r.value))
    }

    // Convert feeds the rows of the tables, which are ranged over in any order. A source that
    // is not listed has index zero.
    method Convert(rpk: PublicKeys<P>, tables: map<SourceID, seq<EncRow<P>>>, n: nat)
      returns (r: Option<seq<Option<EncRowWithHint<P>>>>)
      requires Valid() && n >= 1
      ensures IsConversion(rpk, tables, r)
    {
      var tasks := FeedTables(tables);
      r := ConvertTablesStream(rpk, tasks, n);
    }

    // The feeding goroutine of Convert.
    method FeedTables(tables: map<SourceID, seq<EncRow<P>>>) returns (tasks: seq<ConvertRowTask<P>>)
      ensures IsFeed(tables, sourceIndices, tasks)
    {
      tasks := [];
      var left := tables.Keys;
      ghost var ids: seq<SourceID> := [];
      while left != {}
        invariant left <= tables.Keys && NoDuplicates(ids) && Elements(ids) == tables.Keys - left
        invariant tasks == FeedTasks(tables, sourceIndices, ids)
      {
        var id :| id in left;
        var fed := FeedTable(tables[id], IndexOrZero(sourceIndices, id));
        assert (ids + [id])[..|ids|] == ids;
        tasks := tasks + fed;
        assert id !in Elements(ids);
        assert Elements(ids + [id]) == Elements(ids) + {id};
        ids := ids + [id];
        left := left - {id};
      }
    }
  }

  method FeedTable<P>(table: seq<EncRow<P>>, tindex: nat) returns (tasks: seq<ConvertRowTask<P>>)
    ensures tasks == TableTasks(table, tindex)
  {
    tasks := [];
    for i := 0 to |table|
      invariant tasks == TableTasks(table[..i], tindex)
    {
      tasks := tasks + [ConvertRowTask(table[i], tindex)];
    }
    assert table[..|table|] == table;
  }

  method RandPerm(n: nat) returns (p: seq<nat>)
    ensures IsPermutation(p, n)
  {
    p := [];
    var left := Indices(n);
    while left != {}
      invariant left <= Indices(n) && NoDuplicates(p) && Elements(p) == Indices(n) - left
    {
      var i :| i in left;
      DrawNext(p, left, i);
      p := p + [i];
      left := left - {i};
    }
    AllIndices(p, n);
  }

  lemma DrawNext(p: seq<nat>, left: set<nat>, i: nat)
    requires NoDuplicates(p) && Elements(p) !! left && i in left
    ensures NoDuplicates(p + [i]) && Elements(p + [i]) == Elements(p) + {i}
  {
    assert i !in Elements(p);
  }

  method DrawAll(values: nat) returns (d: Draws)
    ensures |d.rValues| == values
  {
    var rNym: nat, ephemeral: nat, rKey: nat, rHint: nat :| true;
    var rValues := RandomScalars(values);
    d := Draws(rNym, ephemeral, rValues, rKey, rHint);
  }

  lemma AddShare<P(!new)>(G: Group<P>, shares: seq<nat>, s: nat)
    requires G.order > 0
    ensures G.ScalarAdd(Sum(shares) % G.order, s) == Sum(shares + [s]) % G.order
  {
    SumAppend(shares, s);
    ModAdd(Sum(shares), s, G.order);
  }

  lemma NoShares(m: nat)
    requires m > 0
    ensures Sum([]) % m == 0
  {
  }

  lemma ModAdd(a: nat, b: nat, m: nat)
    requires m > 0
    ensures (a % m + b) % m == (a + b) % m
  {
    var x, y := a % m + b, a + b;
    SameRemainder(x % m, y % m, a / m + x / m - y / m, m) by {
      assert y == m * (a / m) + x && x == m * (x / m) + x % m && y == m * (y / m) + y % m;
      assert m * (a / m + x / m - y / m) == m * (a / m) + m * (x / m) - m * (y / m);
    }
  }

  lemma SameRemainder(r: int, s: int, k: int, m: int)
    requires 0 <= r < m && 0 <= s < m && s - r == m * k
    ensures r == s
  {
    assert k >= 1 ==> m * k >= m;
    assert k <= -1 ==> m * k <= -m;
  }

  function IndexOrZero(sourceIndices: map<SourceID, nat>, id: SourceID): nat {
    if id in sourceIndices then sourceIndices[id] else 0
  }

  function TableTasks<P>(rows: seq<EncRow<P>>, tindex: nat): (r: seq<ConvertRowTask<P>>)
    ensures |r| == |rows|
  {
    seq(|rows|, i requires 0 <= i < |rows| => ConvertRowTask(rows[i], tindex))
  }

  function RowsOf<P>(tables: map<SourceID, seq<EncRow<P>>>, id: SourceID): seq<EncRow<P>> {
    if id in tables then tables[id] else []
  }

  function FeedTasks<P>(tables: map<SourceID, seq<EncRow<P>>>, sourceIndices: map<SourceID, nat>,
    ids: seq<SourceID>): seq<ConvertRowTask<P>>
  {
    if ids == [] then [] else
      var last := ids[|ids| - 1];
      FeedTasks(tables, sourceIndices, ids[..|ids| - 1]) +
        TableTasks(RowsOf(tables, last), IndexOrZero(sourceIndices, last))
  }

  // The tasks of all tables, in some order of the tables.
  ghost predicate IsFeed<P(!new)>(tables: map<SourceID, seq<EncRow<P>>>, sourceIndices: map<SourceID, nat>,
    tasks: seq<ConvertRowTask<P>>) {
    exists ids: seq<SourceID> ::
      NoDuplicates(ids) && Elements(ids) == tables.Keys && tasks == FeedTasks(tables, sourceIndices, ids)
  }

  // The table of a source that is not listed is fed as if it were of the source with index 0.
  lemma {:induction false} UnlistedFedAsFirst<P>(tables: map<SourceID, seq<EncRow<P>>>,
    sourceIndices: map<SourceID, nat>, id: SourceID, ids: seq<SourceID>)
    requires id !in sourceIndices
    ensures FeedTasks(tables, sourceIndices, ids) == FeedTasks(tables, sourceIndices[id := 0], ids)
  {
    if ids != [] {
      UnlistedFedAsFirst(tables, sourceIndices, id, ids[..|ids| - 1]);
    }
  }

  // The rows are shuffled: slot k holds the row that was stored as the j-th, where rowPerm[j] is k.
  lemma SlotsShuffled<P(!new)>(S: Suite<P>, sid: Bytes, keys: HelperKeys, rpk: PublicKeys<P>, rowPerm: seq<nat>,
    tasks: seq<ConvertRowTask<P>>, res: seq<Option<EncRowWithHint<P>>>) returns (order: seq<nat>, inverse: seq<nat>)
    requires IsPermutation(rowPerm, |rowPerm|) && AllSome(res)
    requires IsConvertedTable(S, sid, keys, rpk, rowPerm, tasks, res)
    ensures IsPermutation(order, |tasks|) && |res| == |tasks| == |inverse|
    ensures forall k :: 0 <= k < |res| ==> inverse[k] < |res| && rowPerm[inverse[k]] == k
    ensures forall k :: 0 <= k < |res| ==> IsConverted(S, sid, keys, rpk, tasks[order[inverse[k]]], res[k].value)
  {
    AllSlotsExactly(S, sid, keys, rpk, rowPerm, tasks, res);
    order :| IsPermutation(order, |tasks|) && StoredInOrder(S, sid, keys, rpk, rowPerm, tasks, order, res);
    inverse := InversePermutation(rowPerm);
  }
}
