/** When the receiver completes, as a condition on the random draws: which draws make it panic, and
    that such draws exist for every row. */
module Completion {
  import opened ElGamal
  import opened Embedding
  import opened Groups
  import opened Helpers
  import opened Messages
  import opened Octets
  import opened Options
  import opened Permutations
  import opened Protocol
  import opened Receivers
  import opened Serialization
  import opened Suites
  import opened Tables
  import opened Vectors

  // row is the conversion of the task with the draws d.
  ghost predicate IsDrawn<P(!new)>(s: Session<P>, task: ConvertRowTask<P>, d: Draws, row: EncRowWithHint<P>) {
    |d.rValues| == |task.row.cval| && ConvertedRow(s.S, s.sid, s.keys, s.rpk, task, d) == Some(row)
  }

  // The ciphertexts that blindAndHint seals.
  function Sealed<P(!new)>(s: Session<P>, task: ConvertRowTask<P>, d: Draws): seq<Ciphertext<P>>
    requires |d.rValues| == |task.row.cval|
  {
    ReRandAll(s.S.group, s.rpk.epk, task.row.cval, d.rValues)
  }

  // Row rowPerm[j] of the table is the conversion of task j with the draws j.
  ghost predicate TableDrawn<P(!new)>(s: Session<P>, tasks: seq<ConvertRowTask<P>>, draws: seq<Draws>,
    rowPerm: seq<nat>,
    rows: seq<EncRowWithHint<P>>)
  {
    && |draws| == |rows| == |rowPerm| == |tasks| && IsPermutation(rowPerm, |rowPerm|)
    && forall j :: 0 <= j < |tasks| ==> IsDrawn(s, tasks[j], draws[j], rows[rowPerm[j]])
  }

  lemma DrawsOfRow<P(!new)>(s: Session<P>, task: ConvertRowTask<P>, row: EncRowWithHint<P>) returns (d: Draws)
    requires IsConverted(s.S, s.sid, s.keys, s.rpk, task, row)
    ensures IsDrawn(s, task, d, row)
  {
    d :| |d.rValues| == |task.row.cval| && ConvertedRow(s.S, s.sid, s.keys, s.rpk, task, d) == Some(row);
  }

  // Every full table has been converted with some draws, in the order of storing.
  lemma DrawsOfTable<P(!new)>(s: Session<P>, tasks: seq<ConvertRowTask<P>>, rowPerm: seq<nat>,
    res: seq<Option<EncRowWithHint<P>>>)
    returns (order: seq<nat>, draws: seq<Draws>)
    requires IsPermutation(rowPerm, |rowPerm|) && AllSome(res)
    requires IsConvertedTable(s.S, s.sid, s.keys, s.rpk, rowPerm, tasks, res)
    ensures IsPermutation(order, |tasks|) && TableDrawn(s, Select(tasks, order), draws, rowPerm, Values(res))
  {
    order :| IsPermutation(order, |tasks|) && StoredInOrder(s.S, s.sid, s.keys, s.rpk, rowPerm, tasks, order, res);
    AllSlotsFilled(s.S, s.sid, s.keys, s.rpk, rowPerm, tasks, order, res);
    var stored := Select(Values(res), rowPerm);
    draws := DrawsOfRows(s, Select(tasks, order), stored);
    assert forall j :: 0 <= j < |rowPerm| ==> stored[j] == Values(res)[rowPerm[j]];
  }

  lemma DrawsOfRows<P(!new)>(s: Session<P>, tasks: seq<ConvertRowTask<P>>, rows: seq<EncRowWithHint<P>>)
    returns (draws: seq<Draws>)
    requires |tasks| == |rows|
    requires forall j :: 0 <= j < |rows| ==> IsConverted(s.S, s.sid, s.keys, s.rpk, tasks[j], rows[j])
    ensures |draws| == |rows| && forall j :: 0 <= j < |rows| ==> IsDrawn(s, tasks[j], draws[j], rows[j])
  {
    draws := [];
    while |draws| < |rows|
      invariant |draws| <= |rows|
      invariant forall j :: 0 <= j < |draws| ==> IsDrawn(s, tasks[j], draws[j], rows[j])
    {
      var d := DrawsOfRow(s, tasks[|draws|], rows[|draws|]);
      draws := draws + [d];
    }
  }

  lemma TasksReordered<P(!new)>(s: Session<P>, tasks: seq<ConvertRowTask<P>>, origins: seq<Origin>, order: seq<nat>)
    requires s.TasksFrom(tasks, origins) && IsPermutation(order, |tasks|)
    ensures s.TasksFrom(Select(tasks, order), Select(origins, order))
  {
    s.CoversPermutation(origins, order);
    forall t | 0 <= t < |order|
      ensures s.IsTaskOf(Select(tasks, order)[t], Select(origins, order)[t])
    {
      assert s.IsTaskOf(tasks[order[t]], origins[order[t]]);
    }
  }

  // A row opens exactly if none of the draws for its ciphertexts hits the identity.
  lemma DrawDecides<P(!new)>(s: Session<P>, task: ConvertRowTask<P>, o: Origin, d: Draws, row: EncRowWithHint<P>)
    requires s.Valid() && s.IsTaskOf(task, o) && IsDrawn(s, task, d, row)
    ensures s.RowCarries(row, o)
    ensures s.RowOpens(row, o) <==> AllSerializable(s.S, Sealed(s, task, d))
  {
    s.TaskMeans(task, o);
    var ms := s.PointsOf(s.Value(o)).value;
    DrawsCarry(s.S, s.sid, s.keys, s.rpk, task, d, row, s.S.HashToPoint(o.uid, s.sid), ms);
    s.CarriedOpens(row, o, s.S.group.BaseExp(d.ephemeral), Sealed(s, task, d));
  }

  // The draws of the rows of shared uids avoid the identity.
  ghost predicate DrawsAvoidIdentity<P(!new)>(s: Session<P>, tasks: seq<ConvertRowTask<P>>, origins: seq<Origin>,
    draws: seq<Draws>)
    requires |draws| == |origins| == |tasks|
    requires forall j :: 0 <= j < |tasks| ==> |draws[j].rValues| == |tasks[j].row.cval|
  {
    forall j :: 0 <= j < |tasks| && origins[j].uid in CommonUids(s.tables) ==>
      AllSerializable(s.S, Sealed(s, tasks[j], draws[j]))
  }

  // The receiver completes exactly if all uids have grouping keys, the values of the shared uids
  // are delivered, and the draws for their rows avoid the identity.
  lemma CompletesOnDraws<P(!new)>(s: Session<P>, tasks: seq<ConvertRowTask<P>>, origins: seq<Origin>, draws: seq<Draws>,
    rowPerm: seq<nat>, rows: seq<EncRowWithHint<P>>)
    requires s.Valid() && s.NymInjective() && s.TasksFrom(tasks, origins) && TableDrawn(s, tasks, draws, rowPerm, rows)
    ensures NymsDefined(s.S, s.rsk.bsk, rows) && GroupsOpen(s.S, s.sid, s.sources, s.rsk, rows)
      <==> s.NymsHaveKeys() && s.SharedDelivered() && DrawsAvoidIdentity(s, tasks, origins, draws)
  {
    var placed := PlacedFrom(s, tasks, origins, draws, rowPerm, rows);
    s.CompletesExactly(rows, placed);
  }

  // The rows of the table carry the tables, and the shared ones open exactly on lucky draws.
  lemma PlacedFrom<P(!new)>(s: Session<P>, tasks: seq<ConvertRowTask<P>>, origins: seq<Origin>, draws: seq<Draws>,
    rowPerm: seq<nat>, rows: seq<EncRowWithHint<P>>) returns (placed: seq<Origin>)
    requires s.Valid() && s.TasksFrom(tasks, origins) && TableDrawn(s, tasks, draws, rowPerm, rows)
    ensures s.RowsFrom(rows, placed)
    ensures s.CommonRowsOpen(rows, placed) <==> DrawsAvoidIdentity(s, tasks, origins, draws)
  {
    var inverse := InversePermutation(rowPerm);
    placed := Select(origins, inverse);
    s.CoversPermutation(origins, inverse);
    PlacedOrigins(origins, rowPerm, inverse);
    forall j | 0 <= j < |tasks|
      ensures s.RowCarries(rows[rowPerm[j]], placed[rowPerm[j]])
      ensures s.RowOpens(rows[rowPerm[j]], placed[rowPerm[j]]) <==> AllSerializable(s.S, Sealed(s, tasks[j], draws[j]))
    {
      DrawDecides(s, tasks[j], origins[j], draws[j], rows[rowPerm[j]]);
    }
    PlacedCarry(s, placed, rowPerm, inverse, rows);
    PlacedOpen(s, placed, rowPerm, inverse, rows);
  }

  // Following the slots changes nothing about the rows and their origins.
  lemma PlacedOrigins(origins: seq<Origin>, rowPerm: seq<nat>, inverse: seq<nat>)
    requires |origins| == |rowPerm| && IsPermutation(rowPerm, |rowPerm|) && IsPermutation(inverse, |rowPerm|)
    requires forall k :: 0 <= k < |rowPerm| ==> rowPerm[inverse[k]] == k
    ensures forall j :: 0 <= j < |rowPerm| ==> Select(origins, inverse)[rowPerm[j]] == origins[j]
  {
    forall j | 0 <= j < |rowPerm|
      ensures inverse[rowPerm[j]] == j
    {
      assert rowPerm[inverse[rowPerm[j]]] == rowPerm[j];
    }
  }

  lemma PlacedCarry<P(!new)>(s: Session<P>, placed: seq<Origin>, rowPerm: seq<nat>, inverse: seq<nat>,
    rows: seq<EncRowWithHint<P>>)
    requires |rows| == |placed| == |rowPerm| && IsPermutation(rowPerm, |rows|) && IsPermutation(inverse, |rows|)
    requires forall k :: 0 <= k < |rows| ==> rowPerm[inverse[k]] == k
    requires forall j :: 0 <= j < |rows| ==> s.RowCarries(rows[rowPerm[j]], placed[rowPerm[j]])
    ensures forall k :: 0 <= k < |rows| ==> s.RowCarries(rows[k], placed[k])
  {
    forall k | 0 <= k < |rows|
      ensures s.RowCarries(rows[k], placed[k])
    {
      assert s.RowCarries(rows[rowPerm[inverse[k]]], placed[rowPerm[inverse[k]]]);
    }
  }

  lemma PlacedOpen<P(!new)>(s: Session<P>, placed: seq<Origin>, rowPerm: seq<nat>, inverse: seq<nat>,
    rows: seq<EncRowWithHint<P>>)
    requires |rows| == |placed| == |rowPerm| && IsPermutation(rowPerm, |rows|) && IsPermutation(inverse, |rows|)
    requires forall k :: 0 <= k < |rows| ==> rowPerm[inverse[k]] == k
    ensures s.CommonRowsOpen(rows, placed) <==>
      forall j :: 0 <= j < |rows| ==> OpensIfShared(s, rows, placed, rowPerm[j])
  {
    if forall j :: 0 <= j < |rows| ==> OpensIfShared(s, rows, placed, rowPerm[j]) {
      forall k | 0 <= k < |rows| && placed[k].uid in CommonUids(s.tables)
        ensures s.RowOpens(rows[k], placed[k])
      {
        assert OpensIfShared(s, rows, placed, rowPerm[inverse[k]]);
      }
    }
  }

  ghost predicate OpensIfShared<P(!new)>(s: Session<P>, rows: seq<EncRowWithHint<P>>, origins: seq<Origin>, k: nat)
    requires k < |rows| == |origins|
  {
    origins[k].uid in CommonUids(s.tables) ==> s.RowOpens(rows[k], origins[k])
  }

  // For every row there are draws that hit the identity, and make its payload unreadable: the
  // first re-randomization cancels the randomness of the first ciphertext.
  lemma UnluckyDraw<P(!new)>(s: Session<P>, task: ConvertRowTask<P>, o: Origin) returns (d: Draws,
    row: EncRowWithHint<P>)
    requires s.Valid() && s.IsTaskOf(task, o)
    ensures IsDrawn(s, task, d, row) && !AllSerializable(s.S, Sealed(s, task, d)) && !s.RowOpens(row, o)
  {
    s.TaskMeans(task, o);
    var G, cval := s.S.group, task.row.cval;
    assert Encrypts(G, s.rpk.epk, cval[0], s.PointsOf(s.Value(o)).value[0]);
    var r: nat :| cval[0] == PKEEncrypt(G, s.rpk.epk, s.PointsOf(s.Value(o)).value[0], r);
    G.ScalarLaws(G.gen, r, 0);
    d := Draws(0, 0, seq(|cval|, _ => G.ScalarNeg(r)), 0, 0);
    assert Sealed(s, task, d)[0].c0 == G.one;
    row := CanBeDrawn(s, task, d);
    DrawDecides(s, task, o, d, row);
  }

  lemma CanBeDrawn<P(!new)>(s: Session<P>, task: ConvertRowTask<P>, d: Draws) returns (row: EncRowWithHint<P>)
    requires s.Valid() && task.tableIndex < |s.sources| && |d.rValues| == |task.row.cval|
    ensures IsDrawn(s, task, d, row)
  {
    row := Convertible(s.S, s.sid, s.keys, s.rpk, task, d);
  }

  lemma DrawTable<P(!new)>(s: Session<P>, tasks: seq<ConvertRowTask<P>>, origins: seq<Origin>, n: nat)
    returns (draws: seq<Draws>, rows: seq<EncRowWithHint<P>>)
    requires s.Valid() && s.TasksFrom(tasks, origins) && n <= |tasks|
    ensures |draws| == |rows| == n
    ensures forall j :: 0 <= j < n ==>
      IsDrawn(s, tasks[j], draws[j], rows[j]) && !AllSerializable(s.S, Sealed(s, tasks[j], draws[j]))
  {
    draws, rows := [], [];
    while |rows| < n
      invariant |draws| == |rows| <= n
      invariant forall j :: 0 <= j < |rows| ==>
        IsDrawn(s, tasks[j], draws[j], rows[j]) && !AllSerializable(s.S, Sealed(s, tasks[j], draws[j]))
    {
      var d, row := UnluckyDraw(s, tasks[|rows|], origins[|rows|]);
      draws, rows := draws + [d], rows + [row];
    }
  }

  // So whenever the tables share a uid, there are draws with which the receiver panics.
  lemma UnluckyRun<P(!new)>(s: Session<P>, tasks: seq<ConvertRowTask<P>>, origins: seq<Origin>, u: Bytes)
    returns (draws: seq<Draws>, rows: seq<EncRowWithHint<P>>)
    requires s.Valid() && s.NymInjective() && s.TasksFrom(tasks, origins) && u in CommonUids(s.tables)
    ensures TableDrawn(s, tasks, draws, Range(|tasks|), rows)
    ensures !(NymsDefined(s.S, s.rsk.bsk, rows) && GroupsOpen(s.S, s.sid, s.sources, s.rsk, rows))
  {
    draws, rows := DrawTable(s, tasks, origins, |tasks|);
    var id :| id in s.tables && u in s.tables[id];
    var i := s.SourceIndex(id);
    var j := s.RowOfOrigin(origins, Origin(i, u));
    assert !AllSerializable(s.S, Sealed(s, tasks[j], draws[j]));
    CompletesOnDraws(s, tasks, origins, draws, Range(|tasks|), rows);
  }

  // ----- Over the wire -----

  // The receiver can decode all messages: it exits on one that it cannot.
  ghost predicate AllDecode<P(!new)>(S: Suite<P>, msgs: seq<Bytes>) {
    forall k :: 0 <= k < |msgs| ==> GetEncRowWithHintFromMsg(S, msgs[k]).Some?
  }

  function MessagesOf<P(!new)>(S: Suite<P>, rows: seq<EncRowWithHint<P>>): (r: seq<Bytes>)
    ensures |r| == |rows| && forall k :: 0 <= k < |rows| ==> r[k] == EncRowWithHintMsg(S, rows[k])
  {
    seq(|rows|, k requires 0 <= k < |rows| => EncRowWithHintMsg(S, rows[k]))
  }

  ghost predicate AllRowsSerializable<P(!new)>(S: Suite<P>, rows: seq<EncRowWithHint<P>>) {
    forall k :: 0 <= k < |rows| ==> RowSerializable(S, rows[k])
  }

  // All messages decode exactly if no pseudonym, blinded key or hint holds an identity point.
  lemma AllDecodeExactly<P(!new)>(S: Suite<P>, rows: seq<EncRowWithHint<P>>)
    requires S.Laws()
    ensures AllDecode(S, MessagesOf(S, rows)) <==> AllRowsSerializable(S, rows)
  {
    var msgs := MessagesOf(S, rows);
    forall k | 0 <= k < |rows|
      ensures GetEncRowWithHintFromMsg(S, msgs[k]).Some? <==> RowSerializable(S, rows[k])
    {
      EncRowWithHintArrives(S, rows[k]);
    }
  }

  // The rows are decoded, and then joined in some order of arrival.
  ghost predicate WireReceiverCompletes<P(!new)>(s: Session<P>, rows: seq<EncRowWithHint<P>>, order: seq<nat>)
    requires IsPermutation(order, |rows|)
  {
    && AllDecode(s.S, MessagesOf(s.S, rows))
    && NymsDefined(s.S, s.rsk.bsk, Select(rows, order))
    && GroupsOpen(s.S, s.sid, s.sources, s.rsk, Select(rows, order))
  }

  // For every order of arrival the receiver completes exactly if no ciphertext of any row, shared
  // or not, holds an identity point, every uid has a grouping key, and for shared uids the values
  // are delivered and the payloads open.
  lemma WireCompletesExactly<P(!new)>(s: Session<P>, rows: seq<EncRowWithHint<P>>, origins: seq<Origin>,
    order: seq<nat>)
    requires s.Valid() && s.NymInjective() && s.RowsFrom(rows, origins) && IsPermutation(order, |rows|)
    ensures WireReceiverCompletes(s, rows, order) <==>
      && AllRowsSerializable(s.S, rows) && s.NymsHaveKeys() && s.SharedDelivered() && s.CommonRowsOpen(rows, origins)
  {
    AllDecodeExactly(s.S, rows);
    s.CompletesExactly(rows, origins);
    s.ArrivedRowsFrom(rows, origins, order);
    s.NymsDefinedExactly(rows, origins);
    s.NymsDefinedExactly(Select(rows, order), Select(origins, order));
    GroupsOpenPermuted(s.S, s.sid, s.sources, s.rsk, rows, order);
  }

  // The draws of all rows keep the identity out of the ciphertexts that are sent in the open.
  ghost predicate DrawsDecode<P(!new)>(s: Session<P>, tasks: seq<ConvertRowTask<P>>, draws: seq<Draws>)
    requires |draws| == |tasks| && forall j :: 0 <= j < |tasks| ==> |draws[j].rValues| == |tasks[j].row.cval|
  {
    forall j :: 0 <= j < |tasks| ==>
      var row := ConvertedRow(s.S, s.sid, s.keys, s.rpk, tasks[j], draws[j]);
      row.Some? && RowSerializable(s.S, row.value)
  }

  lemma WireCompletesOnDraws<P(!new)>(s: Session<P>, tasks: seq<ConvertRowTask<P>>, origins: seq<Origin>,
    draws: seq<Draws>, rowPerm: seq<nat>, rows: seq<EncRowWithHint<P>>, order: seq<nat>)
    requires s.Valid() && s.NymInjective() && s.TasksFrom(tasks, origins) && TableDrawn(s, tasks, draws, rowPerm, rows)
    requires IsPermutation(order, |rows|)
    ensures WireReceiverCompletes(s, rows, order) <==>
      && s.NymsHaveKeys() && s.SharedDelivered() && DrawsAvoidIdentity(s, tasks, origins, draws)
      && DrawsDecode(s, tasks, draws)
  {
    var placed := PlacedFrom(s, tasks, origins, draws, rowPerm, rows);
    CompletesOnDraws(s, tasks, origins, draws, rowPerm, rows);
    s.CompletesExactly(rows, placed);
    WireCompletesExactly(s, rows, placed, order);
    s.NymsDefinedExactly(rows, placed);
    RowsDecodeOnDraws(s, tasks, draws, rowPerm, rows);
  }

  lemma RowsDecodeOnDraws<P(!new)>(s: Session<P>, tasks: seq<ConvertRowTask<P>>, draws: seq<Draws>, rowPerm: seq<nat>,
    rows: seq<EncRowWithHint<P>>)
    requires TableDrawn(s, tasks, draws, rowPerm, rows)
    ensures AllRowsSerializable(s.S, rows) <==> DrawsDecode(s, tasks, draws)
  {
    var inverse := InversePermutation(rowPerm);
    if DrawsDecode(s, tasks, draws) {
      forall k | 0 <= k < |rows|
        ensures RowSerializable(s.S, rows[k])
      {
        assert IsDrawn(s, tasks[inverse[k]], draws[inverse[k]], rows[rowPerm[inverse[k]]]);
      }
    }
    if AllRowsSerializable(s.S, rows) {
      forall j | 0 <= j < |tasks|
        ensures ConvertedRow(s.S, s.sid, s.keys, s.rpk, tasks[j], draws[j]) == Some(rows[rowPerm[j]])
      {
        assert IsDrawn(s, tasks[j], draws[j], rows[rowPerm[j]]);
      }
    }
  }

  // Re-randomizing after an evaluation can cancel the randomness of a ciphertext.
  lemma UnluckyEval<P(!new)>(G: Group<P>, key: nat, pk: P, ct: Ciphertext<P>, m: P) returns (r: nat)
    requires G.Laws() && Encrypts(G, pk, ct, m)
    ensures OPRFEval(G, key, pk, ct, r).c0 == G.one
  {
    var r0: nat :| ct == PKEEncrypt(G, pk, m, r0);
    G.ExpMul(G.gen, r0, key);
    G.ScalarLaws(G.gen, r0 * key, 0);
    r := G.ScalarNeg(r0 * key);
  }

  // For every row, and all other draws, there is a draw with which its hint holds the identity, and
  // the receiver exits on its message, whether or not the uid is shared.
  lemma UnluckyHint<P(!new)>(s: Session<P>, task: ConvertRowTask<P>, o: Origin, d: Draws)
    returns (d': Draws, row: EncRowWithHint<P>)
    requires s.Valid() && s.IsTaskOf(task, o) && |d.rValues| == |task.row.cval|
    ensures d' == d.(rHint := d'.rHint) && IsDrawn(s, task, d', row) && row.chint.c0 == s.S.group.one
    ensures GetEncRowWithHintFromMsg(s.S, EncRowWithHintMsg(s.S, row)).None?
  {
    s.TaskMeans(task, o);
    var G, h := s.S.group, s.S.HashToPoint(o.uid, s.sid);
    var joinid := OPRFEval(G, s.keys.convK, s.rpk.bpk, task.row.cuid, d.rNym);
    EvalRaisesMessage(G, s.keys.convK, s.rpk.bpk, task.row.cuid, h, d.rNym);
    var r := UnluckyEval(G, s.keys.padKeyShares[task.tableIndex], s.rpk.bpk, joinid, G.Exp(h, s.keys.convK));
    d' := d.(rHint := r);
    row := CanBeDrawn(s, task, d');
    EncRowWithHintArrives(s.S, row);
  }

  // The same for the pseudonym.
  lemma UnluckyNym<P(!new)>(s: Session<P>, task: ConvertRowTask<P>, o: Origin, d: Draws)
    returns (d': Draws, row: EncRowWithHint<P>)
    requires s.Valid() && s.IsTaskOf(task, o) && |d.rValues| == |task.row.cval|
    ensures d' == d.(rNym := d'.rNym) && IsDrawn(s, task, d', row) && row.cnyme.c0 == s.S.group.one
    ensures GetEncRowWithHintFromMsg(s.S, EncRowWithHintMsg(s.S, row)).None?
  {
    s.TaskMeans(task, o);
    var r := UnluckyEval(s.S.group, s.keys.convK, s.rpk.bpk, task.row.cuid, s.S.HashToPoint(o.uid, s.sid));
    d' := d.(rNym := r);
    row := CanBeDrawn(s, task, d');
    EncRowWithHintArrives(s.S, row);
  }

  // And for the blinded key.
  lemma UnluckyKey<P(!new)>(s: Session<P>, task: ConvertRowTask<P>, o: Origin, d: Draws)
    returns (d': Draws, row: EncRowWithHint<P>)
    requires s.Valid() && s.IsTaskOf(task, o) && |d.rValues| == |task.row.cval|
    ensures d' == d.(rKey := d'.rKey) && IsDrawn(s, task, d', row) && row.cvalKey.c0 == s.S.group.one
    ensures GetEncRowWithHintFromMsg(s.S, EncRowWithHintMsg(s.S, row)).None?
  {
    s.TaskMeans(task, o);
    var G, h := s.S.group, s.S.HashToPoint(o.uid, s.sid);
    var joinid := OPRFEval(G, s.keys.convK, s.rpk.bpk, task.row.cuid, d.rNym);
    EvalRaisesMessage(G, s.keys.convK, s.rpk.bpk, task.row.cuid, h, d.rNym);
    var r := UnluckyEval(G, s.keys.padKey, s.rpk.bpk, joinid, G.Exp(h, s.keys.convK));
    d' := d.(rKey := r);
    row := CanBeDrawn(s, task, d');
    EncRowWithHintArrives(s.S, row);
  }

  // ----- Grouping keys -----

  // A point has no grouping key exactly if it is the identity or its x-coordinate has one byte.
  lemma NoKeyExactly<P(!new)>(S: Suite<P>, a: P)
    requires S.Laws()
    ensures MessageBytes(S, a).None? <==>
      a == S.group.one || (|S.Marshal(a)| == POINT_LENGTH && BigEndian(S.Marshal(a)[1..]) < 256)
  {
    assert S.EncodingAt(a);
    if a != S.group.one {
      var x := BigEndian(S.Marshal(a)[1..]);
      assert |MinimalBytes(x)| < 2 <==> x < 256;
    }
  }

  // An input: with a conversion key that is zero modulo the group order no uid has one, and the
  // receiver panics on every row.
  lemma ZeroKeyHasNoNyms<P(!new)>(s: Session<P>)
    requires s.Valid() && s.keys.convK % s.S.group.order == 0
    ensures forall u :: MessageBytes(s.S, s.Nym(u)).None?
    ensures s.NymsHaveKeys() <==> AllUids(s.tables) == {}
  {
    forall u
      ensures MessageBytes(s.S, s.Nym(u)).None?
    {
      s.S.group.ExpMod(s.S.HashToPoint(u, s.sid), s.keys.convK);
      NoKeyExactly(s.S, s.Nym(u));
    }
  }

  // ----- Uids that share a grouping key -----

  // The rows of a shared uid, one for each source.
  function OriginsFor(n: nat, u: Bytes): (r: seq<Origin>)
    ensures |r| == n && forall i :: 0 <= i < n ==> r[i] == Origin(i, u)
  {
    seq(n, i requires 0 <= i < n => Origin(i, u))
  }

  lemma InGroup<P(!new)>(s: Session<P>, rows: seq<EncRowWithHint<P>>, origins: seq<Origin>, key: Bytes, u: Bytes)
    requires s.Valid() && s.RowsFrom(rows, origins) && u in CommonUids(s.tables)
    requires MessageBytes(s.S, s.Nym(u)) == Some(key)
    ensures forall o :: o in OriginsFor(|s.sources|, u) ==> o in Select(origins, Members(s.S, s.rsk.bsk, rows, key))
  {
    s.EverySourceIsCommon(u);
    forall o | o in OriginsFor(|s.sources|, u)
      ensures o in Select(origins, Members(s.S, s.rsk.bsk, rows, key))
    {
      OriginInGroup(s, rows, origins, key, o);
    }
  }

  lemma GroupOriginsDiffer<P(!new)>(s: Session<P>, rows: seq<EncRowWithHint<P>>, origins: seq<Origin>, key: Bytes)
    requires s.RowsFrom(rows, origins)
    ensures NoDuplicates(Select(origins, Members(s.S, s.rsk.bsk, rows, key)))
  {
  }

  // NymInjective is needed: two shared uids with one grouping key make a group that is too large,
  // and so the row of neither is output.
  lemma CollisionLosesRows<P(!new)>(s: Session<P>, rows: seq<EncRowWithHint<P>>, origins: seq<Origin>, key: Bytes,
    u: Bytes, v: Bytes)
    requires s.Valid() && s.RowsFrom(rows, origins) && s.sources != []
    requires u in CommonUids(s.tables) && v in CommonUids(s.tables) && u != v
    requires MessageBytes(s.S, s.Nym(u)) == MessageBytes(s.S, s.Nym(v)) == Some(key)
    ensures |GroupOf(s.S, s.rsk.bsk, rows, key)| >= 2 * |s.sources|
    ensures !IsFull(s.S, s.rsk.bsk, s.sources, rows, key)
  {
    var n, group := |s.sources|, Select(origins, Members(s.S, s.rsk.bsk, rows, key));
    InGroup(s, rows, origins, key, u);
    InGroup(s, rows, origins, key, v);
    GroupOriginsDiffer(s, rows, origins, key);
    BothInGroup(OriginsFor(n, u), OriginsFor(n, v), group);
  }

  lemma BothInGroup(ofU: seq<Origin>, ofV: seq<Origin>, group: seq<Origin>)
    requires NoDuplicates(ofU) && NoDuplicates(ofV) && NoDuplicates(group)
    requires forall i, j :: 0 <= i < |ofU| && 0 <= j < |ofV| ==> ofU[i] != ofV[j]
    requires forall o :: o in ofU || o in ofV ==> o in group
    ensures |group| >= |ofU| + |ofV|
  {
    NotLonger(ofU + ofV, group);
  }

  lemma NotLonger<T>(part: seq<T>, whole: seq<T>)
    requires NoDuplicates(part) && NoDuplicates(whole) && forall x :: x in part ==> x in whole
    ensures |part| <= |whole|
  {
    ElementsCardinality(part);
    ElementsCardinality(whole);
    SubsetCardinality(Elements(part), Elements(whole));
  }

  lemma RowInGroup<P(!new)>(s: Session<P>, rows: seq<EncRowWithHint<P>>, origins: seq<Origin>, key: Bytes, j: nat)
    requires s.Valid() && s.RowsFrom(rows, origins) && j < |rows|
    ensures j in Members(s.S, s.rsk.bsk, rows, key) <==> MessageBytes(s.S, s.Nym(origins[j].uid)) == Some(key)
  {
    s.RowNym(rows[j], origins[j]);
    MembersComplete(s.S, s.rsk.bsk, rows, key, j);
  }

  lemma SelectHas<T>(s: seq<T>, positions: seq<nat>, j: nat)
    requires (forall i :: 0 <= i < |positions| ==> positions[i] < |s|) && j in positions
    ensures s[j] in Select(s, positions)
  {
    var m :| 0 <= m < |positions| && positions[m] == j;
    assert Select(s, positions)[m] == s[j];
  }

  lemma OriginInGroup<P(!new)>(s: Session<P>, rows: seq<EncRowWithHint<P>>, origins: seq<Origin>, key: Bytes, o: Origin)
    requires s.Valid() && s.RowsFrom(rows, origins)
    ensures o in Select(origins, Members(s.S, s.rsk.bsk, rows, key)) <==>
      s.IsOrigin(o) && MessageBytes(s.S, s.Nym(o.uid)) == Some(key)
  {
    var members := Members(s.S, s.rsk.bsk, rows, key);
    if s.IsOrigin(o) && MessageBytes(s.S, s.Nym(o.uid)) == Some(key) {
      var j := s.RowOfOrigin(origins, o);
      RowInGroup(s, rows, origins, key, j);
      SelectHas(origins, members, j);
    }
    if o in Select(origins, members) {
      var m :| 0 <= m < |members| && Select(origins, members)[m] == o;
      RowInGroup(s, rows, origins, key, members[m]);
      assert origins[members[m]] in origins;
    }
  }

  // Whatever uids share grouping keys: a group has one row for each row of a table whose uid has
  // the key, and is complete exactly if these are as many as there are sources.
  lemma GroupSizeExactly<P(!new)>(s: Session<P>, rows: seq<EncRowWithHint<P>>, origins: seq<Origin>, key: Bytes,
    listing: seq<Origin>)
    requires s.Valid() && s.RowsFrom(rows, origins) && NoDuplicates(listing)
    requires forall o :: o in listing <==> s.IsOrigin(o) && MessageBytes(s.S, s.Nym(o.uid)) == Some(key)
    ensures |GroupOf(s.S, s.rsk.bsk, rows, key)| == |listing|
    ensures IsFull(s.S, s.rsk.bsk, s.sources, rows, key) <==> |listing| == |s.sources| > 0
  {
    var group := Select(origins, Members(s.S, s.rsk.bsk, rows, key));
    GroupOriginsDiffer(s, rows, origins, key);
    forall o: Origin
      ensures o in group <==> o in listing
    {
      OriginInGroup(s, rows, origins, key, o);
    }
    assert Elements(group) == Elements(listing);
    ElementsCardinality(group);
    ElementsCardinality(listing);
  }

  lemma OnlyTheseTwo<P(!new)>(s: Session<P>, key: Bytes, u: Bytes, v: Bytes, o: Origin)
    requires |s.sources| == 2
    requires s.IsOrigin(Origin(0, u)) && !s.IsOrigin(Origin(1, u)) && s.IsOrigin(Origin(1, v))
    requires !s.IsOrigin(Origin(0, v))
    requires MessageBytes(s.S, s.Nym(u)) == MessageBytes(s.S, s.Nym(v)) == Some(key)
    requires forall w :: w in AllUids(s.tables) && MessageBytes(s.S, s.Nym(w)) == Some(key) ==> w == u || w == v
    ensures (o == Origin(0, u) || o == Origin(1, v)) <==> s.IsOrigin(o) && MessageBytes(s.S, s.Nym(o.uid)) == Some(key)
  {
    if s.IsOrigin(o) {
      assert o.uid in AllUids(s.tables) && (o.source == 0 || o.source == 1);
      assert o == Origin(o.source, o.uid);
    }
  }

  // NymInjective is needed for other uids as well: of two sources, each with a uid that the other
  // does not have, one grouping key makes a complete group of them, which the receiver opens.
  lemma CollisionMakesGroup<P(!new)>(s: Session<P>, rows: seq<EncRowWithHint<P>>, origins: seq<Origin>, key: Bytes,
    u: Bytes, v: Bytes)
    requires s.Valid() && s.RowsFrom(rows, origins) && |s.sources| == 2
    requires s.IsOrigin(Origin(0, u)) && !s.IsOrigin(Origin(1, u)) && s.IsOrigin(Origin(1, v))
    requires !s.IsOrigin(Origin(0, v))
    requires MessageBytes(s.S, s.Nym(u)) == MessageBytes(s.S, s.Nym(v)) == Some(key)
    requires forall w :: w in AllUids(s.tables) && MessageBytes(s.S, s.Nym(w)) == Some(key) ==> w == u || w == v
    ensures IsFull(s.S, s.rsk.bsk, s.sources, rows, key)
    ensures u !in CommonUids(s.tables) && v !in CommonUids(s.tables)
  {
    var listing := [Origin(0, u), Origin(1, v)];
    forall o: Origin
      ensures o in listing <==> s.IsOrigin(o) && MessageBytes(s.S, s.Nym(o.uid)) == Some(key)
    {
      OnlyTheseTwo(s, key, u, v, o);
    }
    GroupSizeExactly(s, rows, origins, key, listing);
    s.EverySourceIsCommon(u);
    s.EverySourceIsCommon(v);
  }
}
