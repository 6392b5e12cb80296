/** The protocol computes the join: for all tables, keys, randomness, permutations and schedules,
    what the receiver outputs is a permutation of the rows of the plaintext join. */
module Protocol {
  import opened DataSources
  import opened ElGamal
  import opened Embedding
  import opened Helpers
  import opened Messages
  import opened Octets
  import opened Options
  import opened Padding
  import opened Permutations
  import opened Receivers
  import opened Serialization
  import opened Suites
  import opened Tables
  import opened Vectors

  // The table and the uid that an encrypted row comes from.
  datatype Origin = Origin(source: nat, uid: Bytes)

  datatype Session<!P(!new)> = Session(
    S: Suite<P>, sid: Bytes, sources: seq<SourceID>,
    keys: HelperKeys, rsk: SecretKeys, rpk: PublicKeys<P>,
    tables: map<SourceID, TablePlain>,
    wire: bool) // rows are sent over the wire, which carries one ciphertext of each value
  {
    // All parties share the session id, the keys fit together, and there is one table for each
    // of at most 256 different sources.
    ghost predicate Valid() {
      && S.Laws()
      && KeyPairs(S.group, rsk, rpk)
      && keys.Additive(S.group.order) && |keys.padKeyShares| == |sources|
      && NoDuplicates(sources) && |sources| <= 256
      && tables.Keys == Elements(sources)
    }

    function Nym(uid: Bytes): P {
      S.group.Exp(S.HashToPoint(uid, sid), keys.convK)
    }

    // Different uids in play never get the same grouping key.
    ghost predicate NymInjective() {
      forall u, v | u in AllUids(tables) && v in AllUids(tables) ::
        MessageBytes(S, Nym(u)).Some? && MessageBytes(S, Nym(u)) == MessageBytes(S, Nym(v)) ==> u == v
    }

    // ----- What becomes of a value -----

    // The points that reach the receiver.
    function PointsOf(value: Bytes): (r: Option<seq<P>>)
      ensures r.Some? <==> ValuePoints(S, value).Some?
      ensures r.Some? ==> |r.value| >= 1
    {
      var ms :- ValuePoints(S, value);
      Some(if wire then ms[..1] else ms)
    }

    // What they decode to; None stands for the receiver's panic.
    function Delivered(value: Bytes): Option<Bytes> {
      var ms :- PointsOf(value);
      DecodePoints(S, ms)
    }

    function Received(value: Bytes): Bytes {
      if Delivered(value).Some? then Delivered(value).value else value
    }

    // The tables that the receiver could learn.
    function ReceivedTables(): map<SourceID, TablePlain> {
      map id | id in tables :: ReceivedTable(tables[id])
    }

    function ReceivedTable(table: TablePlain): TablePlain {
      map uid | uid in table :: Received(table[uid])
    }

    // No chunk needs the last attempt and, over the wire, the value has one chunk.
    ghost predicate Intact(value: Bytes) {
      Embeds(S, value) && (wire ==> |value| < 30)
    }

    // The values of the uids that all tables share are delivered, or even delivered intact.
    ghost predicate SharedDelivered() {
      forall id, u :: id in tables && u in CommonUids(tables) ==> Delivered(tables[id][u]).Some?
    }

    ghost predicate SharedIntact() {
      forall id, u :: id in tables && u in CommonUids(tables) ==> Intact(tables[id][u])
    }

    function SentRow(row: EncRow<P>): EncRow<P> {
      if wire && |row.cval| > 1 then row.(cval := row.cval[..1]) else row
    }

    ghost predicate IsOrigin(o: Origin) {
      o.source < |sources| && sources[o.source] in tables && o.uid in tables[sources[o.source]]
    }

    function Value(o: Origin): Bytes
      requires IsOrigin(o)
    {
      tables[sources[o.source]][o.uid]
    }

    // origins lists every row of every table once.
    ghost predicate Covers(origins: seq<Origin>) {
      NoDuplicates(origins) && forall o :: o in origins <==> IsOrigin(o)
    }

    // The tasks that reach the helper: each row of each table once, encrypted by its source, in
    // any order.
    ghost predicate TasksFrom(tasks: seq<ConvertRowTask<P>>, origins: seq<Origin>) {
      && Covers(origins) && |tasks| == |origins|
      && forall t :: 0 <= t < |tasks| ==> IsTaskOf(tasks[t], origins[t])
    }

    ghost predicate IsTaskOf(task: ConvertRowTask<P>, o: Origin) {
      IsOrigin(o) && task.tableIndex == o.source
      && exists row: EncRow<P> :: IsProcessed(S, sid, rpk, o.uid, Value(o), row) && task.row == SentRow(row)
    }

    ghost predicate RowCarries(row: EncRowWithHint<P>, o: Origin) {
      IsOrigin(o) && PointsOf(Value(o)).Some?
      && exists e: P, cts: seq<Ciphertext<P>> ::
        Carries(S, sid, keys, rpk, row, Nym(o.uid), o.source, PointsOf(Value(o)).value, e, cts)
    }

    // None of the points sealed in the row is the identity, which would not deserialize.
    ghost predicate RowOpens(row: EncRowWithHint<P>, o: Origin) {
      IsOrigin(o) && PointsOf(Value(o)).Some?
      && exists e: P, cts: seq<Ciphertext<P>> ::
        Carries(S, sid, keys, rpk, row, Nym(o.uid), o.source, PointsOf(Value(o)).value, e, cts)
          && AllSerializable(S, cts)
    }

    ghost predicate RowsFrom(rows: seq<EncRowWithHint<P>>, origins: seq<Origin>) {
      && Covers(origins) && |rows| == |origins|
      && forall k :: 0 <= k < |rows| ==> RowCarries(rows[k], origins[k])
    }

    lemma CoversPermutation(origins: seq<Origin>, p: seq<nat>)
      requires Covers(origins) && IsPermutation(p, |origins|)
      ensures Covers(Select(origins, p))
    {
      SelectPermutation(origins, p);
      forall o: Origin
        ensures o in Select(origins, p) <==> IsOrigin(o)
      {
        assert o in Select(origins, p) <==> o in Elements(Select(origins, p));
        assert o in origins <==> o in Elements(origins);
      }
    }

    // What a task stands for: the hashed uid and the points that are sent of the value.
    lemma TaskMeans(task: ConvertRowTask<P>, o: Origin)
      requires IsTaskOf(task, o)
      ensures Encrypts(S.group, rpk.bpk, task.row.cuid, S.HashToPoint(o.uid, sid))
      ensures PointsOf(Value(o)).Some? && EncryptsAll(S.group, rpk.epk, task.row.cval, PointsOf(Value(o)).value)
    {
      var row: EncRow<P> :| IsProcessed(S, sid, rpk, o.uid, Value(o), row) && task.row == SentRow(row);
      ProcessedMeans(S, sid, rpk, o.uid, Value(o), row);
    }

    lemma ConversionCarries(task: ConvertRowTask<P>, o: Origin, row: EncRowWithHint<P>)
      requires S.Laws() && IsTaskOf(task, o) && IsConverted(S, sid, keys, rpk, task, row)
      ensures RowCarries(row, o)
    {
      TaskMeans(task, o);
      var ms := PointsOf(Value(o)).value;
      var e, cts := ConvertedCarries(S, sid, keys, rpk, task, row, S.HashToPoint(o.uid, sid), ms);
      assert Carries(S, sid, keys, rpk, row, Nym(o.uid), o.source, ms, e, cts);
    }

    // A converted table without empty slots holds a conversion of every task.
    lemma ConvertedRowsFrom(tasks: seq<ConvertRowTask<P>>, origins: seq<Origin>, rowPerm: seq<nat>,
      res: seq<Option<EncRowWithHint<P>>>, rows: seq<EncRowWithHint<P>>) returns (origins': seq<Origin>)
      requires S.Laws() && TasksFrom(tasks, origins) && IsPermutation(rowPerm, |rowPerm|)
      requires IsConvertedTable(S, sid, keys, rpk, rowPerm, tasks, res)
      requires |rows| == |res| && forall k :: 0 <= k < |res| ==> res[k] == Some(rows[k])
      ensures RowsFrom(rows, origins')
    {
      var order: seq<nat> :|
        IsPermutation(order, |tasks|) && StoredInOrder(S, sid, keys, rpk, rowPerm, tasks, order, res);
      AllSlotsFilled(S, sid, keys, rpk, rowPerm, tasks, order, res);
      var inverse := InversePermutation(rowPerm);
      CoversPermutation(origins, order);
      CoversPermutation(Select(origins, order), inverse);
      origins' := Select(Select(origins, order), inverse);
      forall k | 0 <= k < |rows|
        ensures RowCarries(rows[k], origins'[k])
      {
        var j := inverse[k];
        assert rowPerm[j] == k;
        ConversionCarries(tasks[order[j]], origins[order[j]], rows[k]);
      }
    }

    lemma ArrivedRowsFrom(rows: seq<EncRowWithHint<P>>, origins: seq<Origin>, arrival: seq<nat>)
      requires RowsFrom(rows, origins) && IsPermutation(arrival, |rows|)
      ensures RowsFrom(Select(rows, arrival), Select(origins, arrival))
    {
      CoversPermutation(origins, arrival);
    }

    // ----- Groups -----

    lemma RowNym(row: EncRowWithHint<P>, o: Origin)
      requires Valid() && RowCarries(row, o)
      ensures NymBytes(S, rsk.bsk, row) == MessageBytes(S, Nym(o.uid))
    {
      DecryptRecovers(S.group, rsk.bsk, rpk.bpk, row.cnyme, Nym(o.uid));
    }

    // The table indices of the rows in the group of a key.
    function GroupSources(rows: seq<EncRowWithHint<P>>, origins: seq<Origin>, key: Bytes): (r: seq<nat>)
      requires |rows| == |origins|
      ensures |r| == |GroupOf(S, rsk.bsk, rows, key)|
    {
      var members := Members(S, rsk.bsk, rows, key);
      seq(|members|, m requires 0 <= m < |members| => origins[members[m]].source)
    }

    lemma SameUidInGroup(rows: seq<EncRowWithHint<P>>, origins: seq<Origin>, key: Bytes, u: Bytes)
      requires Valid() && NymInjective() && RowsFrom(rows, origins)
      requires u in AllUids(tables) && MessageBytes(S, Nym(u)) == Some(key)
      ensures forall j :: 0 <= j < |rows| ==> (NymBytes(S, rsk.bsk, rows[j]) == Some(key) <==> origins[j].uid == u)
    {
      forall j | 0 <= j < |rows|
        ensures NymBytes(S, rsk.bsk, rows[j]) == Some(key) <==> origins[j].uid == u
      {
        RowNym(rows[j], origins[j]);
        assert origins[j].uid in AllUids(tables);
      }
    }

    // Row m of a group comes from the table named by the group's m-th source, for the group's uid.
    lemma GroupOrigins(rows: seq<EncRowWithHint<P>>, origins: seq<Origin>, key: Bytes, u: Bytes)
      requires Valid() && NymInjective() && RowsFrom(rows, origins)
      requires u in AllUids(tables) && MessageBytes(S, Nym(u)) == Some(key)
      ensures Select(origins, Members(S, rsk.bsk, rows, key)) == seq(|GroupSources(rows, origins, key)|,
        m requires 0 <= m < |GroupSources(rows, origins, key)| => Origin(GroupSources(rows, origins, key)[m], u))
    {
      SameUidInGroup(rows, origins, key, u);
    }

    lemma GroupSourcesDiffer(rows: seq<EncRowWithHint<P>>, origins: seq<Origin>, key: Bytes, u: Bytes)
      requires Valid() && NymInjective() && RowsFrom(rows, origins)
      requires u in AllUids(tables) && MessageBytes(S, Nym(u)) == Some(key)
      ensures NoDuplicates(GroupSources(rows, origins, key))
    {
      GroupOrigins(rows, origins, key, u);
      var members, group := Members(S, rsk.bsk, rows, key), GroupSources(rows, origins, key);
      forall l, m | 0 <= l < m < |group|
        ensures group[l] != group[m]
      {
        assert Select(origins, members)[l] == Origin(group[l], u) && Select(origins, members)[m] == Origin(group[m], u);
      }
    }

    // A group holds, for its uid, one row of each table that has the uid, and nothing else.
    lemma GroupSourcesOf(rows: seq<EncRowWithHint<P>>, origins: seq<Origin>, key: Bytes, u: Bytes, i: nat)
      requires Valid() && NymInjective() && RowsFrom(rows, origins)
      requires u in AllUids(tables) && MessageBytes(S, Nym(u)) == Some(key)
      ensures i in GroupSources(rows, origins, key) <==> IsOrigin(Origin(i, u))
    {
      var members, group := Members(S, rsk.bsk, rows, key), GroupSources(rows, origins, key);
      if i in group {
        GroupOrigins(rows, origins, key, u);
        var m :| 0 <= m < |group| && group[m] == i;
        assert Select(origins, members)[m] == Origin(i, u);
        assert origins[members[m]] in origins;
      }
      if IsOrigin(Origin(i, u)) {
        var j := RowOfOrigin(origins, Origin(i, u));
        var m := MemberOf(rows, origins, key, u, j);
      }
    }

    lemma MemberOf(rows: seq<EncRowWithHint<P>>, origins: seq<Origin>, key: Bytes, u: Bytes, j: nat) returns (m: nat)
      requires Valid() && NymInjective() && RowsFrom(rows, origins)
      requires u in AllUids(tables) && MessageBytes(S, Nym(u)) == Some(key)
      requires j < |rows| && origins[j].uid == u
      ensures m < |GroupOf(S, rsk.bsk, rows, key)|
      ensures GroupOf(S, rsk.bsk, rows, key)[m] == rows[j]
      ensures GroupSources(rows, origins, key)[m] == origins[j].source
    {
      SameUidInGroup(rows, origins, key, u);
      var members := Members(S, rsk.bsk, rows, key);
      MembersComplete(S, rsk.bsk, rows, key, j);
      m :| 0 <= m < |members| && members[m] == j;
    }

    lemma RowOfOrigin(origins: seq<Origin>, o: Origin) returns (j: nat)
      requires Covers(origins) && IsOrigin(o)
      ensures j < |origins| && origins[j] == o
    {
      assert o in origins;
      j :| j < |origins| && origins[j] == o;
    }

    // Distinct indices below n: not more than n of them, and n exactly if none is missing.
    lemma GroupBound(group: seq<nat>, n: nat)
      requires NoDuplicates(group) && forall m :: 0 <= m < |group| ==> group[m] < n
      ensures |group| <= n
      ensures |group| == n <==> forall i: nat :: i < n ==> i in group
    {
      ElementsCardinality(group);
      IndicesCardinality(n);
      SubsetCardinality(Elements(group), Indices(n));
      if forall i: nat :: i < n ==> i in group {
        assert Elements(group) == Indices(n);
      }
      if |group| == n {
        forall i: nat | i < n
          ensures i in group
        {
          assert i in Elements(group);
        }
      }
    }

    lemma EverySourceIsCommon(u: Bytes)
      requires Valid() && u in AllUids(tables)
      ensures (forall i: nat :: i < |sources| ==> IsOrigin(Origin(i, u))) <==> u in CommonUids(tables)
    {
      if forall i: nat :: i < |sources| ==> IsOrigin(Origin(i, u)) {
        forall id | id in tables
          ensures u in tables[id]
        {
          var i := SourceIndex(id);
          assert IsOrigin(Origin(i, u));
        }
      }
      forall i: nat | i < |sources| && u in CommonUids(tables)
        ensures IsOrigin(Origin(i, u))
      {
        assert sources[i] in Elements(sources);
      }
    }

    lemma SourceIndex(id: SourceID) returns (i: nat)
      requires Valid() && id in tables
      ensures i < |sources| && sources[i] == id
    {
      assert id in Elements(sources);
      i :| i < |sources| && sources[i] == id;
    }

    // No group is larger than the number of sources, and a group is complete exactly if its uid
    // is in every table; then it holds every source index once.
    lemma FullGroupIsCommon(rows: seq<EncRowWithHint<P>>, origins: seq<Origin>, key: Bytes, u: Bytes)
      requires Valid() && NymInjective() && RowsFrom(rows, origins)
      requires u in AllUids(tables) && MessageBytes(S, Nym(u)) == Some(key)
      ensures |GroupOf(S, rsk.bsk, rows, key)| <= |sources|
      ensures IsFull(S, rsk.bsk, sources, rows, key) <==> u in CommonUids(tables)
      ensures IsFull(S, rsk.bsk, sources, rows, key) ==> IsPermutation(GroupSources(rows, origins, key), |sources|)
    {
      var group, n := GroupSources(rows, origins, key), |sources|;
      GroupSourcesDiffer(rows, origins, key, u);
      forall i: nat
        ensures i in group <==> IsOrigin(Origin(i, u))
      {
        GroupSourcesOf(rows, origins, key, u, i);
      }
      SourcesBelow(group, u);
      GroupBound(group, n);
      EverySourceIsCommon(u);
      SourcesNotEmpty(u);
    }

    lemma SourcesBelow(group: seq<nat>, u: Bytes)
      requires forall i: nat :: i in group <==> IsOrigin(Origin(i, u))
      ensures forall m :: 0 <= m < |group| ==> group[m] < |sources|
    {
      forall m | 0 <= m < |group|
        ensures group[m] < |sources|
      {
        assert group[m] in group;
      }
    }

    lemma SourcesNotEmpty(u: Bytes)
      requires Valid() && u in AllUids(tables)
      ensures |sources| > 0
    {
      var id :| id in tables && u in tables[id];
      assert id in Elements(sources);
    }

    // ----- Mask cancellation -----

    ghost predicate GroupCarries(group: seq<EncRowWithHint<P>>, indices: seq<nat>, u: Bytes) {
      && |group| == |indices| && IsPermutation(indices, |sources|)
      && forall m :: 0 <= m < |group| ==> RowCarries(group[m], Origin(indices[m], u))
    }

    // The hints of a complete group, in any order, multiply to nym^padKey.
    lemma MaskIsPadKey(group: seq<EncRowWithHint<P>>, indices: seq<nat>, u: Bytes)
      requires Valid() && GroupCarries(group, indices, u)
      ensures S.group.Product(UnblindedHints(S.group, rsk.bsk, group)) == S.group.Exp(Nym(u), keys.padKey)
    {
      var G, nym, shares := S.group, Nym(u), Select(keys.padKeyShares, indices);
      forall m | 0 <= m < |group|
        ensures UnblindedHints(G, rsk.bsk, group)[m] == G.Exp(nym, shares[m])
      {
        DecryptRecovers(G, rsk.bsk, rpk.bpk, group[m].chint, G.Exp(nym, shares[m]));
      }
      assert UnblindedHints(G, rsk.bsk, group) == Permutations.Map(s => G.Exp(nym, s), shares);
      G.ProductOfPowers(nym, shares);
      Scattered(shares, indices, keys.padKeyShares);
      SumOfPermutation(shares, keys.padKeyShares);
      G.ExpMod(nym, Sum(keys.padKeyShares));
    }

    lemma KeyUnmasked(row: EncRowWithHint<P>, mask: P, e: P)
      requires Valid() && Encrypts(S.group, rpk.bpk, row.cvalKey, S.group.Mul(mask, e))
      ensures S.group.Mul(OPRFUnblind(S.group, rsk.bsk, row.cvalKey), S.group.Invert(mask)) == e
    {
      DecryptRecovers(S.group, rsk.bsk, rpk.bpk, row.cvalKey, S.group.Mul(mask, e));
      S.group.UndoMul(mask, e);
    }

    lemma CarriedDecrypts(row: EncRowWithHint<P>, o: Origin, e: P, cts: seq<Ciphertext<P>>)
      requires Valid() && IsOrigin(o) && PointsOf(Value(o)).Some?
      requires Carries(S, sid, keys, rpk, row, Nym(o.uid), o.source, PointsOf(Value(o)).value, e, cts)
      ensures DecryptedValue(S, sid, sources, rsk, row, S.group.Invert(S.group.Exp(Nym(o.uid), keys.padKey)))
        == if AllSerializable(S, cts) && Delivered(Value(o)).Some?
          then Some((sources[o.source], Received(Value(o)))) else None
    {
      KeyUnmasked(row, S.group.Exp(Nym(o.uid), keys.padKey), e);
      PayloadOpens(row, e, o.source, cts);
      VectorDecrypts(S, rsk.esk, rpk.epk, PointsOf(Value(o)).value, cts);
    }

    lemma PayloadOpens(row: EncRowWithHint<P>, e: P, source: nat, cts: seq<Ciphertext<P>>)
      requires S.Laws() && source < 256 && Some(row.cval) == SealedPayload(S, KeyFromPoint(S, e, sid), source, cts)
      ensures OpenedPayload(S, KeyFromPoint(S, e, sid), row.cval)
        == if AllSerializable(S, cts) then Some((source, cts)) else None
    {
      PayloadRoundTrip(S, e, sid, source, cts);
    }

    // All that can be carried by a row opens, or none of it: the unmasked key decides.
    lemma CarriedOpens(row: EncRowWithHint<P>, o: Origin, e: P, cts: seq<Ciphertext<P>>)
      requires Valid() && IsOrigin(o) && PointsOf(Value(o)).Some?
      requires Carries(S, sid, keys, rpk, row, Nym(o.uid), o.source, PointsOf(Value(o)).value, e, cts)
      ensures RowOpens(row, o) <==> AllSerializable(S, cts)
    {
      if RowOpens(row, o) {
        var e': P, cts': seq<Ciphertext<P>> :|
          Carries(S, sid, keys, rpk, row, Nym(o.uid), o.source, PointsOf(Value(o)).value, e', cts')
            && AllSerializable(S, cts');
        KeyUnmasked(row, S.group.Exp(Nym(o.uid), keys.padKey), e);
        KeyUnmasked(row, S.group.Exp(Nym(o.uid), keys.padKey), e');
        PayloadOpens(row, e, o.source, cts);
        PayloadOpens(row, e, o.source, cts');
      }
    }

    ghost predicate RowYields(row: EncRowWithHint<P>, o: Origin) {
      RowOpens(row, o) && Delivered(Value(o)).Some?
    }

    // Unmasked, each row of a complete group yields its source and what is delivered of its value.
    // The receiver panics instead if the payload holds an identity point, from an unlucky draw,
    // or if the points do not decode.
    lemma RowDecrypts(row: EncRowWithHint<P>, o: Origin)
      requires Valid() && RowCarries(row, o)
      ensures DecryptedValue(S, sid, sources, rsk, row, S.group.Invert(S.group.Exp(Nym(o.uid), keys.padKey)))
        == if RowYields(row, o) then Some((sources[o.source], Received(Value(o)))) else None
    {
      var ms := PointsOf(Value(o)).value;
      var e: P, cts: seq<Ciphertext<P>> :| Carries(S, sid, keys, rpk, row, Nym(o.uid), o.source, ms, e, cts);
      CarriedDecrypts(row, o, e, cts);
      CarriedOpens(row, o, e, cts);
    }

    // The value that row m of the group stands for.
    function GroupValue(indices: seq<nat>, u: Bytes, m: nat): (SourceID, Bytes)
      requires m < |indices| && IsOrigin(Origin(indices[m], u))
    {
      (sources[indices[m]], Received(Value(Origin(indices[m], u))))
    }

    ghost predicate DecryptsTo(group: seq<EncRowWithHint<P>>, indices: seq<nat>, u: Bytes, invMask: P) {
      && |group| == |indices|
      && forall m :: 0 <= m < |group| ==> RowDecryptsTo(group[m], indices, u, m, invMask)
    }

    ghost predicate RowDecryptsTo(row: EncRowWithHint<P>, indices: seq<nat>, u: Bytes, m: nat, invMask: P)
      requires m < |indices|
    {
      IsOrigin(Origin(indices[m], u))
        && DecryptedValue(S, sid, sources, rsk, row, invMask) == Some(GroupValue(indices, u, m))
    }

    ghost predicate GroupRowsYield(group: seq<EncRowWithHint<P>>, indices: seq<nat>, u: Bytes) {
      |group| == |indices| && forall m :: 0 <= m < |group| ==> RowYields(group[m], Origin(indices[m], u))
    }

    lemma GroupDecryptsTo(group: seq<EncRowWithHint<P>>, indices: seq<nat>, u: Bytes)
      requires Valid() && GroupCarries(group, indices, u)
      ensures DecryptedGroup(S, sid, sources, rsk, group).Some? <==> GroupRowsYield(group, indices, u)
      ensures GroupRowsYield(group, indices, u) ==>
        DecryptsTo(group, indices, u, S.group.Invert(S.group.Exp(Nym(u), keys.padKey)))
    {
      var invMask := S.group.Invert(S.group.Exp(Nym(u), keys.padKey));
      MaskIsPadKey(group, indices, u);
      DecryptedRowsExactly(S, sid, sources, rsk, group, invMask);
      forall m | 0 <= m < |group|
        ensures DecryptedValue(S, sid, sources, rsk, group[m], invMask)
          == if RowYields(group[m], Origin(indices[m], u)) then Some(GroupValue(indices, u, m)) else None
      {
        RowDecrypts(group[m], Origin(indices[m], u));
      }
    }

    ghost predicate HoldsValues(out: map<SourceID, Bytes>, indices: seq<nat>, u: Bytes) {
      && (forall m :: 0 <= m < |indices| ==> HoldsValue(out, indices, u, m))
      && (forall id :: id in out ==>
        exists m :: 0 <= m < |indices| && indices[m] < |sources| && id == sources[indices[m]])
    }

    ghost predicate HoldsValue(out: map<SourceID, Bytes>, indices: seq<nat>, u: Bytes, m: nat)
      requires m < |indices|
    {
      IsOrigin(Origin(indices[m], u)) && sources[indices[m]] in out
        && out[sources[indices[m]]] == GroupValue(indices, u, m).1
    }

    lemma {:induction false} DecryptedRowsContent(group: seq<EncRowWithHint<P>>,
      indices: seq<nat>, u: Bytes, invMask: P)
      requires NoDuplicates(indices) && NoDuplicates(sources) && DecryptsTo(group, indices, u, invMask)
      ensures DecryptedRows(S, sid, sources, rsk, group, invMask).Some?
      ensures HoldsValues(DecryptedRows(S, sid, sources, rsk, group, invMask).value, indices, u)
    {
      if group != [] {
        var last := |group| - 1;
        forall m | 0 <= m < last
          ensures RowDecryptsTo(group[..last][m], indices[..last], u, m, invMask)
        {
          assert RowDecryptsTo(group[m], indices, u, m, invMask);
        }
        DecryptedRowsContent(group[..last], indices[..last], u, invMask);
        assert RowDecryptsTo(group[last], indices, u, last, invMask);
        HoldsNext(DecryptedRows(S, sid, sources, rsk, group[..last], invMask).value, indices, u);
      }
    }

    lemma HoldsNext(front: map<SourceID, Bytes>, indices: seq<nat>, u: Bytes)
      requires indices != [] && NoDuplicates(indices) && NoDuplicates(sources)
      requires IsOrigin(Origin(indices[|indices| - 1], u))
      requires HoldsValues(front, indices[..|indices| - 1], u)
      ensures var last := GroupValue(indices, u, |indices| - 1);
        HoldsValues(front[last.0 := last.1], indices, u)
    {
      var last := GroupValue(indices, u, |indices| - 1);
      var out := front[last.0 := last.1];
      forall m | 0 <= m < |indices|
        ensures HoldsValue(out, indices, u, m)
      {
        if m < |indices| - 1 {
          assert HoldsValue(front, indices[..|indices| - 1], u, m);
          assert indices[m] != indices[|indices| - 1];
        }
      }
      forall id | id in out
        ensures exists m :: 0 <= m < |indices| && indices[m] < |sources| && id == sources[indices[m]]
      {
        if id != last.0 {
          var m :| 0 <= m < |indices| - 1 && indices[..|indices| - 1][m] < |sources|
            && id == sources[indices[..|indices| - 1][m]];
          assert indices[m] == indices[..|indices| - 1][m];
        }
      }
    }

    lemma HoldsAll(out: map<SourceID, Bytes>, indices: seq<nat>, u: Bytes)
      requires Valid() && IsPermutation(indices, |sources|) && HoldsValues(out, indices, u)
      ensures out == ValuesOf(ReceivedTables(), u)
    {
      HoldsOnlyTables(out, indices, u);
      forall id
        ensures SameAt(out, ValuesOf(ReceivedTables(), u), id)
      {
        HoldsSame(out, indices, u, id);
      }
      SameEverywhere(out, ValuesOf(ReceivedTables(), u));
    }

    static ghost predicate SameAt(m1: map<SourceID, Bytes>, m2: map<SourceID, Bytes>, id: SourceID) {
      (id in m1 <==> id in m2) && (id in m1 ==> id in m2 && m1[id] == m2[id])
    }

    static lemma SameEverywhere(m1: map<SourceID, Bytes>, m2: map<SourceID, Bytes>)
      requires forall id :: SameAt(m1, m2, id)
      ensures m1 == m2
    {
      assert forall id :: id in m1 || id in m2 ==> SameAt(m1, m2, id);
    }

    lemma HoldsSame(out: map<SourceID, Bytes>, indices: seq<nat>, u: Bytes, id: SourceID)
      requires Valid() && IsPermutation(indices, |sources|) && HoldsValues(out, indices, u) && out.Keys <= tables.Keys
      ensures SameAt(out, ValuesOf(ReceivedTables(), u), id)
    {
      ReceivedHas(id, u);
      if id in tables {
        HoldsTable(out, indices, u, id);
      }
    }

    lemma HoldsTable(out: map<SourceID, Bytes>, indices: seq<nat>, u: Bytes, id: SourceID)
      requires Valid() && IsPermutation(indices, |sources|) && HoldsValues(out, indices, u) && id in tables
      ensures id in out && u in tables[id] && out[id] == Received(tables[id][u])
    {
      PermutationCovers(indices, |sources|);
      var i := SourceIndex(id);
      assert i in indices;
      var m :| 0 <= m < |indices| && indices[m] == i;
      assert HoldsValue(out, indices, u, m);
    }

    lemma HoldsOnlyTables(out: map<SourceID, Bytes>, indices: seq<nat>, u: Bytes)
      requires Valid() && HoldsValues(out, indices, u)
      ensures out.Keys <= tables.Keys
    {
      forall id | id in out
        ensures id in tables
      {
        var m :| 0 <= m < |indices| && indices[m] < |sources| && id == sources[indices[m]];
        assert id in Elements(sources);
      }
    }

    // A complete group decrypts to exactly what is delivered of the values of its uid.
    lemma GroupDecrypts(group: seq<EncRowWithHint<P>>, indices: seq<nat>, u: Bytes)
      requires Valid() && GroupCarries(group, indices, u)
      ensures DecryptedGroup(S, sid, sources, rsk, group)
        == if GroupRowsYield(group, indices, u) then Some(ValuesOf(ReceivedTables(), u)) else None
    {
      var invMask := S.group.Invert(S.group.Exp(Nym(u), keys.padKey));
      MaskIsPadKey(group, indices, u);
      GroupDecryptsTo(group, indices, u);
      if GroupRowsYield(group, indices, u) {
        DecryptedRowsContent(group, indices, u, invMask);
        HoldsAll(DecryptedGroup(S, sid, sources, rsk, group).value, indices, u);
      }
    }

    lemma ReceivedHas(id: SourceID, u: Bytes)
      ensures id in ReceivedTables() && u in ReceivedTables()[id] <==> id in tables && u in tables[id]
      ensures id in tables && u in tables[id] ==> ReceivedTables()[id][u] == Received(tables[id][u])
    {
      if id in tables {
        assert ReceivedTables()[id] == ReceivedTable(tables[id]);
      }
    }

    lemma ReceivedUids()
      ensures AllUids(ReceivedTables()) == AllUids(tables) && CommonUids(ReceivedTables()) == CommonUids(tables)
    {
      forall id, u {
        ReceivedHas(id, u);
      }
      SameUids(ReceivedTables(), tables);
    }

    static lemma SameUids(t1: map<SourceID, TablePlain>, t2: map<SourceID, TablePlain>)
      requires t1.Keys == t2.Keys && forall id, u :: id in t1 && u in t1[id] <==> id in t2 && u in t2[id]
      ensures AllUids(t1) == AllUids(t2) && CommonUids(t1) == CommonUids(t2)
    {
      assert AllUids(t1) == AllUids(t2);
      forall u
        ensures u in CommonUids(t1) <==> u in CommonUids(t2)
      {
        assert forall id :: id in t1 ==> (u in t1[id] <==> u in t2[id]);
      }
    }

    // ----- The main theorem -----

    lemma KeyHasUid(rows: seq<EncRowWithHint<P>>, origins: seq<Origin>, key: Bytes) returns (u: Bytes)
      requires Valid() && RowsFrom(rows, origins) && IsFull(S, rsk.bsk, sources, rows, key)
      ensures u in AllUids(tables) && MessageBytes(S, Nym(u)) == Some(key)
    {
      var j := Members(S, rsk.bsk, rows, key)[0];
      RowNym(rows[j], origins[j]);
      u := origins[j].uid;
    }

    lemma FullGroupCarries(rows: seq<EncRowWithHint<P>>, origins: seq<Origin>, key: Bytes, u: Bytes)
      requires Valid() && NymInjective() && RowsFrom(rows, origins)
      requires u in AllUids(tables) && MessageBytes(S, Nym(u)) == Some(key)
      requires IsFull(S, rsk.bsk, sources, rows, key)
      ensures GroupCarries(GroupOf(S, rsk.bsk, rows, key), GroupSources(rows, origins, key), u)
    {
      FullGroupIsCommon(rows, origins, key, u);
      SameUidInGroup(rows, origins, key, u);
      var indices := GroupSources(rows, origins, key);
      forall m | 0 <= m < |indices|
        ensures RowCarries(GroupOf(S, rsk.bsk, rows, key)[m], Origin(indices[m], u))
      {
        var j := Members(S, rsk.bsk, rows, key)[m];
        assert origins[j] == Origin(indices[m], u);
      }
    }

    lemma FullGroupRow(rows: seq<EncRowWithHint<P>>, origins: seq<Origin>, key: Bytes) returns (u: Bytes)
      requires Valid() && NymInjective() && RowsFrom(rows, origins)
      requires IsFull(S, rsk.bsk, sources, rows, key)
      requires DecryptedGroup(S, sid, sources, rsk, GroupOf(S, rsk.bsk, rows, key)).Some?
      ensures u in CommonUids(tables) && MessageBytes(S, Nym(u)) == Some(key)
      ensures DecryptedGroup(S, sid, sources, rsk, GroupOf(S, rsk.bsk, rows, key)).value
        == ValuesOf(ReceivedTables(), u)
    {
      u := KeyHasUid(rows, origins, key);
      FullGroupIsCommon(rows, origins, key, u);
      FullGroupValues(rows, origins, key, u);
    }

    lemma FullGroupValues(rows: seq<EncRowWithHint<P>>, origins: seq<Origin>, key: Bytes, u: Bytes)
      requires Valid() && NymInjective() && RowsFrom(rows, origins)
      requires u in AllUids(tables) && MessageBytes(S, Nym(u)) == Some(key)
      requires IsFull(S, rsk.bsk, sources, rows, key)
      requires DecryptedGroup(S, sid, sources, rsk, GroupOf(S, rsk.bsk, rows, key)).Some?
      ensures DecryptedGroup(S, sid, sources, rsk, GroupOf(S, rsk.bsk, rows, key)).value
        == ValuesOf(ReceivedTables(), u)
    {
      FullGroupCarries(rows, origins, key, u);
      GroupDecrypts(GroupOf(S, rsk.bsk, rows, key), GroupSources(rows, origins, key), u);
    }

    // Row i of the output is the join row of a common uid whose grouping key is the i-th key.
    ghost predicate IsOutputRow(row: seq<Bytes>, key: Bytes, u: Bytes) {
      u in CommonUids(tables) && MessageBytes(S, Nym(u)) == Some(key) && row == JoinRow(ReceivedTables(), sources)(u)
    }

    lemma OutputUid(rows: seq<EncRowWithHint<P>>, origins: seq<Origin>, keys': seq<Bytes>, values: seq<seq<Bytes>>,
      i: nat)
      returns (u: Bytes)
      requires Valid() && NymInjective() && RowsFrom(rows, origins)
      requires JoinsFullGroups(S, sid, sources, rsk, rows, keys', values) && i < |keys'|
      ensures IsOutputRow(values[i], keys'[i], u)
    {
      assert keys'[i] in keys';
      u := FullGroupRow(rows, origins, keys'[i]);
    }

    lemma OutputUids(rows: seq<EncRowWithHint<P>>, origins: seq<Origin>, keys': seq<Bytes>, values: seq<seq<Bytes>>)
      returns (uids: seq<Bytes>)
      requires Valid() && NymInjective() && RowsFrom(rows, origins)
      requires JoinsFullGroups(S, sid, sources, rsk, rows, keys', values)
      ensures IsOutput(values, keys', uids)
    {
      uids := [];
      while |uids| < |keys'|
        invariant |uids| <= |keys'|
        invariant IsOutput(values[..|uids|], keys'[..|uids|], uids)
      {
        var n := |uids|;
        var u := OutputUid(rows, origins, keys', values, n);
        OutputNext(values, keys', uids, u);
        uids := uids + [u];
      }
      assert values[..|uids|] == values && keys'[..|uids|] == keys';
    }

    ghost predicate IsOutput(values: seq<seq<Bytes>>, keys': seq<Bytes>, uids: seq<Bytes>) {
      |values| == |keys'| == |uids| && forall i :: 0 <= i < |uids| ==> IsOutputRow(values[i], keys'[i], uids[i])
    }

    lemma OutputNext(values: seq<seq<Bytes>>, keys': seq<Bytes>, uids: seq<Bytes>, u: Bytes)
      requires |uids| < |values| == |keys'| && IsOutput(values[..|uids|], keys'[..|uids|], uids)
      requires IsOutputRow(values[|uids|], keys'[|uids|], u)
      ensures IsOutput(values[..|uids| + 1], keys'[..|uids| + 1], uids + [u])
    {
      forall i | 0 <= i < |uids| + 1
        ensures IsOutputRow(values[..|uids| + 1][i], keys'[..|uids| + 1][i], (uids + [u])[i])
      {
        if i < |uids| {
          assert IsOutputRow(values[..|uids|][i], keys'[..|uids|][i], uids[i]);
        }
      }
    }

    // A full group's key belongs to one uid, so the uids differ as the keys do.
    lemma OutputUidsDiffer(values: seq<seq<Bytes>>, keys': seq<Bytes>, uids: seq<Bytes>)
      requires NoDuplicates(keys') && IsOutput(values, keys', uids)
      ensures NoDuplicates(uids)
    {
      forall i, j | 0 <= i < j < |uids|
        ensures uids[i] != uids[j]
      {
        assert IsOutputRow(values[i], keys'[i], uids[i]) && IsOutputRow(values[j], keys'[j], uids[j]);
      }
    }

    lemma CommonUidOutput(rows: seq<EncRowWithHint<P>>, origins: seq<Origin>, keys': seq<Bytes>,
      values: seq<seq<Bytes>>, uids: seq<Bytes>, u: Bytes)
      requires Valid() && NymInjective() && RowsFrom(rows, origins) && IsOutput(values, keys', uids)
      requires forall key :: key in keys' <==> IsFull(S, rsk.bsk, sources, rows, key)
      requires NymsDefined(S, rsk.bsk, rows)
      requires u in CommonUids(tables)
      ensures u in uids
    {
      var key := CommonUidHasKey(rows, origins, u);
      FullGroupIsCommon(rows, origins, key, u);
      assert key in keys';
      var i :| 0 <= i < |keys'| && keys'[i] == key;
      assert IsOutputRow(values[i], keys'[i], uids[i]);
    }

    lemma OutputIsJoin(rows: seq<EncRowWithHint<P>>, origins: seq<Origin>, keys': seq<Bytes>, values: seq<seq<Bytes>>)
      requires Valid() && NymInjective() && RowsFrom(rows, origins)
      requires JoinsFullGroups(S, sid, sources, rsk, rows, keys', values)
      requires NymsDefined(S, rsk.bsk, rows)
      ensures IsJoin(ReceivedTables(), sources, values)
    {
      var uids := OutputUids(rows, origins, keys', values);
      OutputUidsDiffer(values, keys', uids);
      forall u | u in CommonUids(tables)
        ensures u in uids
      {
        CommonUidOutput(rows, origins, keys', values, uids, u);
      }
      ListedRows(values, keys', uids);
    }

    lemma ListedRows(values: seq<seq<Bytes>>, keys': seq<Bytes>, uids: seq<Bytes>)
      requires NoDuplicates(uids) && IsOutput(values, keys', uids)
      requires forall u :: u in CommonUids(tables) ==> u in uids
      ensures IsJoin(ReceivedTables(), sources, values)
    {
      ReceivedUids();
      assert Elements(uids) == CommonUids(tables) by {
        forall u | u in uids
          ensures u in CommonUids(tables)
        {
          var i :| 0 <= i < |uids| && uids[i] == u;
          assert IsOutputRow(values[i], keys'[i], uids[i]);
        }
      }
      assert values == Permutations.Map(JoinRow(ReceivedTables(), sources), uids) by {
        assert forall i :: 0 <= i < |uids| ==> IsOutputRow(values[i], keys'[i], uids[i]);
      }
    }

    // For every order of arrival and of insertion, what the receiver outputs is the join.
    lemma JoinedIsJoin(rows: seq<EncRowWithHint<P>>, origins: seq<Origin>, values: seq<seq<Bytes>>)
      requires Valid() && NymInjective() && RowsFrom(rows, origins)
      requires IsJoined(S, sid, sources, rsk, rows, values)
      ensures IsJoin(ReceivedTables(), sources, values)
    {
      var arrival: seq<nat>, keys': seq<Bytes> :| IsPermutation(arrival, |rows|)
        && JoinsFullGroups(S, sid, sources, rsk, Select(rows, arrival), keys', values);
      ArrivedRowsFrom(rows, origins, arrival);
      OutputIsJoin(Select(rows, arrival), Select(origins, arrival), keys', values);
    }

    lemma CommonUidHasKey(rows: seq<EncRowWithHint<P>>, origins: seq<Origin>, u: Bytes) returns (key: Bytes)
      requires Valid() && RowsFrom(rows, origins) && u in AllUids(tables)
      requires NymsDefined(S, rsk.bsk, rows)
      ensures MessageBytes(S, Nym(u)) == Some(key)
    {
      var id :| id in tables && u in tables[id];
      var i := SourceIndex(id);
      assert IsOrigin(Origin(i, u));
      var j := RowOfOrigin(origins, Origin(i, u));
      RowNym(rows[j], origins[j]);
      key := MessageBytes(S, Nym(u)).value;
    }

    // ----- When the receiver completes -----

    // Every uid has a grouping key.
    ghost predicate NymsHaveKeys() {
      forall u :: u in AllUids(tables) ==> MessageBytes(S, Nym(u)).Some?
    }

    ghost predicate CommonRowsOpen(rows: seq<EncRowWithHint<P>>, origins: seq<Origin>)
      requires |rows| == |origins|
    {
      forall j :: 0 <= j < |rows| && origins[j].uid in CommonUids(tables) ==> RowOpens(rows[j], origins[j])
    }

    ghost predicate CommonRowsYield(rows: seq<EncRowWithHint<P>>, origins: seq<Origin>)
      requires |rows| == |origins|
    {
      forall j :: 0 <= j < |rows| && origins[j].uid in CommonUids(tables) ==> RowYields(rows[j], origins[j])
    }

    lemma YieldExactly(rows: seq<EncRowWithHint<P>>, origins: seq<Origin>)
      requires Valid() && RowsFrom(rows, origins)
      ensures CommonRowsYield(rows, origins) <==> CommonRowsOpen(rows, origins) && SharedDelivered()
    {
      if CommonRowsYield(rows, origins) {
        forall id, u | id in tables && u in CommonUids(tables)
          ensures Delivered(tables[id][u]).Some?
        {
          var i := SourceIndex(id);
          var j := RowOfOrigin(origins, Origin(i, u));
          assert RowYields(rows[j], origins[j]);
        }
      }
      if CommonRowsOpen(rows, origins) && SharedDelivered() {
        forall j | 0 <= j < |rows| && origins[j].uid in CommonUids(tables)
          ensures RowYields(rows[j], origins[j])
        {
          assert RowCarries(rows[j], origins[j]);
        }
      }
    }

    // The receiver completes exactly if all uids have grouping keys, and for the uids that all
    // tables share no payload holds an identity point and every value is delivered.
    lemma CompletesExactly(rows: seq<EncRowWithHint<P>>, origins: seq<Origin>)
      requires Valid() && NymInjective() && RowsFrom(rows, origins)
      ensures NymsDefined(S, rsk.bsk, rows) && GroupsOpen(S, sid, sources, rsk, rows)
        <==> NymsHaveKeys() && CommonRowsOpen(rows, origins) && SharedDelivered()
    {
      NymsDefinedExactly(rows, origins);
      YieldExactly(rows, origins);
      if NymsHaveKeys() && CommonRowsYield(rows, origins) {
        forall key | IsFull(S, rsk.bsk, sources, rows, key)
          ensures DecryptedGroup(S, sid, sources, rsk, GroupOf(S, rsk.bsk, rows, key)).Some?
        {
          OpenGroup(rows, origins, key);
        }
      }
      if NymsHaveKeys() && GroupsOpen(S, sid, sources, rsk, rows) {
        forall j | 0 <= j < |rows| && origins[j].uid in CommonUids(tables)
          ensures RowYields(rows[j], origins[j])
        {
          OpenRow(rows, origins, j);
        }
      }
    }

    lemma NymsDefinedExactly(rows: seq<EncRowWithHint<P>>, origins: seq<Origin>)
      requires Valid() && RowsFrom(rows, origins)
      ensures NymsDefined(S, rsk.bsk, rows) <==> NymsHaveKeys()
    {
      forall j | 0 <= j < |rows|
        ensures NymBytes(S, rsk.bsk, rows[j]) == MessageBytes(S, Nym(origins[j].uid))
        ensures origins[j].uid in AllUids(tables)
      {
        RowNym(rows[j], origins[j]);
      }
      if NymsDefined(S, rsk.bsk, rows) {
        forall u | u in AllUids(tables)
          ensures MessageBytes(S, Nym(u)).Some?
        {
          var key := CommonUidHasKey(rows, origins, u);
        }
      }
    }

    lemma OpenGroup(rows: seq<EncRowWithHint<P>>, origins: seq<Origin>, key: Bytes)
      requires Valid() && NymInjective() && RowsFrom(rows, origins)
      requires CommonRowsYield(rows, origins) && IsFull(S, rsk.bsk, sources, rows, key)
      ensures DecryptedGroup(S, sid, sources, rsk, GroupOf(S, rsk.bsk, rows, key)).Some?
    {
      var u := KeyHasUid(rows, origins, key);
      FullGroupIsCommon(rows, origins, key, u);
      FullGroupCarries(rows, origins, key, u);
      var group, indices := GroupOf(S, rsk.bsk, rows, key), GroupSources(rows, origins, key);
      GroupOrigins(rows, origins, key, u);
      forall m | 0 <= m < |group|
        ensures RowYields(group[m], Origin(indices[m], u))
      {
        var j := Members(S, rsk.bsk, rows, key)[m];
        assert Select(origins, Members(S, rsk.bsk, rows, key))[m] == origins[j] == Origin(indices[m], u);
      }
      GroupDecrypts(group, indices, u);
    }

    lemma OpenRow(rows: seq<EncRowWithHint<P>>, origins: seq<Origin>, j: nat)
      requires Valid() && NymInjective() && RowsFrom(rows, origins)
      requires NymsHaveKeys() && GroupsOpen(S, sid, sources, rsk, rows)
      requires j < |rows| && origins[j].uid in CommonUids(tables)
      ensures RowYields(rows[j], origins[j])
    {
      var u := origins[j].uid;
      var key := MessageBytes(S, Nym(u)).value;
      FullGroupIsCommon(rows, origins, key, u);
      FullGroupCarries(rows, origins, key, u);
      var group, indices := GroupOf(S, rsk.bsk, rows, key), GroupSources(rows, origins, key);
      GroupDecrypts(group, indices, u);
      var m := MemberOf(rows, origins, key, u, j);
      assert RowYields(group[m], Origin(indices[m], u));
    }

    // End to end: whenever the tasks are the sources' encrypted rows, the helper fills every
    // slot, and the receiver completes, the output is the join of what is delivered of the
    // tables, and if that is all of it, a permutation of the plaintext join.
    lemma ProtocolRefinesJoin(tasks: seq<ConvertRowTask<P>>, origins: seq<Origin>, rowPerm: seq<nat>,
      res: seq<Option<EncRowWithHint<P>>>, values: seq<seq<Bytes>>, plain: seq<seq<Bytes>>)
      requires Valid() && NymInjective() && TasksFrom(tasks, origins)
      requires IsPermutation(rowPerm, |rowPerm|) && IsConvertedTable(S, sid, keys, rpk, rowPerm, tasks, res)
      requires AllSome(res) && IsJoined(S, sid, sources, rsk, Values(res), values)
      requires IsJoin(tables, sources, plain)
      ensures IsJoin(ReceivedTables(), sources, values)
      ensures SharedIntact() ==> multiset(values) == multiset(plain)
    {
      var origins' := ConvertedRowsFrom(tasks, origins, rowPerm, res, Values(res));
      JoinedIsJoin(Values(res), origins', values);
      if SharedIntact() {
        IntactJoin(values);
        JoinIsUnique(tables, sources, values, plain);
      }
    }

    // ----- Values that are delivered intact -----

    // Over the wire a value of 30 or more bytes is cut to its first 30, and whatever these end in
    // is taken for padding.
    lemma LongValueCut(value: Bytes)
      requires Valid() && wire && |value| >= 30 && Embeds(S, value)
      ensures Delivered(value) == Unpadded(value[..30])
      ensures Delivered(value).Some? ==> |Delivered(value).value| < 30
    {
      EmbedsHasPoints(S, value);
      var padded := Pad(value, 30);
      var chunks := Chunks(padded);
      var m := PointsOf(value).value[0];
      assert chunks[0] == padded[..30] == value[..30];
      EmbeddingRoundTrip(S, chunks[0]);
      OnePoint(m);
    }

    lemma OnePoint(m: P)
      ensures DecodePoints(S, [m]) == if MessageBytes(S, m).Some? then Unpadded(MessageBytes(S, m).value) else None
    {
      if MessageBytes(S, m).Some? {
        var data := MessageBytes(S, m).value;
        assert seq(1, i requires 0 <= i < 1 => MessageBytes(S, [m][i]).value) == [data];
        assert Concat([data]) == data;
      } else {
        assert MessageBytes(S, [m][0]).None?;
      }
    }

    lemma LongValueShortens(value: Bytes)
      requires Valid() && wire && |value| >= 30 && Delivered(value).Some?
      ensures |Delivered(value).value| < 30
    {
      var m := PointsOf(value).value[0];
      EmbeddingRoundTrip(S, Chunks(Pad(value, 30))[0]);
      OnePoint(m);
      assert PointsOf(value).value == [m];
    }

    // A value is delivered as it is exactly if it is intact.
    lemma IntactExactly(value: Bytes)
      requires Valid() && ValuePoints(S, value).Some?
      ensures Delivered(value) == Some(value) <==> Intact(value)
    {
      PointsRoundTrip(S, value);
      var ms := ValuePoints(S, value).value;
      if wire && |value| >= 30 {
        if Delivered(value).Some? {
          LongValueShortens(value);
        }
      } else {
        assert PointsOf(value).value == ms;
      }
    }

    // The row of a shared uid is that of the plaintext join exactly if its values are intact.
    lemma RowIntactExactly(u: Bytes)
      requires Valid() && u in CommonUids(tables) && SharedDelivered()
      requires forall id :: id in tables ==> ValuePoints(S, tables[id][u]).Some?
      ensures JoinRow(ReceivedTables(), sources)(u) == JoinRow(tables, sources)(u)
        <==> forall id :: id in tables ==> Intact(tables[id][u])
    {
      forall i | 0 <= i < |sources|
        ensures sources[i] in tables
        ensures JoinRow(ReceivedTables(), sources)(u)[i] == JoinRow(tables, sources)(u)[i]
          <==> Intact(tables[sources[i]][u])
      {
        ColumnIntactExactly(u, i);
      }
      AllColumns(u, JoinRow(ReceivedTables(), sources)(u), JoinRow(tables, sources)(u));
    }

    lemma AllColumns(u: Bytes, row1: seq<Bytes>, row2: seq<Bytes>)
      requires Valid() && u in CommonUids(tables) && |row1| == |row2| == |sources|
      requires forall i :: 0 <= i < |sources| ==>
        sources[i] in tables && (row1[i] == row2[i] <==> Intact(tables[sources[i]][u]))
      ensures row1 == row2 <==> forall id :: id in tables ==> Intact(tables[id][u])
    {
      if row1 == row2 {
        forall id | id in tables
          ensures Intact(tables[id][u])
        {
          var i := SourceIndex(id);
          assert row1[i] == row2[i];
        }
      }
    }

    lemma ColumnIntactExactly(u: Bytes, i: nat)
      requires Valid() && u in CommonUids(tables) && SharedDelivered() && i < |sources|
      requires forall id :: id in tables ==> ValuePoints(S, tables[id][u]).Some?
      ensures sources[i] in tables
      ensures JoinRow(ReceivedTables(), sources)(u)[i] == JoinRow(tables, sources)(u)[i]
        <==> Intact(tables[sources[i]][u])
    {
      assert sources[i] in Elements(sources);
      JoinRowColumns(tables, sources, u, i);
      ReceivedColumn(u, i);
      IntactExactly(tables[sources[i]][u]);
    }

    lemma ReceivedColumn(u: Bytes, i: nat)
      requires Valid() && u in CommonUids(tables) && i < |sources| && sources[i] in tables
      ensures JoinRow(ReceivedTables(), sources)(u)[i] == Received(tables[sources[i]][u])
    {
      ReceivedUids();
      JoinRowColumns(ReceivedTables(), sources, u, i);
      ReceivedHas(sources[i], u);
    }

    lemma IntactJoin(values: seq<seq<Bytes>>)
      requires Valid() && SharedIntact() && IsJoin(ReceivedTables(), sources, values)
      ensures IsJoin(tables, sources, values)
    {
      ReceivedUids();
      forall id, u | id in tables && u in CommonUids(tables)
        ensures Delivered(tables[id][u]).Some?
      {
        EmbedsHasPoints(S, tables[id][u]);
        IntactExactly(tables[id][u]);
      }
      var order: seq<Bytes> :| NoDuplicates(order) && Elements(order) == CommonUids(ReceivedTables())
        && values == Permutations.Map(JoinRow(ReceivedTables(), sources), order);
      forall j | 0 <= j < |order|
        ensures values[j] == JoinRow(tables, sources)(order[j])
      {
        assert order[j] in Elements(order);
        RowIntactExactly(order[j]);
      }
      assert values == Permutations.Map(JoinRow(tables, sources), order);
    }

    // ----- Exactly when the output is the plaintext join -----

    // The values of shared uids have points, and none of them wraps around.
    ghost predicate SharedDoNotWrap() {
      forall id, u :: id in tables && u in CommonUids(tables) ==>
        ValuePoints(S, tables[id][u]).Some? && DoesNotWrap(S, tables[id][u])
    }

    lemma ReceivedRanksLower(value: Bytes)
      requires Valid() && ValuePoints(S, value).Some? && DoesNotWrap(S, value)
      ensures Received(value) == value || Rank(Received(value)) < Rank(value)
    {
      if Delivered(value).Some? {
        if wire && |value| >= 30 {
          LongValueShortens(value);
          ShorterRanksLower(Delivered(value).value, value);
        } else {
          assert PointsOf(value).value == ValuePoints(S, value).value;
          DecodedRanksLower(S, value);
        }
      }
    }

    lemma ReceivedRowRanksLower(u: Bytes)
      requires Valid() && SharedDoNotWrap() && u in CommonUids(tables)
      ensures var received, plain := JoinRow(ReceivedTables(), sources)(u), JoinRow(tables, sources)(u);
        received == plain || Ranks(received) < Ranks(plain)
    {
      var received, plain := JoinRow(ReceivedTables(), sources)(u), JoinRow(tables, sources)(u);
      forall i | 0 <= i < |sources|
        ensures received[i] == plain[i] || Rank(received[i]) < Rank(plain[i])
      {
        ReceivedColumnRanksLower(u, i);
      }
      RanksOrdered(received, plain);
    }

    lemma ReceivedColumnRanksLower(u: Bytes, i: nat)
      requires Valid() && SharedDoNotWrap() && u in CommonUids(tables) && i < |sources|
      ensures var received, plain := JoinRow(ReceivedTables(), sources)(u), JoinRow(tables, sources)(u);
        received[i] == plain[i] || Rank(received[i]) < Rank(plain[i])
    {
      assert sources[i] in Elements(sources);
      JoinRowColumns(tables, sources, u, i);
      ReceivedColumn(u, i);
      ReceivedRanksLower(tables[sources[i]][u]);
    }

    // In memory and over the wire, a completed run outputs the plaintext join exactly if every
    // value of a shared uid is intact: other values rank lower than they should, so that they do
    // not add up to the same rows.
    lemma JoinExactly(values: seq<seq<Bytes>>, plain: seq<seq<Bytes>>)
      requires Valid() && SharedDoNotWrap() && SharedDelivered()
      requires IsJoin(ReceivedTables(), sources, values) && IsJoin(tables, sources, plain)
      ensures multiset(values) == multiset(plain) <==> SharedIntact()
    {
      if multiset(values) == multiset(plain) {
        forall id, u | id in tables && u in CommonUids(tables)
          ensures Intact(tables[id][u])
        {
          SameJoinIsIntact(values, plain, u);
        }
      }
      if SharedIntact() {
        IntactJoin(values);
        JoinIsUnique(tables, sources, values, plain);
      }
    }

    lemma SameJoinIsIntact(values: seq<seq<Bytes>>, plain: seq<seq<Bytes>>, u: Bytes)
      requires Valid() && SharedDoNotWrap() && SharedDelivered() && u in CommonUids(tables)
      requires IsJoin(ReceivedTables(), sources, values) && IsJoin(tables, sources, plain)
      requires multiset(values) == multiset(plain)
      ensures forall id :: id in tables ==> Intact(tables[id][u])
    {
      var order: seq<Bytes> :| NoDuplicates(order) && Elements(order) == CommonUids(tables)
        && plain == Permutations.Map(JoinRow(tables, sources), order);
      var received := Permutations.Map(JoinRow(ReceivedTables(), sources), order);
      ReceivedInOrder(order, values);
      RowsRankLower(order);
      LowerOrEqual(received, plain);
      assert u in Elements(order);
      var j :| 0 <= j < |order| && order[j] == u;
      assert received[j] == plain[j];
      RowIntactExactly(u);
    }

    lemma ReceivedInOrder(order: seq<Bytes>, values: seq<seq<Bytes>>)
      requires NoDuplicates(order) && Elements(order) == CommonUids(tables) && IsJoin(ReceivedTables(), sources, values)
      ensures multiset(Permutations.Map(JoinRow(ReceivedTables(), sources), order)) == multiset(values)
    {
      ReceivedUids();
      var received := Permutations.Map(JoinRow(ReceivedTables(), sources), order);
      assert IsJoin(ReceivedTables(), sources, received);
      JoinIsUnique(ReceivedTables(), sources, received, values);
    }

    lemma RowsRankLower(order: seq<Bytes>)
      requires Valid() && SharedDoNotWrap() && Elements(order) == CommonUids(tables)
      ensures EqualOrLower(Permutations.Map(JoinRow(ReceivedTables(), sources), order),
        Permutations.Map(JoinRow(tables, sources), order))
    {
      forall j | 0 <= j < |order|
        ensures order[j] in CommonUids(tables)
      {
        assert order[j] in Elements(order);
      }
      forall j | 0 <= j < |order|
        ensures var received, plain := JoinRow(ReceivedTables(), sources)(order[j]), JoinRow(tables, sources)(order[j]);
          received == plain || Ranks(received) < Ranks(plain)
      {
        ReceivedRowRanksLower(order[j]);
      }
    }

    // Over the wire, if no chunk of a shared uid needs the last attempt, that means fewer than
    // 30 bytes.
    lemma JoinOverWireExactly(values: seq<seq<Bytes>>, plain: seq<seq<Bytes>>)
      requires Valid() && wire && SharedDelivered()
      requires forall id, u :: id in tables && u in CommonUids(tables) ==> Embeds(S, tables[id][u])
      requires IsJoin(ReceivedTables(), sources, values) && IsJoin(tables, sources, plain)
      ensures multiset(values) == multiset(plain) <==>
        forall id, u :: id in tables && u in CommonUids(tables) ==> |tables[id][u]| < 30
    {
      forall id, u | id in tables && u in CommonUids(tables)
        ensures ValuePoints(S, tables[id][u]).Some? && DoesNotWrap(S, tables[id][u])
      {
        EmbedsHasPoints(S, tables[id][u]);
      }
      JoinExactly(values, plain);
    }
  }
}
