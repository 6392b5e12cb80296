/** The receiver, from mppj-go/party_receiver.go: grouping by pseudonym, unblinding and
    decryption of complete groups, and assembly of the join table. */
module Receivers {
  import opened DataSources
  import opened ElGamal
  import opened Embedding
  import opened Groups
  import opened Messages
  import opened Octets
  import opened Options
  import opened Permutations
  import opened Serialization
  import opened Suites
  import opened Tables
  import opened Vectors
  import opened WorkerPools

  // The grouping key of a row.
  function NymBytes<P(!new)>(S: Suite<P>, bsk: nat, row: EncRowWithHint<P>): Option<Bytes> {
    MessageBytes(S, OPRFUnblind(S.group, bsk, row.cnyme))
  }

  // The positions of the rows with a given key, in order of arrival.
  function Members<P(!new)>(S: Suite<P>, bsk: nat, rows: seq<EncRowWithHint<P>>, key: Bytes): (r: seq<nat>)
    ensures forall m :: 0 <= m < |r| ==> r[m] < |rows| && NymBytes(S, bsk, rows[r[m]]) == Some(key)
    ensures forall l, m :: 0 <= l < m < |r| ==> r[l] < r[m]
  {
    if rows == [] then [] else
      var last := |rows| - 1;
      var front := Members(S, bsk, rows[..last], key);
      if NymBytes(S, bsk, rows[last]) == Some(key) then front + [last] else front
  }

  lemma {:induction false} MembersComplete<P(!new)>(S: Suite<P>, bsk: nat, rows: seq<EncRowWithHint<P>>, key: Bytes,
    j: nat)
    requires j < |rows|
    ensures j in Members(S, bsk, rows, key) <==> NymBytes(S, bsk, rows[j]) == Some(key)
  {
    if j < |rows| - 1 {
      MembersComplete(S, bsk, rows[..|rows| - 1], key, j);
    }
  }

  function GroupOf<P(!new)>(S: Suite<P>, bsk: nat, rows: seq<EncRowWithHint<P>>, key: Bytes): seq<EncRowWithHint<P>> {
    Select(rows, Members(S, bsk, rows, key))
  }

  type NymGroups<P> = map<Bytes, seq<EncRowWithHint<P>>>

  ghost predicate IsGrouping<P(!new)>(S: Suite<P>, bsk: nat, groups: NymGroups<P>, rows: seq<EncRowWithHint<P>>) {
    forall key :: if key in groups then groups[key] == GroupOf(S, bsk, rows, key) && groups[key] != []
      else GroupOf(S, bsk, rows, key) == []
  }

  function AddRow<P>(groups: NymGroups<P>, key: Bytes, row: EncRowWithHint<P>): NymGroups<P> {
    groups[key := (if key in groups then groups[key] else []) + [row]]
  }

  lemma GroupOfNext<P(!new)>(S: Suite<P>, bsk: nat, rows: seq<EncRowWithHint<P>>, row: EncRowWithHint<P>, key: Bytes)
    ensures GroupOf(S, bsk, rows + [row], key)
      == GroupOf(S, bsk, rows, key) + if NymBytes(S, bsk, row) == Some(key) then [row] else []
  {
    assert (rows + [row])[..|rows|] == rows;
  }

  lemma AddRowGroups<P(!new)>(S: Suite<P>, bsk: nat, groups: NymGroups<P>, rows: seq<EncRowWithHint<P>>,
    row: EncRowWithHint<P>)
    requires IsGrouping(S, bsk, groups, rows) && NymBytes(S, bsk, row).Some?
    ensures IsGrouping(S, bsk, AddRow(groups, NymBytes(S, bsk, row).value, row), rows + [row])
  {
    forall key: Bytes {
      GroupOfNext(S, bsk, rows, row, key);
    }
  }

  // ----- decryptGroup -----

  function UnblindedHints<P(!new)>(G: Group<P>, bsk: nat, group: seq<EncRowWithHint<P>>): (r: seq<P>)
    ensures |r| == |group|
  {
    seq(|group|, i requires 0 <= i < |group| => OPRFUnblind(G, bsk, group[i].chint))
  }

  // The source and value of one row of a group, or None where decryptGroup panics.
  function DecryptedValue<P(!new)>(S: Suite<P>, sid: Bytes, ids: seq<SourceID>, rsk: SecretKeys,
    row: EncRowWithHint<P>, invMask: P): Option<(SourceID, Bytes)> {
    var keyp := S.group.Mul(OPRFUnblind(S.group, rsk.bsk, row.cvalKey), invMask);
    var payload :- OpenedPayload(S, KeyFromPoint(S, keyp, sid), row.cval);
    if payload.0 >= |ids| then None else
      var value :- DecryptedVector(S, rsk.esk, payload.1);
      Some((ids[payload.0], value))
  }

  function DecryptedRows<P(!new)>(S: Suite<P>, sid: Bytes, ids: seq<SourceID>, rsk: SecretKeys,
    group: seq<EncRowWithHint<P>>, invMask: P): Option<map<SourceID, Bytes>> {
    if group == [] then Some(map[]) else
      var last := |group| - 1;
      var front :- DecryptedRows(S, sid, ids, rsk, group[..last], invMask);
      var value :- DecryptedValue(S, sid, ids, rsk, group[last], invMask);
      Some(front[value.0 := value.1])
  }

  function DecryptedGroup<P(!new)>(S: Suite<P>, sid: Bytes, ids: seq<SourceID>, rsk: SecretKeys,
    group: seq<EncRowWithHint<P>>): Option<map<SourceID, Bytes>> {
    DecryptedRows(S, sid, ids, rsk, group, S.group.Invert(S.group.Product(UnblindedHints(S.group, rsk.bsk, group))))
  }

  ghost predicate AllDecrypt<P(!new)>(S: Suite<P>, sid: Bytes, ids: seq<SourceID>, rsk: SecretKeys,
    group: seq<EncRowWithHint<P>>, invMask: P) {
    forall j :: 0 <= j < |group| ==> DecryptedValue(S, sid, ids, rsk, group[j], invMask).Some?
  }

  lemma AllDecryptNext<P(!new)>(S: Suite<P>, sid: Bytes, ids: seq<SourceID>, rsk: SecretKeys,
    front: seq<EncRowWithHint<P>>, last: EncRowWithHint<P>, invMask: P)
    ensures AllDecrypt(S, sid, ids, rsk, front + [last], invMask)
      <==> AllDecrypt(S, sid, ids, rsk, front, invMask) && DecryptedValue(S, sid, ids, rsk, last, invMask).Some?
  {
    var group := front + [last];
    assert group[|front|] == last && forall j :: 0 <= j < |front| ==> group[j] == front[j];
  }

  lemma {:induction false} DecryptedRowsExactly<P(!new)>(S: Suite<P>, sid: Bytes, ids: seq<SourceID>, rsk: SecretKeys,
    group: seq<EncRowWithHint<P>>, invMask: P)
    ensures DecryptedRows(S, sid, ids, rsk, group, invMask).Some? <==> AllDecrypt(S, sid, ids, rsk, group, invMask)
  {
    if group != [] {
      var front, last := group[..|group| - 1], group[|group| - 1];
      DecryptedRowsExactly(S, sid, ids, rsk, front, invMask);
      AllDecryptNext(S, sid, ids, rsk, front, last, invMask);
      assert group == front + [last];
    }
  }

  lemma {:induction false} DecryptedRowsKeys<P(!new)>(S: Suite<P>, sid: Bytes, ids: seq<SourceID>, rsk: SecretKeys,
    group: seq<EncRowWithHint<P>>, invMask: P)
    requires DecryptedRows(S, sid, ids, rsk, group, invMask).Some?
    ensures DecryptedRows(S, sid, ids, rsk, group, invMask).value.Keys <= Elements(ids)
  {
    if group != [] {
      DecryptedRowsKeys(S, sid, ids, rsk, group[..|group| - 1], invMask);
    }
  }

  // The source index of a payload is a byte, so that only the first 256 sources occur.
  lemma {:induction false} DecryptedKeysFirst<P(!new)>(S: Suite<P>, sid: Bytes, ids: seq<SourceID>, rsk: SecretKeys,
    group: seq<EncRowWithHint<P>>, invMask: P)
    requires |ids| >= 256 && DecryptedRows(S, sid, ids, rsk, group, invMask).Some?
    ensures DecryptedRows(S, sid, ids, rsk, group, invMask).value.Keys <= Elements(ids[..256])
  {
    if group != [] {
      var last := group[|group| - 1];
      DecryptedKeysFirst(S, sid, ids, rsk, group[..|group| - 1], invMask);
      DecryptedIndex(S, sid, ids, rsk, last, invMask);
    }
  }

  lemma DecryptedIndex<P(!new)>(S: Suite<P>, sid: Bytes, ids: seq<SourceID>, rsk: SecretKeys,
    row: EncRowWithHint<P>, invMask: P)
    requires |ids| >= 256 && DecryptedValue(S, sid, ids, rsk, row, invMask).Some?
    ensures DecryptedValue(S, sid, ids, rsk, row, invMask).value.0 in ids[..256]
  {
    var keyp := S.group.Mul(OPRFUnblind(S.group, rsk.bsk, row.cvalKey), invMask);
    var i := OpenedPayload(S, KeyFromPoint(S, keyp, sid), row.cval).value.0;
    assert ids[..256][i] == ids[i];
  }

  // ----- JoinTables -----

  ghost predicate NymsDefined<P(!new)>(S: Suite<P>, bsk: nat, rows: seq<EncRowWithHint<P>>) {
    forall j :: 0 <= j < |rows| ==> NymBytes(S, bsk, rows[j]).Some?
  }

  // Every complete group of the arrived rows decrypts.
  ghost predicate GroupsOpen<P(!new)>(S: Suite<P>, sid: Bytes, ids: seq<SourceID>, rsk: SecretKeys,
    rows: seq<EncRowWithHint<P>>) {
    forall key :: IsFull(S, rsk.bsk, ids, rows, key) ==>
      DecryptedGroup(S, sid, ids, rsk, GroupOf(S, rsk.bsk, rows, key)).Some?
  }

  // values holds one row for each complete group of the arrived rows, and nothing else.
  ghost predicate JoinsFullGroups<P(!new)>(S: Suite<P>, sid: Bytes, ids: seq<SourceID>, rsk: SecretKeys,
    rows: seq<EncRowWithHint<P>>, keys: seq<Bytes>, values: seq<seq<Bytes>>)
  {
    && NoDuplicates(keys)
    && (forall key :: key in keys <==> IsFull(S, rsk.bsk, ids, rows, key))
    && |values| == |keys|
    && (forall i :: 0 <= i < |keys| ==>
        var dec := DecryptedGroup(S, sid, ids, rsk, GroupOf(S, rsk.bsk, rows, keys[i]));
        dec.Some? && values[i] == RowOf(ids, dec.value))
  }

  ghost predicate IsFull<P(!new)>(S: Suite<P>, bsk: nat, ids: seq<SourceID>, rows: seq<EncRowWithHint<P>>, key: Bytes) {
    |GroupOf(S, bsk, rows, key)| == |ids| > 0
  }

  // ----- The order of arrival does not decide what opens -----

  lemma MultiplicityNext<T>(s: seq<T>, y: T, x: T)
    ensures multiset(s + [y])[x] == multiset(s)[x] + if x == y then 1 else 0
  {
  }

  lemma {:induction false} GroupMultiplicity<P(!new)>(S: Suite<P>, bsk: nat, rows: seq<EncRowWithHint<P>>, key: Bytes,
    x: EncRowWithHint<P>)
    ensures multiset(GroupOf(S, bsk, rows, key))[x] == if NymBytes(S, bsk, x) == Some(key) then multiset(rows)[x] else 0
  {
    if rows != [] {
      var front, last := rows[..|rows| - 1], rows[|rows| - 1];
      GroupMultiplicity(S, bsk, front, key, x);
      assert rows == front + [last];
      GroupOfNext(S, bsk, front, last, key);
      MultiplicityNext(front, last, x);
      MultiplicityNext(GroupOf(S, bsk, front, key), last, x);
    }
  }

  lemma GroupsPermuted<P(!new)>(S: Suite<P>, bsk: nat, rows1: seq<EncRowWithHint<P>>, rows2: seq<EncRowWithHint<P>>,
    key: Bytes)
    requires multiset(rows1) == multiset(rows2)
    ensures multiset(GroupOf(S, bsk, rows1, key)) == multiset(GroupOf(S, bsk, rows2, key))
    ensures |GroupOf(S, bsk, rows1, key)| == |GroupOf(S, bsk, rows2, key)|
  {
    var group1, group2 := GroupOf(S, bsk, rows1, key), GroupOf(S, bsk, rows2, key);
    forall x
      ensures multiset(group1)[x] == multiset(group2)[x]
    {
      GroupMultiplicity(S, bsk, rows1, key, x);
      GroupMultiplicity(S, bsk, rows2, key, x);
    }
    assert |multiset(group1)| == |group1| && |multiset(group2)| == |group2|;
  }

  lemma HintsPermuted<P(!new)>(G: Group<P>, bsk: nat, group1: seq<EncRowWithHint<P>>, group2: seq<EncRowWithHint<P>>)
    requires G.Laws() && multiset(group1) == multiset(group2)
    ensures G.Product(UnblindedHints(G, bsk, group1)) == G.Product(UnblindedHints(G, bsk, group2))
  {
    var hint := (row: EncRowWithHint<P>) => OPRFUnblind(G, bsk, row.chint);
    assert UnblindedHints(G, bsk, group1) == Permutations.Map(hint, group1);
    assert UnblindedHints(G, bsk, group2) == Permutations.Map(hint, group2);
    MapKeepsMultiset(hint, group1, group2);
    G.ProductOfPermutation(UnblindedHints(G, bsk, group1), UnblindedHints(G, bsk, group2));
  }

  lemma AllDecryptPermuted<P(!new)>(S: Suite<P>, sid: Bytes, ids: seq<SourceID>, rsk: SecretKeys,
    group1: seq<EncRowWithHint<P>>, group2: seq<EncRowWithHint<P>>, invMask: P)
    requires multiset(group1) == multiset(group2) && AllDecrypt(S, sid, ids, rsk, group1, invMask)
    ensures AllDecrypt(S, sid, ids, rsk, group2, invMask)
  {
    forall j | 0 <= j < |group2|
      ensures DecryptedValue(S, sid, ids, rsk, group2[j], invMask).Some?
    {
      assert group2[j] in multiset(group1);
      var k :| 0 <= k < |group1| && group1[k] == group2[j];
    }
  }

  lemma GroupOpensPermuted<P(!new)>(S: Suite<P>, sid: Bytes, ids: seq<SourceID>, rsk: SecretKeys,
    group1: seq<EncRowWithHint<P>>, group2: seq<EncRowWithHint<P>>)
    requires S.Laws() && multiset(group1) == multiset(group2)
    ensures DecryptedGroup(S, sid, ids, rsk, group1).Some? <==> DecryptedGroup(S, sid, ids, rsk, group2).Some?
  {
    HintsPermuted(S.group, rsk.bsk, group1, group2);
    var invMask := S.group.Invert(S.group.Product(UnblindedHints(S.group, rsk.bsk, group1)));
    DecryptedRowsExactly(S, sid, ids, rsk, group1, invMask);
    DecryptedRowsExactly(S, sid, ids, rsk, group2, invMask);
    if AllDecrypt(S, sid, ids, rsk, group1, invMask) {
      AllDecryptPermuted(S, sid, ids, rsk, group1, group2, invMask);
    } else if AllDecrypt(S, sid, ids, rsk, group2, invMask) {
      AllDecryptPermuted(S, sid, ids, rsk, group2, group1, invMask);
    }
  }

  lemma GroupsOpenPermuted<P(!new)>(S: Suite<P>, sid: Bytes, ids: seq<SourceID>, rsk: SecretKeys,
    rows: seq<EncRowWithHint<P>>, arrival: seq<nat>)
    requires S.Laws() && IsPermutation(arrival, |rows|)
    ensures GroupsOpen(S, sid, ids, rsk, Select(rows, arrival)) <==> GroupsOpen(S, sid, ids, rsk, rows)
  {
    var arrived := Select(rows, arrival);
    Scattered(arrived, arrival, rows);
    forall key
      ensures IsFull(S, rsk.bsk, ids, arrived, key) <==> IsFull(S, rsk.bsk, ids, rows, key)
      ensures DecryptedGroup(S, sid, ids, rsk, GroupOf(S, rsk.bsk, arrived, key)).Some?
        <==> DecryptedGroup(S, sid, ids, rsk, GroupOf(S, rsk.bsk, rows, key)).Some?
    {
      GroupsPermuted(S, rsk.bsk, arrived, rows, key);
      GroupOpensPermuted(S, sid, ids, rsk, GroupOf(S, rsk.bsk, arrived, key), GroupOf(S, rsk.bsk, rows, key));
    }
  }

  // A possible result of JoinTables: the rows arrive, and the groups are inserted, in any order.
  ghost predicate IsJoined<P(!new)>(S: Suite<P>, sid: Bytes, ids: seq<SourceID>, rsk: SecretKeys,
    rows: seq<EncRowWithHint<P>>, values: seq<seq<Bytes>>) {
    && NymsDefined(S, rsk.bsk, rows)
    && exists arrival: seq<nat>, keys: seq<Bytes> ::
        IsPermutation(arrival, |rows|) && JoinsFullGroups(S, sid, ids, rsk, Select(rows, arrival), keys, values)
  }

  // With more than 256 sources the columns from 256 on stay empty in every output row.
  lemma LateColumnsStayEmpty<P(!new)>(S: Suite<P>, sid: Bytes, ids: seq<SourceID>, rsk: SecretKeys,
    rows: seq<EncRowWithHint<P>>, values: seq<seq<Bytes>>, i: nat, c: nat)
    requires NoDuplicates(ids) && IsJoined(S, sid, ids, rsk, rows, values)
    requires i < |values| && 256 <= c < |ids|
    ensures |values[i]| == |ids| && values[i][c] == []
  {
    var arrival: seq<nat>, keys: seq<Bytes> :|
      IsPermutation(arrival, |rows|) && JoinsFullGroups(S, sid, ids, rsk, Select(rows, arrival), keys, values);
    var group := GroupOf(S, rsk.bsk, Select(rows, arrival), keys[i]);
    var invMask := S.group.Invert(S.group.Product(UnblindedHints(S.group, rsk.bsk, group)));
    DecryptedKeysFirst(S, sid, ids, rsk, group, invMask);
    var dec := DecryptedGroup(S, sid, ids, rsk, group).value;
    assert values[i] == RowOf(ids, dec);
    assert ids[c] !in ids[..256];
    assert ids[c] !in Elements(ids[..256]);
  }

  class Receiver<P(!new)> {
    const S: Suite<P>
    const sid: Bytes
    const sourceIDs: seq<SourceID>
    const recvSK: SecretKeys
    const recvPK: PublicKeys<P>

    // NewReceiverWithKeys
    constructor (S: Suite<P>, sid: Bytes, sourceIDs: seq<SourceID>, rsk: SecretKeys, rpk: PublicKeys<P>)
      ensures this.S == S && this.sid == sid && this.sourceIDs == sourceIDs && recvSK == rsk && recvPK == rpk
    {
      this.S, this.sid, this.sourceIDs, recvSK, recvPK := S, sid, sourceIDs, rsk, rpk;
    }

    // NewReceiver: both key pairs are fresh, with the draws b and e.
    constructor WithFreshKeys(S: Suite<P>, sid: Bytes, sourceIDs: seq<SourceID>, b: nat, e: nat)
      requires S.Laws()
      ensures this.S == S && this.sid == sid && this.sourceIDs == sourceIDs
      ensures KeyPairs(S.group, recvSK, recvPK)
      ensures recvSK.bsk < S.group.order && (recvSK.bsk + b) % S.group.order == 0
      ensures recvSK.esk < S.group.order && (recvSK.esk + e) % S.group.order == 0
    {
      var (bsk, bpk) := PKEKeyGen(S.group, b);
      var (esk, epk) := PKEKeyGen(S.group, e);
      this.S, this.sid, this.sourceIDs := S, sid, sourceIDs;
      recvSK, recvPK := SecretKeys(bsk, esk), PublicKeys(bpk, epk);
    }

    method DecryptGroup(group: seq<EncRowWithHint<P>>) returns (r: Option<map<SourceID, Bytes>>)
      requires S.Laws()
      ensures r == DecryptedGroup(S, sid, sourceIDs, recvSK, group)
    {
      var G := S.group;
      ghost var hints := UnblindedHints(G, recvSK.bsk, group);
      var mask := G.one;
      for i := 0 to |group|
        invariant mask == G.Product(hints[..i])
      {
        G.ProductAppend(hints[..i], hints[i]);
        assert hints[..i + 1] == hints[..i] + [hints[i]];
        mask := G.Mul(mask, OPRFUnblind(G, recvSK.bsk, group[i].chint));
      }
      assert hints[..|group|] == hints;
      var invMask := G.Invert(mask);
      r := DecryptRows(group, invMask);
    }

    method DecryptRows(group: seq<EncRowWithHint<P>>, invMask: P) returns (r: Option<map<SourceID, Bytes>>)
      ensures r == DecryptedRows(S, sid, sourceIDs, recvSK, group, invMask)
    {
      var out: map<SourceID, Bytes> := map[];
      for i := 0 to |group|
        invariant DecryptedRows(S, sid, sourceIDs, recvSK, group[..i], invMask) == Some(out)
      {
        assert group[..i + 1][..i] == group[..i];
        var value := DecryptValue(group[i], invMask);
        if value.None? {
          DecryptedRowsExactly(S, sid, sourceIDs, recvSK, group, invMask);
          return None;
        }
        out := out[value.value.0 := value.value.1];
      }
      assert group[..|group|] == group;
      return Some(out);
    }

    // The body of the second loop of decryptGroup.
    method DecryptValue(row: EncRowWithHint<P>, invMask: P) returns (r: Option<(SourceID, Bytes)>)
      ensures r == DecryptedValue(S, sid, sourceIDs, recvSK, row, invMask)
    {
      var keyp := S.group.Mul(OPRFUnblind(S.group, recvSK.bsk, row.cvalKey), invMask);
      var data := Ctr(S, KeyFromPoint(S, keyp, sid), row.cval);
      if data.None? || |data.value| == 0 {
        return None;
      }
      var sourceIndex, encValBytes := data.value[0], data.value[1..];
      var encVal := DeserializeCiphertexts(S, encValBytes);
      if sourceIndex >= |sourceIDs| || encVal.None? {
        return None;
      }
      var plaintext := PKEDecryptVector(S, recvSK.esk, encVal.value);
      if plaintext.None? {
        return None;
      }
      return Some((sourceIDs[sourceIndex], plaintext.value));
    }

    // What the workers have done with the rows that arrived.
    ghost predicate Grouped(rows: seq<EncRowWithHint<P>>, arrival: seq<nat>, groups: NymGroups<P>) {
      && (forall j :: 0 <= j < |arrival| ==> arrival[j] < |rows|)
      && NymsDefined(S, recvSK.bsk, Select(rows, arrival))
      && IsGrouping(S, recvSK.bsk, groups, Select(rows, arrival))
    }

    lemma NextRow(rows: seq<EncRowWithHint<P>>, arrival: seq<nat>, groups: NymGroups<P>, id: nat)
      requires Grouped(rows, arrival, groups) && id < |rows| && NymBytes(S, recvSK.bsk, rows[id]).Some?
      ensures Grouped(rows, arrival + [id], AddRow(groups, NymBytes(S, recvSK.bsk, rows[id]).value, rows[id]))
    {
      var before, after := Select(rows, arrival), Select(rows, arrival + [id]);
      assert after == before + [rows[id]];
      AddRowGroups(S, recvSK.bsk, groups, before, rows[id]);
      NymsNext(before, rows[id]);
    }

    lemma NymsNext(rows: seq<EncRowWithHint<P>>, row: EncRowWithHint<P>)
      requires NymsDefined(S, recvSK.bsk, rows) && NymBytes(S, recvSK.bsk, row).Some?
      ensures NymsDefined(S, recvSK.bsk, rows + [row])
    {
    }

    lemma AllGrouped(rows: seq<EncRowWithHint<P>>, arrival: seq<nat>, groups: NymGroups<P>)
      requires IsPermutation(arrival, |rows|) && Grouped(rows, arrival, groups)
      ensures NymsDefined(S, recvSK.bsk, rows)
    {
      PermutationCovers(arrival, |rows|);
      forall j: nat | j < |rows|
        ensures NymBytes(S, recvSK.bsk, rows[j]).Some?
      {
        assert j in arrival;
        var k :| 0 <= k < |arrival| && arrival[k] == j;
        assert Select(rows, arrival)[k] == rows[j];
      }
    }

    // The first phase: workers decrypt pseudonyms and append to the groups in any interleaving.
    method GroupRows(rows: seq<EncRowWithHint<P>>, n: nat) returns (r: Option<NymGroups<P>>, ghost arrival: seq<nat>)
      requires n >= 1
      ensures r.Some? <==> NymsDefined(S, recvSK.bsk, rows)
      ensures r.Some? ==> IsPermutation(arrival, |rows|) && Grouped(rows, arrival, r.value)
    {
      var groups: NymGroups<P> := map[];
      var p := Pool(0, n, {}, 0, 0);
      arrival := [];
      while p.idle > 0 || p.busy != {}
        invariant p.Conserved(|rows|, n, arrival)
        invariant Grouped(rows, arrival, groups)
        decreases p.Remaining(|rows|)
      {
        if
        case p.idle > 0 && p.next < |rows| =>
          p.ReceiveConserves(|rows|, n, arrival);
          p := p.Receive();
        case p.idle > 0 && p.next == |rows| =>
          p.ReceiveConserves(|rows|, n, arrival);
          p := p.Exit();
        case p.busy != {} =>
          var id :| id in p.busy;
          p.CompleteConserves(|rows|, n, arrival, id);
          var key := NymBytes(S, recvSK.bsk, rows[id]);
          if key.None? {
            return None, [];
          }
          NextRow(rows, arrival, groups, id);
          groups := AddRow(groups, key.value, rows[id]);
          p := p.Complete(id);
          arrival := arrival + [id];
      }
      p.AllCompleted(|rows|, n, arrival);
      AllGrouped(rows, arrival, groups);
      return Some(groups), arrival;
    }

    // The complete groups, in the order in which the map is ranged over.
    method FullGroups(groups: NymGroups<P>) returns (keys: seq<Bytes>)
      ensures NoDuplicates(keys)
      ensures forall key :: key in keys <==> key in groups && |groups[key]| == |sourceIDs|
    {
      keys := [];
      var left := groups.Keys;
      while left != {}
        invariant left <= groups.Keys && NoDuplicates(keys)
        invariant forall key :: key in keys <==> key in groups && key !in left && |groups[key]| == |sourceIDs|
      {
        var key :| key in left;
        if |groups[key]| == |sourceIDs| {
          keys := keys + [key];
        }
        left := left - {key};
      }
    }

    // The rows inserted for the groups named by keys.
    ghost predicate Inserted(groups: NymGroups<P>, keys: seq<Bytes>, values: seq<seq<Bytes>>) {
      |values| == |keys| && (forall i :: 0 <= i < |keys| ==> IsRowOf(groups, keys[i], values[i]))
    }

    ghost predicate IsRowOf(groups: NymGroups<P>, key: Bytes, row: seq<Bytes>) {
      key in groups &&
        var dec := DecryptedGroup(S, sid, sourceIDs, recvSK, groups[key]);
        dec.Some? && row == RowOf(sourceIDs, dec.value)
    }

    ghost predicate Decryptable(groups: NymGroups<P>) {
      forall key :: key in groups && |groups[key]| == |sourceIDs| ==>
        DecryptedGroup(S, sid, sourceIDs, recvSK, groups[key]).Some?
    }

    // The second phase: the complete groups are decrypted, and a row is inserted for each.
    method IntersectHint(groups: NymGroups<P>, n: nat) returns (join: JoinTable, ok: bool, ghost keys: seq<Bytes>)
      requires S.Laws() && n >= 1
      ensures fresh(join) && join.sourceids == sourceIDs
      ensures ok <==> Decryptable(groups)
      ensures ok ==> NoDuplicates(keys) && Inserted(groups, keys, join.values)
      ensures ok ==> forall key :: key in keys <==> key in groups && |groups[key]| == |sourceIDs|
    {
      var tasks := FullGroups(groups);
      join := new JoinTable(sourceIDs);
      ghost var done;
      ok, done, keys := DecryptTasks(groups, tasks, join, n);
      if ok {
        AllInserted(groups, tasks, done, keys, join.values);
      }
    }

    // Its workers run in any interleaving.
    method DecryptTasks(groups: NymGroups<P>, tasks: seq<Bytes>, join: JoinTable, n: nat)
      returns (ok: bool, ghost done: seq<nat>, ghost keys: seq<Bytes>)
      requires S.Laws() && n >= 1 && join.sourceids == sourceIDs && join.values == []
      requires forall i :: 0 <= i < |tasks| ==> tasks[i] in groups
      modifies join
      ensures ok ==> IsPermutation(done, |tasks|) && Completed(tasks, done, keys) && Inserted(groups, keys, join.values)
      ensures !ok ==> exists i :: 0 <= i < |tasks| && DecryptedGroup(S, sid, sourceIDs, recvSK, groups[tasks[i]]).None?
    {
      var p := Pool(0, n, {}, 0, 0);
      done, keys := [], [];
      while p.idle > 0 || p.busy != {}
        invariant p.Conserved(|tasks|, n, done)
        invariant Completed(tasks, done, keys)
        invariant Inserted(groups, keys, join.values)
        decreases p.Remaining(|tasks|)
      {
        if
        case p.idle > 0 && p.next < |tasks| =>
          p.ReceiveConserves(|tasks|, n, done);
          p := p.Receive();
        case p.idle > 0 && p.next == |tasks| =>
          p.ReceiveConserves(|tasks|, n, done);
          p := p.Exit();
        case p.busy != {} =>
          var id :| id in p.busy;
          p.CompleteConserves(|tasks|, n, done, id);
          ok := DecryptAndInsert(groups, tasks[id], join, keys);
          if !ok {
            return;
          }
          CompletedNext(tasks, done, keys, id);
          p := p.Complete(id);
          keys, done := keys + [tasks[id]], done + [id];
      }
      p.AllCompleted(|tasks|, n, done);
      ok := true;
    }

    ghost predicate Completed(tasks: seq<Bytes>, done: seq<nat>, keys: seq<Bytes>) {
      |keys| == |done| && forall j :: 0 <= j < |done| ==> done[j] < |tasks| && keys[j] == tasks[done[j]]
    }

    lemma CompletedNext(tasks: seq<Bytes>, done: seq<nat>, keys: seq<Bytes>, id: nat)
      requires Completed(tasks, done, keys) && id < |tasks|
      ensures Completed(tasks, done + [id], keys + [tasks[id]])
    {
    }

    lemma AllInserted(groups: NymGroups<P>,
      tasks: seq<Bytes>, done: seq<nat>, keys: seq<Bytes>, values: seq<seq<Bytes>>)
      requires NoDuplicates(tasks) && IsPermutation(done, |tasks|) && Completed(tasks, done, keys)
      requires forall key :: key in tasks <==> key in groups && |groups[key]| == |sourceIDs|
      requires Inserted(groups, keys, values)
      ensures NoDuplicates(keys)
      ensures forall key :: key in keys <==> key in groups && |groups[key]| == |sourceIDs|
      ensures Decryptable(groups)
    {
      SelectPermutation(tasks, done);
      assert keys == Select(tasks, done);
      forall key
        ensures key in keys <==> key in tasks
      {
        assert key in keys <==> key in Elements(keys);
        assert key in tasks <==> key in Elements(tasks);
      }
      forall key | key in groups && |groups[key]| == |sourceIDs|
        ensures DecryptedGroup(S, sid, sourceIDs, recvSK, groups[key]).Some?
      {
        assert key in keys;
        var i :| 0 <= i < |keys| && keys[i] == key;
        assert IsRowOf(groups, keys[i], values[i]);
      }
    }

    method DecryptAndInsert(groups: NymGroups<P>, key: Bytes, join: JoinTable, ghost keys: seq<Bytes>)
      returns (ok: bool)
      requires S.Laws() && key in groups && join.sourceids == sourceIDs && Inserted(groups, keys, join.values)
      modifies join
      ensures ok <==> DecryptedGroup(S, sid, sourceIDs, recvSK, groups[key]).Some?
      ensures ok ==> Inserted(groups, keys + [key], join.values)
    {
      var vals := DecryptGroup(groups[key]);
      if vals.None? {
        return false;
      }
      DecryptedRowsKeys(S, sid, sourceIDs, recvSK, groups[key],
        S.group.Invert(S.group.Product(UnblindedHints(S.group, recvSK.bsk, groups[key]))));
      ok := join.Insert(vals.value);
    }

    // ok is false where the call panics or exits, which the rows alone decide, whatever the
    // schedule; otherwise the table is a possible result.
    method JoinTablesStream(rows: seq<EncRowWithHint<P>>, numTable: nat, n: nat) returns (join: JoinTable, ok: bool)
      requires S.Laws() && n >= 1
      ensures fresh(join) && join.sourceids == sourceIDs
      ensures ok ==> IsJoined(S, sid, sourceIDs, recvSK, rows, join.values)
      ensures ok <==> NymsDefined(S, recvSK.bsk, rows) && GroupsOpen(S, sid, sourceIDs, recvSK, rows)
    {
      var groups;
      ghost var arrival, keys;
      groups, arrival := GroupRows(rows, n);
      if groups.None? {
        join := new JoinTable(sourceIDs);
        return join, false;
      }
      join, ok, keys := IntersectHint(groups.value, n);
      OpensIfDecryptable(rows, arrival, groups.value);
      GroupsOpenPermuted(S, sid, sourceIDs, recvSK, rows, arrival);
      if ok {
        GroupsJoined(rows, arrival, groups.value, keys, join.values);
      }
    }

    // A zero row, left in a slot that no row was stored to, makes a worker panic.
    method JoinTables(joinedTables: seq<Option<EncRowWithHint<P>>>, tableAmount: nat, n: nat)
      returns (join: JoinTable, ok: bool)
      requires S.Laws() && n >= 1
      ensures fresh(join) && join.sourceids == sourceIDs
      ensures ok ==> AllSome(joinedTables) && IsJoined(S, sid, sourceIDs, recvSK, Values(joinedTables), join.values)
      ensures ok <==> (AllSome(joinedTables) && NymsDefined(S, recvSK.bsk, Values(joinedTables))
        && GroupsOpen(S, sid, sourceIDs, recvSK, Values(joinedTables)))
    {
      if !AllSome(joinedTables) {
        join := new JoinTable(sourceIDs);
        return join, false;
      }
      join, ok := JoinTablesStream(Values(joinedTables), tableAmount, n);
    }

    lemma OpensIfDecryptable(rows: seq<EncRowWithHint<P>>, arrival: seq<nat>, groups: NymGroups<P>)
      requires IsPermutation(arrival, |rows|) && Grouped(rows, arrival, groups)
      ensures GroupsOpen(S, sid, sourceIDs, recvSK, Select(rows, arrival)) <==> Decryptable(groups)
    {
      var arrived := Select(rows, arrival);
      forall key
        ensures IsFull(S, recvSK.bsk, sourceIDs, arrived, key) <==> key in groups && |groups[key]| == |sourceIDs|
      {
      }
    }

    lemma GroupsJoined(rows: seq<EncRowWithHint<P>>, arrival: seq<nat>, groups: NymGroups<P>, keys: seq<Bytes>,
      values: seq<seq<Bytes>>)
      requires IsPermutation(arrival, |rows|) && Grouped(rows, arrival, groups)
      requires NoDuplicates(keys) && Inserted(groups, keys, values)
      requires forall key :: key in keys <==> key in groups && |groups[key]| == |sourceIDs|
      ensures IsJoined(S, sid, sourceIDs, recvSK, rows, values)
    {
      AllGrouped(rows, arrival, groups);
      var arrived := Select(rows, arrival);
      forall key
        ensures key in keys <==> IsFull(S, recvSK.bsk, sourceIDs, arrived, key)
      {
      }
      forall i | 0 <= i < |keys|
        ensures var dec := DecryptedGroup(S, sid, sourceIDs, recvSK, GroupOf(S, recvSK.bsk, arrived, keys[i]));
          dec.Some? && values[i] == RowOf(sourceIDs, dec.value)
      {
        assert IsRowOf(groups, keys[i], values[i]);
      }
      assert JoinsFullGroups(S, sid, sourceIDs, recvSK, arrived, keys, values);
    }
  }
}
