/** Plain tables, join tables and the plaintext join, from mppj-go/table.go. */
module Tables {
  import opened Octets
  import opened Options
  import opened Permutations

  type SourceID = string
  type TablePlain = map<Bytes, Bytes>

  // slices.Index
  function IndexOf(ids: seq<SourceID>, id: SourceID): (r: Option<nat>)
    ensures r.None? ==> id !in ids
    ensures r.Some? ==> r.value < |ids| && ids[r.value] == id && id !in ids[..r.value]
  {
    if ids == [] then None
    else if ids[0] == id then Some(0)
    else
      var rest := IndexOf(ids[1..], id);
      if rest.None? then None else Some(rest.value + 1)
  }

  // The row Insert builds: a column without a value stays empty, and of equal source ids only
  // the first column is filled.
  function RowOf(ids: seq<SourceID>, values: map<SourceID, Bytes>): (r: seq<Bytes>)
    ensures |r| == |ids|
  {
    seq(|ids|, c requires 0 <= c < |ids| =>
      if ids[c] in values && IndexOf(ids, ids[c]) == Some(c) then values[ids[c]] else [])
  }

  // Each value stands in one column, the first of its source; no other column of that source, and
  // none of a source without a value, holds anything.
  lemma EachValueOnce(ids: seq<SourceID>, values: map<SourceID, Bytes>, id: SourceID) returns (c: nat)
    requires id in ids
    ensures c < |ids| && ids[c] == id && id !in ids[..c]
    ensures RowOf(ids, values)[c] == if id in values then values[id] else []
    ensures forall k :: 0 <= k < |ids| && ids[k] == id && k != c ==> RowOf(ids, values)[k] == []
  {
    c := IndexOf(ids, id).value;
  }

  class JoinTable {
    const sourceids: seq<SourceID>
    var values: seq<seq<Bytes>>

    constructor (sourceIDs: seq<SourceID>)
      ensures sourceids == sourceIDs && values == []
    {
      sourceids := sourceIDs;
      values := [];
    }

    // The map is ranged over in any order.
    method Insert(vals: map<SourceID, Bytes>) returns (ok: bool)
      modifies this
      ensures ok <==> vals.Keys <= Elements(sourceids)
      ensures values == if ok then old(values) + [RowOf(sourceids, vals)] else old(values)
    {
      var row := new Bytes[|sourceids|](_ => []);
      var left := vals.Keys;
      while left != {}
        invariant left <= vals.Keys
        invariant forall id :: id in vals && id !in left ==> id in sourceids
        invariant forall c :: 0 <= c < row.Length ==>
          row[c] == if sourceids[c] in vals && sourceids[c] !in left && IndexOf(sourceids, sourceids[c]) == Some(c)
            then vals[sourceids[c]] else []
        invariant values == old(values)
      {
        var id :| id in left;
        var col := IndexOf(sourceids, id);
        if col.None? {
          assert id !in Elements(sourceids);
          return false;
        }
        row[col.value] := vals[id];
        left := left - {id};
      }
      assert row[..] == RowOf(sourceids, vals);
      values := values + [row[..]];
      return true;
    }

    // Rows are compared as one string, their values joined with '|'. None stands for the panic
    // when the other table's source list ends too early.
    method EqualContents(other: JoinTable) returns (r: Option<bool>)
      ensures r.None? <==> |values| == |other.values| && other.sourceids < sourceids
      ensures r.Some? ==> (r.value <==> Accepts(sourceids, values, other.sourceids, other.values))
    {
      if |values| != |other.values| {
        return Some(false);
      }
      for i := 0 to |sourceids|
        invariant i <= |other.sourceids| && sourceids[..i] == other.sourceids[..i]
      {
        if i >= |other.sourceids| {
          return None;
        }
        if sourceids[i] != other.sourceids[i] {
          return Some(false);
        }
      }
      assert sourceids == other.sourceids[..|sourceids|];
      var keys: set<Bytes> := {};
      for i := 0 to |values|
        invariant keys == set k | 0 <= k < i :: Join(values[k])
      {
        keys := keys + {Join(values[i])};
      }
      for j := 0 to |other.values|
        invariant forall k :: 0 <= k < j ==> HasKey(values, Join(other.values[k]))
      {
        if Join(other.values[j]) !in keys {
          assert !HasKey(values, Join(other.values[j]));
          return Some(false);
        }
      }
      return Some(true);
    }
  }

  // strings.Join(row, "|")
  function Join(row: seq<Bytes>): Bytes {
    if |row| == 0 then [] else if |row| == 1 then row[0] else row[0] + [BAR] + Join(row[1..])
  }

  const BAR: byte := 0x7c

  ghost predicate HasKey(rows: seq<seq<Bytes>>, key: Bytes) {
    exists k :: 0 <= k < |rows| && Join(rows[k]) == key
  }

  ghost predicate Accepts(ids1: seq<SourceID>, rows1: seq<seq<Bytes>>, ids2: seq<SourceID>, rows2: seq<seq<Bytes>>) {
    && |rows1| == |rows2|
    && ids1 <= ids2
    && forall j :: 0 <= j < |rows2| ==> HasKey(rows1, Join(rows2[j]))
  }

  lemma JoinNext(v: Bytes, row: seq<Bytes>)
    requires row != []
    ensures Join([v] + row) == v + [BAR] + Join(row)
  {
    assert ([v] + row)[1..] == row;
  }

  // Columns are joined in order, with one '|' between them.
  lemma {:induction false} JoinConcat(row1: seq<Bytes>, row2: seq<Bytes>)
    requires row1 != [] && row2 != []
    ensures BAR == '|' as int
    ensures Join(row1 + row2) == Join(row1) + [BAR] + Join(row2)
    ensures |row1| == 1 ==> Join(row1) == row1[0]
  {
    if |row1| == 1 {
      JoinNext(row1[0], row2);
      assert row1 == [row1[0]];
    } else {
      var v, rest := row1[0], row1[1..];
      JoinConcat(rest, row2);
      JoinNext(v, rest);
      JoinNext(v, rest + row2);
      assert row1 == [v] + rest && row1 + row2 == [v] + (rest + row2);
      Regroup(v, Join(rest), [BAR] + Join(row2));
      assert v + [BAR] + Join(rest) + ([BAR] + Join(row2)) == v + [BAR] + Join(rest) + [BAR] + Join(row2);
      assert Join(rest) + [BAR] + Join(row2) == Join(rest) + ([BAR] + Join(row2));
    }
  }

  // A row can be joined like one of fewer columns, whose last holds what is left.
  lemma Folded(row: seq<Bytes>, width: nat) returns (folded: seq<Bytes>)
    requires 1 <= width <= |row|
    ensures |folded| == width && Join(folded) == Join(row)
  {
    var front, back := row[..width - 1], row[width - 1..];
    folded := front + [Join(back)];
    if front == [] {
      assert back == row && folded == [Join(row)];
    } else {
      JoinConcat(front, back);
      JoinConcat(front, [Join(back)]);
      assert row == front + back;
    }
  }

  // Of the source lists only this is decided: for some rows of the first table, a second table is
  // accepted exactly if the first table's sources are the first ones of the second.
  lemma SourcesAccepted(ids1: seq<SourceID>, ids2: seq<SourceID>, rows2: seq<seq<Bytes>>)
    requires ids1 != [] && HasWidth(rows2, |ids2|)
    ensures (exists rows1 :: HasWidth(rows1, |ids1|) && Accepts(ids1, rows1, ids2, rows2)) <==> ids1 <= ids2
  {
    if ids1 <= ids2 {
      var rows1 := FoldedRows(rows2, |ids1|, |ids2|);
      assert Accepts(ids1, rows1, ids2, rows2);
    }
  }

  lemma {:induction false} FoldedRows(rows: seq<seq<Bytes>>, width: nat, wide: nat) returns (folded: seq<seq<Bytes>>)
    requires 1 <= width <= wide && HasWidth(rows, wide)
    ensures |folded| == |rows| && HasWidth(folded, width)
    ensures forall j :: 0 <= j < |rows| ==> HasKey(folded, Join(rows[j]))
  {
    if rows == [] {
      folded := [];
    } else {
      var n := |rows| - 1;
      var before := FoldedRows(rows[..n], width, wide);
      var last := Folded(rows[n], width);
      folded := before + [last];
      forall j | 0 <= j < |rows|
        ensures HasKey(folded, Join(rows[j]))
      {
        if j < n {
          assert HasKey(before, Join(rows[..n][j]));
          var k :| 0 <= k < |before| && Join(before[k]) == Join(rows[j]);
          assert folded[k] == before[k];
        } else {
          assert folded[n] == last;
        }
      }
    }
  }

  // EqualContents accepts every reordering of the rows.
  lemma AcceptsPermutations(ids: seq<SourceID>, rows1: seq<seq<Bytes>>, rows2: seq<seq<Bytes>>)
    requires multiset(rows1) == multiset(rows2)
    ensures Accepts(ids, rows1, ids, rows2)
  {
    assert |multiset(rows1)| == |rows1| && |multiset(rows2)| == |rows2|;
    forall j | 0 <= j < |rows2|
      ensures HasKey(rows1, Join(rows2[j]))
    {
      assert rows2[j] in multiset(rows1);
    }
  }

  // Reordering the rows of either table does not matter.
  lemma AcceptsReordered(ids: seq<SourceID>, rows1: seq<seq<Bytes>>, rows2: seq<seq<Bytes>>,
    rows1': seq<seq<Bytes>>, rows2': seq<seq<Bytes>>)
    requires multiset(rows1) == multiset(rows1') && multiset(rows2) == multiset(rows2')
    requires Accepts(ids, rows1, ids, rows2)
    ensures Accepts(ids, rows1', ids, rows2')
  {
    assert |multiset(rows1)| == |rows1| && |multiset(rows1')| == |rows1'|;
    assert |multiset(rows2)| == |rows2| && |multiset(rows2')| == |rows2'|;
    forall j | 0 <= j < |rows2'|
      ensures HasKey(rows1', Join(rows2'[j]))
    {
      assert rows2'[j] in multiset(rows2);
      var i :| 0 <= i < |rows2| && rows2[i] == rows2'[j];
      assert HasKey(rows1, Join(rows2[i]));
      var k :| 0 <= k < |rows1| && Join(rows1[k]) == Join(rows2[i]);
      assert rows1[k] in multiset(rows1');
    }
  }

  // Every row has one value for each of width sources, as Insert makes them.
  ghost predicate HasWidth(rows: seq<seq<Bytes>>, width: nat) {
    forall j :: 0 <= j < |rows| ==> |rows[j]| == width
  }

  ghost predicate BarFree(row: seq<Bytes>) {
    forall c :: 0 <= c < |row| ==> BAR !in row[c]
  }

  // What decides whether acceptance can be relied on, given the second table: its rows are all
  // different and, unless there is one column only, no value holds a '|'.
  ghost predicate Unambiguous(rows: seq<seq<Bytes>>, width: nat) {
    width == 0 || (NoDuplicates(rows) && (width == 1 || forall j :: 0 <= j < |rows| ==> BarFree(rows[j])))
  }

  lemma JoinSplit(row: seq<Bytes>)
    requires |row| > 1
    ensures multiset(Join(row))[BAR] == multiset(row[0])[BAR] + 1 + multiset(Join(row[1..]))[BAR]
  {
    assert Join(row) == row[0] + [BAR] + Join(row[1..]);
  }

  // A joined row of n columns holds n - 1 bars, and more exactly if a value holds one.
  lemma {:induction false} BarsOfJoin(row: seq<Bytes>)
    requires |row| >= 1
    ensures multiset(Join(row))[BAR] >= |row| - 1
    ensures multiset(Join(row))[BAR] == |row| - 1 <==> BarFree(row)
  {
    assert BAR in row[0] <==> multiset(row[0])[BAR] > 0;
    if |row| > 1 {
      JoinSplit(row);
      BarsOfJoin(row[1..]);
      assert BarFree(row) <==> BAR !in row[0] && BarFree(row[1..]) by {
        assert row == [row[0]] + row[1..];
      }
    }
  }

  lemma {:induction false} BarFreeInjective(row1: seq<Bytes>, row2: seq<Bytes>)
    requires |row1| == |row2| >= 1 && Join(row1) == Join(row2) && BarFree(row1) && BarFree(row2)
    ensures row1 == row2
  {
    if |row1| > 1 {
      var a, b, s := row1[0], row2[0], Join(row1);
      assert s[|a|] == BAR && s[|b|] == BAR && s[..|a|] == a && s[..|b|] == b;
      assert forall i :: 0 <= i < |a| ==> s[..|a|][i] == s[i] != BAR;
      assert forall i :: 0 <= i < |b| ==> s[..|b|][i] == s[i] != BAR;
      assert s[|a| + 1..] == Join(row1[1..]) == Join(row2[1..]);
      BarFreeInjective(row1[1..], row2[1..]);
      assert row1 == [a] + row1[1..] && row2 == [b] + row2[1..];
    }
  }

  // One column is joined as it is; otherwise it is enough that one of the rows is free of bars.
  lemma JoinInjective(row1: seq<Bytes>, row2: seq<Bytes>)
    requires |row1| == |row2| && Join(row1) == Join(row2)
    requires |row1| > 1 ==> BarFree(row2)
    ensures row1 == row2
  {
    if |row1| > 1 {
      BarsOfJoin(row1);
      BarsOfJoin(row2);
      BarFreeInjective(row1, row2);
    }
  }

  lemma {:induction false} DistinctIfManyElements<T>(s: seq<T>)
    ensures |Elements(s)| <= |s|
    ensures |Elements(s)| == |s| ==> NoDuplicates(s)
  {
    if s != [] {
      var last := |s| - 1;
      DistinctIfManyElements(s[..last]);
      assert Elements(s) == Elements(s[..last]) + {s[last]};
      if s[last] in s[..last] {
        assert Elements(s) == Elements(s[..last]);
      }
    }
  }

  // A second table that is unambiguous is accepted exactly if the tables hold the same rows.
  lemma AcceptedTablesAgree(ids: seq<SourceID>, rows1: seq<seq<Bytes>>, rows2: seq<seq<Bytes>>)
    requires HasWidth(rows1, |ids|) && HasWidth(rows2, |ids|) && Unambiguous(rows2, |ids|)
    ensures Accepts(ids, rows1, ids, rows2) <==> multiset(rows1) == multiset(rows2)
  {
    if multiset(rows1) == multiset(rows2) {
      AcceptsPermutations(ids, rows1, rows2);
    }
    if Accepts(ids, rows1, ids, rows2) && |ids| >= 1 {
      AcceptedRowsAgree(ids, rows1, rows2);
    }
    assert |ids| == 0 && |rows1| == |rows2| ==> rows1 == rows2;
  }

  lemma AcceptedRowsAgree(ids: seq<SourceID>, rows1: seq<seq<Bytes>>, rows2: seq<seq<Bytes>>)
    requires |ids| >= 1 && HasWidth(rows1, |ids|) && HasWidth(rows2, |ids|) && Unambiguous(rows2, |ids|)
    requires Accepts(ids, rows1, ids, rows2)
    ensures multiset(rows1) == multiset(rows2)
  {
    forall row | row in Elements(rows2)
      ensures row in Elements(rows1)
    {
      var j :| 0 <= j < |rows2| && rows2[j] == row;
      assert HasKey(rows1, Join(rows2[j]));
      var k :| 0 <= k < |rows1| && Join(rows1[k]) == Join(row);
      JoinInjective(rows1[k], row);
    }
    ElementsCardinality(rows2);
    DistinctIfManyElements(rows1);
    SubsetCardinality(Elements(rows2), Elements(rows1));
    SameElements(rows1, rows2);
  }

  // Moving a bar from one column to the next does not change the joined row.
  lemma {:induction false} JoinOfShifted(row1: seq<Bytes>, row2: seq<Bytes>, c: nat)
    requires |row1| == |row2| && c + 1 < |row1|
    requires row1[c] + [BAR] + row1[c + 1] == row2[c] + [BAR] + row2[c + 1]
    requires row1[..c] == row2[..c] && row1[c + 2..] == row2[c + 2..]
    ensures Join(row1) == Join(row2)
  {
    if c > 0 {
      assert row1[0] == row1[..c][0] == row2[..c][0] == row2[0];
      assert row1[1..][..c - 1] == row1[..c][1..] && row2[1..][..c - 1] == row2[..c][1..];
      assert row1[1..][c + 1..] == row1[c + 2..] && row2[1..][c + 1..] == row2[c + 2..];
      JoinOfShifted(row1[1..], row2[1..], c - 1);
    } else {
      JoinFirstTwo(row1);
      JoinFirstTwo(row2);
    }
  }

  // What follows a value in a joined row.
  function Rest(row: seq<Bytes>): Bytes {
    if row == [] then [] else [BAR] + Join(row)
  }

  lemma JoinFirst(row: seq<Bytes>)
    requires row != []
    ensures Join(row) == row[0] + Rest(row[1..])
  {
    if |row| > 1 {
      assert Join(row) == row[0] + [BAR] + Join(row[1..]);
    }
  }

  lemma JoinFirstTwo(row: seq<Bytes>)
    requires |row| >= 2
    ensures Join(row) == row[0] + [BAR] + row[1] + Rest(row[2..])
  {
    JoinFirst(row);
    JoinFirst(row[1..]);
    assert row[1..][1..] == row[2..];
    Regroup(row[0], row[1], Rest(row[2..]));
  }

  lemma Regroup(a: Bytes, b: Bytes, c: Bytes)
    ensures a + ([BAR] + (b + c)) == a + [BAR] + b + c
  {
  }

  // A row of two or more columns that holds a bar is joined like another row.
  lemma Twin(row: seq<Bytes>, c: nat) returns (twin: seq<Bytes>)
    requires |row| >= 2 && c < |row| && BAR in row[c]
    ensures |twin| == |row| && twin != row && Join(twin) == Join(row)
  {
    var i :| 0 <= i < |row[c]| && row[c][i] == BAR;
    var p, q := row[c][..i], row[c][i + 1..];
    assert row[c] == p + [BAR] + q;
    if c + 1 < |row| {
      twin := row[c := p][c + 1 := q + [BAR] + row[c + 1]];
      assert p + [BAR] + (q + [BAR] + row[c + 1]) == (p + [BAR] + q) + [BAR] + row[c + 1];
      JoinOfShifted(twin, row, c);
    } else {
      twin := row[c - 1 := row[c - 1] + [BAR] + p][c := q];
      assert (row[c - 1] + [BAR] + p) + [BAR] + q == row[c - 1] + [BAR] + (p + [BAR] + q);
      JoinOfShifted(twin, row, c - 1);
    }
    assert |twin[c]| != |row[c]|;
  }

  lemma ReplacedDiffers<T>(s: seq<T>, j: nat, x: T)
    requires j < |s| && x != s[j]
    ensures multiset(s[j := x]) != multiset(s)
  {
    assert multiset(s[j := x]) == multiset(s)[s[j] := multiset(s)[s[j]] - 1][x := multiset(s)[x] + 1];
  }

  // An ambiguous second table is also accepted for a first table that holds other rows.
  lemma AmbiguousIsAccepted(ids: seq<SourceID>, rows2: seq<seq<Bytes>>) returns (rows1: seq<seq<Bytes>>)
    requires HasWidth(rows2, |ids|) && !Unambiguous(rows2, |ids|)
    ensures HasWidth(rows1, |ids|) && Accepts(ids, rows1, ids, rows2) && multiset(rows1) != multiset(rows2)
  {
    if !NoDuplicates(rows2) {
      var i, j :| 0 <= i < j < |rows2| && rows2[i] == rows2[j];
      var other := rows2[j][0 := rows2[j][0] + [1]];
      assert |other[0]| != |rows2[j][0]|;
      rows1 := rows2[j := other];
      assert forall k :: 0 <= k < |rows2| ==> rows1[if k == j then i else k] == rows2[k];
      ReplacedDiffers(rows2, j, other);
    } else {
      var j :| 0 <= j < |rows2| && !BarFree(rows2[j]);
      var c :| 0 <= c < |rows2[j]| && BAR in rows2[j][c];
      var twin := Twin(rows2[j], c);
      rows1 := rows2[j := twin];
      assert forall k :: 0 <= k < |rows2| ==> Join(rows1[k]) == Join(rows2[k]);
      ReplacedDiffers(rows2, j, twin);
    }
  }

  // EqualContents decides equality of the rows, for a given second table and every first one,
  // exactly if the second table is unambiguous.
  lemma AcceptanceDecides(ids: seq<SourceID>, rows2: seq<seq<Bytes>>)
    requires HasWidth(rows2, |ids|)
    ensures (forall rows1 | HasWidth(rows1, |ids|) ::
      Accepts(ids, rows1, ids, rows2) <==> multiset(rows1) == multiset(rows2)) <==> Unambiguous(rows2, |ids|)
  {
    if Unambiguous(rows2, |ids|) {
      forall rows1 | HasWidth(rows1, |ids|)
        ensures Accepts(ids, rows1, ids, rows2) <==> multiset(rows1) == multiset(rows2)
      {
        AcceptedTablesAgree(ids, rows1, rows2);
      }
    } else {
      var rows1 := AmbiguousIsAccepted(ids, rows2);
    }
  }

  // Two inputs: a bar in one of two columns, and a repeated row.
  lemma AcceptsDifferentTables(a: SourceID, b: SourceID)
    ensures Accepts([a, b], [[[BAR], []]], [a, b], [[[], [BAR]]])
    ensures [[[BAR], []]] != [[[], [BAR]]]
    ensures Accepts([a], [[[1]], [[2]]], [a], [[[1]], [[1]]])
    ensures multiset([[[1]], [[2]]]) != multiset([[[1]], [[1]]])
  {
    var row1: seq<Bytes>, row2: seq<Bytes> := [[BAR], []], [[], [BAR]];
    assert row1[1..] == [[]] && row2[1..] == [[BAR]];
    assert Join(row1) == [BAR, BAR] == Join(row2);
    assert Join([row1][0]) == Join(row2);
    var one: seq<Bytes>, two: seq<Bytes> := [[1]], [[2]];
    assert Join([one, two][0]) == Join(one);
    assert multiset([one, two])[two] == 1 && multiset([one, one])[two] == 0;
  }

  // ----- IntersectSimple -----

  // The values that the tables hold for one uid.
  function ValuesOf(tables: map<SourceID, TablePlain>, uid: Bytes): map<SourceID, Bytes> {
    map id | id in tables && uid in tables[id] :: tables[id][uid]
  }

  ghost function AllUids(tables: map<SourceID, TablePlain>): set<Bytes> {
    set id, uid | id in tables && uid in tables[id] :: uid
  }

  ghost function CommonUids(tables: map<SourceID, TablePlain>): set<Bytes> {
    set uid | uid in AllUids(tables) && forall id :: id in tables ==> uid in tables[id]
  }

  function JoinRow(tables: map<SourceID, TablePlain>, sources: seq<SourceID>): Bytes -> seq<Bytes> {
    uid => RowOf(sources, ValuesOf(tables, uid))
  }

  // One row for each uid that every table has, in some order, and nothing else.
  ghost predicate IsJoin(tables: map<SourceID, TablePlain>, sources: seq<SourceID>, rows: seq<seq<Bytes>>) {
    exists order: seq<Bytes> ::
      NoDuplicates(order) && Elements(order) == CommonUids(tables) && rows == Map(JoinRow(tables, sources), order)
  }

  // The join is unique up to the order of its rows.
  lemma JoinIsUnique(tables: map<SourceID, TablePlain>, sources: seq<SourceID>, rows1: seq<seq<Bytes>>,
    rows2: seq<seq<Bytes>>)
    requires IsJoin(tables, sources, rows1) && IsJoin(tables, sources, rows2)
    ensures multiset(rows1) == multiset(rows2)
  {
    var order1: seq<Bytes> :| NoDuplicates(order1) && Elements(order1) == CommonUids(tables)
      && rows1 == Map(JoinRow(tables, sources), order1);
    var order2: seq<Bytes> :| NoDuplicates(order2) && Elements(order2) == CommonUids(tables)
      && rows2 == Map(JoinRow(tables, sources), order2);
    SameElements(order1, order2);
    MapKeepsMultiset(JoinRow(tables, sources), order1, order2);
  }

  // With one table per source, column i of a row is the value of the i-th source's table.
  lemma JoinRowColumns(tables: map<SourceID, TablePlain>, sources: seq<SourceID>, uid: Bytes, i: nat)
    requires NoDuplicates(sources) && tables.Keys == Elements(sources)
    requires uid in CommonUids(tables) && i < |sources|
    ensures sources[i] in tables && uid in tables[sources[i]]
    ensures JoinRow(tables, sources)(uid)[i] == tables[sources[i]][uid]
  {
    assert sources[i] in Elements(sources);
    var j := IndexOf(sources, sources[i]).value;
    assert j == i;
  }

  // ----- Rows whose values are equal or rank lower -----

  function Ranks(row: seq<Bytes>): nat {
    if row == [] then 0 else Rank(row[0]) + Ranks(row[1..])
  }

  lemma {:induction false} RanksOrdered(row1: seq<Bytes>, row2: seq<Bytes>)
    requires |row1| == |row2| && forall i :: 0 <= i < |row1| ==> row1[i] == row2[i] || Rank(row1[i]) < Rank(row2[i])
    ensures Ranks(row1) <= Ranks(row2)
    ensures Ranks(row1) == Ranks(row2) ==> row1 == row2
  {
    if row1 != [] {
      RanksOrdered(row1[1..], row2[1..]);
      assert row1 == [row1[0]] + row1[1..] && row2 == [row2[0]] + row2[1..];
    }
  }

  ghost predicate EqualOrLower(rows1: seq<seq<Bytes>>, rows2: seq<seq<Bytes>>) {
    |rows1| == |rows2| && forall j :: 0 <= j < |rows1| ==> rows1[j] == rows2[j] || Ranks(rows1[j]) < Ranks(rows2[j])
  }

  function TotalRank(rows: seq<seq<Bytes>>): nat {
    if rows == [] then 0 else Ranks(rows[0]) + TotalRank(rows[1..])
  }

  lemma {:induction false} TotalRankIsSum(rows: seq<seq<Bytes>>)
    ensures TotalRank(rows) == Sum(Map(Ranks, rows))
  {
    if rows != [] {
      TotalRankIsSum(rows[1..]);
      assert Map(Ranks, rows)[1..] == Map(Ranks, rows[1..]);
    }
  }

  lemma RestOrdered(rows1: seq<seq<Bytes>>, rows2: seq<seq<Bytes>>)
    requires rows1 != [] && EqualOrLower(rows1, rows2)
    ensures rows1[0] == rows2[0] || Ranks(rows1[0]) < Ranks(rows2[0])
    ensures EqualOrLower(rows1[1..], rows2[1..])
  {
  }

  lemma {:induction false} TotalOrdered(rows1: seq<seq<Bytes>>, rows2: seq<seq<Bytes>>)
    requires EqualOrLower(rows1, rows2)
    ensures TotalRank(rows1) <= TotalRank(rows2)
    ensures TotalRank(rows1) == TotalRank(rows2) ==> rows1 == rows2
  {
    if rows1 != [] {
      RestOrdered(rows1, rows2);
      TotalOrdered(rows1[1..], rows2[1..]);
      assert rows1 == [rows1[0]] + rows1[1..] && rows2 == [rows2[0]] + rows2[1..];
    }
  }

  // Rows that are equal or lower one by one, and the same together, are all equal.
  lemma LowerOrEqual(rows1: seq<seq<Bytes>>, rows2: seq<seq<Bytes>>)
    requires EqualOrLower(rows1, rows2) && multiset(rows1) == multiset(rows2)
    ensures rows1 == rows2
  {
    MapKeepsMultiset(Ranks, rows1, rows2);
    SumOfPermutation(Map(Ranks, rows1), Map(Ranks, rows2));
    TotalRankIsSum(rows1);
    TotalRankIsSum(rows2);
    TotalOrdered(rows1, rows2);
  }

  type PartJoin = map<Bytes, map<SourceID, Bytes>>

  // part groups, by uid, the values of the finished tables and of the rows done of one more.
  ghost predicate Groups(part: PartJoin, tables: map<SourceID, TablePlain>, finished: set<SourceID>,
    current: SourceID, done: set<Bytes>) {
    && (forall uid, id :: uid in part && id in part[uid] <==>
      id in tables && uid in tables[id] && (id in finished || (id == current && uid in done)))
    && (forall uid, id :: uid in part && id in part[uid] ==> part[uid][id] == tables[id][uid])
    && (forall uid :: uid in part ==> part[uid] != map[])
  }

  function AddValue(part: PartJoin, uid: Bytes, id: SourceID, value: Bytes): PartJoin {
    part[uid := (if uid in part then part[uid] else map[])[id := value]]
  }

  lemma GroupsStep(part: PartJoin, tables: map<SourceID, TablePlain>, finished: set<SourceID>, id: SourceID,
    done: set<Bytes>, uid: Bytes)
    requires Groups(part, tables, finished, id, done)
    requires id in tables && uid in tables[id]
    ensures Groups(AddValue(part, uid, id, tables[id][uid]), tables, finished, id, done + {uid})
  {
  }

  lemma GroupsDone(part: PartJoin, tables: map<SourceID, TablePlain>, uid: Bytes)
    requires Groups(part, tables, tables.Keys, "", {})
    ensures uid in part <==> uid in AllUids(tables)
    ensures uid in part ==> part[uid] == ValuesOf(tables, uid)
  {
    if uid in part {
      assert part[uid].Keys == ValuesOf(tables, uid).Keys;
      var id :| id in part[uid];
    }
  }

  // The rows of a table, and the tables, are ranged over in any order.
  method GroupTable(part: PartJoin, tables: map<SourceID, TablePlain>, id: SourceID, ghost finished: set<SourceID>)
    returns (r: PartJoin)
    requires id in tables && Groups(part, tables, finished, id, {})
    ensures Groups(r, tables, finished, id, tables[id].Keys)
  {
    r := part;
    var table := tables[id];
    var todo := table.Keys;
    while todo != {}
      invariant todo <= table.Keys
      invariant Groups(r, tables, finished, id, table.Keys - todo)
    {
      var uid :| uid in todo;
      GroupsStep(r, tables, finished, id, table.Keys - todo, uid);
      r := AddValue(r, uid, id, table[uid]);
      assert table.Keys - todo + {uid} == table.Keys - (todo - {uid});
      todo := todo - {uid};
    }
    assert table.Keys - todo == table.Keys;
  }

  method GroupByUid(tables: map<SourceID, TablePlain>) returns (part: PartJoin)
    ensures forall uid :: uid in part <==> uid in AllUids(tables)
    ensures forall uid :: uid in part ==> part[uid] == ValuesOf(tables, uid)
  {
    part := map[];
    var left := tables.Keys;
    while left != {}
      invariant left <= tables.Keys
      invariant Groups(part, tables, tables.Keys - left, "", {})
    {
      var id :| id in left;
      part := GroupTable(part, tables, id, tables.Keys - left);
      left := left - {id};
    }
    assert tables.Keys - left == tables.Keys;
    forall uid {
      GroupsDone(part, tables, uid);
    }
  }

  lemma FullGroup(tables: map<SourceID, TablePlain>, uid: Bytes)
    requires uid in AllUids(tables)
    ensures |ValuesOf(tables, uid)| == |tables| <==> uid in CommonUids(tables)
    ensures uid in CommonUids(tables) ==> ValuesOf(tables, uid).Keys == tables.Keys
  {
    var keys := ValuesOf(tables, uid).Keys;
    SubsetCardinality(keys, tables.Keys);
    assert uid in CommonUids(tables) ==> keys == tables.Keys;
  }

  // Insertion fails, and its error is ignored, when a table belongs to no listed source.
  method IntersectSimple(tables: map<SourceID, TablePlain>, sources: seq<SourceID>) returns (joined: JoinTable)
    ensures fresh(joined) && joined.sourceids == sources
    ensures tables.Keys <= Elements(sources) ==> IsJoin(tables, sources, joined.values)
    ensures !(tables.Keys <= Elements(sources)) ==> joined.values == []
  {
    var part := GroupByUid(tables);
    joined := new JoinTable(sources);
    var left := part.Keys;
    ghost var order: seq<Bytes> := [];
    while left != {}
      invariant left <= part.Keys
      invariant NoDuplicates(order)
      invariant forall uid :: uid in order <==> uid in CommonUids(tables) && uid !in left
      invariant joined.values == if tables.Keys <= Elements(sources) then Map(JoinRow(tables, sources), order) else []
    {
      var uid :| uid in left;
      FullGroup(tables, uid);
      if |part[uid]| == |tables| {
        var _ := joined.Insert(part[uid]);
        MapAppend(JoinRow(tables, sources), order, uid);
        order := order + [uid];
      }
      left := left - {uid};
    }
    assert Elements(order) == CommonUids(tables);
  }
}
