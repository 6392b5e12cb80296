/** The generator of test tables, from mppj-exps/gen_data.py: all tables get the same keys, and then
    all but joinsize of the keys are renamed in some of the tables. */
module GenData {
  import opened Options
  import opened Permutations

  type Table = map<string, string>

  // Decimal digits, as in an f-string.
  function Decimal(n: nat): (r: string)
    ensures |r| >= 1
  {
    if n < 10 then [Digit(n)] else Decimal(n / 10) + [Digit(n % 10)]
  }

  function Digit(d: nat): char
    requires d < 10
  {
    "0123456789"[d]
  }

  predicate IsDigit(c: char) {
    '0' <= c <= '9'
  }

  function Value(c: char): (d: nat)
    requires IsDigit(c)
    ensures d < 10
  {
    c as int - '0' as int
  }

  function Pow10(n: nat): nat {
    if n == 0 then 1 else 10 * Pow10(n - 1)
  }

  // The number that a string of digits stands for, by the place of each digit.
  function Number(s: string): nat
    requires forall i :: 0 <= i < |s| ==> IsDigit(s[i])
  {
    if s == "" then 0 else Value(s[0]) * Pow10(|s| - 1) + Number(s[1..])
  }

  lemma {:induction false} NumberAppend(s: string, c: char)
    requires (forall i :: 0 <= i < |s| ==> IsDigit(s[i])) && IsDigit(c)
    ensures forall i :: 0 <= i < |s + [c]| ==> IsDigit((s + [c])[i])
    ensures Number(s + [c]) == 10 * Number(s) + Value(c)
  {
    if s == "" {
      assert (s + [c])[1..] == "";
    } else {
      NumberAppend(s[1..], c);
      assert (s + [c])[1..] == s[1..] + [c];
      NextPlace(Value(s[0]), Pow10(|s| - 1), Number(s[1..]), Value(c));
    }
  }

  lemma NextPlace(d: nat, w: nat, rest: nat, last: nat)
    ensures d * (10 * w) + (10 * rest + last) == 10 * (d * w + rest) + last
  {
  }

  lemma DigitValue(d: nat)
    requires d < 10
    ensures IsDigit(Digit(d)) && Value(Digit(d)) == d
  {
    assert forall i :: 0 <= i < 10 ==> "0123456789"[i] == '0' + i as char;
  }

  // The digits stand for the number, and the first is not zero unless it is the only one.
  lemma {:induction false} DecimalReads(n: nat)
    ensures forall i :: 0 <= i < |Decimal(n)| ==> IsDigit(Decimal(n)[i])
    ensures Number(Decimal(n)) == n
    ensures |Decimal(n)| > 1 ==> Decimal(n)[0] != '0'
  {
    DigitValue(n % 10);
    if n >= 10 {
      DecimalReads(n / 10);
      NumberAppend(Decimal(n / 10), Digit(n % 10));
      FirstDigit(n / 10);
    } else {
      assert [Digit(n)][1..] == "";
    }
  }

  lemma FirstDigit(n: nat)
    ensures n > 0 && |Decimal(n)| == 1 ==> Decimal(n)[0] != '0'
  {
    if n < 10 {
      DigitValue(n);
    }
  }

  lemma DecimalInjective(m: nat, n: nat)
    requires Decimal(m) == Decimal(n)
    ensures m == n
  {
    DecimalReads(m);
    DecimalReads(n);
  }

  function Key(i: nat): string { "key_" + Decimal(i) }

  function Removed(key: string): string { "removed_" + key }

  // The texts: key_ and the row number, removed_ and the old key.
  lemma KeyNames(i: nat, key: string)
    ensures Key(i)[..4] == "key_" && Removed(key)[..8] == "removed_" && Removed(key)[8..] == key
    ensures forall n :: 0 <= n < |Key(i)[4..]| ==> IsDigit(Key(i)[4..][n])
    ensures Number(Key(i)[4..]) == i
  {
    assert Key(i)[4..] == Decimal(i);
    DecimalReads(i);
  }

  lemma KeyInjective(i: nat, j: nat)
    ensures Key(i) == Key(j) ==> i == j
  {
    if Key(i) == Key(j) {
      assert Key(i)[4..] == Decimal(i) && Key(j)[4..] == Decimal(j);
      DecimalInjective(i, j);
    }
  }

  lemma RemovedInjective(k: string, l: string)
    ensures Removed(k) == Removed(l) ==> k == l
  {
    assert Removed(k)[8..] == k && Removed(l)[8..] == l;
  }

  function Keys(n: nat): (r: set<string>)
    ensures forall k :: k in r <==> exists i: nat :: i < n && k == Key(i)
  {
    set i: nat | i < n :: Key(i)
  }

  lemma {:induction false} KeysCardinality(n: nat)
    ensures |Keys(n)| == n
  {
    if n > 0 {
      KeysCardinality(n - 1);
      forall i: nat | i < n - 1
        ensures Key(i) != Key(n - 1)
      {
        KeyInjective(i, n - 1);
      }
      assert Keys(n) == Keys(n - 1) + {Key(n - 1)};
    }
  }

  ghost predicate SameKeys(dicts: seq<Table>) {
    forall i :: 0 <= i < |dicts| ==> dicts[i].Keys == dicts[0].Keys
  }

  ghost function CommonKeys(dicts: seq<Table>): set<string>
    requires dicts != []
  {
    set k | k in dicts[0] && forall i :: 0 <= i < |dicts| ==> k in dicts[i]
  }

  // No key is the new name of another.
  ghost predicate NoClash(keys: set<string>) {
    forall k, l :: k in keys && l in keys ==> l != Removed(k)
  }

  // ----- generate_tables -----

  // What generate_tables draws as a value for a source.
  ghost predicate IsValueOf(sourceId: string, value: string) {
    exists r: nat :: 1 <= r <= 1000 && value == "val_" + sourceId + "_" + Decimal(r)
  }

  // The text of a value: val_, the source, and a number from 1 to 1000.
  lemma ValueText(sourceId: string, value: string)
    requires IsValueOf(sourceId, value)
    ensures |value| > |sourceId| + 5 && value[..4] == "val_"
    ensures value[4..4 + |sourceId|] == sourceId && value[4 + |sourceId|] == '_'
    ensures var digits := value[5 + |sourceId|..];
      (forall i :: 0 <= i < |digits| ==> IsDigit(digits[i])) && 1 <= Number(digits) <= 1000
  {
    var r: nat :| 1 <= r <= 1000 && value == "val_" + sourceId + "_" + Decimal(r);
    DecimalReads(r);
    assert value[5 + |sourceId|..] == Decimal(r);
  }

  ghost predicate HoldsValuesOf(table: Table, sourceId: string) {
    forall k :: k in table ==> IsValueOf(sourceId, table[k])
  }

  method GenerateTables(sourceIds: seq<string>, nRows: nat) returns (dicts: seq<Table>)
    ensures |dicts| == |sourceIds|
    ensures forall j :: 0 <= j < |dicts| ==> dicts[j].Keys == Keys(nRows) && |dicts[j]| == nRows
    ensures forall j :: 0 <= j < |dicts| ==> HoldsValuesOf(dicts[j], sourceIds[j])
  {
    dicts := seq(|sourceIds|, _ => map[]);
    for i := 0 to nRows
      invariant |dicts| == |sourceIds|
      invariant forall j :: 0 <= j < |dicts| ==> dicts[j].Keys == Keys(i)
      invariant forall j :: 0 <= j < |dicts| ==> HoldsValuesOf(dicts[j], sourceIds[j])
    {
      assert Keys(i + 1) == Keys(i) + {Key(i)};
      for j := 0 to |sourceIds|
        invariant |dicts| == |sourceIds|
        invariant forall l :: 0 <= l < |dicts| ==> dicts[l].Keys == if l < j then Keys(i + 1) else Keys(i)
        invariant forall l :: 0 <= l < |dicts| ==> HoldsValuesOf(dicts[l], sourceIds[l])
      {
        var r: nat :| 1 <= r <= 1000;
        var value := "val_" + sourceIds[j] + "_" + Decimal(r);
        assert IsValueOf(sourceIds[j], value);
        dicts := dicts[j := dicts[j][Key(i) := value]];
      }
    }
    KeysCardinality(nRows);
    assert forall j :: 0 <= j < |dicts| ==> |dicts[j].Keys| == |dicts[j]|;
  }

  lemma GeneratedDoNotClash(n: nat)
    ensures NoClash(Keys(n))
  {
    forall k, l | k in Keys(n) && l in Keys(n)
      ensures l != Removed(k)
    {
      assert forall i: nat :: Key(i)[0] == 'k';
      assert Removed(k)[0] == 'r';
    }
  }

  // ----- postprocess_tables -----

  lemma DifferenceCardinality<T>(a: set<T>, b: set<T>)
    requires b <= a
    ensures |a - b| == |a| - |b|
  {
    assert a == (a - b) + b;
  }

  // random.sample(keys, count)
  method Sample<T(==)>(keys: set<T>, count: nat) returns (r: set<T>)
    requires count <= |keys|
    ensures r <= keys && |r| == count
  {
    r := {};
    while |r| < count
      invariant r <= keys && |r| <= count
    {
      DifferenceCardinality(keys, r);
      var k :| k in keys - r;
      r := r + {k};
    }
  }

  // What became of a table whose keys in renamed were renamed.
  ghost predicate IsRenamed(table: Table, renamed: set<string>, result: Table) {
    && renamed <= table.Keys
    && |result| == |table|
    && (forall k :: k in result <==> (k in table && k !in renamed) || (exists l :: l in renamed && k == Removed(l)))
    && (forall k :: k in table && k !in renamed ==> result[k] == table[k])
    && (forall l :: l in renamed ==> result[Removed(l)] == table[l])
  }

  function Rename(table: Table, key: string): Table
    requires key in table
  {
    table[Removed(key) := table[key]] - {key}
  }

  lemma RenameOne(table: Table, renamed: set<string>, result: Table, key: string)
    requires NoClash(table.Keys) && IsRenamed(table, renamed, result)
    requires key in table && key !in renamed
    ensures key in result
    ensures IsRenamed(table, renamed + {key}, Rename(result, key))
  {
    var next := Rename(result, key);
    NewNameAbsent(table, renamed, result, key);
    assert |Removed(key)| > |key|;
    assert next.Keys == result.Keys + {Removed(key)} - {key};
    assert |next| == |next.Keys| && |result| == |result.Keys|;
    forall k
      ensures k in next
        <==> (k in table && k !in renamed + {key}) || (exists l :: l in renamed + {key} && k == Removed(l))
    {
      RenamedKey(table, renamed, result, key, k);
    }
    forall l | l in renamed
      ensures next[Removed(l)] == table[l]
    {
      RemovedInjective(l, key);
    }
  }

  lemma RenamedKey(table: Table, renamed: set<string>, result: Table, key: string, k: string)
    requires NoClash(table.Keys) && IsRenamed(table, renamed, result)
    requires key in table && key !in renamed && key in result
    ensures k in Rename(result, key)
      <==> (k in table && k !in renamed + {key}) || (exists l :: l in renamed + {key} && k == Removed(l))
  {
    if l :| l in renamed && k == Removed(l) {
      assert k !in table;
      assert l in renamed + {key};
    }
    if k == Removed(key) {
      assert key in renamed + {key};
    }
  }

  // One round of postprocess_tables: a key, and the positions of the tables it is renamed in.
  datatype Round = Round(key: string, chosen: set<nat>)

  // random.sample(dicts, random.randint(1, len(dicts) - 1)): some of the tables, but not all.
  ghost predicate SomeNotAll(n: nat, chosen: set<nat>) {
    (exists i :: 0 <= i < n && i in chosen) && (exists i :: 0 <= i < n && i !in chosen)
  }

  // Rounds on different keys of the first table.
  ghost predicate AreRounds(dicts: seq<Table>, rounds: seq<Round>)
    requires dicts != []
  {
    && (forall n :: 0 <= n < |rounds| ==> rounds[n].key in dicts[0] && SomeNotAll(|dicts|, rounds[n].chosen))
    && (forall m, n :: 0 <= m < n < |rounds| ==> rounds[m].key != rounds[n].key)
  }

  // The choices that the function can make: as many rounds as keys are to be removed.
  ghost predicate Admissible(dicts: seq<Table>, joinsize: int, rounds: seq<Round>)
    requires dicts != []
  {
    AreRounds(dicts, rounds) && |rounds| == |dicts[0]| - joinsize
  }

  // What a round makes of the tables; None stands for the KeyError when a table lacks the key.
  function AfterRound(dicts: seq<Table>, round: Round): (r: Option<seq<Table>>)
    ensures r.Some? <==> forall i :: 0 <= i < |dicts| && i in round.chosen ==> round.key in dicts[i]
    ensures r.Some? ==> |r.value| == |dicts|
    ensures r.Some? ==> forall i :: 0 <= i < |dicts| && i in round.chosen ==> r.value[i] == Rename(dicts[i], round.key)
    ensures r.Some? ==> forall i :: 0 <= i < |dicts| && i !in round.chosen ==> r.value[i] == dicts[i]
  {
    if exists i :: 0 <= i < |dicts| && i in round.chosen && round.key !in dicts[i] then None
    else Some(seq(|dicts|, i requires 0 <= i < |dicts| && (i in round.chosen ==> round.key in dicts[i]) =>
      if i in round.chosen then Rename(dicts[i], round.key) else dicts[i]))
  }

  function AfterRounds(dicts: seq<Table>, rounds: seq<Round>): (r: Option<seq<Table>>)
    ensures r.Some? ==> |r.value| == |dicts|
  {
    if rounds == [] then Some(dicts) else
      var before :- AfterRounds(dicts, rounds[..|rounds| - 1]);
      AfterRound(before, rounds[|rounds| - 1])
  }

  ghost function RoundKeys(rounds: seq<Round>): set<string> {
    set n | 0 <= n < |rounds| :: rounds[n].key
  }

  // The keys that the rounds rename in table i.
  ghost function RenamedIn(rounds: seq<Round>, i: nat): set<string> {
    set n | 0 <= n < |rounds| && i in rounds[n].chosen :: rounds[n].key
  }

  lemma RoundKeysNext(front: seq<Round>, last: Round, i: nat)
    ensures RoundKeys(front + [last]) == RoundKeys(front) + {last.key}
    ensures RenamedIn(front + [last], i) == RenamedIn(front, i) + if i in last.chosen then {last.key} else {}
  {
    var rounds := front + [last];
    assert rounds[|front|] == last && forall n :: 0 <= n < |front| ==> rounds[n] == front[n];
  }

  lemma {:induction false} RoundKeysCardinality(dicts: seq<Table>, rounds: seq<Round>)
    requires dicts != [] && AreRounds(dicts, rounds)
    ensures RoundKeys(rounds) <= dicts[0].Keys && |RoundKeys(rounds)| == |rounds|
  {
    if rounds != [] {
      var front, last := rounds[..|rounds| - 1], rounds[|rounds| - 1];
      RoundKeysCardinality(dicts, front);
      RoundKeysNext(front, last, 0);
      assert rounds == front + [last];
    }
  }

  // With the same keys in all tables no round fails: a key is only taken away in its own round.
  lemma {:induction false} RoundsSucceed(dicts: seq<Table>, rounds: seq<Round>)
    requires dicts != [] && SameKeys(dicts) && AreRounds(dicts, rounds)
    ensures AfterRounds(dicts, rounds).Some?
    ensures forall i, k :: 0 <= i < |dicts| && k in dicts[0] && k !in RoundKeys(rounds) ==>
      k in AfterRounds(dicts, rounds).value[i]
  {
    if rounds != [] {
      var front, last := rounds[..|rounds| - 1], rounds[|rounds| - 1];
      RoundsSucceed(dicts, front);
      RoundKeysNext(front, last, 0);
      assert rounds == front + [last];
      assert last.key !in RoundKeys(front);
    }
  }

  // ----- Without a clash -----

  ghost predicate Proper(dicts: seq<Table>) {
    |dicts| > 1 && SameKeys(dicts) && NoClash(dicts[0].Keys)
  }

  lemma {:induction false} TableRenamed(dicts: seq<Table>, rounds: seq<Round>, i: nat)
    requires Proper(dicts) && AreRounds(dicts, rounds) && i < |dicts| && AfterRounds(dicts, rounds).Some?
    ensures IsRenamed(dicts[i], RenamedIn(rounds, i), AfterRounds(dicts, rounds).value[i])
  {
    if rounds == [] {
      NothingRenamed(dicts[i]);
      assert RenamedIn(rounds, i) == {};
    } else {
      var front, last := rounds[..|rounds| - 1], rounds[|rounds| - 1];
      TableRenamed(dicts, front, i);
      LastRound(dicts, rounds, i);
      var before := AfterRounds(dicts, front).value;
      RoundIn(before, last, dicts[i], RenamedIn(front, i), RenamedIn(rounds, i), i);
    }
  }

  lemma NothingRenamed(table: Table)
    ensures IsRenamed(table, {}, table)
  {
  }

  lemma LastRound(dicts: seq<Table>, rounds: seq<Round>, i: nat)
    requires dicts != [] && SameKeys(dicts) && AreRounds(dicts, rounds) && rounds != [] && i < |dicts|
    ensures var front, last := rounds[..|rounds| - 1], rounds[|rounds| - 1];
      && last.key in dicts[i] && last.key !in RenamedIn(front, i)
      && RenamedIn(rounds, i) == RenamedIn(front, i) + if i in last.chosen then {last.key} else {}
  {
    var front, last := rounds[..|rounds| - 1], rounds[|rounds| - 1];
    RoundKeysNext(front, last, i);
    assert rounds == front + [last];
  }

  lemma RoundIn(before: seq<Table>, round: Round, table: Table, renamed: set<string>, renamed': set<string>, i: nat)
    requires i < |before| && AfterRound(before, round).Some?
    requires NoClash(table.Keys) && IsRenamed(table, renamed, before[i]) && round.key in table && round.key !in renamed
    requires renamed' == renamed + if i in round.chosen then {round.key} else {}
    ensures IsRenamed(table, renamed', AfterRound(before, round).value[i])
  {
    if i in round.chosen {
      RenameOne(table, renamed, before[i], round.key);
    } else {
      assert renamed' == renamed;
    }
  }

  // A renamed key is missing somewhere, and so is its new name.
  lemma RenamedMissing(dicts: seq<Table>, rounds: seq<Round>, result: seq<Table>, n: nat)
    requires Proper(dicts) && AreRounds(dicts, rounds) && AfterRounds(dicts, rounds) == Some(result) && n < |rounds|
    ensures exists i :: 0 <= i < |result| && rounds[n].key !in result[i]
    ensures exists j :: 0 <= j < |result| && Removed(rounds[n].key) !in result[j]
  {
    var k := rounds[n].key;
    assert SomeNotAll(|dicts|, rounds[n].chosen);
    var i :| 0 <= i < |dicts| && i in rounds[n].chosen;
    TableRenamed(dicts, rounds, i);
    OldNameAbsent(dicts[i], RenamedIn(rounds, i), result[i], k);
    var j :| 0 <= j < |dicts| && j !in rounds[n].chosen;
    TableRenamed(dicts, rounds, j);
    assert k !in RenamedIn(rounds, j);
    NewNameAbsent(dicts[j], RenamedIn(rounds, j), result[j], k);
  }

  lemma OldNameAbsent(table: Table, renamed: set<string>, result: Table, k: string)
    requires NoClash(table.Keys) && IsRenamed(table, renamed, result) && k in renamed
    ensures k !in result
  {
  }

  lemma NewNameAbsent(table: Table, renamed: set<string>, result: Table, k: string)
    requires NoClash(table.Keys) && IsRenamed(table, renamed, result) && k in table && k !in renamed
    ensures Removed(k) !in result
  {
    forall l | Removed(l) == Removed(k)
      ensures l == k
    {
      RemovedInjective(l, k);
    }
  }

  lemma CommonIsOld(dicts: seq<Table>, rounds: seq<Round>, result: seq<Table>, k: string)
    requires Proper(dicts) && AreRounds(dicts, rounds) && AfterRounds(dicts, rounds) == Some(result)
    requires k in CommonKeys(result)
    ensures k in dicts[0] && k !in RoundKeys(rounds)
  {
    assert forall i :: 0 <= i < |result| ==> k in result[i];
    forall n | 0 <= n < |rounds|
      ensures k != rounds[n].key && k != Removed(rounds[n].key)
    {
      RenamedMissing(dicts, rounds, result, n);
    }
    TableRenamed(dicts, rounds, 0);
    NotANewName(dicts[0], RenamedIn(rounds, 0), result[0], k);
  }

  lemma NotANewName(table: Table, renamed: set<string>, result: Table, k: string)
    requires IsRenamed(table, renamed, result) && k in result
    requires forall l :: l in renamed ==> k != Removed(l)
    ensures k in table
  {
  }

  ghost predicate ValuesKept(dicts: seq<Table>, result: seq<Table>, k: string) {
    |result| == |dicts| && forall i :: 0 <= i < |dicts| ==>
      k in result[i] && k in dicts[i] && result[i][k] == dicts[i][k]
  }

  lemma OldIsKept(dicts: seq<Table>, rounds: seq<Round>, result: seq<Table>, k: string)
    requires Proper(dicts) && AreRounds(dicts, rounds) && AfterRounds(dicts, rounds) == Some(result)
    requires k in dicts[0] && k !in RoundKeys(rounds)
    ensures ValuesKept(dicts, result, k)
  {
    forall i | 0 <= i < |dicts|
      ensures k in dicts[i] && k in result[i] && result[i][k] == dicts[i][k]
    {
      TableRenamed(dicts, rounds, i);
      assert k !in RenamedIn(rounds, i);
    }
  }

  // The common keys are those without a round, with their values.
  lemma CommonAfter(dicts: seq<Table>, rounds: seq<Round>, result: seq<Table>)
    requires Proper(dicts) && AreRounds(dicts, rounds) && AfterRounds(dicts, rounds) == Some(result)
    ensures CommonKeys(result) == dicts[0].Keys - RoundKeys(rounds)
    ensures forall k :: k in CommonKeys(result) ==> ValuesKept(dicts, result, k)
  {
    forall k | k in CommonKeys(result)
      ensures k in dicts[0] && k !in RoundKeys(rounds)
    {
      CommonIsOld(dicts, rounds, result, k);
    }
    forall k | k in dicts[0] && k !in RoundKeys(rounds)
      ensures k in CommonKeys(result) && ValuesKept(dicts, result, k)
    {
      OldIsKept(dicts, rounds, result, k);
    }
  }

  ghost function Column(dicts: seq<Table>, k: string): seq<string>
    requires forall i :: 0 <= i < |dicts| ==> k in dicts[i]
  {
    seq(|dicts|, i requires 0 <= i < |dicts| => dicts[i][k])
  }

  lemma ColumnKept(dicts: seq<Table>, result: seq<Table>, k: string)
    requires |result| == |dicts| > 0 && k in CommonKeys(result)
    requires ValuesKept(dicts, result, k)
    ensures k in CommonKeys(dicts) && Column(result, k) == Column(dicts, k)
  {
  }

  ghost predicate KeepsRowCounts(dicts: seq<Table>, r: Option<seq<Table>>) {
    r.Some? && |r.value| == |dicts| && forall i :: 0 <= i < |dicts| ==> |r.value[i]| == |dicts[i]|
  }

  // What the function is for: joinsize common keys remain, with their values, and no row is lost.
  ghost predicate IsPostprocessed(dicts: seq<Table>, joinsize: int, r: Option<seq<Table>>) {
    && dicts != [] && KeepsRowCounts(dicts, r)
    && |CommonKeys(r.value)| == joinsize
    && (forall k :: k in CommonKeys(r.value) ==> k in CommonKeys(dicts) && Column(r.value, k) == Column(dicts, k))
  }

  lemma PostprocessedBy(dicts: seq<Table>, joinsize: int, rounds: seq<Round>)
    requires Proper(dicts) && Admissible(dicts, joinsize, rounds)
    ensures IsPostprocessed(dicts, joinsize, AfterRounds(dicts, rounds))
  {
    RoundsSucceed(dicts, rounds);
    var result := AfterRounds(dicts, rounds).value;
    CommonAfter(dicts, rounds, result);
    RoundKeysCardinality(dicts, rounds);
    DifferenceCardinality(dicts[0].Keys, RoundKeys(rounds));
    assert |dicts[0].Keys| == |dicts[0]|;
    forall i | 0 <= i < |dicts|
      ensures |result[i]| == |dicts[i]|
    {
      TableRenamed(dicts, rounds, i);
    }
    forall k | k in CommonKeys(result)
      ensures k in CommonKeys(dicts) && Column(result, k) == Column(dicts, k)
    {
      ColumnKept(dicts, result, k);
    }
  }

  // ----- With a clash -----

  // Renaming a key overwrites the row that already has the new name.
  lemma RenameCount(table: Table, key: string)
    requires key in table
    ensures |Rename(table, key)| == if Removed(key) in table then |table| - 1 else |table|
  {
    assert |Removed(key)| > |key|;
    var next := Rename(table, key);
    assert next.Keys == table.Keys + {Removed(key)} - {key};
    assert |next| == |next.Keys| && |table| == |table.Keys|;
  }

  lemma {:induction false} RowsNeverGrow(dicts: seq<Table>, rounds: seq<Round>, i: nat)
    requires i < |dicts| && AfterRounds(dicts, rounds).Some?
    ensures |AfterRounds(dicts, rounds).value[i]| <= |dicts[i]|
  {
    if rounds != [] {
      var front, last := rounds[..|rounds| - 1], rounds[|rounds| - 1];
      RowsNeverGrow(dicts, front, i);
      var before := AfterRounds(dicts, front).value;
      if i in last.chosen {
        RenameCount(before[i], last.key);
      }
    }
  }

  // A row lost in the first round is not restored.
  lemma {:induction false} FirstRoundLoses(dicts: seq<Table>, rounds: seq<Round>, i: nat)
    requires rounds != [] && i < |dicts| && i in rounds[0].chosen
    requires rounds[0].key in dicts[i] && Removed(rounds[0].key) in dicts[i] && AfterRounds(dicts, rounds).Some?
    ensures |AfterRounds(dicts, rounds).value[i]| < |dicts[i]|
  {
    var front, last := rounds[..|rounds| - 1], rounds[|rounds| - 1];
    var before := AfterRounds(dicts, front).value;
    if front == [] {
      RenameCount(dicts[i], last.key);
    } else {
      FirstRoundLoses(dicts, front, i);
      if i in last.chosen {
        RenameCount(before[i], last.key);
      }
    }
  }

  lemma FirstOnly(n: nat)
    requires n > 1
    ensures SomeNotAll(n, {0})
  {
    var first: set<nat> := {0};
    assert 0 in first && 1 !in first;
  }

  // Choices that start with a given key, renamed in the first table only.
  lemma {:induction false} RoundsFrom(dicts: seq<Table>, key: string, count: nat) returns (rounds: seq<Round>)
    requires |dicts| > 1 && key in dicts[0] && 0 < count <= |dicts[0]|
    ensures AreRounds(dicts, rounds) && |rounds| == count && rounds[0] == Round(key, {0})
  {
    FirstOnly(|dicts|);
    if count == 1 {
      rounds := [Round(key, {0})];
    } else {
      var front := RoundsFrom(dicts, key, count - 1);
      RoundKeysCardinality(dicts, front);
      assert |dicts[0].Keys| == |dicts[0]|;
      DifferenceCardinality(dicts[0].Keys, RoundKeys(front));
      var next :| next in dicts[0].Keys - RoundKeys(front);
      assert forall n :: 0 <= n < |front| ==> front[n].key in RoundKeys(front);
      rounds := front + [Round(next, {0})];
    }
  }

  lemma ClashingChoice(dicts: seq<Table>, joinsize: int) returns (rounds: seq<Round>)
    requires |dicts| > 1 && SameKeys(dicts) && 0 < joinsize < |dicts[0]| && !NoClash(dicts[0].Keys)
    ensures Admissible(dicts, joinsize, rounds) && !KeepsRowCounts(dicts, AfterRounds(dicts, rounds))
  {
    var k, l :| k in dicts[0] && l in dicts[0] && l == Removed(k);
    rounds := RoundsFrom(dicts, k, |dicts[0]| - joinsize);
    RoundsSucceed(dicts, rounds);
    FirstRoundLoses(dicts, rounds, 0);
  }

  // Every choice keeps the row counts exactly if no key is the new name of another, and then
  // every choice does all that the function is for.
  lemma ChoicesKeepRowsExactly(dicts: seq<Table>, joinsize: int)
    requires |dicts| > 1 && SameKeys(dicts) && 0 < joinsize < |dicts[0]|
    ensures (forall rounds | Admissible(dicts, joinsize, rounds) :: KeepsRowCounts(dicts, AfterRounds(dicts, rounds)))
      <==> NoClash(dicts[0].Keys)
    ensures (forall rounds | Admissible(dicts, joinsize, rounds) ::
      IsPostprocessed(dicts, joinsize, AfterRounds(dicts, rounds)))
      <==> NoClash(dicts[0].Keys)
  {
    if NoClash(dicts[0].Keys) {
      forall rounds | Admissible(dicts, joinsize, rounds)
        ensures IsPostprocessed(dicts, joinsize, AfterRounds(dicts, rounds))
      {
        PostprocessedBy(dicts, joinsize, rounds);
      }
    } else {
      var rounds := ClashingChoice(dicts, joinsize);
    }
  }

  // An input: two equal tables with a key and its new name, of which one key is to stay common.
  // The first table loses the row of the new name.
  lemma ClashLosesRow(k: string, v: string, w: string)
    ensures var table, rounds := map[k := v, Removed(k) := w], [Round(k, {0})];
      && Admissible([table, table], 1, rounds) && |table| == 2
      && AfterRounds([table, table], rounds) == Some([map[Removed(k) := v], table])
  {
    var table, rounds := map[k := v, Removed(k) := w], [Round(k, {0})];
    assert |Removed(k)| > |k|;
    assert table.Keys == {k, Removed(k)} && |table| == |table.Keys|;
    FirstOnly(2);
    assert Rename(table, k) == map[Removed(k) := v];
    assert AfterRounds([table, table], []) == Some([table, table]) && rounds[..0] == [];
    assert AfterRound([table, table], rounds[0]).value == [map[Removed(k) := v], table];
  }

  // ----- The function -----

  // random.sample(dicts, random.randint(1, len(dicts) - 1)), as positions
  method SampleDicts(n: nat) returns (chosen: set<nat>)
    requires n > 1
    ensures chosen <= Indices(n) && SomeNotAll(n, chosen)
  {
    var m: nat :| 1 <= m <= n - 1;
    IndicesCardinality(n);
    chosen := Sample(Indices(n), m);
    var i :| i in chosen;
    assert i in Indices(n);
    assert exists j :: j in Indices(n) && j !in chosen by {
      if Indices(n) <= chosen {
        SubsetCardinality(Indices(n), chosen);
      }
    }
  }

  // The inner loop of postprocess_tables.
  method RenameIn(dicts: seq<Table>, key: string, chosen: set<nat>) returns (r: Option<seq<Table>>)
    requires chosen <= Indices(|dicts|)
    ensures r == AfterRound(dicts, Round(key, chosen))
  {
    var result := dicts;
    var left := chosen;
    while left != {}
      invariant left <= chosen && |result| == |dicts|
      invariant forall i :: 0 <= i < |dicts| && i in chosen - left ==>
        key in dicts[i] && result[i] == Rename(dicts[i], key)
      invariant forall i :: 0 <= i < |dicts| && i !in chosen - left ==> result[i] == dicts[i]
    {
      var i :| i in left;
      assert i in Indices(|dicts|);
      if key !in result[i] {
        return None;
      }
      result := result[i := Rename(result[i], key)];
      left := left - {i};
    }
    assert result == AfterRound(dicts, Round(key, chosen)).value;
    return Some(result);
  }

  // The outer loop; with one table, random.randint(1, 0) fails.
  method RemoveKeys(dicts: seq<Table>, keysToRemove: set<string>) returns (r: Option<seq<Table>>,
    ghost rounds: seq<Round>)
    requires |dicts| > 1 && keysToRemove <= dicts[0].Keys
    ensures AreRounds(dicts, rounds) && |rounds| <= |keysToRemove| && r == AfterRounds(dicts, rounds)
    ensures r.Some? ==> |rounds| == |keysToRemove|
  {
    r, rounds := Some(dicts), [];
    var left := keysToRemove;
    while left != {}
      invariant left <= keysToRemove && |rounds| + |left| == |keysToRemove|
      invariant AreRounds(dicts, rounds) && r.Some? && r == AfterRounds(dicts, rounds)
      invariant forall n :: 0 <= n < |rounds| ==> rounds[n].key !in left
    {
      var key :| key in left;
      var chosen := SampleDicts(|dicts|);
      r := RenameIn(r.value, key, chosen);
      assert (rounds + [Round(key, chosen)])[..|rounds|] == rounds;
      rounds := rounds + [Round(key, chosen)];
      left := left - {key};
      if r.None? {
        return;
      }
    }
  }

  // The function makes admissible rounds, or stops at a KeyError.
  ghost predicate IsOutcome(dicts: seq<Table>, joinsize: int, r: Option<seq<Table>>)
    requires dicts != []
  {
    if r.Some? then
      exists rounds :: Admissible(dicts, joinsize, rounds) && r == AfterRounds(dicts, rounds)
    else
      exists rounds :: AreRounds(dicts, rounds) && |rounds| <= |dicts[0]| - joinsize && AfterRounds(dicts, rounds).None?
  }

  // None stands for a ValueError, or for a KeyError when the tables have different keys.
  method PostprocessTables(dicts: seq<Table>, joinsize: int) returns (r: Option<seq<Table>>)
    ensures dicts == [] || joinsize <= 0 ==> r == Some(dicts)
    ensures dicts != [] && 0 < joinsize && (|dicts[0]| <= joinsize || |dicts| == 1) ==> r.None?
    ensures |dicts| > 1 && 0 < joinsize < |dicts[0]| ==> IsOutcome(dicts, joinsize, r)
    ensures |dicts| > 1 && 0 < joinsize < |dicts[0]| && SameKeys(dicts) ==> r.Some?
    ensures Proper(dicts) && 0 < joinsize < |dicts[0]| ==> IsPostprocessed(dicts, joinsize, r)
  {
    if dicts == [] || joinsize <= 0 {
      return Some(dicts);
    }
    var commonKeys := dicts[0].Keys;
    if |commonKeys| <= joinsize || |dicts| == 1 {
      return None;
    }
    var keysToRemove := Sample(commonKeys, |commonKeys| - joinsize);
    ghost var rounds;
    r, rounds := RemoveKeys(dicts, keysToRemove);
    if SameKeys(dicts) {
      RoundsSucceed(dicts, rounds);
    }
    if Proper(dicts) {
      PostprocessedBy(dicts, joinsize, rounds);
    }
  }

  // ----- join_tables -----

  method JoinTables(dicts: seq<Table>) returns (joined: map<string, seq<string>>)
    ensures dicts == [] ==> joined == map[]
    ensures dicts != [] ==> joined.Keys == CommonKeys(dicts)
    ensures dicts != [] ==> forall k :: k in joined ==> joined[k] == Column(dicts, k)
  {
    joined := map[];
    if dicts == [] {
      return;
    }
    var commonKeys := dicts[0].Keys;
    for i := 1 to |dicts|
      invariant commonKeys == set k | k in dicts[0] && forall j :: 0 <= j < i ==> k in dicts[j]
    {
      commonKeys := commonKeys * dicts[i].Keys;
    }
    var left := commonKeys;
    while left != {}
      invariant left <= commonKeys && joined.Keys == commonKeys - left
      invariant forall k :: k in joined ==> joined[k] == Column(dicts, k)
    {
      var key :| key in left;
      var values := seq(|dicts|, i requires 0 <= i < |dicts| && key in dicts[i] => dicts[i][key]);
      joined := joined[key := values];
      left := left - {key};
    }
  }

  // Generated, postprocessed and joined: exactly joinsize rows, with the generated values.
  method GenerateJoin(sourceIds: seq<string>, nRows: nat, joinsize: int)
    returns (dicts: seq<Table>, result: seq<Table>, joined: map<string, seq<string>>)
    requires |sourceIds| >= 2 && 0 < joinsize < nRows
    ensures |result| == |dicts| == |sourceIds|
    ensures forall i :: 0 <= i < |result| ==> |result[i]| == nRows
    ensures |joined| == joinsize
    ensures forall k :: k in joined ==>
      (forall i :: 0 <= i < |dicts| ==> k in dicts[i]) && joined[k] == Column(dicts, k)
  {
    dicts := GenerateTables(sourceIds, nRows);
    GeneratedDoNotClash(nRows);
    var postprocessed := PostprocessTables(dicts, joinsize);
    result := postprocessed.value;
    joined := JoinTables(result);
    assert |joined| == |joined.Keys|;
  }
}
