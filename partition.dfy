/** `df.groupby(column_name)`: the rows of the uploaded sheet split into one
    group per distinct value of the chosen column. */
module Partition {

  /** A spreadsheet row: its value in the column chosen to split by, and
      its cells as a whole (kept for the per-group workbook). */
  datatype Row = Row(key: string, cells: seq<string>)

  /** One group of `groupby`: a key value and the rows that carry it. */
  datatype Group = Group(key: string, rows: seq<Row>)

  predicate Distinct<T(==)>(s: seq<T>)
  {
    forall i, j :: 0 <= i < j < |s| ==> s[i] != s[j]
  }

  /** Some row of the table carries key `k`. */
  predicate HasKey(rows: seq<Row>, k: string)
  {
    exists r :: r in rows && r.key == k
  }

  /** The distinct key values of the table. */
  function KeySet(rows: seq<Row>): set<string>
  {
    set r | r in rows :: r.key
  }

  function KeysOf(rows: seq<Row>): (ks: seq<string>)
    ensures |ks| == |rows| && forall i :: 0 <= i < |rows| ==> ks[i] == rows[i].key
  {
    seq(|rows|, i requires 0 <= i < |rows| => rows[i].key)
  }

  /** The values of `s` with repeats removed, each kept where it occurs
      first. */
  function Dedup(s: seq<string>): (d: seq<string>)
    ensures Distinct(d)
    ensures forall x :: x in d <==> x in s
  {
    if |s| == 0 then []
    else
      var d := Dedup(s[..|s| - 1]);
      assert s == s[..|s| - 1] + [s[|s| - 1]];
      if s[|s| - 1] in d then d else d + [s[|s| - 1]]
  }

  /** The keys of the table, each once, in order of first occurrence. */
  function DistinctKeys(rows: seq<Row>): (ks: seq<string>)
    ensures Distinct(ks)
    ensures forall k :: k in ks <==> HasKey(rows, k)
  {
    var ks := Dedup(KeysOf(rows));
    forall k ensures k in KeysOf(rows) <==> HasKey(rows, k) {
      if HasKey(rows, k) {
        var r :| r in rows && r.key == k;
        var i :| 0 <= i < |rows| && rows[i] == r;
        assert KeysOf(rows)[i] == k;
      }
    }
    ks
  }

  /** The rows that carry key `k`, in table order. */
  function Filter(rows: seq<Row>, k: string): (g: seq<Row>)
    ensures |g| <= |rows|
    ensures forall r :: r in g <==> r in rows && r.key == k
  {
    if |rows| == 0 then []
    else (if rows[0].key == k then [rows[0]] else []) + Filter(rows[1..], k)
  }

  /** One group per key of `ks`, in that order. */
  function GroupsFor(rows: seq<Row>, ks: seq<string>): (gs: seq<Group>)
    ensures |gs| == |ks|
    ensures forall i :: 0 <= i < |ks| ==> gs[i] == Group(ks[i], Filter(rows, ks[i]))
  {
    if |ks| == 0 then []
    else [Group(ks[0], Filter(rows, ks[0]))] + GroupsFor(rows, ks[1..])
  }

  /** `df.groupby(column_name)`: one non-empty group per distinct key, the
      keys pairwise distinct, every row of a group a table row carrying its
      key, and no group exactly for an empty table. */
  function GroupBy(rows: seq<Row>): (gs: seq<Group>)
    ensures |gs| <= |rows|
    ensures |gs| == 0 <==> |rows| == 0
    ensures forall i, j :: 0 <= i < j < |gs| ==> gs[i].key != gs[j].key
    ensures forall i :: 0 <= i < |gs| ==> gs[i].rows != []
    ensures forall i, r :: 0 <= i < |gs| && r in gs[i].rows ==> r in rows && r.key == gs[i].key
  {
    var ks := DistinctKeys(rows);
    var gs := GroupsFor(rows, ks);
    assert |ks| <= |rows| by {
      DistinctLength(ks, KeysOf(rows));
    }
    forall i | 0 <= i < |gs| ensures gs[i].rows != [] {
      assert ks[i] in ks && HasKey(rows, ks[i]);
      var r :| r in rows && r.key == ks[i];
      assert r in gs[i].rows;
    }
    assert |rows| > 0 ==> |ks| > 0 by {
      if |rows| > 0 {
        assert HasKey(rows, rows[0].key);
      }
    }
    gs
  }

  /** The rows of all groups, group after group. */
  function Flatten(gs: seq<Group>): seq<Row>
  {
    if |gs| == 0 then [] else gs[0].rows + Flatten(gs[1..])
  }

  /** The rows whose key lies in `keys`, in table order. */
  function FilterIn(rows: seq<Row>, keys: set<string>): seq<Row>
  {
    if |rows| == 0 then []
    else (if rows[0].key in keys then [rows[0]] else []) + FilterIn(rows[1..], keys)
  }

  /** A distinct sequence is no longer than any sequence holding all its
      values. */
  lemma {:induction false} DistinctLength<T>(d: seq<T>, s: seq<T>)
    requires Distinct(d)
    requires forall x :: x in d ==> x in s
    ensures |d| <= |s|
  {
    var a, b := set x | x in d, set x | x in s;
    DistinctCard(d);
    SetOfSeqCard(s);
    assert b == a + (b - a) && a !! (b - a);
    assert |b| == |a| + |b - a|;
  }

  lemma {:induction false} DistinctCard<T>(d: seq<T>)
    requires Distinct(d)
    ensures |set x | x in d| == |d|
  {
    if |d| > 0 {
      var init := d[..|d| - 1];
      DistinctCard(init);
      assert d == init + [d[|d| - 1]];
      assert (set x | x in d) == (set x | x in init) + {d[|d| - 1]};
    }
  }

  lemma {:induction false} SetOfSeqCard<T>(s: seq<T>)
    ensures |set x | x in s| <= |s|
  {
    if |s| > 0 {
      var init := s[..|s| - 1];
      SetOfSeqCard(init);
      assert s == init + [s[|s| - 1]];
      assert (set x | x in s) == (set x | x in init) + {s[|s| - 1]};
    }
  }

  /** Taking the rows of one more key adds exactly that key's rows. */
  lemma {:induction false} FilterInAddKey(rows: seq<Row>, k: string, keys: set<string>)
    requires k !in keys
    ensures multiset(FilterIn(rows, {k} + keys)) == multiset(Filter(rows, k)) + multiset(FilterIn(rows, keys))
  {
    if |rows| > 0 {
      FilterInAddKey(rows[1..], k, keys);
    }
  }

  /** With every key of the table selected, nothing is filtered out. */
  lemma {:induction false} FilterInAll(rows: seq<Row>, keys: set<string>)
    requires forall r :: r in rows ==> r.key in keys
    ensures FilterIn(rows, keys) == rows
  {
    if |rows| > 0 {
      FilterInAll(rows[1..], keys);
      assert rows == [rows[0]] + rows[1..];
    }
  }

  lemma {:induction false} FlattenGroupsFor(rows: seq<Row>, ks: seq<string>)
    requires Distinct(ks)
    ensures multiset(Flatten(GroupsFor(rows, ks))) == multiset(FilterIn(rows, set k | k in ks))
  {
    if |ks| == 0 {
      assert (set k | k in ks) == {};
      FilterInNone(rows);
    } else {
      var rest := ks[1..];
      var keys := set k | k in rest;
      DistinctTail(ks);
      FlattenGroupsForCons(rows, ks);
      calc {
        multiset(Flatten(GroupsFor(rows, ks)));
        multiset(Filter(rows, ks[0])) + multiset(Flatten(GroupsFor(rows, rest)));
        { FlattenGroupsFor(rows, rest); }
        multiset(Filter(rows, ks[0])) + multiset(FilterIn(rows, keys));
        { FilterInAddKey(rows, ks[0], keys); }
        multiset(FilterIn(rows, {ks[0]} + keys));
      }
    }
  }

  /** Dropping the first of distinct keys leaves distinct keys, none of
      them the dropped one. */
  lemma DistinctTail(ks: seq<string>)
    requires Distinct(ks) && |ks| > 0
    ensures Distinct(ks[1..])
    ensures ks[0] !in set k | k in ks[1..]
    ensures (set k | k in ks) == {ks[0]} + set k | k in ks[1..]
  {
    var rest := ks[1..];
    assert forall i :: 0 <= i < |rest| ==> rest[i] == ks[i + 1];
    assert ks == [ks[0]] + rest;
  }

  lemma FlattenGroupsForCons(rows: seq<Row>, ks: seq<string>)
    requires |ks| > 0
    ensures Flatten(GroupsFor(rows, ks)) == Filter(rows, ks[0]) + Flatten(GroupsFor(rows, ks[1..]))
  {
    var gs := GroupsFor(rows, ks);
    assert gs[1..] == GroupsFor(rows, ks[1..]);
  }

  lemma {:induction false} FilterInNone(rows: seq<Row>)
    ensures FilterIn(rows, {}) == []
  {
    if |rows| > 0 {
      FilterInNone(rows[1..]);
    }
  }

  /** The groups together hold the table's rows, each as often as in the
      table: no row is dropped and none is duplicated. */
  lemma GroupByIsPermutation(rows: seq<Row>)
    ensures multiset(Flatten(GroupBy(rows))) == multiset(rows)
  {
    var ks := DistinctKeys(rows);
    FlattenGroupsFor(rows, ks);
    forall r | r in rows ensures r.key in set k | k in ks {
      assert HasKey(rows, r.key);
    }
    FilterInAll(rows, set k | k in ks);
  }

  /** Every row of the table lies in exactly one group: the one of its key. */
  lemma RowInExactlyOneGroup(rows: seq<Row>, r: Row) returns (i: nat)
    requires r in rows
    ensures i < |GroupBy(rows)| && r in GroupBy(rows)[i].rows
    ensures forall j :: 0 <= j < |GroupBy(rows)| && r in GroupBy(rows)[j].rows ==> j == i
  {
    var ks := DistinctKeys(rows);
    var gs := GroupBy(rows);
    assert gs == GroupsFor(rows, ks);
    assert HasKey(rows, r.key);
    i :| 0 <= i < |ks| && ks[i] == r.key;
    assert r in gs[i].rows;
    forall j | 0 <= j < |gs| && r in gs[j].rows ensures j == i {
      assert gs[j].key == r.key == gs[i].key;
    }
  }

  /** There are exactly as many groups as distinct key values. */
  lemma GroupCount(rows: seq<Row>)
    ensures |GroupBy(rows)| == |KeySet(rows)|
  {
    var ks := DistinctKeys(rows);
    DistinctCard(ks);
    assert (set k | k in ks) == KeySet(rows) by {
      forall k ensures k in ks <==> k in KeySet(rows) {
        if k in ks {
          var r :| r in rows && r.key == k;
        }
      }
    }
  }

  /** The group of a key holds every row with that key as often as the
      table does, and nothing else. */
  lemma GroupHoldsKeyRows(rows: seq<Row>, i: nat)
    requires i < |GroupBy(rows)|
    ensures GroupBy(rows)[i].rows == Filter(rows, GroupBy(rows)[i].key)
    ensures forall r: Row :: r.key == GroupBy(rows)[i].key ==> multiset(GroupBy(rows)[i].rows)[r] == multiset(rows)[r]
  {
    FilterCounts(rows, GroupBy(rows)[i].key);
  }

  lemma {:induction false} FilterCounts(rows: seq<Row>, k: string)
    ensures forall r: Row :: r.key == k ==> multiset(Filter(rows, k))[r] == multiset(rows)[r]
  {
    if |rows| > 0 {
      FilterCounts(rows[1..], k);
      assert rows == [rows[0]] + rows[1..];
    }
  }

  /** A table keyed by region: East, West, East. */
  function RegionTable(): seq<Row>
  {
    [Row("East", ["1"]), Row("West", ["2"]), Row("East", ["3"])]
  }

  /** Its keys, in order of first occurrence, are East and West. */
  lemma RegionKeys()
    ensures DistinctKeys(RegionTable()) == ["East", "West"]
  {
    var ks := ["East", "West", "East"];
    assert KeysOf(RegionTable()) == ks;
    assert "East" != "West" by { assert "East"[0] != "West"[0]; }
    assert Dedup(ks[..1]) == ["East"] by {
      assert ks[..1][..0] == [];
    }
    assert Dedup(ks[..2]) == ["East", "West"] by {
      assert ks[..2][..1] == ks[..1];
    }
    assert Dedup(ks) == ["East", "West"] by {
      assert ks[..2] == ks[..|ks| - 1];
    }
  }

  /** The rows of East are the first and third, the row of West the
      second. */
  lemma RegionFilters()
    ensures var rows := RegionTable();
      Filter(rows, "East") == [rows[0], rows[2]] && Filter(rows, "West") == [rows[1]]
  {
    var rows := RegionTable();
    var east1, west, east3 := rows[0], rows[1], rows[2];
    assert "East" != "West" by { assert "East"[0] != "West"[0]; }
    assert rows[1..] == [west, east3] && rows[1..][1..] == [east3] && rows[1..][1..][1..] == [];
    assert Filter([east3], "East") == [east3] && Filter([east3], "West") == [];
    assert Filter([west, east3], "East") == [east3] && Filter([west, east3], "West") == [west];
  }

  /** It splits into the East group (first and third rows) and the West
      group (second row). */
  lemma RegionGroups()
    ensures var rows := RegionTable();
      GroupBy(rows) == [Group("East", [rows[0], rows[2]]), Group("West", [rows[1]])]
  {
    RegionKeys();
    RegionFilters();
    var gs := GroupBy(RegionTable());
    assert |gs| == 2;
  }
}
