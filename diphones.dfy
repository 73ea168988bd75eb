/**
 Diphone extraction for the voice-import sanity check.

 A half-phone feature file is modelled as a sequence of already decoded rows
 and a CART as the sequence of its leaves, each leaf the unit indices it stores.
 This module defines, as functions, the two maps from diphone key to unit
 indices that the checker builds (one from the table, one from the tree), and
 proves which unit indices end up in which set.
 */
module Diphones {

  /** One half-phone feature vector: its unit index and the decoded values of
      the `phone` and `halfphone_lr` features. */
  datatype FeatureRow = FeatureRow(unitIndex: int, phone: string, lr: string)

  /** Diphone key to set of unit indices. */
  type DiphoneMap = map<string, set<int>>

  /** The diphone ending in `cur`: the previous phone, "_", the current phone. */
  function DiphoneKey(prev: FeatureRow, cur: FeatureRow): string
  {
    prev.phone + "_" + cur.phone
  }

  /** Adds unit index `c` to the set under key `k`, creating the set if the key is new. */
  function Insert(m: DiphoneMap, k: string, c: int): (r: DiphoneMap)
    ensures r.Keys == m.Keys + {k}
    ensures c in r[k]
    ensures forall c' :: c' in r[k] <==> c' == c || (k in m && c' in m[k])
    ensures forall k' :: k' in m && k' != k ==> r[k'] == m[k']
  {
    if k in m then m[k := m[k] + {c}] else m[k := {c}]
  }

  /** Every key of the map holds at least one unit index. */
  ghost predicate Populated(m: DiphoneMap)
  {
    forall k :: k in m ==> exists c :: c in m[k]
  }

  /** Two maps whose keys all hold some unit index are equal as soon as they
      pair the same keys with the same unit indices. */
  lemma SameMembersSameMap(m1: DiphoneMap, m2: DiphoneMap)
    requires Populated(m1) && Populated(m2)
    requires forall k, c :: (k in m1 && c in m1[k]) <==> (k in m2 && c in m2[k])
    ensures m1 == m2
  {
    forall k | k in m1 ensures k in m2 && m1[k] == m2[k] {
      var c :| c in m1[k];
      assert k in m2 && c in m2[k];
      assert forall c' :: c' in m1[k] <==> c' in m2[k];
    }
    forall k | k in m2 ensures k in m1 {
      var c :| c in m2[k];
      assert k in m1 && c in m1[k];
    }
  }

  // ---------------------------------------------------------------------------
  // Table pass
  // ---------------------------------------------------------------------------

  /** The table pass looks at the row before every row whose unit index is
      positive; for the first row there is none, so the pass fails exactly when
      the first row is not a sentinel. */
  predicate TableFails(rows: seq<FeatureRow>)
  {
    |rows| > 0 && rows[0].unitIndex > 0
  }

  /** What row `i` (not the first) does to the table map: sentinels and right
      halves are skipped, every other row adds its unit index under the key made
      from the row before it and itself. */
  function TableStep(rows: seq<FeatureRow>, i: int, m: DiphoneMap): DiphoneMap
    requires 1 <= i < |rows|
  {
    var fv := rows[i];
    if fv.unitIndex <= 0 || fv.lr == "R" then m
    else Insert(m, DiphoneKey(rows[i - 1], fv), fv.unitIndex)
  }

  /** The table map after the first `n` rows. The first row never adds
      anything: it is either a sentinel or the pass fails on it. */
  function TableCoverage(rows: seq<FeatureRow>, n: nat): (r: DiphoneMap)
    requires n <= |rows|
    ensures Populated(r)
    decreases n
  {
    if n <= 1 then map[] else TableStep(rows, n - 1, TableCoverage(rows, n - 1))
  }

  /** Row `i` of the table puts unit index `c` under key `k`. */
  predicate TableInstance(rows: seq<FeatureRow>, i: int, k: string, c: int)
  {
    && 1 <= i < |rows|
    && rows[i].unitIndex == c
    && c > 0
    && rows[i].lr != "R"
    && k == DiphoneKey(rows[i - 1], rows[i])
  }

  /** Unit index `c` is in the set under `k` after `n` rows exactly when one of
      those rows (past the first) has unit index `c > 0`, is not a right half,
      and forms key `k` with the row before it. */
  lemma {:induction false} TableCoverageExactly(rows: seq<FeatureRow>, n: nat, k: string, c: int)
    requires n <= |rows|
    ensures (k in TableCoverage(rows, n) && c in TableCoverage(rows, n)[k])
            <==> exists i :: i < n && TableInstance(rows, i, k, c)
    decreases n
  {
    if n > 1 {
      TableCoverageExactly(rows, n - 1, k, c);
      if TableInstance(rows, n - 1, k, c) {
        assert k in TableCoverage(rows, n) && c in TableCoverage(rows, n)[k];
      }
      if exists i :: i < n && TableInstance(rows, i, k, c) {
        var i :| i < n && TableInstance(rows, i, k, c);
        if i < n - 1 {
          assert k in TableCoverage(rows, n - 1) && c in TableCoverage(rows, n - 1)[k];
        }
      }
    }
  }

  /** No set of the table map holds a sentinel, and every unit index in it is
      that of a left-half row which is not the first row. */
  lemma TableHoldsOnlyLeftHalves(rows: seq<FeatureRow>, k: string, c: int)
    requires k in TableCoverage(rows, |rows|) && c in TableCoverage(rows, |rows|)[k]
    ensures c > 0
    ensures exists i :: 1 <= i < |rows| && rows[i].unitIndex == c && rows[i].lr != "R"
  {
    TableCoverageExactly(rows, |rows|, k, c);
    var i :| i < |rows| && TableInstance(rows, i, k, c);
    assert 1 <= i < |rows| && rows[i].unitIndex == c && rows[i].lr != "R";
  }

  /** No unit index above zero occurs at two positions of the table. */
  ghost predicate UniqueUnits(rows: seq<FeatureRow>)
  {
    forall i, j :: 0 <= i < |rows| && 0 <= j < |rows| && i != j && rows[i].unitIndex > 0 ==> rows[i].unitIndex != rows[j].unitIndex
  }

  /** When no unit index above zero occurs twice in the table, each unit index
      is in at most one set of the table map. */
  lemma TableUnitInOneSet(rows: seq<FeatureRow>, k1: string, k2: string, c: int)
    requires UniqueUnits(rows)
    requires k1 in TableCoverage(rows, |rows|) && c in TableCoverage(rows, |rows|)[k1]
    requires k2 in TableCoverage(rows, |rows|) && c in TableCoverage(rows, |rows|)[k2]
    ensures k1 == k2
  {
    TableCoverageExactly(rows, |rows|, k1, c);
    TableCoverageExactly(rows, |rows|, k2, c);
    var i1 :| i1 < |rows| && TableInstance(rows, i1, k1, c);
    var i2 :| i2 < |rows| && TableInstance(rows, i2, k2, c);
    SamePosition(rows, i1, i2);
  }

  /** In a table without repeated unit indices, two rows with the same
      positive unit index are the same row. */
  lemma SamePosition(rows: seq<FeatureRow>, i1: int, i2: int)
    requires UniqueUnits(rows)
    requires 0 <= i1 < |rows| && 0 <= i2 < |rows|
    requires rows[i1].unitIndex == rows[i2].unitIndex > 0
    ensures i1 == i2
  {
  }

  // ---------------------------------------------------------------------------
  // Tree pass
  // ---------------------------------------------------------------------------

  /** All unit indices stored in the leaves, leaf after leaf, duplicates kept. */
  function Flatten(leaves: seq<seq<int>>): seq<int>
    decreases |leaves|
  {
    if leaves == [] then [] else Flatten(leaves[..|leaves| - 1]) + leaves[|leaves| - 1]
  }

  /** A unit index is in the flattened list exactly when some leaf stores it. */
  lemma {:induction false} FlattenMembers(leaves: seq<seq<int>>, u: int)
    ensures u in Flatten(leaves) <==> exists j :: 0 <= j < |leaves| && u in leaves[j]
    decreases |leaves|
  {
    if leaves != [] {
      var front := leaves[..|leaves| - 1];
      FlattenMembers(front, u);
      if exists j :: 0 <= j < |front| && u in front[j] {
        var j :| 0 <= j < |front| && u in front[j];
        assert u in leaves[j];
      }
      if exists j :: 0 <= j < |leaves| && u in leaves[j] {
        var j :| 0 <= j < |leaves| && u in leaves[j];
        if j < |front| {
          assert u in front[j];
        }
      }
    }
  }

  /** What tree unit `u` does to the tree map, `all` being the flattened leaf
      list: non-positive, out-of-range and right-half units are skipped, and so
      is a unit whose predecessor `u - 1` is stored in no leaf. */
  function TreeStep(all: seq<int>, table: seq<FeatureRow>, u: int, m: DiphoneMap): DiphoneMap
  {
    if u <= 0 || u >= |table| || table[u].lr == "R" || u - 1 !in all then m
    else Insert(m, DiphoneKey(table[u - 1], table[u]), u)
  }

  /** The tree map after the units of `done`, a prefix of the flattened leaf list `all`. */
  function TreeCoverage(all: seq<int>, done: seq<int>, table: seq<FeatureRow>): (r: DiphoneMap)
    ensures Populated(r)
    decreases |done|
  {
    if done == [] then map[]
    else TreeStep(all, table, done[|done| - 1], TreeCoverage(all, done[..|done| - 1], table))
  }

  /** Tree unit `u` belongs under key `k`: it is a row of the table past the
      first, not a right half, its predecessor is stored in the tree, and `k` is
      the key of table rows `u - 1` and `u`. */
  predicate TreeInstance(all: seq<int>, table: seq<FeatureRow>, k: string, u: int)
  {
    && 0 < u < |table|
    && table[u].lr != "R"
    && u - 1 in all
    && k == DiphoneKey(table[u - 1], table[u])
  }

  /** Unit `u` is in the set under `k` exactly when `u` was visited and is a tree instance of `k`. */
  lemma {:induction false} TreeCoverageExactly(all: seq<int>, done: seq<int>, table: seq<FeatureRow>, k: string, u: int)
    ensures (k in TreeCoverage(all, done, table) && u in TreeCoverage(all, done, table)[k])
            <==> u in done && TreeInstance(all, table, k, u)
    decreases |done|
  {
    if done != [] {
      var front := done[..|done| - 1];
      assert done == front + [done[|done| - 1]];
      TreeCoverageExactly(all, front, table, k, u);
    }
  }

  /** The key of a unit depends on table rows `u - 1` and `u` alone, so each
      unit index is in at most one set of the tree map. */
  lemma TreeUnitInOneSet(all: seq<int>, table: seq<FeatureRow>, k1: string, k2: string, u: int)
    requires k1 in TreeCoverage(all, all, table) && u in TreeCoverage(all, all, table)[k1]
    requires k2 in TreeCoverage(all, all, table) && u in TreeCoverage(all, all, table)[k2]
    ensures k1 == k2
  {
    TreeCoverageExactly(all, all, table, k1, u);
    TreeCoverageExactly(all, all, table, k2, u);
  }

  /** The tree map depends on which unit indices the leaves store, not on how
      often or in which order: repeated units do not change it. */
  lemma TreeCoverageIgnoresDuplicates(all1: seq<int>, all2: seq<int>, table: seq<FeatureRow>)
    requires forall u :: u in all1 <==> u in all2
    ensures TreeCoverage(all1, all1, table) == TreeCoverage(all2, all2, table)
  {
    var m1 := TreeCoverage(all1, all1, table);
    var m2 := TreeCoverage(all2, all2, table);
    forall k, u ensures (k in m1 && u in m1[k]) <==> (k in m2 && u in m2[k]) {
      TreeCoverageExactly(all1, all1, table, k, u);
      TreeCoverageExactly(all2, all2, table, k, u);
    }
    SameMembersSameMap(m1, m2);
  }

  /** The positive unit indices at or beyond the table size, in leaf order:
      each one draws a warning from the tree pass. */
  function OutOfRange(units: seq<int>, size: int): (r: seq<int>)
    ensures forall u :: u in r <==> u in units && u > 0 && u >= size
    decreases |units|
  {
    if units == [] then []
    else
      var u := units[|units| - 1];
      assert units == units[..|units| - 1] + [u];
      OutOfRange(units[..|units| - 1], size) + (if u > 0 && u >= size then [u] else [])
  }
}
