/**
 * The calendar builder's rowMap and getRow: a table from row number to the
 * UniqueExcelRow object that holds that row's cells, created on first use.
 * Its contents are abstracted as a Grid value so that the layout can be
 * specified by functions on values.
 */
module CalendarRows {
  import opened Wrappers
  import opened Cells

  /** The contents of rowMap: row number to that row's cell map. */
  type Grid = map<nat, map<char, Cell>>

  function RowCells(g: Grid, r: nat): map<char, Cell> {
    if r in g then g[r] else map[]
  }

  /** What getRow(r) does to the contents: an empty row appears when none was there. */
  function Touch(g: Grid, r: nat): (h: Grid)
  {
    if r in g then g else g[r := map[]]
  }

  /** What getRow(r).addCell(c) does: the cell lands in row r under its column, replacing any there. */
  function Put(g: Grid, r: nat, c: Cell): (h: Grid)
  {
    g[r := RowCells(g, r)[c.col := c]]
  }

  /** The cell at row r, column c, if any. */
  function Lookup(g: Grid, r: nat, c: char): Option<Cell> {
    if r in g && c in g[r] then Some(g[r][c]) else None
  }

  /** Every row is keyed by column: the invariant UniqueExcelRow keeps. */
  predicate GridKeyed(g: Grid) {
    forall r :: r in g ==> KeyedByColumn(g[r])
  }

  class RowTable {
    var rows: map<nat, UniqueExcelRow>
    /** Every row object the table has created. */
    ghost var Rows: set<UniqueExcelRow>

    /**
     * Each row object is stored under its own row number and keeps its cells
     * keyed by column; its inherited cells list stays empty, since only
     * addCell, which fills the map, is ever called on it.
     */
    ghost predicate Valid()
      reads this, Rows
    {
      && (forall k :: k in rows ==> rows[k] in Rows)
      && (forall k :: k in rows ==> rows[k].r == k && rows[k].Valid() && rows[k].cells == [])
    }

    /** The table's contents. */
    ghost function Cells(): Grid
      reads this, Rows
      requires Valid()
    {
      map k | k in rows :: rows[k].cellMap
    }

    constructor ()
      ensures Valid() && Rows == {}
      ensures Cells() == map[]
    {
      rows := map[];
      Rows := {};
    }

    /** getRow: the row object for r, created and stored when the table has none. */
    method GetRow(r: nat) returns (row: UniqueExcelRow)
      requires Valid()
      modifies this
      ensures Valid() && fresh(Rows - old(Rows))
      ensures r in rows && rows[r] == row && row in Rows
      ensures Cells() == Touch(old(Cells()), r)
    {
      if r !in rows {
        var created := new UniqueExcelRow(r);
        rows := rows[r := created];
        Rows := Rows + {created};
      }
      row := rows[r];
    }

    /** addCell on a row the table holds. */
    method AddCell(row: UniqueExcelRow, cell: Cell)
      requires Valid() && row.r in rows && rows[row.r] == row
      modifies row`cellMap
      ensures Valid()
      ensures Cells() == Put(old(Cells()), row.r, cell)
    {
      row.AddCell(cell);
    }

    /** rowMap.delete(r). */
    method Delete(r: nat)
      requires Valid()
      modifies this
      ensures Valid() && Rows == old(Rows)
      ensures Cells() == old(Cells()) - {r}
    {
      rows := rows - {r};
    }
  }

  // ---------------------------------------------------------------------
  // Array.from(rowMap.keys()).sort((a, b) => a - b)
  // ---------------------------------------------------------------------

  lemma MinRowExists(ks: set<nat>)
    requires ks != {}
    ensures exists k :: k in ks && forall j :: j in ks ==> k <= j
  {
    var x :| x in ks;
    if ks != {x} {
      MinRowExists(ks - {x});
      var k :| k in ks - {x} && forall j :: j in ks - {x} ==> k <= j;
      var m := if x < k then x else k;
      forall j | j in ks ensures m <= j {
        if j != x {
          assert j in ks - {x};
        }
      }
    } else {
      assert forall j :: j in ks ==> x <= j;
    }
  }

  function FirstRow(ks: set<nat>): (k: nat)
    requires ks != {}
    ensures k in ks && forall j :: j in ks ==> k <= j
  {
    MinRowExists(ks);
    var k :| k in ks && forall j :: j in ks ==> k <= j;
    k
  }

  /** The row numbers in ascending numeric order, each once. */
  function SortedRows(ks: set<nat>): (s: seq<nat>)
    ensures |s| == |ks|
    ensures forall i :: 0 <= i < |s| ==> s[i] in ks
    ensures forall k :: k in ks ==> k in s
    ensures forall i, j :: 0 <= i < j < |s| ==> s[i] < s[j]
    decreases |ks|
  {
    if ks == {} then []
    else
      var k := FirstRow(ks);
      var rest := SortedRows(ks - {k});
      assert |ks - {k}| == |ks| - 1 by {
        assert ks == (ks - {k}) + {k};
      }
      SortedRowsCons(ks, k, rest);
      [k] + rest
  }

  lemma SortedRowsCons(ks: set<nat>, k: nat, rest: seq<nat>)
    requires k in ks && forall j :: j in ks ==> k <= j
    requires forall i :: 0 <= i < |rest| ==> rest[i] in ks - {k}
    requires forall j :: j in ks - {k} ==> j in rest
    requires forall i, j :: 0 <= i < j < |rest| ==> rest[i] < rest[j]
    ensures forall i :: 0 <= i < |[k] + rest| ==> ([k] + rest)[i] in ks
    ensures forall j :: j in ks ==> j in [k] + rest
    ensures forall i, j :: 0 <= i < j < |[k] + rest| ==> ([k] + rest)[i] < ([k] + rest)[j]
  {
    var s := [k] + rest;
    forall j | j in ks ensures j in s {
      if j != k {
        assert j in ks - {k};
        var i :| 0 <= i < |rest| && rest[i] == j;
        assert s[i + 1] == j;
      }
    }
    forall i, j | 0 <= i < j < |s| ensures s[i] < s[j] {
      assert s[j] == rest[j - 1];
      if i > 0 {
        assert s[i] == rest[i - 1];
      } else {
        assert rest[j - 1] in ks && rest[j - 1] != k;
      }
    }
  }

  /** The sorted row numbers of a contiguous block 1..n are 1, 2, ..., n. */
  lemma {:induction false} SortedRowsRange(ks: set<nat>, n: nat)
    requires forall k :: k in ks <==> 1 <= k <= n
    ensures |SortedRows(ks)| == n
    ensures forall i :: 0 <= i < n ==> SortedRows(ks)[i] == i + 1
  {
    var s := SortedRows(ks);
    RangeCardinality(ks, n);
    forall i | 0 <= i < n ensures s[i] == i + 1 {
      SortedAscendingFromOne(s, n, i);
    }
  }

  lemma {:induction false} RangeCardinality(ks: set<nat>, n: nat)
    requires forall k :: k in ks <==> 1 <= k <= n
    ensures |ks| == n
  {
    if n > 0 {
      var smaller := ks - {n};
      assert forall k :: k in smaller <==> 1 <= k <= n - 1;
      RangeCardinality(smaller, n - 1);
      assert ks == smaller + {n};
    } else {
      assert ks == {};
    }
  }

  /** A strictly ascending sequence of n values drawn from 1..n is 1, 2, ..., n. */
  lemma SortedAscendingFromOne(s: seq<nat>, n: nat, i: nat)
    requires |s| == n && i < n
    requires forall j :: 0 <= j < n ==> 1 <= s[j] <= n
    requires forall a, b :: 0 <= a < b < |s| ==> s[a] < s[b]
    ensures s[i] == i + 1
  {
    AscendingLowerBound(s, i);
    AscendingUpperBound(s, n, i);
  }

  lemma {:induction false} AscendingLowerBound(s: seq<nat>, i: nat)
    requires i < |s|
    requires forall j :: 0 <= j < |s| ==> 1 <= s[j]
    requires forall a, b :: 0 <= a < b < |s| ==> s[a] < s[b]
    ensures s[i] >= i + 1
  {
    if i > 0 {
      AscendingLowerBound(s, i - 1);
    }
  }

  lemma {:induction false} AscendingUpperBound(s: seq<nat>, n: nat, i: nat)
    requires |s| == n && i < n
    requires forall j :: 0 <= j < n ==> s[j] <= n
    requires forall a, b :: 0 <= a < b < |s| ==> s[a] < s[b]
    ensures s[i] <= i + 1
    decreases n - i
  {
    if i < n - 1 {
      AscendingUpperBound(s, n, i + 1);
    }
  }
}
