/**
 * Collection of the column names of one row (GetColumnNames and
 * GetUpperCaseColumnNames). A row is modelled by the positional list of its
 * column names: `names[i]` is what `reader.GetName(i)` returns and `|names|`
 * is `reader.FieldCount`.
 */
module Columns {
  import opened Text

  /** The set of folded names of the columns at positions 0 .. |names|-1. */
  function ColumnSet(names: seq<string>, fold: string -> string): set<string>
  {
    set i | 0 <= i < |names| :: fold(names[i])
  }

  /** Adds the folded name of every column to a fresh hash set, in column order. */
  method GetColumnNames(names: seq<string>, fold: string -> string) returns (items: set<string>)
    ensures items == ColumnSet(names, fold)
    ensures forall i :: 0 <= i < |names| ==> fold(names[i]) in items
    ensures forall x :: x in items ==> exists i :: 0 <= i < |names| && fold(names[i]) == x
    ensures |items| <= |names|
  {
    items := {};
    var i := 0;
    while i < |names|
      invariant 0 <= i <= |names|
      invariant items == ColumnSet(names[..i], fold)
    {
      assert names[..i + 1][..i] == names[..i];
      items := items + {fold(names[i])};
      i := i + 1;
    }
    assert names[..i] == names;
    ColumnSetSize(names, fold);
  }

  /** The column set used for matching: every name upper-cased. */
  method GetUpperCaseColumnNames(names: seq<string>) returns (items: set<string>)
    ensures items == ColumnSet(names, Upper)
    ensures forall x :: x in items ==> exists i :: 0 <= i < |names| && Upper(names[i]) == x
    ensures |items| <= |names|
  {
    items := GetColumnNames(names, Upper);
  }

  /** A column set never has more entries than the row has columns. */
  lemma {:induction false} ColumnSetSize(names: seq<string>, fold: string -> string)
    ensures |ColumnSet(names, fold)| <= |names|
  {
    if names != [] {
      var n := |names| - 1;
      ColumnSetSize(names[..n], fold);
      assert ColumnSet(names, fold) == ColumnSet(names[..n], fold) + {fold(names[n])};
    }
  }

  /**
   * Two columns whose names fold to the same string collapse into one entry,
   * so the set is strictly smaller than the number of columns.
   */
  lemma CollidingNamesCollapse(names: seq<string>, fold: string -> string, i: nat, j: nat)
    requires i < |names| && j < |names| && i != j
    requires fold(names[i]) == fold(names[j])
    ensures |ColumnSet(names, fold)| < |names|
  {
    var rest := names[..j] + names[j + 1..];
    assert |rest| == |names| - 1;
    forall x | x in ColumnSet(names, fold)
      ensures x in ColumnSet(rest, fold)
    {
      var k :| 0 <= k < |names| && fold(names[k]) == x;
      var k' := if k == j then i else k;
      assert fold(names[k']) == x;
      if k' < j {
        assert rest[k'] == names[k'];
      } else {
        assert rest[k' - 1] == names[k'];
      }
    }
    assert ColumnSet(names, fold) <= ColumnSet(rest, fold);
    ColumnSetSize(rest, fold);
    SubsetSize(ColumnSet(names, fold), ColumnSet(rest, fold));
  }

  lemma SubsetSize(a: set<string>, b: set<string>)
    requires a <= b
    ensures |a| <= |b|
  {
    assert b == a + (b - a);
  }
}
