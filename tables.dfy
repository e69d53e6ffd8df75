/**
 * A pandas DataFrame as the modelled code uses it: named columns in order,
 * and rows that map every column name to a cell, in row order. Index labels
 * are not kept: the modelled code either resets them to 0..n-1 or never
 * shows them (every table is written and rendered with `index=False`).
 */
module Tables {

  /** A cell: missing (`NaN`/`None`), or present with the text `str(value)` gives for it. */
  datatype Cell = Null | Text(s: string)

  type Row = map<string, Cell>

  datatype Frame = Frame(columns: seq<string>, rows: seq<Row>) {

    /** Column names are distinct and every row has exactly the frame's columns. */
    ghost predicate Valid() {
      && Distinct(columns)
      && (forall r :: r in rows ==> r.Keys == set c | c in columns)
    }

    /** `df.empty`: true when the frame has no rows or no columns. */
    predicate Empty() {
      |rows| == 0 || |columns| == 0
    }
  }

  predicate Distinct(names: seq<string>) {
    forall i, j :: 0 <= i < j < |names| ==> names[i] != names[j]
  }

  /** The columns of `columns` not named in `drop`, in their order. */
  function Without(columns: seq<string>, drop: set<string>): (r: seq<string>)
    ensures forall c :: c in r <==> c in columns && c !in drop
    ensures |r| <= |columns|
  {
    if columns == [] then []
    else (if columns[0] in drop then [] else [columns[0]]) + Without(columns[1..], drop)
  }

  /** Dropping columns keeps the remaining names distinct. */
  lemma {:induction false} WithoutDistinct(columns: seq<string>, drop: set<string>)
    requires Distinct(columns)
    ensures Distinct(Without(columns, drop))
  {
    if columns != [] {
      DistinctTail(columns);
      WithoutDistinct(columns[1..], drop);
      if columns[0] !in drop {
        DistinctCons(columns[0], Without(columns[1..], drop));
      }
    }
  }

  lemma DistinctTail(names: seq<string>)
    requires names != [] && Distinct(names)
    ensures Distinct(names[1..]) && names[0] !in names[1..]
  {
    var tail := names[1..];
    forall i, j | 0 <= i < j < |tail| ensures tail[i] != tail[j] {
      assert tail[i] == names[i + 1] && tail[j] == names[j + 1];
    }
  }

  lemma DistinctCons(x: string, names: seq<string>)
    requires Distinct(names) && x !in names
    ensures Distinct([x] + names)
  {
    var r := [x] + names;
    forall i, j | 0 <= i < j < |r| ensures r[i] != r[j] {
      assert r[j] == names[j - 1];
      if i > 0 { assert r[i] == names[i - 1]; }
    }
  }
}
