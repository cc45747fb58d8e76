/** The slice of a pandas DataFrame the wizard uses: named columns over
    rows of cells, column renaming (`DataFrame.rename(columns=...)`), the
    missing-column guard and projection onto a list of column names
    (`df[selected_columns]`). A name that occurs more than once is looked
    up at its first occurrence. */
module Frame {
  import opened Seqs

  /** A cell: a missing value (pandas NaN) or the text of the value. */
  datatype Cell = NA | Str(text: string)

  datatype Table = Table(columns: seq<string>, rows: seq<seq<Cell>>)

  /** Every row has one cell per column. */
  predicate WellFormed(t: Table) {
    forall i :: 0 <= i < |t.rows| ==> |t.rows[i]| == |t.columns|
  }

  /** `df[name]`: the cells of the column called `name`, top to bottom. */
  function Column(t: Table, name: string): seq<Cell>
    requires WellFormed(t) && name in t.columns
  {
    var p := IndexOf(t.columns, name);
    seq(|t.rows|, i requires 0 <= i < |t.rows| => t.rows[i][p])
  }

  /** The new header after renaming: a column whose name is a key of
      `renames` takes the mapped name, every other column keeps its own. */
  function RenameColumns(columns: seq<string>, renames: map<string, string>): seq<string> {
    seq(|columns|, j requires 0 <= j < |columns| =>
      if columns[j] in renames then renames[columns[j]] else columns[j])
  }

  /** `df.rename(columns=renames)`: the header changes, the cells do not. */
  function Rename(t: Table, renames: map<string, string>): Table {
    Table(RenameColumns(t.columns, renames), t.rows)
  }

  /** `[c for c in names if c not in columns]`, in the order of `names`. */
  function Missing(columns: seq<string>, names: seq<string>): (r: seq<string>)
    ensures forall n :: n in r <==> n in names && n !in columns
    ensures r == [] <==> forall k :: 0 <= k < |names| ==> names[k] in columns
  {
    if |names| == 0 then []
    else
      var rest := Missing(columns, names[1..]);
      assert forall n :: n in names <==> n == names[0] || n in names[1..];
      assert forall k :: 1 <= k < |names| ==> names[k] == names[1..][k - 1];
      (if names[0] in columns then [] else [names[0]]) + rest
  }

  /** `df[names]`: one column per name, in the order of `names`, every row
      kept in its place. */
  function Project(t: Table, names: seq<string>): (r: Table)
    requires WellFormed(t)
    requires forall k :: 0 <= k < |names| ==> names[k] in t.columns
    ensures WellFormed(r)
  {
    Table(names, seq(|t.rows|, i requires 0 <= i < |t.rows| =>
      seq(|names|, k requires 0 <= k < |names| => t.rows[i][IndexOf(t.columns, names[k])])))
  }

  /** In a sheet whose headers do not repeat, cell `(i, k)` of the
      projection is the cell of row `i` under the header `names[k]`. */
  lemma ProjectCells(t: Table, names: seq<string>)
    requires WellFormed(t) && Distinct(t.columns)
    requires forall k :: 0 <= k < |names| ==> names[k] in t.columns
    ensures Project(t, names).columns == names && |Project(t, names).rows| == |t.rows|
    ensures forall i, k, p ::
      0 <= i < |t.rows| && 0 <= k < |names| && 0 <= p < |t.columns| && t.columns[p] == names[k]
      ==> Project(t, names).rows[i][k] == t.rows[i][p]
  {
    forall p | 0 <= p < |t.columns|
      ensures IndexOf(t.columns, t.columns[p]) == p
    {
      IndexOfDistinct(t.columns, p);
    }
  }
}
