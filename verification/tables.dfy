/** Tables as the enrichment stages see them once pandas has read a file:
    a cell is an optional text value (None stands for an empty / NaN cell), and
    a sheet is a name, a header of column names and rows of cells. */
module Tables {
  import opened Wrappers

  /** One spreadsheet cell; None is pandas' NaN. */
  type Cell = Option<string>

  /** The text `astype(str)` or Python's `str` gives a cell: an empty cell reads "nan". */
  function AsText(c: Cell): string
  {
    match c
    case Some(s) => s
    case None => "nan"
  }

  /** Decimal digits of a natural number, as `str` writes an int. */
  function NatText(n: nat): string
    decreases n
  {
    if n < 10 then [(48 + n) as char] else NatText(n / 10) + [(48 + n % 10) as char]
  }

  /** Decimal text of an int, as `str` writes it. */
  function IntText(n: int): string
  {
    if n < 0 then "-" + NatText(-n) else NatText(n)
  }

  datatype Sheet = Sheet(name: string, columns: seq<string>, rows: seq<seq<Cell>>)

  /** What a pandas DataFrame always is: column names are distinct (read_excel renames
      repeated headers) and every row has one cell per column. */
  predicate WellFormed(s: Sheet)
  {
    && (forall i, j :: 0 <= i < j < |s.columns| ==> s.columns[i] != s.columns[j])
    && (forall r :: r in s.rows ==> |r| == |s.columns|)
  }

  type Frame = s: Sheet | WellFormed(s) witness Sheet("Sheet1", [], [])

  /** Position of a column name in a header. */
  function IndexOf(columns: seq<string>, name: string): (i: nat)
    requires name in columns
    ensures i < |columns| && columns[i] == name
    ensures forall k :: 0 <= k < i ==> columns[k] != name
  {
    if columns[0] == name then 0 else 1 + IndexOf(columns[1..], name)
  }

  /** In a header without repeated names, a name's position is the only one holding it. */
  lemma IndexOfUnique(columns: seq<string>, name: string, k: nat)
    requires forall i, j :: 0 <= i < j < |columns| ==> columns[i] != columns[j]
    requires k < |columns| && columns[k] == name
    ensures IndexOf(columns, name) == k
  {
  }

  /** The cells under a column, top to bottom: `df[name]`. */
  function Column(s: Frame, name: string): (col: seq<Cell>)
    requires name in s.columns
    ensures |col| == |s.rows|
    ensures forall i :: 0 <= i < |col| ==> col[i] == s.rows[i][IndexOf(s.columns, name)]
  {
    var j := IndexOf(s.columns, name);
    seq(|s.rows|, i requires 0 <= i < |s.rows| => s.rows[i][j])
  }

  /** The header after assigning column `name`: unchanged when the name is already there,
      otherwise the name appended on the right. */
  function Assigned(columns: seq<string>, name: string): (h: seq<string>)
    ensures name in h
    ensures forall c :: c in h <==> c in columns || c == name
  {
    if name in columns then columns else columns + [name]
  }

  /** Assigning two different new names appends both, in order. */
  lemma AssignedTwice(columns: seq<string>, a: string, b: string)
    requires a != b
    ensures a !in columns && b !in columns ==> Assigned(Assigned(columns, a), b) == columns + [a, b]
  {
    if a !in columns && b !in columns {
      assert b !in columns + [a];
    }
  }

  /** Column assignment `df[name] = values`: an existing column is overwritten where it
      stands, a new one is appended on the right. */
  function SetColumn(s: Frame, name: string, values: seq<Cell>): (t: Frame)
    requires |values| == |s.rows|
    ensures t.name == s.name && |t.rows| == |s.rows|
    ensures t.columns == Assigned(s.columns, name)
  {
    if name in s.columns then
      var j := IndexOf(s.columns, name);
      var rows := seq(|s.rows|, i requires 0 <= i < |s.rows| => s.rows[i][j := values[i]]);
      assert forall r :: r in rows ==> |r| == |s.columns| by {
        forall r | r in rows ensures |r| == |s.columns| {
          var i :| 0 <= i < |rows| && rows[i] == r;
          assert s.rows[i] in s.rows;
        }
      }
      var t := Sheet(s.name, s.columns, rows);
      assert WellFormed(t);
      t
    else
      var rows := seq(|s.rows|, i requires 0 <= i < |s.rows| => s.rows[i] + [values[i]]);
      var columns := s.columns + [name];
      assert forall r :: r in rows ==> |r| == |columns| by {
        forall r | r in rows ensures |r| == |columns| {
          var i :| 0 <= i < |rows| && rows[i] == r;
          assert s.rows[i] in s.rows;
        }
      }
      var t := Sheet(s.name, columns, rows);
      assert WellFormed(t);
      t
  }

  /** After `df[name] = values` the column holds `values` and every other column keeps
      its cells. */
  lemma SetColumnCells(s: Frame, name: string, values: seq<Cell>)
    requires |values| == |s.rows|
    ensures name in SetColumn(s, name, values).columns
    ensures Column(SetColumn(s, name, values), name) == values
    ensures forall c :: c in s.columns && c != name ==>
              c in SetColumn(s, name, values).columns &&
              Column(SetColumn(s, name, values), c) == Column(s, c)
  {
    var t := SetColumn(s, name, values);
    if name in s.columns {
      ColumnsAfterOverwrite(s, name, values, t);
    } else {
      ColumnsAfterAppend(s, name, values, t);
    }
  }

  lemma ColumnsAfterOverwrite(s: Frame, name: string, values: seq<Cell>, t: Frame)
    requires name in s.columns && |values| == |s.rows|
    requires t.columns == s.columns && |t.rows| == |s.rows|
    requires forall i :: 0 <= i < |s.rows| ==>
               t.rows[i] == s.rows[i][IndexOf(s.columns, name) := values[i]]
    ensures Column(t, name) == values
    ensures forall c :: c in s.columns && c != name ==> Column(t, c) == Column(s, c)
  {
    forall c | c in s.columns && c != name
      ensures Column(t, c) == Column(s, c)
    {
      assert IndexOf(s.columns, c) != IndexOf(s.columns, name);
    }
  }

  lemma ColumnsAfterAppend(s: Frame, name: string, values: seq<Cell>, t: Frame)
    requires name !in s.columns && |values| == |s.rows|
    requires t.columns == s.columns + [name] && |t.rows| == |s.rows|
    requires forall i :: 0 <= i < |s.rows| ==> t.rows[i] == s.rows[i] + [values[i]]
    ensures Column(t, name) == values
    ensures forall c :: c in s.columns && c != name ==> Column(t, c) == Column(s, c)
  {
    IndexOfUnique(t.columns, name, |s.columns|);
    forall c | c in s.columns && c != name
      ensures Column(t, c) == Column(s, c)
    {
      var k := IndexOf(s.columns, c);
      IndexOfUnique(t.columns, c, k);
      forall i | 0 <= i < |s.rows| ensures t.rows[i][k] == s.rows[i][k] {
        assert s.rows[i] in s.rows;
      }
    }
  }
}
