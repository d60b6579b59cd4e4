/** update_excel_with_f1_to_use: for each sku, the first reference row that mentions the
    sku in its cells at 0-based positions 1 to 15, and within that row the last non-empty
    cell of the same window ("F1 to Use"). The cells are compared as text, so an empty
    cell reads "nan" there. */
module SubstituteLookup {
  import opened Wrappers
  import opened Tables
  import opened DescriptionJoin

  /** `part` occurs in `text` as a contiguous piece (plain substring search). */
  predicate Contains(text: string, part: string)
    decreases |text|
  {
    |part| <= |text| && (part == text[..|part|] || Contains(text[1..], part))
  }

  /** The cells of `iloc[:, 1:16]`: positions 1 to 15, cut short by a short row. */
  function Window(row: seq<Cell>): (w: seq<Cell>)
    ensures |w| == (if |row| <= 1 then 0 else if |row| <= 16 then |row| - 1 else 15)
    ensures forall k :: 0 <= k < |w| ==> k + 1 < |row| && w[k] == row[k + 1]
  {
    if |row| <= 1 then [] else if |row| <= 16 then row[1..] else row[1..16]
  }

  /** `astype(str).str.contains(sku)` on one cell: an empty cell is the text "nan". */
  predicate CellContains(c: Cell, sku: string)
  {
    Contains(AsText(c), sku)
  }

  /** Some cell among `cells`, read as text, contains the sku: the `.any()` of the scan. */
  predicate AnyContains(cells: seq<Cell>, sku: string)
    decreases |cells|
  {
    |cells| > 0 && (CellContains(cells[0], sku) || AnyContains(cells[1..], sku))
  }

  /** Some cell of the row's window contains the sku. */
  predicate Mentions(row: seq<Cell>, sku: string)
  {
    AnyContains(Window(row), sku)
  }

  /** The scan finds a cell exactly when some cell, read as text, contains the sku. */
  lemma {:induction false} AnyContainsMeans(cells: seq<Cell>, sku: string)
    ensures AnyContains(cells, sku) <==> exists k :: 0 <= k < |cells| && CellContains(cells[k], sku)
    decreases |cells|
  {
    if cells != [] {
      AnyContainsMeans(cells[1..], sku);
      assert forall k :: 0 < k < |cells| ==> cells[k] == cells[1..][k - 1];
    }
  }

  /** An empty cell matches exactly the skus that are pieces of "nan" (the text a missing
      sku itself becomes). */
  lemma EmptyCellMatchesNan(row: seq<Cell>, k: nat, sku: string)
    requires k < |Window(row)| && Window(row)[k].None? && Contains("nan", sku)
    ensures Mentions(row, sku)
  {
    AnyContainsMeans(Window(row), sku);
  }

  /** `dropna().iloc[-1]`: the last non-empty cell, or None when every cell is empty. */
  function LastPresent(cells: seq<Cell>): (c: Cell)
    ensures c.None? <==> forall k :: 0 <= k < |cells| ==> cells[k].None?
    decreases |cells|
  {
    if cells == [] then None
    else if cells[|cells| - 1].Some? then cells[|cells| - 1]
    else
      assert forall k :: 0 <= k < |cells| - 1 ==> cells[..|cells| - 1][k] == cells[k];
      LastPresent(cells[..|cells| - 1])
  }

  /** The value found is the cell at the last non-empty position. */
  lemma {:induction false} LastPresentAt(cells: seq<Cell>, k: nat)
    requires k < |cells| && cells[k].Some?
    requires forall l :: k < l < |cells| ==> cells[l].None?
    ensures LastPresent(cells) == cells[k]
    decreases |cells|
  {
    var n := |cells| - 1;
    if k < n {
      var prefix := cells[..n];
      assert forall l :: k < l < n ==> prefix[l] == cells[l];
      LastPresentAt(prefix, k);
    }
  }

  /** Unless the sku is a piece of "nan", a cell that contains it is non-empty, so the
      cells have a last value. */
  lemma {:induction false} ContainingCellIsPresent(cells: seq<Cell>, sku: string)
    requires AnyContains(cells, sku) && !Contains("nan", sku)
    ensures LastPresent(cells).Some?
    decreases |cells|
  {
    if CellContains(cells[0], sku) {
      assert cells[0].Some?;
    } else {
      ContainingCellIsPresent(cells[1..], sku);
      assert cells[1..][0] == cells[1];
    }
  }

  /** The position of the first reference row mentioning the sku. */
  function FirstMention(reference: seq<seq<Cell>>, sku: string): (j: Option<nat>)
    ensures j.Some? ==> j.value < |reference|
    decreases |reference|
  {
    if reference == [] then None
    else if Mentions(reference[0], sku) then Some(0)
    else
      match FirstMention(reference[1..], sku)
      case None => None
      case Some(j) => Some(j + 1)
  }

  /** The scan finds nothing exactly when no row mentions the sku; otherwise it stops at
      the first row that does. */
  lemma {:induction false} FirstMentionSpec(reference: seq<seq<Cell>>, sku: string)
    ensures FirstMention(reference, sku).None? <==>
              forall i :: 0 <= i < |reference| ==> !Mentions(reference[i], sku)
    ensures FirstMention(reference, sku).Some? ==>
              var j := FirstMention(reference, sku).value;
              && Mentions(reference[j], sku)
              && forall i :: 0 <= i < j ==> !Mentions(reference[i], sku)
    decreases |reference|
  {
    if reference != [] && !Mentions(reference[0], sku) {
      var rest := reference[1..];
      FirstMentionSpec(rest, sku);
      assert forall i :: 1 <= i < |reference| ==> reference[i] == rest[i - 1];
    }
  }

  /** What the lookup of one sku gives: a value for the column (None when no row mentions
      the sku), or the IndexError `iloc[-1]` raises when the first mentioning row's window
      is all empty. */
  datatype Lookup = Value(cell: Cell) | Raised

  /** The "F1 to Use" lookup of one sku: the last value of the first mentioning row. */
  function SubstituteFor(sku: string, reference: seq<seq<Cell>>): Lookup
  {
    match FirstMention(reference, sku)
    case None => Value(None)
    case Some(j) =>
      match LastPresent(Window(reference[j]))
      case None => Raised
      case Some(v) => Value(Some(v))
  }

  /** Given the first row that mentions the sku, the lookup gives the last non-empty cell
      of that row's window, and raises when there is none. */
  lemma SubstituteAt(sku: string, reference: seq<seq<Cell>>, j: nat)
    requires j < |reference| && Mentions(reference[j], sku)
    requires forall i :: 0 <= i < j ==> !Mentions(reference[i], sku)
    ensures LastPresent(Window(reference[j])).Some? ==>
              SubstituteFor(sku, reference) == Value(LastPresent(Window(reference[j])))
    ensures LastPresent(Window(reference[j])).None? ==> SubstituteFor(sku, reference) == Raised
  {
    FirstMentionSpec(reference, sku);
    var f := FirstMention(reference, sku).value;
    assert !(f < j) && !(j < f);
  }

  /** The value is null exactly when no reference row mentions the sku, and the lookup can
      only raise for a sku that is a piece of "nan" (a mentioning row otherwise has a
      non-empty cell: the one that mentions the sku). */
  lemma SubstituteForSpec(sku: string, reference: seq<seq<Cell>>)
    ensures SubstituteFor(sku, reference) == Value(None) <==>
              forall i :: 0 <= i < |reference| ==> !Mentions(reference[i], sku)
    ensures SubstituteFor(sku, reference).Raised? ==> Contains("nan", sku)
  {
    FirstMentionSpec(reference, sku);
    match FirstMention(reference, sku)
    case None =>
    case Some(j) =>
      if !Contains("nan", sku) {
        ContainingCellIsPresent(Window(reference[j]), sku);
      }
  }

  /** Every sku of the rows has a value (none raises). */
  predicate AllFound(rows: seq<DescribedRow>, reference: seq<seq<Cell>>)
  {
    forall i :: 0 <= i < |rows| ==> SubstituteFor(rows[i].sku, reference).Value?
  }

  /** Skus that are not pieces of "nan" never make the lookup raise. */
  lemma FoundUnlessNan(rows: seq<DescribedRow>, reference: seq<seq<Cell>>)
    requires forall i :: 0 <= i < |rows| ==> !Contains("nan", rows[i].sku)
    ensures AllFound(rows, reference)
  {
    forall i | 0 <= i < |rows| ensures SubstituteFor(rows[i].sku, reference).Value? {
      SubstituteForSpec(rows[i].sku, reference);
    }
  }

  /** The column the stage computes, one value per row in row order, or None when some
      lookup raises and the stage is abandoned. */
  function SubstituteColumn(rows: seq<DescribedRow>, reference: seq<seq<Cell>>): Option<seq<Cell>>
  {
    if AllFound(rows, reference) then
      Some(seq(|rows|, i requires 0 <= i < |rows| => SubstituteFor(rows[i].sku, reference).cell))
    else None
  }

  /** No reference row mentions the sku. */
  predicate Unmentioned(reference: seq<seq<Cell>>, sku: string)
  {
    forall i :: 0 <= i < |reference| ==> !Mentions(reference[i], sku)
  }

  /** Row `j` is the first reference row that mentions the sku. */
  predicate FirstMentioning(reference: seq<seq<Cell>>, sku: string, j: nat)
  {
    && j < |reference| && Mentions(reference[j], sku)
    && forall i :: 0 <= i < j ==> !Mentions(reference[i], sku)
  }

  /** What `dropna().iloc[-1]` gives on a row's window: its last non-empty cell, or the
      IndexError when there is none. */
  function ValueIn(row: seq<Cell>): Lookup
  {
    match LastPresent(Window(row))
    case None => Raised
    case Some(v) => Value(Some(v))
  }

  /** A lookup result is pinned down by: null exactly when no row mentions the sku, and
      otherwise the first mentioning row's last non-empty window cell, or a raise when that
      window is all empty. */
  lemma LookupUnique(sku: string, reference: seq<seq<Cell>>, result: Lookup)
    requires result == Value(None) <==> Unmentioned(reference, sku)
    requires forall j: nat :: FirstMentioning(reference, sku, j) ==> result == ValueIn(reference[j])
    ensures result == SubstituteFor(sku, reference)
  {
    FirstMentionSpec(reference, sku);
    if FirstMention(reference, sku).Some? {
      var j := FirstMention(reference, sku).value;
      assert FirstMentioning(reference, sku, j);
      SubstituteAt(sku, reference, j);
    }
  }

  /** One pass of the loop: scan for the first mentioning row, then take its last value.
      The result is null exactly when no row mentions the sku; otherwise it is the first
      mentioning row's last non-empty window cell, or a raise when there is none, which
      only a piece of "nan" can cause. */
  method LookupOne(sku: string, reference: seq<seq<Cell>>) returns (result: Lookup)
    ensures result == Value(None) <==> Unmentioned(reference, sku)
    ensures forall j: nat :: FirstMentioning(reference, sku, j) ==> result == ValueIn(reference[j])
    ensures result.Raised? ==> Contains("nan", sku)
  {
    var found := FirstMention(reference, sku);
    result := Value(None);
    if found.Some? {
      var last := LastPresent(Window(reference[found.value]));
      if last.None? {
        result := Raised;
      } else {
        result := Value(last);
      }
    }
    assert result == SubstituteFor(sku, reference);
    SubstituteForSpec(sku, reference);
    forall j: nat | FirstMentioning(reference, sku, j) ensures result == ValueIn(reference[j]) {
      SubstituteAt(sku, reference, j);
    }
  }

  /** The stage's loop over the sku column; the first lookup that raises ends it. */
  method UpdateWithSubstitute(rows: seq<DescribedRow>, reference: seq<seq<Cell>>)
    returns (values: Option<seq<Cell>>)
    ensures values.None? <==> exists i :: 0 <= i < |rows| && SubstituteFor(rows[i].sku, reference).Raised?
    ensures values.Some? ==>
              && |values.value| == |rows|
              && forall i :: 0 <= i < |rows| ==> SubstituteFor(rows[i].sku, reference) == Value(values.value[i])
    ensures values == SubstituteColumn(rows, reference)
  {
    var acc: seq<Cell> := [];
    for i := 0 to |rows|
      invariant |acc| == i
      invariant forall k :: 0 <= k < i ==> SubstituteFor(rows[k].sku, reference) == Value(acc[k])
    {
      var result := LookupOne(rows[i].sku, reference);
      assert result == SubstituteFor(rows[i].sku, reference) by {
        LookupUnique(rows[i].sku, reference, result);
      }
      if result.Raised? {
        assert !AllFound(rows, reference);
        return None;
      }
      acc := acc + [result.cell];
    }
    assert AllFound(rows, reference);
    assert acc == SubstituteColumn(rows, reference).value;
    values := Some(acc);
  }

  /** There is no self-reference exclusion: when the first mentioning row's last
      non-empty window cell is the sku itself, the sku is its own "F1 to Use". */
  lemma SelfReferenceKept(sku: string, before: seq<seq<Cell>>, row: seq<Cell>, after: seq<seq<Cell>>, k: nat)
    requires forall i :: 0 <= i < |before| ==> !Mentions(before[i], sku)
    requires k < |Window(row)| && Window(row)[k] == Some(sku)
    requires forall l :: k < l < |Window(row)| ==> Window(row)[l].None?
    ensures SubstituteFor(sku, before + [row] + after) == Value(Some(sku))
  {
    var reference := before + [row] + after;
    assert Contains(sku, sku);
    AnyContainsMeans(Window(row), sku);
    LastPresentAt(Window(row), k);
    assert reference[|before|] == row;
    assert forall i :: 0 <= i < |before| ==> reference[i] == before[i];
    SubstituteAt(sku, reference, |before|);
  }
}
