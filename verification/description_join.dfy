/** update_excel_with_sku_description: a left join of the filtered rows with the
    description reference on the text of `sku` against the text of `Sku code`, after
    which the `Sku code` column is dropped. */
module DescriptionJoin {
  import opened Wrappers
  import opened Tables
  import opened Sequences
  import opened RatingFilter

  /** The two reference columns the join reads. */
  datatype DescriptionRef = DescriptionRef(code: Cell, description: Cell)

  /** A joined row: the filtered row with `sku` as text and its `Sku description`.
      It has no `Sku code` field: the key column is gone from the result. */
  datatype DescribedRow = DescribedRow(ean: Cell, sku: string, id: Cell, rating: int, description: Cell)

  /** Whether a reference row's key equals a listing key, both compared as text. */
  predicate KeyMatches(r: DescriptionRef, key: string)
  {
    AsText(r.code) == key
  }

  /** The description of a reference row whose key matches, and nothing for the others. */
  function DescriptionIf(key: string): DescriptionRef -> Option<Cell>
  {
    r => if KeyMatches(r, key) then Some(r.description) else None
  }

  /** The positions of the reference rows whose key matches, in increasing order. */
  function MatchPositions(key: string, reference: seq<DescriptionRef>): (idx: seq<nat>)
    ensures |idx| <= |reference|
  {
    Kept(reference, DescriptionIf(key))
  }

  /** The descriptions the merge pairs with a key, in reference order. */
  function Matches(key: string, reference: seq<DescriptionRef>): (ds: seq<Cell>)
    ensures |ds| <= |reference|
  {
    FilterMap(reference, DescriptionIf(key))
  }

  /** The merge pairs a key with one description per matching reference row: the
      matching positions increase, hold every row whose key matches and no other, and
      the k-th description is that of the k-th matching row. */
  lemma MatchesSelects(key: string, reference: seq<DescriptionRef>)
    ensures var idx := MatchPositions(key, reference);
            && (forall k :: 0 <= k < |idx| ==> idx[k] < |reference|)
            && (forall k, l :: 0 <= k < l < |idx| ==> idx[k] < idx[l])
            && (forall i :: 0 <= i < |reference| ==> (i in idx <==> KeyMatches(reference[i], key)))
            && |Matches(key, reference)| == |idx|
            && forall k :: 0 <= k < |idx| ==> Matches(key, reference)[k] == reference[idx[k]].description
  {
    KeptSpec(reference, DescriptionIf(key));
    FilterMapSelects(reference, DescriptionIf(key));
  }

  /** The first reference row's description, if its key matches, comes before the rest. */
  lemma MatchesFirst(key: string, reference: seq<DescriptionRef>)
    requires reference != []
    ensures Matches(key, reference) ==
            (if KeyMatches(reference[0], key) then [reference[0].description] else [])
              + Matches(key, reference[1..])
  {
    assert reference == [reference[0]] + reference[1..];
    FilterMapPrepend(reference[0], reference[1..], DescriptionIf(key));
  }

  /** The rows `pd.merge(how='left')` makes of one left row: one per matching reference
      row, or the row with a null description when nothing matches. */
  function JoinRow(row: FilteredRow, reference: seq<DescriptionRef>): (out: seq<DescribedRow>)
    ensures var ds := Matches(AsText(row.sku), reference);
            && |out| == (if |ds| == 0 then 1 else |ds|)
            && (forall k :: 0 <= k < |out| ==>
                  out[k] == DescribedRow(row.ean, AsText(row.sku), row.id, row.rating,
                                         if |ds| == 0 then None else ds[k]))
  {
    var key := AsText(row.sku);
    var ds := Matches(key, reference);
    if |ds| == 0 then [DescribedRow(row.ean, key, row.id, row.rating, None)]
    else seq(|ds|, k requires 0 <= k < |ds| => DescribedRow(row.ean, key, row.id, row.rating, ds[k]))
  }

  /** The merged table: left rows in order, each expanded by JoinRow. */
  function Join(rows: seq<FilteredRow>, reference: seq<DescriptionRef>): (out: seq<DescribedRow>)
    ensures |out| >= |rows|
    decreases |rows|
  {
    if rows == [] then []
    else Join(rows[..|rows| - 1], reference) + JoinRow(rows[|rows| - 1], reference)
  }

  /** Reference keys, as text, are pairwise distinct. */
  predicate UniqueCodes(reference: seq<DescriptionRef>)
  {
    forall i, j :: 0 <= i < j < |reference| ==> AsText(reference[i].code) != AsText(reference[j].code)
  }

  /** The description lookup the join is meant to perform: the first reference row
      with the key, or null. */
  function Describe(key: string, reference: seq<DescriptionRef>): (d: Cell)
    ensures (forall r :: r in reference ==> !KeyMatches(r, key)) ==> d.None?
    ensures d.Some? ==> exists r :: r in reference && KeyMatches(r, key) && r.description == d
    decreases |reference|
  {
    if reference == [] then None
    else if KeyMatches(reference[0], key) then reference[0].description
    else Describe(key, reference[1..])
  }

  /** The description lookup finds the first reference row with the key. */
  lemma {:induction false} DescribeFirst(key: string, reference: seq<DescriptionRef>, p: nat)
    requires p < |reference| && KeyMatches(reference[p], key)
    requires forall q :: 0 <= q < p ==> !KeyMatches(reference[q], key)
    ensures Describe(key, reference) == reference[p].description
    decreases p
  {
    if p > 0 {
      assert !KeyMatches(reference[0], key);
      DescribeFirst(key, reference[1..], p - 1);
    }
  }

  /** With distinct keys, a key matches at most one reference row. */
  lemma {:induction false} UniqueKeyMatchesOnce(key: string, reference: seq<DescriptionRef>)
    requires UniqueCodes(reference)
    ensures Matches(key, reference) == (if exists r :: r in reference && KeyMatches(r, key)
                                        then [Describe(key, reference)] else [])
    decreases |reference|
  {
    if reference != [] {
      var rest := reference[1..];
      MatchesFirst(key, reference);
      assert UniqueCodes(rest) by {
        forall i, j | 0 <= i < j < |rest| ensures AsText(rest[i].code) != AsText(rest[j].code) {
          assert rest[i] == reference[i + 1] && rest[j] == reference[j + 1];
        }
      }
      UniqueKeyMatchesOnce(key, rest);
      if KeyMatches(reference[0], key) {
        assert !exists r :: r in rest && KeyMatches(r, key) by {
          forall r | r in rest ensures !KeyMatches(r, key) {
            var j :| 0 <= j < |rest| && rest[j] == r;
            assert reference[j + 1] == r;
          }
        }
      } else {
        assert forall r :: r in reference <==> r == reference[0] || r in rest;
      }
    }
  }

  /** The joined row of a filtered row under distinct reference keys. */
  function Described(row: FilteredRow, reference: seq<DescriptionRef>): DescribedRow
  {
    DescribedRow(row.ean, AsText(row.sku), row.id, row.rating, Describe(AsText(row.sku), reference))
  }

  lemma JoinRowUnique(row: FilteredRow, reference: seq<DescriptionRef>)
    requires UniqueCodes(reference)
    ensures JoinRow(row, reference) == [Described(row, reference)]
  {
    UniqueKeyMatchesOnce(AsText(row.sku), reference);
    if !exists r :: r in reference && KeyMatches(r, AsText(row.sku)) {
      assert Describe(AsText(row.sku), reference).None?;
    }
  }

  /** With distinct reference keys every filtered row appears exactly once, in order,
      carrying the description of the reference row whose key equals its sku, or null. */
  lemma {:induction false} JoinPreservesRows(rows: seq<FilteredRow>, reference: seq<DescriptionRef>)
    requires UniqueCodes(reference)
    ensures |Join(rows, reference)| == |rows|
    ensures forall i :: 0 <= i < |rows| ==> Join(rows, reference)[i] == Described(rows[i], reference)
    decreases |rows|
  {
    if rows != [] {
      var n := |rows| - 1;
      var prefix := Join(rows[..n], reference);
      JoinPreservesRows(rows[..n], reference);
      JoinRowUnique(rows[n], reference);
      assert Join(rows, reference) == prefix + [Described(rows[n], reference)];
      forall i | 0 <= i < |rows|
        ensures Join(rows, reference)[i] == Described(rows[i], reference)
      {
        if i < n {
          assert rows[..n][i] == rows[i];
        }
      }
    }
  }

  /** The last left row's block comes last. */
  lemma JoinLast(rows: seq<FilteredRow>, reference: seq<DescriptionRef>)
    requires rows != []
    ensures Join(rows, reference) == Join(rows[..|rows| - 1], reference) + JoinRow(rows[|rows| - 1], reference)
  {
  }

  /** Joining two tables joins their rows separately. */
  lemma {:induction false} JoinAppend(a: seq<FilteredRow>, b: seq<FilteredRow>, reference: seq<DescriptionRef>)
    ensures Join(a + b, reference) == Join(a, reference) + Join(b, reference)
    decreases |b|
  {
    if b == [] {
      assert a + b == a;
    } else {
      var m := |b| - 1;
      var ab := a + b;
      assert ab[..|ab| - 1] == a + b[..m];
      assert ab[|ab| - 1] == b[m];
      JoinAppend(a, b[..m], reference);
      JoinLast(ab, reference);
      JoinLast(b, reference);
      var left, middle, last := Join(a, reference), Join(b[..m], reference), JoinRow(b[m], reference);
      assert Join(ab, reference) == Join(a + b[..m], reference) + last;
      assert Join(ab, reference) == (left + middle) + last;
      assert Join(b, reference) == middle + last;
      ConcatAssoc(left, middle, last);
    }
  }

  /** Every left row contributes exactly its own block of joined rows, after the blocks of
      the rows above it and before those of the rows below it. */
  lemma JoinBlock(rows: seq<FilteredRow>, reference: seq<DescriptionRef>, i: nat)
    requires i < |rows|
    ensures Join(rows, reference) ==
            Join(rows[..i], reference) + JoinRow(rows[i], reference) + Join(rows[i + 1..], reference)
  {
    assert rows == rows[..i] + [rows[i]] + rows[i + 1..];
    JoinAppend(rows[..i] + [rows[i]], rows[i + 1..], reference);
    JoinAppend(rows[..i], [rows[i]], reference);
    assert [rows[i]][..0] == [];
  }

  /** A key shared by several reference rows duplicates the filtered row: one joined row
      per matching reference row, in reference order, each with that row's description. */
  lemma DuplicateKeysDuplicateRow(row: FilteredRow, reference: seq<DescriptionRef>, i: nat, j: nat)
    requires i < j < |reference|
    requires KeyMatches(reference[i], AsText(row.sku)) && KeyMatches(reference[j], AsText(row.sku))
    ensures var idx := MatchPositions(AsText(row.sku), reference);
            && i in idx && j in idx
            && |JoinRow(row, reference)| == |idx| >= 2
            && forall k :: 0 <= k < |idx| ==>
                 JoinRow(row, reference)[k] ==
                 DescribedRow(row.ean, AsText(row.sku), row.id, row.rating, reference[idx[k]].description)
  {
    var idx := MatchPositions(AsText(row.sku), reference);
    MatchesSelects(AsText(row.sku), reference);
    assert i in idx && j in idx;
  }
}
