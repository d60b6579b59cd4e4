/** Row-by-row selection: walk a sequence in order and emit at most one item per
    element. Both the rating filter and the barcode stage's sheet loop have this shape. */
module Sequences {
  import opened Wrappers

  /** The items `f` emits, in input order, dropping the elements it rejects. */
  function FilterMap<T, U>(s: seq<T>, f: T -> Option<U>): (r: seq<U>)
    ensures |r| <= |s|
    decreases |s|
  {
    if s == [] then []
    else
      var last := s[|s| - 1];
      FilterMap(s[..|s| - 1], f) + (match f(last) case Some(u) => [u] case None => [])
  }

  /** The positions `f` accepts, in increasing order. */
  function Kept<T, U>(s: seq<T>, f: T -> Option<U>): (idx: seq<nat>)
    ensures |idx| <= |s|
    ensures forall k :: 0 <= k < |idx| ==> idx[k] < |s|
    decreases |s|
  {
    if s == [] then []
    else
      var n := |s| - 1;
      Kept(s[..n], f) + (if f(s[n]).Some? then [n] else [])
  }

  /** The kept positions increase strictly, and a position is kept exactly when `f`
      accepts its element. */
  lemma {:induction false} KeptSpec<T, U>(s: seq<T>, f: T -> Option<U>)
    ensures forall k, l :: 0 <= k < l < |Kept(s, f)| ==> Kept(s, f)[k] < Kept(s, f)[l]
    ensures forall i :: 0 <= i < |s| ==> (i in Kept(s, f) <==> f(s[i]).Some?)
    decreases |s|
  {
    if s != [] {
      var n := |s| - 1;
      var idx := Kept(s[..n], f);
      KeptSpec(s[..n], f);
      assert Kept(s, f) == idx + (if f(s[n]).Some? then [n] else []);
      forall i | 0 <= i < n ensures (i in Kept(s, f) <==> f(s[i]).Some?) {
        assert s[..n][i] == s[i];
      }
    }
  }

  /** The output is exactly the emitted items of the accepted positions, in order:
      nothing is reordered, nothing duplicated, nothing accepted is lost. */
  lemma {:induction false} FilterMapSelects<T, U>(s: seq<T>, f: T -> Option<U>)
    ensures |FilterMap(s, f)| == |Kept(s, f)|
    ensures forall k :: 0 <= k < |Kept(s, f)| ==>
              f(s[Kept(s, f)[k]]) == Some(FilterMap(s, f)[k])
    decreases |s|
  {
    if s != [] {
      var n := |s| - 1;
      var items, idx := FilterMap(s[..n], f), Kept(s[..n], f);
      FilterMapSelects(s[..n], f);
      assert FilterMap(s, f) == items + (match f(s[n]) case Some(u) => [u] case None => []);
      assert Kept(s, f) == idx + (if f(s[n]).Some? then [n] else []);
      forall k | 0 <= k < |Kept(s, f)|
        ensures f(s[Kept(s, f)[k]]) == Some(FilterMap(s, f)[k])
      {
        if k < |idx| {
          assert Kept(s, f)[k] == idx[k] && FilterMap(s, f)[k] == items[k];
          assert s[..n][idx[k]] == s[idx[k]];
        } else {
          assert Kept(s, f)[k] == n;
        }
      }
    }
  }

  /** Concatenation is associative. */
  lemma ConcatAssoc<T>(x: seq<T>, y: seq<T>, z: seq<T>)
    ensures (x + y) + z == x + (y + z)
  {
  }

  /** Prepending one element prepends at most its own item. */
  lemma {:induction false} FilterMapPrepend<T, U>(x: T, s: seq<T>, f: T -> Option<U>)
    ensures FilterMap([x] + s, f) ==
            (match f(x) case Some(u) => [u] case None => []) + FilterMap(s, f)
    decreases |s|
  {
    if s == [] {
      assert [x] + s == [x] && [x][..0] == [];
    } else {
      var n := |s| - 1;
      assert ([x] + s)[..|s|] == [x] + s[..n];
      assert ([x] + s)[|s|] == s[n];
      FilterMapPrepend(x, s[..n], f);
    }
  }

  /** Appending one element appends at most its own item. */
  lemma FilterMapAppend<T, U>(s: seq<T>, x: T, f: T -> Option<U>)
    ensures FilterMap(s + [x], f) ==
            FilterMap(s, f) + (match f(x) case Some(u) => [u] case None => [])
  {
    assert (s + [x])[..|s|] == s;
  }
}
