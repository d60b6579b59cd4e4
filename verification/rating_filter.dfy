/** update_excel_with_rating: fetch each listing row's ratings, keep the rows with a
    low (1 to 3 star) rating that has votes, and record the lowest such rating. */
module RatingFilter {
  import opened Wrappers
  import opened Tables
  import opened Sequences
  import opened RatingsFetch

  /** The columns of the listing file the stage reads. */
  datatype ListingRow = ListingRow(ean: Cell, sku: Cell, id: Cell)

  /** A listing row together with what the ratings endpoint answers for it. */
  datatype Probe = Probe(row: ListingRow, exchange: Exchange)

  /** One entry of `filtered_data`: [ean, sku, id, min_rating]. */
  datatype FilteredRow = FilteredRow(ean: Cell, sku: Cell, id: Cell, rating: int)

  /** `ratings_response.get("ratings", [])`, with a missing response read as no ratings. */
  function RatingsOf(response: Option<Payload>): seq<RatingEntry>
  {
    match response
    case None => []
    case Some(p) => match p.ratings case None => [] case Some(rs) => rs
  }

  /** A rating of 1, 2 or 3 stars that has at least one vote. */
  predicate Qualifying(e: RatingEntry)
  {
    e.rating in {1, 2, 3} && e.count > 0
  }

  /** The list comprehension collecting the qualifying ratings' star values. */
  function ValidRatings(rs: seq<RatingEntry>): (v: seq<int>)
    ensures |v| <= |rs|
    ensures forall x :: x in v <==> exists e :: e in rs && Qualifying(e) && e.rating == x
    ensures forall x :: x in v ==> 1 <= x <= 3
    decreases |rs|
  {
    if rs == [] then []
    else
      assert forall e :: e in rs <==> e == rs[0] || e in rs[1..];
      (if Qualifying(rs[0]) then [rs[0].rating] else []) + ValidRatings(rs[1..])
  }

  /** Python's `min` over a non-empty list. */
  function MinOf(v: seq<int>): (m: int)
    requires |v| > 0
    ensures m in v
    ensures forall x :: x in v ==> m <= x
    decreases |v|
  {
    if |v| == 1 then v[0]
    else
      var rest := MinOf(v[1..]);
      assert forall x :: x in v ==> x == v[0] || x in v[1..];
      if v[0] <= rest then v[0] else rest
  }

  /** The ratings the stage sees for one probe. */
  function Answer(p: Probe): seq<RatingEntry>
  {
    RatingsOf(FetchRatings(p.exchange).payload)
  }

  /** The decision for one listing row. */
  function Screen(p: Probe): (out: Option<FilteredRow>)
    ensures out.Some? <==> exists e :: e in Answer(p) && Qualifying(e)
    ensures out.Some? ==>
              && out.value.ean == p.row.ean
              && out.value.sku == p.row.sku
              && out.value.id == p.row.id
              && 1 <= out.value.rating <= 3
    ensures out.Some? ==>
              && (exists e :: e in Answer(p) && Qualifying(e) && e.rating == out.value.rating)
              && (forall e :: e in Answer(p) && Qualifying(e) ==> out.value.rating <= e.rating)
  {
    var valid := ValidRatings(Answer(p));
    assert forall e :: e in Answer(p) && Qualifying(e) ==> e.rating in valid;
    if |valid| > 0 then
      Some(FilteredRow(p.row.ean, p.row.sku, p.row.id, MinOf(valid)))
    else
      None
  }

  /** The rows the stage returns, as a reference definition. */
  function Filtered(listing: seq<Probe>): seq<FilteredRow>
  {
    FilterMap(listing, Screen)
  }

  /** The output is the screened rows of exactly the qualifying listing rows, in listing
      order: at most one row per listing row, each with its own ean, sku and id. */
  lemma FilteredSelects(listing: seq<Probe>)
    ensures |Filtered(listing)| == |Kept(listing, Screen)| <= |listing|
    ensures forall k, l :: 0 <= k < l < |Kept(listing, Screen)| ==> Kept(listing, Screen)[k] < Kept(listing, Screen)[l]
    ensures forall i :: 0 <= i < |listing| ==>
              (i in Kept(listing, Screen) <==> exists e :: e in Answer(listing[i]) && Qualifying(e))
    ensures forall k :: 0 <= k < |Filtered(listing)| ==>
              Screen(listing[Kept(listing, Screen)[k]]) == Some(Filtered(listing)[k])
  {
    FilterMapSelects(listing, Screen);
    KeptSpec(listing, Screen);
  }

  /** The Authorization token each request of a call carried, given the one in force. */
  function Tokens(current: string, sent: seq<Auth>): (ts: seq<string>)
    ensures |ts| == |sent|
    ensures forall k :: 0 <= k < |sent| ==>
              ts[k] == (match sent[k] case Current => current case Renewed(t) => t)
    decreases |sent|
  {
    if sent == [] then []
    else
      [match sent[0] case Current => current case Renewed(t) => t] + Tokens(current, sent[1..])
  }

  /** Some listing row's call re-authorised and wrote token `t` into the shared headers. */
  predicate Reissued(listing: seq<Probe>, t: string)
  {
    exists j :: 0 <= j < |listing| && FetchRatings(listing[j].exchange).renewed == Some(t)
  }

  /** The token in the shared headers after the calls for `listing`, starting from `token`:
      each successful re-authorisation overwrites it. */
  function TokenAfter(listing: seq<Probe>, token: string): string
    decreases |listing|
  {
    if listing == [] then token
    else
      var n := |listing| - 1;
      match FetchRatings(listing[n].exchange).renewed
      case Some(t) => t
      case None => TokenAfter(listing[..n], token)
  }

  /** The Authorization tokens of all ratings requests for `listing`, in order. */
  function SentTokens(listing: seq<Probe>, token: string): seq<string>
    decreases |listing|
  {
    if listing == [] then []
    else
      var n := |listing| - 1;
      SentTokens(listing[..n], token) + Tokens(TokenAfter(listing[..n], token), FetchRatings(listing[n].exchange).sent)
  }

  /** A token handed out for a row of a prefix was handed out for the whole listing. */
  lemma ReissuedInPrefix(listing: seq<Probe>, n: nat, t: string)
    requires n <= |listing| && Reissued(listing[..n], t)
    ensures Reissued(listing, t)
  {
    var j :| 0 <= j < n && FetchRatings(listing[..n][j].exchange).renewed == Some(t);
    assert listing[j] == listing[..n][j];
  }

  /** The token in force is always the initial one or one that some row's call wrote
      into the headers after re-authorising. */
  lemma {:induction false} TokenAfterIssued(listing: seq<Probe>, token: string)
    ensures TokenAfter(listing, token) == token || Reissued(listing, TokenAfter(listing, token))
    decreases |listing|
  {
    if listing != [] {
      var n := |listing| - 1;
      match FetchRatings(listing[n].exchange).renewed
      case Some(t) =>
        assert FetchRatings(listing[n].exchange).renewed == Some(t);
      case None =>
        TokenAfterIssued(listing[..n], token);
        if TokenAfter(listing, token) != token {
          ReissuedInPrefix(listing, n, TokenAfter(listing, token));
        }
    }
  }

  /** Every row issues one or two requests, and the first carries the initial token. */
  lemma {:induction false} SentTokensCount(listing: seq<Probe>, token: string)
    ensures |listing| <= |SentTokens(listing, token)| <= 2 * |listing|
    ensures |listing| > 0 ==> SentTokens(listing, token)[0] == token
    decreases |listing|
  {
    if listing != [] {
      var n := |listing| - 1;
      SentTokensCount(listing[..n], token);
      if n == 0 {
        assert TokenAfter(listing[..n], token) == token;
      }
    }
  }

  /** The requests of the last row's call carry the token in force before it, or the
      token that row's call re-authorised with. */
  lemma LastCallIssued(listing: seq<Probe>, token: string)
    requires |listing| > 0
    ensures var n := |listing| - 1;
            var current := TokenAfter(listing[..n], token);
            forall t :: t in Tokens(current, FetchRatings(listing[n].exchange).sent) ==>
              t == current || Reissued(listing, t)
  {
    var n := |listing| - 1;
    var current := TokenAfter(listing[..n], token);
    var ts := Tokens(current, FetchRatings(listing[n].exchange).sent);
    forall t | t in ts ensures t == current || Reissued(listing, t) {
      var k :| 0 <= k < |ts| && ts[k] == t;
      if k == 1 {
        assert FetchRatings(listing[n].exchange).renewed == Some(t);
      }
    }
  }

  /** Every request carries the initial token or one that some row's call re-authorised
      with. */
  lemma {:induction false} SentTokensIssued(listing: seq<Probe>, token: string)
    ensures forall t :: t in SentTokens(listing, token) ==> t == token || Reissued(listing, t)
    decreases |listing|
  {
    if listing != [] {
      var n := |listing| - 1;
      var before := SentTokens(listing[..n], token);
      var current := TokenAfter(listing[..n], token);
      var tokens := Tokens(current, FetchRatings(listing[n].exchange).sent);
      assert SentTokens(listing, token) == before + tokens;
      SentTokensIssued(listing[..n], token);
      forall t | t in before ensures t == token || Reissued(listing, t) {
        if t != token {
          ReissuedInPrefix(listing, n, t);
        }
      }
      TokenAfterIssued(listing[..n], token);
      if current != token {
        ReissuedInPrefix(listing, n, current);
      }
      LastCallIssued(listing, token);
    }
  }

  /** The decision for a row is fully pinned down by what `Screen` promises: kept exactly
      when a qualifying entry exists, with the row's own fields and the least qualifying
      rating. */
  lemma ScreenUnique(p: Probe, out: Option<FilteredRow>)
    requires out.Some? <==> exists e :: e in Answer(p) && Qualifying(e)
    requires out.Some? ==>
               && out.value == FilteredRow(p.row.ean, p.row.sku, p.row.id, out.value.rating)
               && (exists e :: e in Answer(p) && Qualifying(e) && e.rating == out.value.rating)
               && (forall e :: e in Answer(p) && Qualifying(e) ==> out.value.rating <= e.rating)
    ensures out == Screen(p)
  {
    if out.Some? {
      var e1 :| e1 in Answer(p) && Qualifying(e1) && e1.rating == out.value.rating;
      var e2 :| e2 in Answer(p) && Qualifying(e2) && e2.rating == Screen(p).value.rating;
      assert out.value.rating <= e2.rating && Screen(p).value.rating <= e1.rating;
    }
  }

  /** The tokens of one call and the token in force after it are pinned down by: the
      first request under the token in force, a second one exactly when the call renewed
      the token, under that token, which then stays in force. */
  lemma CallTokensUnique(ex: Exchange, current: string, tokens: seq<string>, next: string)
    requires 1 <= |tokens| <= 2 && tokens[0] == current
    requires |tokens| == 2 <==> FetchRatings(ex).renewed.Some?
    requires |tokens| == 2 ==> FetchRatings(ex).renewed == Some(tokens[1])
    requires next == if |tokens| == 2 then tokens[1] else current
    ensures tokens == Tokens(current, FetchRatings(ex).sent)
    ensures next == match FetchRatings(ex).renewed case Some(t) => t case None => current
  {
  }

  /** One pass of the loop for one row: the ratings call under the token in force, then
      the decision. The row is kept exactly when its answer has a qualifying entry, with
      its own ean, sku and id and the least qualifying rating. The call's requests carry
      the token in force and, after a renewal, the renewed token, which stays in force. */
  method ScreenRow(p: Probe, current: string)
    returns (out: Option<FilteredRow>, tokens: seq<string>, next: string)
    ensures out.Some? <==> exists e :: e in Answer(p) && Qualifying(e)
    ensures out.Some? ==>
              && out.value == FilteredRow(p.row.ean, p.row.sku, p.row.id, out.value.rating)
              && (exists e :: e in Answer(p) && Qualifying(e) && e.rating == out.value.rating)
              && (forall e :: e in Answer(p) && Qualifying(e) ==> out.value.rating <= e.rating)
    ensures 1 <= |tokens| <= 2 && tokens[0] == current
    ensures |tokens| == 2 <==> FetchRatings(p.exchange).renewed.Some?
    ensures |tokens| == 2 ==> FetchRatings(p.exchange).renewed == Some(tokens[1])
    ensures next == if |tokens| == 2 then tokens[1] else current
  {
    var f := FetchRatings(p.exchange);
    tokens := [current];
    next := current;
    if f.renewed.Some? {
      next := f.renewed.value;
      tokens := tokens + [next];
    }
    var valid := ValidRatings(RatingsOf(f.payload));
    assert forall e :: e in Answer(p) && Qualifying(e) ==> e.rating in valid;
    out := None;
    if |valid| > 0 {
      out := Some(FilteredRow(p.row.ean, p.row.sku, p.row.id, MinOf(valid)));
    }
  }

  /** Screening one more row adds at most that row's own item. */
  lemma FilteredStep(listing: seq<Probe>, i: nat)
    requires i < |listing|
    ensures Filtered(listing[..i + 1]) ==
            Filtered(listing[..i]) + (match Screen(listing[i]) case Some(u) => [u] case None => [])
  {
    assert listing[..i + 1] == listing[..i] + [listing[i]];
    FilterMapAppend(listing[..i], listing[i], Screen);
  }

  /** One more row's call appends its own requests' tokens and may renew the token. */
  lemma CallStep(listing: seq<Probe>, i: nat, token: string)
    requires i < |listing|
    ensures var f := FetchRatings(listing[i].exchange);
            && SentTokens(listing[..i + 1], token) ==
                 SentTokens(listing[..i], token) + Tokens(TokenAfter(listing[..i], token), f.sent)
            && TokenAfter(listing[..i + 1], token) ==
                 match f.renewed case Some(t) => t case None => TokenAfter(listing[..i], token)
  {
    assert listing[..i + 1][..i] == listing[..i];
  }

  /** The stage's loop. `headers` is shared by all calls, so a token obtained by a
      re-authorisation stays in force for the rows after it. Besides the rows it
      returns the tokens the ratings requests carried, in order. */
  method UpdateWithRating(listing: seq<Probe>, token: string)
    returns (filtered: seq<FilteredRow>, sent: seq<string>)
    ensures filtered == Filtered(listing)
    ensures |listing| <= |sent| <= 2 * |listing|
    ensures |listing| > 0 ==> sent[0] == token
    ensures forall k :: 0 <= k < |sent| ==> sent[k] == token || Reissued(listing, sent[k])
  {
    filtered := [];
    sent := [];
    var current := token;
    for i := 0 to |listing|
      invariant filtered == Filtered(listing[..i])
      invariant sent == SentTokens(listing[..i], token)
      invariant current == TokenAfter(listing[..i], token)
    {
      var p := listing[i];
      var out, tokens, next := ScreenRow(p, current);
      ScreenUnique(p, out);
      CallTokensUnique(p.exchange, current, tokens, next);
      sent := sent + tokens;
      current := next;
      if out.Some? {
        filtered := filtered + [out.value];
      }
      FilteredStep(listing, i);
      CallStep(listing, i, token);
    }
    assert listing[..|listing|] == listing;
    SentTokensCount(listing, token);
    SentTokensIssued(listing, token);
  }

  /** A row whose ratings call ended in 404 (or any error) is dropped. */
  lemma NoAnswerDropsRow(p: Probe)
    requires FetchRatings(p.exchange).payload.None?
    ensures Screen(p).None?
  {
  }

  /** The worked example: ratings [(1, 0), (2, 5), (4, 9)] keep the row with rating 2. */
  lemma ExampleKeepsTwo(row: ListingRow)
    ensures
      var ratings := [RatingEntry(1, 0), RatingEntry(2, 5), RatingEntry(4, 9)];
      var reply := Response(200, Some(Payload(Some(ratings))));
      Screen(Probe(row, Exchange([reply], None))) ==
        Some(FilteredRow(row.ean, row.sku, row.id, 2))
  {
    var ratings := [RatingEntry(1, 0), RatingEntry(2, 5), RatingEntry(4, 9)];
    var p := Probe(row, Exchange([Response(200, Some(Payload(Some(ratings))))], None));
    assert Answer(p) == ratings;
    assert ValidRatings(ratings) == [2] by {
      assert ratings[1..] == [RatingEntry(2, 5), RatingEntry(4, 9)];
      assert ratings[1..][1..] == [RatingEntry(4, 9)];
      assert ratings[1..][1..][1..] == [];
    }
  }
}
