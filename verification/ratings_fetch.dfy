/** The ratings call for one EAN: one GET, a single re-authorise-and-retry on 401,
    then a dispatch on the status of the reply looked at last. The HTTP endpoint and the
    token endpoint are replaced by the replies they give (an `Exchange`). */
module RatingsFetch {
  import opened Wrappers

  /** HTTP status codes as section 15 of RFC 9110 defines them: 100 to 599. */
  type StatusCode = s: int | 100 <= s <= 599 witness 200

  datatype RatingEntry = RatingEntry(rating: int, count: int)

  /** The decoded JSON object of a ratings reply; `ratings` is None when the key is absent. */
  datatype Payload = Payload(ratings: Option<seq<RatingEntry>>)

  /** One reply of the ratings endpoint; `body` is None when the body is not valid JSON
      or decodes to `null`. */
  datatype Response = Response(status: StatusCode, body: Option<Payload>)

  /** What the outside world does during one ratings call: the replies the endpoint gives
      to successive requests (a request past the end of `replies` fails in transport), and
      the token the token endpoint hands out if asked (None when it gives none). */
  datatype Exchange = Exchange(replies: seq<Response>, reauth: Option<string>)

  /** The Authorization header a request carried: the one in force, or a freshly issued token. */
  datatype Auth = Current | Renewed(token: string)

  /** The result of a call: the payload handed back, the requests issued in order, and the
      token written into the shared headers by a successful re-authorisation. */
  datatype Fetch = Fetch(payload: Option<Payload>, sent: seq<Auth>, renewed: Option<string>)

  /** A reply inspected last: 404 is "no ratings", any other status from 400 up makes
      raise_for_status throw (and the handler return None), anything else gives the body. */
  function Settle(r: Response): Option<Payload>
  {
    if r.status == 404 then None
    else if r.status >= 400 then None
    else r.body
  }

  /** get_product_ratings. Every exception path (transport failure, a token of None
      concatenated onto "Bearer ", an error status) ends in None. */
  function FetchRatings(ex: Exchange): (f: Fetch)
    ensures 1 <= |f.sent| <= 2 && f.sent[0] == Current
    ensures |f.sent| == 2 <==>
              |ex.replies| > 0 && ex.replies[0].status == 401 && ex.reauth.Some?
    ensures |f.sent| == 2 ==> f.sent[1] == Renewed(ex.reauth.value)
    ensures f.renewed == (if |f.sent| == 2 then ex.reauth else None)
    // the payload is the body of the last request's reply, and only when its status is below 400
    ensures f.payload.Some? ==>
              && |f.sent| <= |ex.replies|
              && ex.replies[|f.sent| - 1].status < 400
              && f.payload == ex.replies[|f.sent| - 1].body
    ensures |f.sent| <= |ex.replies| && ex.replies[|f.sent| - 1].status < 400 ==>
              f.payload == ex.replies[|f.sent| - 1].body
  {
    if |ex.replies| == 0 then Fetch(None, [Current], None)
    else
      var first := ex.replies[0];
      if first.status == 401 then
        match ex.reauth
        case None => Fetch(None, [Current], None)
        case Some(token) =>
          var sent := [Current, Renewed(token)];
          if |ex.replies| < 2 then Fetch(None, sent, Some(token))
          else Fetch(Settle(ex.replies[1]), sent, Some(token))
      else Fetch(Settle(first), [Current], None)
  }

  /** A final 404, or any other final status from 400 up, gives no payload. */
  lemma ErrorStatusGivesNothing(ex: Exchange)
    requires |FetchRatings(ex).sent| <= |ex.replies|
    requires ex.replies[|FetchRatings(ex).sent| - 1].status >= 400
    ensures FetchRatings(ex).payload.None?
  {
  }

  /** Replies beyond the requests issued are never looked at. */
  lemma FetchReadsOnlyIssuedReplies(ex: Exchange, extra: seq<Response>)
    requires |FetchRatings(ex).sent| <= |ex.replies|
    ensures FetchRatings(Exchange(ex.replies + extra, ex.reauth)) == FetchRatings(ex)
  {
    var n := |FetchRatings(ex).sent|;
    assert (ex.replies + extra)[0] == ex.replies[0];
    if n == 2 {
      assert (ex.replies + extra)[1] == ex.replies[1];
    }
  }

  /** A 401 with a working token endpoint is recovered by the retry. */
  lemma RetryAfterUnauthorised(first: Response, second: Response, token: string)
    requires first.status == 401 && second.status == 200
    ensures FetchRatings(Exchange([first, second], Some(token))) ==
            Fetch(second.body, [Current, Renewed(token)], Some(token))
  {
  }
}
