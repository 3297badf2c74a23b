/** Extraction of the bearer token from a request's `Authorization`
    header (`getTokenFromRequest` in auth.js). */
module AuthHeader {
  import opened Results
  import opened JsString
  import opened AuthErrors

  /** What the parser sees of a request: its header object, if any, and in
      it the `authorization` header, if any. */
  datatype Headers = Headers(authorization: Option<string>)
  datatype Request = Request(headers: Option<Headers>)

  /** `trim(header) == scheme + " " + token`, with the scheme equal to
      "bearer" ignoring ASCII case and no further space in the token. */
  predicate IsBearerForm(t: string, token: string)
  {
    |t| > 7 && LowerAscii(t[..6]) == "bearer" && t[6] == ' ' && token == t[7..] && ' ' !in token
  }

  /** `getTokenFromRequest`: a missing request or header object, a missing
      or empty header, and a header that does not split into exactly two
      space-separated parts the first of which is `bearer` are rejected;
      otherwise the second part is the token. */
  function GetTokenFromRequest(req: Option<Request>): (r: Result<string, AuthError>)
    ensures (req.None? || req.value.headers.None?) <==> r == Err(InvalidRequest)
    ensures r == Err(MissingAuthorizationHeader)
            <==> !(req.None? || req.value.headers.None?) && (HeaderOf(req).None? || HeaderOf(req) == Some([]))
    ensures r.Err? ==> r.error in {InvalidRequest, MissingAuthorizationHeader, InvalidHeaderFormat}
    ensures r.Ok? ==> r.value != [] && ' ' !in r.value
  {
    if req.None? || req.value.headers.None? then Err(InvalidRequest)
    else
      var header := req.value.headers.value.authorization;
      if header.None? || header.value == [] then Err(MissingAuthorizationHeader)
      else
        var parts := Split(Trim(header.value), ' ');
        if |parts| != 2 || LowerAscii(parts[0]) != "bearer" then Err(InvalidHeaderFormat)
        else
          TokenIsBearerForm(Trim(header.value), parts);
          Ok(parts[1])
  }

  /** When the trimmed header splits into `bearer`-ish and one more part,
      it has the bearer form with that part as the token. */
  lemma TokenIsBearerForm(t: string, parts: seq<string>)
    requires t != [] ==> !IsWhitespace(t[|t| - 1])
    requires parts == Split(t, ' ') && |parts| == 2 && LowerAscii(parts[0]) == "bearer"
    ensures IsBearerForm(t, parts[1]) && parts[1] != []
  {
    SplitJoin(t, ' ');
    TwoPiecesJoined(t, parts);
    assert |parts[0]| == 6;
    assert t[..6] == parts[0] && t[6] == ' ' && t[7..] == parts[1];
  }

  /** Two pieces of a split are the text before and after its one space. */
  lemma TwoPiecesJoined(t: string, parts: seq<string>)
    requires |parts| == 2 && JoinWith(parts, ' ') == t
    ensures t == parts[0] + [' '] + parts[1]
  {
    assert parts[1..] == [parts[1]];
  }

  /** The header a request carries, if it carries one. */
  function HeaderOf(req: Option<Request>): Option<string>
  {
    if req.None? || req.value.headers.None? then None else req.value.headers.value.authorization
  }

  /** A token is extracted exactly when the request has a non-empty header
      whose trimmed text is `Bearer <token>` (any case of `bearer`, one
      space, no space in the token); then the token is that suffix. */
  lemma GetTokenFromRequestIff(req: Option<Request>, token: string)
    ensures GetTokenFromRequest(req) == Ok(token)
            <==> HeaderOf(req).Some? && HeaderOf(req).value != []
                 && IsBearerForm(Trim(HeaderOf(req).value), token)
  {
    var h := HeaderOf(req);
    if h.Some? && h.value != [] {
      var t := Trim(h.value);
      if IsBearerForm(t, token) {
        assert ' ' !in t[..6] by {
          forall i | 0 <= i < 6 ensures t[i] != ' ' {
            assert LowerAscii(t[..6])[i] == "bearer"[i];
          }
        }
        assert t == t[..6] + [' '] + token;
        SplitOnce(t[..6], token, ' ');
      }
      var parts := Split(t, ' ');
      if GetTokenFromRequest(req) == Ok(token) {
        TokenIsBearerForm(t, parts);
      }
    }
  }

  function HeaderRequest(h: string): Option<Request>
  {
    Some(Request(Some(Headers(Some(h)))))
  }

  /** A request without the header, or with an empty one, is rejected as
      missing a header. */
  lemma MissingHeaderRejected()
    ensures GetTokenFromRequest(Some(Request(Some(Headers(None))))) == Err(MissingAuthorizationHeader)
    ensures GetTokenFromRequest(HeaderRequest("")) == Err(MissingAuthorizationHeader)
  {
  }

  /** A header that is present and non-empty but not of the bearer form
      is rejected for its format. */
  lemma {:induction false} NotBearerFormRejected(h: string)
    requires h != [] && forall token :: !IsBearerForm(Trim(h), token)
    ensures GetTokenFromRequest(HeaderRequest(h)) == Err(InvalidHeaderFormat)
  {
    var r := GetTokenFromRequest(HeaderRequest(h));
    if r.Ok? {
      GetTokenFromRequestIff(HeaderRequest(h), r.value);
    }
  }

  /** A header without surrounding white space that is too short, has
      another scheme, no single space after it, or a space in its token is
      rejected for its format. */
  lemma UntrimmedRejected(h: string)
    requires h != [] && !IsWhitespace(h[0]) && !IsWhitespace(h[|h| - 1])
    requires |h| <= 7 || LowerAscii(h[..6]) != "bearer" || h[6] != ' ' || ' ' in h[7..]
    ensures GetTokenFromRequest(HeaderRequest(h)) == Err(InvalidHeaderFormat)
  {
    TrimOfTrimmed(h);
    NotBearerFormRejected(h);
  }

  /** Another scheme is rejected. */
  lemma OtherSchemeRejected()
    ensures GetTokenFromRequest(HeaderRequest("Basic xyz")) == Err(InvalidHeaderFormat)
  {
    var h := "Basic xyz";
    assert LowerAscii(h[..6])[5] == ' ';
    UntrimmedRejected(h);
  }

  /** A scheme without a token is rejected. */
  lemma SchemeAloneRejected()
    ensures GetTokenFromRequest(HeaderRequest("Bearer")) == Err(InvalidHeaderFormat)
  {
    UntrimmedRejected("Bearer");
  }

  /** A space inside the token is rejected. */
  lemma SpacedTokenRejected()
    ensures GetTokenFromRequest(HeaderRequest("Bearer a b")) == Err(InvalidHeaderFormat)
  {
    var h := "Bearer a b";
    assert h[7..][1] == ' ';
    UntrimmedRejected(h);
  }

  /** Two spaces after the scheme are rejected. */
  lemma DoubleSpaceRejected()
    ensures GetTokenFromRequest(HeaderRequest("Bearer  a")) == Err(InvalidHeaderFormat)
  {
    var h := "Bearer  a";
    assert h[7..][0] == ' ';
    UntrimmedRejected(h);
  }

  /** Any six-letter spelling of `bearer`, a space and a token without
      spaces are of the bearer form. */
  lemma BearerFormOf(scheme: string, token: string)
    requires |scheme| == 6 && LowerAscii(scheme) == "bearer"
    requires token != [] && ' ' !in token
    ensures IsBearerForm(scheme + [' '] + token, token)
  {
    var t := scheme + [' '] + token;
    assert t[..6] == scheme && t[6] == ' ' && t[7..] == token;
  }

  /** Surrounding spaces are trimmed and the scheme's case is ignored: a
      space, any six-letter spelling of `bearer`, a space, the token and a
      space yield the token. */
  lemma PaddedBearerAccepted(scheme: string, token: string)
    requires |scheme| == 6 && LowerAscii(scheme) == "bearer"
    requires token != [] && ' ' !in token && !IsWhitespace(token[|token| - 1])
    ensures GetTokenFromRequest(HeaderRequest([' '] + scheme + [' '] + token + [' '])) == Ok(token)
  {
    var t := scheme + [' '] + token;
    assert [' '] + scheme + [' '] + token + [' '] == [' '] + t + [' '];
    assert t[0] == scheme[0] && LowerAscii(scheme)[0] == 'b';
    assert t[|t| - 1] == token[|token| - 1];
    TrimOfPadded(t);
    BearerFormOf(scheme, token);
    GetTokenFromRequestIff(HeaderRequest([' '] + t + [' ']), token);
  }
}
