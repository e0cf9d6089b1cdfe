/** The bearer-header middleware of backend/auth.js: it classifies the
    `Authorization` header into one of three 401 rejections or acceptance
    with the decoded claim set (which the source stores in `req.user` before
    calling `next`). It splits on single spaces, keeps the first two pieces
    and compares the scheme case-sensitively. */
module Auth {
  import opened Js
  import opened Jwt

  const NoTokenProvided: string := "No token provided"
  const InvalidTokenFormat: string := "Invalid token format"
  const InvalidToken: string := "Invalid token"

  /** `Reject` is `res.status(status).json({ message })`; `Accept(user)` is
      `req.user = user; next()`. */
  datatype Outcome = Reject(status: int, message: string) | Accept(user: Claims)

  /** `req.headers.authorization || ""`. */
  function HeaderValue(authorization: Option<string>): string
  {
    if authorization.Some? then authorization.value else ""
  }

  /** `const [type, token] = header.split(" ")` followed by the test
      `type !== "Bearer" || !token`: the credential, when the header passes. */
  function ParseBearer(header: string): (credential: Option<string>)
    ensures credential.Some? ==> credential.value != "" && ' ' !in credential.value
  {
    var pieces := Split(header, ' ');
    var scheme := pieces[0];
    var token := if |pieces| > 1 then Some(pieces[1]) else None;
    if scheme != "Bearer" || !Truthy(token) then None else token
  }

  /** The whole middleware, with `jwt.verify` as the oracle `verify`. */
  function Authenticate(authorization: Option<string>, verify: Verifier): (r: Outcome)
    ensures r.Reject? ==> r.status == 401
    ensures r == Reject(401, NoTokenProvided) <==> HeaderValue(authorization) == ""
  {
    var header := HeaderValue(authorization);
    if header == "" then Reject(401, NoTokenProvided)
    else
      match ParseBearer(header)
      case None => Reject(401, InvalidTokenFormat)
      case Some(token) =>
        match verify(token)
        case Failed(_) => Reject(401, InvalidToken)
        case Verified(decoded) => Accept(decoded)
  }

  /** An absent or empty header is refused before anything else is looked at:
      the verifier is never consulted, so the result is the same for every
      verifier. */
  lemma NoHeaderNoToken(authorization: Option<string>, verify: Verifier)
    requires authorization == None || authorization == Some("")
    ensures Authenticate(authorization, verify) == Reject(401, NoTokenProvided)
  {
  }

  /** A passing header is `Bearer`, one space, a non-empty space-free
      credential, and then either the end or another space. */
  lemma {:induction false} ParsedCredentialShape(header: string)
    requires ParseBearer(header).Some?
    ensures var t := ParseBearer(header).value;
      && |header| >= 7 + |t|
      && header[..7 + |t|] == "Bearer " + t
      && (|header| == 7 + |t| || header[7 + |t|] == ' ')
  {
    var pieces := Split(header, ' ');
    var t := pieces[1];
    JoinSplit(header, ' ');
    var tail := Join(pieces[2..], ' ');
    assert pieces[1..][1..] == pieces[2..];
    if |pieces| == 2 {
      assert Join(pieces[1..], ' ') == t;
      assert header == "Bearer" + [' '] + t;
    } else {
      assert Join(pieces[1..], ' ') == t + [' '] + tail;
      assert header == "Bearer" + [' '] + (t + [' '] + tail);
      assert header[7 + |t|] == ' ';
    }
    assert header[..7 + |t|] == "Bearer " + t;
  }

  /** Conversely, every header of that shape passes with exactly that
      credential, whatever follows it. */
  lemma {:induction false} CredentialParsed(t: string, rest: string)
    requires t != "" && ' ' !in t
    requires rest == "" || rest[0] == ' '
    ensures ParseBearer("Bearer " + t + rest) == Some(t)
  {
    var header := "Bearer " + t + rest;
    SplitWithoutSeparator("Bearer", ' ');
    SplitWithoutSeparator(t, ' ');
    if rest == "" {
      assert header == "Bearer" + [' '] + t;
      SplitAround("Bearer", t, ' ');
    } else {
      assert header == "Bearer" + [' '] + (t + [' '] + rest[1..]);
      SplitAround("Bearer", t + [' '] + rest[1..], ' ');
      SplitAround(t, rest[1..], ' ');
    }
  }

  /** `"Bearer"`, `"Bearer "` and `"Bearer  x"`: a missing or empty second
      piece is a format error, for every verifier. */
  lemma {:induction false} MissingCredentialRejected(rest: string, verify: Verifier)
    requires rest == "" || rest[0] == ' '
    ensures Authenticate(Some("Bearer"), verify) == Reject(401, InvalidTokenFormat)
    ensures Authenticate(Some("Bearer " + rest), verify) == Reject(401, InvalidTokenFormat)
  {
    SplitWithoutSeparator("Bearer", ' ');
    assert "Bearer " + rest == "Bearer" + [' '] + rest;
    SplitAround("Bearer", rest, ' ');
    if rest != "" {
      assert rest == [' '] + rest[1..];
      assert Split(rest, ' ')[0] == "";
    }
  }

  /** A first piece other than the exact, case-sensitive `Bearer` is a format
      error, for every verifier; `"bearer x"` is one such header. */
  lemma {:induction false} SchemeMustBeBearer(header: string, verify: Verifier)
    requires header != "" && Split(header, ' ')[0] != "Bearer"
    ensures Authenticate(Some(header), verify) == Reject(401, InvalidTokenFormat)
  {
  }

  lemma {:induction false} LowerCaseSchemeRejected(t: string, verify: Verifier)
    ensures Authenticate(Some("bearer " + t), verify) == Reject(401, InvalidTokenFormat)
  {
    SplitWithoutSeparator("bearer", ' ');
    assert "bearer " + t == "bearer" + [' '] + t;
    SplitAround("bearer", t, ' ');
    SchemeMustBeBearer("bearer " + t, verify);
  }

  /** Only the second piece reaches the verifier: pieces after it are ignored,
      so `"Bearer a b"` is treated as `"Bearer a"`. */
  lemma {:induction false} ExtraPiecesIgnored(t: string, rest: string, verify: Verifier)
    requires t != "" && ' ' !in t
    ensures Authenticate(Some("Bearer " + t + " " + rest), verify) == Authenticate(Some("Bearer " + t), verify)
    ensures Authenticate(Some("Bearer " + t), verify) ==
      (match verify(t)
       case Failed(_) => Reject(401, InvalidToken)
       case Verified(c) => Accept(c))
  {
    CredentialParsed(t, " " + rest);
    assert "Bearer " + t + " " + rest == "Bearer " + t + (" " + rest);
    CredentialParsed(t, "");
    assert "Bearer " + t + "" == "Bearer " + t;
  }

  /** The outcome depends on the verifier only through its answer for the
      parsed credential: two verifiers that agree there give the same
      outcome (no other state is consulted). */
  lemma OnlyCredentialIsVerified(authorization: Option<string>, v1: Verifier, v2: Verifier)
    requires var c := ParseBearer(HeaderValue(authorization)); c.Some? ==> v1(c.value) == v2(c.value)
    ensures Authenticate(authorization, v1) == Authenticate(authorization, v2)
  {
  }

  /** Every verifier failure, whatever its cause, is the same 401
      "Invalid token": expiry, forgery and malformed payloads are
      indistinguishable to the client. */
  lemma UniformVerifierFailure(authorization: Option<string>, v1: Verifier, v2: Verifier)
    requires var c := ParseBearer(HeaderValue(authorization));
      c.Some? && v1(c.value).Failed? && v2(c.value).Failed?
    ensures Authenticate(authorization, v1) == Authenticate(authorization, v2) == Reject(401, InvalidToken)
  {
  }

  /** `next` is called exactly when the header passes and the verifier
      accepts the credential, and `req.user` is then the decoded payload. */
  lemma AcceptExactlyWhenVerified(authorization: Option<string>, verify: Verifier, user: Claims)
    ensures Authenticate(authorization, verify) == Accept(user) <==>
      var c := ParseBearer(HeaderValue(authorization));
      c.Some? && verify(c.value) == Verified(user)
  {
    if HeaderValue(authorization) == "" {
      assert ParseBearer("") == None by {
        assert Split("", ' ') == [""];
      }
    }
  }

  /** A token issued by a signer paired with the verifier, presented as
      `Bearer <token>`, is accepted with the claims it was issued for. */
  lemma {:induction false} IssuedTokenAccepted(sign: Signer, verify: Verifier, claims: Claims)
    requires Paired(sign, verify)
    ensures sign(claims).Some?
    ensures Authenticate(Some("Bearer " + sign(claims).value), verify) == Accept(claims)
  {
    var t := sign(claims).value;
    assert t != "" && ' ' !in t && verify(t) == Verified(claims);
    ExtraPiecesIgnored(t, "", verify);
  }
}
