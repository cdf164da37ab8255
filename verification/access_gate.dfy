/** The HTTP Basic gate in front of the admin and overlay pages
    (middleware.js). For a request path it decides whether the request may
    go on or must be answered with a 401 challenge. The credential scheme
    follows section 2 of RFC 7617, with the token decoded as Base64. The
    environment variables AUTH_USER and AUTH_PASS are parameters, and an
    unset variable is `None`. */
module AccessGate {
  import opened Wrappers
  import opened Text
  import Base64

  /** Declared beside the protected list but never consulted. */
  const PublicPaths: seq<string> := ["/_next", "/favicon.ico"]

  const ProtectedPaths: seq<string> := ["/goal", "/api/goal", "/"]

  /** `Next` lets the request through; `Reject` is the response sent instead. */
  datatype Decision = Next | Reject(status: int, body: string, wwwAuthenticate: string)

  /** The one denial the gate ever sends. */
  const Challenge: Decision := Reject(401, "Authentication required", "Basic realm=\"Protected Area\"")

  /** Some protected entry is a prefix of the path. */
  predicate IsProtected(pathname: string) {
    exists i :: 0 <= i < |ProtectedPaths| && ProtectedPaths[i] <= pathname
  }

  /** The second space-separated piece of the Authorization header, read
      without looking at the first (the scheme word). It is present exactly
      when the header has a space, and never contains one. */
  function Token(authorization: string): (r: Option<string>)
    ensures r.Some? <==> ' ' in authorization
    ensures r.Some? ==> ' ' !in r.value
  {
    SplitHead(authorization, ' ');
    Piece(Split(authorization, ' '), 1)
  }

  /** The user and password pieces of decoded credentials: the first two
      pieces of the text split on `:`. The user piece is the text up to the
      first colon; the password piece is None when the text has no colon. */
  function Credentials(text: string): (r: (string, Option<string>))
    ensures ':' !in text ==> r == (text, None)
    ensures ':' in text ==> r.1.Some? && ':' !in r.0 && ':' !in r.1.value
    ensures ':' in text ==> r.0 <= text && text[|r.0|] == ':' && r.1.value <= text[|r.0| + 1..]
    ensures ':' in text ==> |r.0| + 1 + |r.1.value| == |text| || text[|r.0| + 1 + |r.1.value|] == ':'
  {
    var parts := Split(text, ':');
    SplitHead(text, ':');
    if ':' in text then
      SplitSecond(text, ':');
      (parts[0], Piece(parts, 1))
    else
      SplitNoSeparator(text, ':');
      (parts[0], Piece(parts, 1))
  }

  /** The middleware's decision for a request to `pathname` carrying the
      Authorization header `authorization` (None when the header is absent). */
  function Authorize(pathname: string, authorization: Option<string>,
                     authUser: Option<string>, authPass: Option<string>): (d: Decision)
    ensures d == Next || d == Challenge
    ensures !IsProtected(pathname) ==> d == Next
    ensures IsProtected(pathname) && authorization.None? ==> d == Challenge
    ensures IsProtected(pathname) && d == Next ==> authUser.Some?
  {
    if !IsProtected(pathname) then Next
    else
      var encoded := Token(authorization.GetOr(""));
      if encoded.None? || encoded.value == "" then Challenge
      else
        match Base64.Decode(encoded.value)
        case None => Challenge
        case Some(bytes) =>
          var (user, pass) := Credentials(BytesToText(bytes));
          if Some(user) == authUser && pass == authPass then Next else Challenge
  }

  /** Because "/" is in the list, a path is protected exactly when it starts
      with "/". */
  lemma ProtectedIffRooted(pathname: string)
    ensures IsProtected(pathname) <==> |pathname| > 0 && pathname[0] == '/'
  {
    if |pathname| > 0 && pathname[0] == '/' {
      assert ProtectedPaths[2] <= pathname;
    }
    if IsProtected(pathname) {
      var i :| 0 <= i < |ProtectedPaths| && ProtectedPaths[i] <= pathname;
      assert ProtectedPaths[i][0] == '/';
    }
  }

  /** The public list exempts nothing: a path under a public prefix is
      protected, and without credentials it is challenged. */
  lemma PublicPathsAreGated(pathname: string, authUser: Option<string>, authPass: Option<string>)
    requires exists i :: 0 <= i < |PublicPaths| && PublicPaths[i] <= pathname
    ensures IsProtected(pathname)
    ensures Authorize(pathname, None, authUser, authPass) == Challenge
  {
    var i :| 0 <= i < |PublicPaths| && PublicPaths[i] <= pathname;
    assert PublicPaths[i][0] == '/';
    ProtectedIffRooted(pathname);
  }

  /** The header's first space ends the scheme word and the token is what
      follows, up to the next space. */
  lemma TokenAfterScheme(scheme: string, rest: string)
    requires ' ' !in scheme
    ensures Token(scheme + " " + rest) == Some(Split(rest, ' ')[0])
  {
    SplitAtFirst(scheme, rest, ' ');
  }

  /** The gate fails closed: on a protected path a header with no space, one
      that ends after the first space, and one whose first space is doubled
      all carry no token and are challenged. */
  lemma NoTokenIsChallenged(pathname: string, scheme: string, rest: string,
                            authUser: Option<string>, authPass: Option<string>)
    requires IsProtected(pathname)
    requires ' ' !in scheme
    ensures Authorize(pathname, Some(scheme), authUser, authPass) == Challenge
    ensures Authorize(pathname, Some(scheme + " "), authUser, authPass) == Challenge
    ensures Authorize(pathname, Some(scheme + "  " + rest), authUser, authPass) == Challenge
  {
    SplitNoSeparator(scheme, ' ');
    EmptyToken(scheme);
    DoubledSpace(scheme, rest);
  }

  lemma EmptyToken(scheme: string)
    requires ' ' !in scheme
    ensures Token(scheme + " ") == Some("")
  {
    TokenAfterScheme(scheme, "");
    assert scheme + " " == scheme + " " + "";
  }

  lemma DoubledSpace(scheme: string, rest: string)
    requires ' ' !in scheme
    ensures Token(scheme + "  " + rest) == Some("")
  {
    TokenAfterScheme(scheme, " " + rest);
    assert scheme + "  " + rest == scheme + " " + (" " + rest);
    assert " " + rest == [] + [' '] + rest;
    SplitAtFirst([], rest, ' ');
  }

  /** The scheme word is never checked: any two space-free words in front
      of the same token give the same decision. */
  lemma SchemeIsIgnored(pathname: string, scheme1: string, scheme2: string, rest: string,
                        authUser: Option<string>, authPass: Option<string>)
    requires ' ' !in scheme1 && ' ' !in scheme2
    ensures Authorize(pathname, Some(scheme1 + " " + rest), authUser, authPass)
         == Authorize(pathname, Some(scheme2 + " " + rest), authUser, authPass)
  {
    TokenAfterScheme(scheme1, rest);
    TokenAfterScheme(scheme2, rest);
  }

  /** Only the first two colon-separated pieces are compared: text after a
      second colon is ignored, and colon-free text has no password piece. */
  lemma CredentialsPieces(user: string, pass: string, extra: string)
    requires ':' !in user && ':' !in pass
    ensures Credentials(user + ":" + pass) == (user, Some(pass))
    ensures Credentials(user + ":" + pass + ":" + extra) == (user, Some(pass))
    ensures Credentials(user) == (user, None)
  {
    SplitNoSeparator(pass, ':');
    SplitAtFirst(user, pass, ':');
    SplitAtFirst(pass, extra, ':');
    assert user + ":" + pass + ":" + extra == user + [':'] + (pass + [':'] + extra);
    SplitAtFirst(user, pass + [':'] + extra, ':');
    SplitNoSeparator(user, ':');
  }

  /** On a protected path, a header carrying the Base64 encoding of
      non-empty ASCII text is let through exactly when the text's user piece
      equals AUTH_USER and its password piece equals AUTH_PASS. */
  lemma EncodedTextDecides(pathname: string, scheme: string, text: string,
                           authUser: Option<string>, authPass: Option<string>)
    requires IsProtected(pathname)
    requires ' ' !in scheme
    requires IsAscii(text) && text != ""
    ensures Authorize(pathname, Some(scheme + " " + Base64.Encode(AsciiBytes(text))), authUser, authPass) == Next
        <==> Some(Credentials(text).0) == authUser && Credentials(text).1 == authPass
  {
    var bytes := AsciiBytes(text);
    var token := Base64.Encode(bytes);
    Base64.EncodeAlphabet(bytes);
    assert forall i :: 0 <= i < |token| ==> token[i] != ' ';
    SplitNoSeparator(token, ' ');
    TokenAfterScheme(scheme, token);
    Base64.DecodeEncode(bytes);
  }

  /** Round trip of HTTP Basic: for a colon-free ASCII user and password,
      `Basic base64(user:pass)` is let through exactly when the path is not
      protected or both match the configured values. */
  lemma BasicRoundTrip(pathname: string, user: string, pass: string,
                       authUser: Option<string>, authPass: Option<string>)
    requires IsAscii(user) && IsAscii(pass)
    requires ':' !in user && ':' !in pass
    ensures Authorize(pathname, Some("Basic " + Base64.Encode(AsciiBytes(user + ":" + pass))), authUser, authPass) == Next
        <==> !IsProtected(pathname) || (authUser == Some(user) && authPass == Some(pass))
  {
    if IsProtected(pathname) {
      var text := user + ":" + pass;
      AsciiConcat(user, ":");
      AsciiConcat(user + ":", pass);
      assert text[|user|] == ':';
      EncodedTextDecides(pathname, "Basic", text, authUser, authPass);
      CredentialsPieces(user, pass, "");
      assert "Basic" + " " == "Basic ";
    }
  }

  /** Anything after a second colon is ignored: appending `:extra` to the
      password does not change the decision. */
  lemma TrailingPiecesIgnored(pathname: string, user: string, pass: string, extra: string,
                              authUser: Option<string>, authPass: Option<string>)
    requires IsAscii(user) && IsAscii(pass) && IsAscii(extra)
    requires ':' !in user && ':' !in pass
    ensures Authorize(pathname, Some("Basic " + Base64.Encode(AsciiBytes(user + ":" + pass + ":" + extra))), authUser, authPass)
         == Authorize(pathname, Some("Basic " + Base64.Encode(AsciiBytes(user + ":" + pass))), authUser, authPass)
  {
    if IsProtected(pathname) {
      var short, long := user + ":" + pass, user + ":" + pass + ":" + extra;
      AsciiConcat(user, ":");
      AsciiConcat(user + ":", pass);
      AsciiConcat(short, ":");
      AsciiConcat(short + ":", extra);
      assert short[|user|] == ':' && long[|user|] == ':';
      CredentialsPieces(user, pass, extra);
      SameCredentialsSameDecision(pathname, short, long, authUser, authPass);
    }
  }

  /** Two encoded ASCII texts with the same credential pieces get the same
      decision. */
  lemma SameCredentialsSameDecision(pathname: string, text1: string, text2: string,
                                    authUser: Option<string>, authPass: Option<string>)
    requires IsProtected(pathname)
    requires IsAscii(text1) && text1 != "" && IsAscii(text2) && text2 != ""
    requires Credentials(text1) == Credentials(text2)
    ensures Authorize(pathname, Some("Basic " + Base64.Encode(AsciiBytes(text1))), authUser, authPass)
         == Authorize(pathname, Some("Basic " + Base64.Encode(AsciiBytes(text2))), authUser, authPass)
  {
    EncodedTextDecides(pathname, "Basic", text1, authUser, authPass);
    EncodedTextDecides(pathname, "Basic", text2, authUser, authPass);
    assert "Basic" + " " == "Basic ";
  }

  /** An absent password piece equals an unset AUTH_PASS: with AUTH_PASS
      unset, the colon-free credential AUTH_USER alone is let through. */
  lemma PasswordlessWhenPassUnset(pathname: string, user: string)
    requires IsAscii(user) && ':' !in user && user != ""
    ensures Authorize(pathname, Some("Basic " + Base64.Encode(AsciiBytes(user))), Some(user), None) == Next
  {
    if IsProtected(pathname) {
      EncodedTextDecides(pathname, "Basic", user, Some(user), None);
      CredentialsPieces(user, "", "");
      assert "Basic" + " " == "Basic ";
    }
  }
}
