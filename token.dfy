/**
 * The credential transport: an opaque token of at most 60000 bytes is carried in
 * up to fifteen cookies `skymarshal_auth0` ... `skymarshal_auth14` of at most 4000
 * bytes each and joined back together in index order on a later request; a CSRF
 * token travels in the single cookie `skymarshal_csrf`.
 */
module Token {
  import opened Http

  const NumCookies: nat := 15
  const AuthCookieName: string := "skymarshal_auth"
  const CsrfCookieName: string := "skymarshal_csrf"
  const MaxCookieSize: nat := 4000

  /** The most bytes the fifteen cookies can carry together. */
  const MaxTokenSize: nat := MaxCookieSize * NumCookies

  /** The outcome of a call that may fail with a message. */
  datatype Outcome = Pass | Fail(message: string)

  // ---------------------------------------------------------------------------
  // Cookie names

  function Digit(d: nat): char
    requires d < 10
  {
    ('0' as int + d) as char
  }

  /** Decimal rendering of a natural number, most significant digit first. */
  function Itoa(n: nat): (s: string)
    ensures |s| >= 1
  {
    if n < 10 then [Digit(n)] else Itoa(n / 10) + [Digit(n % 10)]
  }

  /** Distinct numbers render as distinct strings. */
  lemma {:induction false} ItoaInjective(m: nat, n: nat)
    requires Itoa(m) == Itoa(n)
    ensures m == n
  {
    if m >= 10 && n >= 10 {
      var sm, sn := Itoa(m), Itoa(n);
      assert sm[|sm| - 1] == Digit(m % 10) && sn[|sn| - 1] == Digit(n % 10);
      assert sm[..|sm| - 1] == Itoa(m / 10) && sn[..|sn| - 1] == Itoa(n / 10);
      ItoaInjective(m / 10, n / 10);
    }
  }

  /** The name of credential slot `i`. */
  function AuthName(i: nat): string
  {
    AuthCookieName + Itoa(i)
  }

  /** Two slot names coincide exactly when their indices do, and no slot is named like the CSRF cookie. */
  lemma AuthNameDistinct(i: nat, j: nat)
    ensures AuthName(i) == AuthName(j) <==> i == j
    ensures AuthName(i) != CsrfCookieName
  {
    if AuthName(i) == AuthName(j) {
      assert Itoa(i) == AuthName(i)[|AuthCookieName|..];
      assert Itoa(j) == AuthName(j)[|AuthCookieName|..];
      ItoaInjective(i, j);
    }
    assert AuthName(i)[11] == 'a' && CsrfCookieName[11] == 'c';
  }

  // ---------------------------------------------------------------------------
  // The Set-Cookie instructions the middleware writes

  /** What every cookie written here carries: the whole path space, HttpOnly, and the configured Secure flag. */
  predicate Attributed(c: Cookie, secure: bool)
  {
    c.path == "/" && c.httpOnly && c.secure == secure
  }

  function AuthCookie(i: nat, value: Bytes, secure: bool, expiry: Time): Cookie
  {
    Cookie(AuthName(i), value, "/", expiry, 0, secure, true)
  }

  function ExpiredCookie(name: string, secure: bool): Cookie
  {
    Cookie(name, [], "/", Zero, -1, secure, true)
  }

  function CsrfCookie(value: Bytes, secure: bool, expiry: Time): Cookie
  {
    Cookie(CsrfCookieName, value, "/", expiry, 0, secure, true)
  }

  /** Number of cookies a token of `n` bytes occupies: one even when empty, otherwise ceil(n / 4000). */
  function SlotsNeeded(n: nat): nat
  {
    if n == 0 then 1 else (n + MaxCookieSize - 1) / MaxCookieSize
  }

  /** The pieces a token is cut into: 4000-byte pieces while more than 4000 bytes remain, then the rest. */
  function Chunks(t: Bytes): (cs: seq<Bytes>)
    ensures |cs| >= 1
    ensures forall j :: 0 <= j < |cs| ==> |cs[j]| <= MaxCookieSize
    decreases |t|
  {
    if |t| > MaxCookieSize then [t[..MaxCookieSize]] + Chunks(t[MaxCookieSize..]) else [t]
  }

  /** A token of n bytes is cut into max(1, ceil(n / 4000)) pieces. */
  lemma {:induction false} ChunksCount(t: Bytes)
    ensures |Chunks(t)| == SlotsNeeded(|t|)
    decreases |t|
  {
    if |t| > MaxCookieSize {
      ChunksCount(t[MaxCookieSize..]);
    }
  }

  /** The headers that write piece `j` of `cs` into slot `j`. */
  function TokenHeaders(cs: seq<Bytes>, secure: bool, expiry: Time): seq<Cookie>
  {
    seq(|cs|, j requires 0 <= j < |cs| => AuthCookie(j, cs[j], secure, expiry))
  }

  /** Writing one more piece appends one header, for the next slot. */
  lemma TokenHeadersPrefix(cs: seq<Bytes>, i: nat, secure: bool, expiry: Time)
    requires i < |cs|
    ensures TokenHeaders(cs[..i + 1], secure, expiry)
         == TokenHeaders(cs[..i], secure, expiry) + [AuthCookie(i, cs[i], secure, expiry)]
  {
    var lhs, rhs := TokenHeaders(cs[..i + 1], secure, expiry), TokenHeaders(cs[..i], secure, expiry) + [AuthCookie(i, cs[i], secure, expiry)];
    assert |lhs| == |rhs|;
    forall j | 0 <= j < |lhs| ensures lhs[j] == rhs[j] {
      assert cs[..i + 1][j] == cs[j];
    }
  }

  /**
   * One turn of SetToken's loop: with `rest` the part of the token still to write and `chunks[i..]`
   * its pieces, piece i is the first 4000 bytes of `rest` when more remain, and all of `rest`, the
   * last piece, otherwise.
   */
  lemma ChunksStep(chunks: seq<Bytes>, rest: Bytes, i: nat)
    requires i < |chunks| && chunks[i..] == Chunks(rest)
    ensures |rest| > MaxCookieSize ==>
      chunks[i] == rest[..MaxCookieSize] && i + 1 < |chunks| && chunks[i + 1..] == Chunks(rest[MaxCookieSize..])
    ensures |rest| <= MaxCookieSize ==> chunks[i] == rest && chunks[..i + 1] == chunks
  {
    var pieces := Chunks(rest);
    assert chunks[i] == pieces[0];
    if |rest| > MaxCookieSize {
      var tail := Chunks(rest[MaxCookieSize..]);
      assert pieces == [rest[..MaxCookieSize]] + tail;
      assert chunks[i + 1..] == pieces[1..] == tail;
    } else {
      assert |chunks| == i + 1 by {
        assert pieces == [rest];
      }
    }
  }

  /** One header per piece, each within the cookie size and carrying the middleware's attributes. */
  lemma TokenHeadersWritten(cs: seq<Bytes>, secure: bool, expiry: Time)
    requires forall j :: 0 <= j < |cs| ==> |cs[j]| <= MaxCookieSize
    ensures |TokenHeaders(cs, secure, expiry)| == |cs|
    ensures forall j :: 0 <= j < |cs| ==>
      |TokenHeaders(cs, secure, expiry)[j].value| <= MaxCookieSize && Attributed(TokenHeaders(cs, secure, expiry)[j], secure)
  {
  }

  /** The headers that expire all fifteen slots. */
  function UnsetTokenHeaders(secure: bool): seq<Cookie>
  {
    seq(NumCookies, j requires 0 <= j < NumCookies => ExpiredCookie(AuthName(j), secure))
  }

  // ---------------------------------------------------------------------------
  // Reading

  /** What slot `i` contributes to the joined token: its value, or nothing when absent. */
  function Slot(r: Request, i: nat): Bytes
  {
    match CookieValue(r, AuthName(i))
    case Some(v) => v
    case None => []
  }

  /** The slots `lo` .. `hi - 1` joined in index order. */
  function JoinRange(r: Request, lo: nat, hi: nat): Bytes
    decreases hi - lo
  {
    if lo >= hi then [] else Slot(r, lo) + JoinRange(r, lo + 1, hi)
  }

  /** Extending the joined range by one slot at its upper end. */
  lemma {:induction false} JoinRangeExtend(r: Request, lo: nat, hi: nat)
    requires lo <= hi
    ensures JoinRange(r, lo, hi + 1) == JoinRange(r, lo, hi) + Slot(r, hi)
    decreases hi - lo
  {
    if lo < hi {
      JoinRangeExtend(r, lo + 1, hi);
    }
  }

  /** The token a request carries: all fifteen slots joined in index order. */
  function Joined(r: Request): Bytes
  {
    JoinRange(r, 0, NumCookies)
  }

  // ---------------------------------------------------------------------------
  // The middleware

  class Middleware {
    const secureCookies: bool

    /** NewMiddleware. */
    constructor (secureCookies: bool)
      ensures this.secureCookies == secureCookies
    {
      this.secureCookies := secureCookies;
    }

    /** Expires every one of the fifteen credential slots. */
    method UnsetToken(w: ResponseWriter)
      modifies w
      ensures w.header == old(w.header) + UnsetTokenHeaders(secureCookies)
      ensures forall j :: |old(w.header)| <= j < |w.header| ==> Attributed(w.header[j], secureCookies)
    {
      for i := 0 to NumCookies
        invariant w.header == old(w.header) + UnsetTokenHeaders(secureCookies)[..i]
      {
        SetCookie(w, ExpiredCookie(AuthName(i), secureCookies));
        assert UnsetTokenHeaders(secureCookies)[..i + 1]
            == UnsetTokenHeaders(secureCookies)[..i] + [ExpiredCookie(AuthName(i), secureCookies)];
      }
      assert UnsetTokenHeaders(secureCookies)[..NumCookies] == UnsetTokenHeaders(secureCookies);
    }

    /**
     * Writes the token into slots 0 .. k-1, k = SlotsNeeded(|tokenStr|), 4000 bytes at a time,
     * or fails without writing anything when it is longer than 60000 bytes.  Slots from k on are
     * not touched.
     */
    method SetToken(w: ResponseWriter, tokenStr: Bytes, expiry: Time) returns (err: Outcome)
      modifies w
      ensures err.Fail? <==> |tokenStr| > MaxTokenSize
      ensures err.Fail? ==> w.header == old(w.header)
      ensures err.Pass? ==> w.header == old(w.header) + TokenHeaders(Chunks(tokenStr), secureCookies, expiry)
      ensures |w.header| - |old(w.header)| == if err.Pass? then SlotsNeeded(|tokenStr|) else 0
      ensures forall j :: |old(w.header)| <= j < |w.header| ==>
                |w.header[j].value| <= MaxCookieSize && Attributed(w.header[j], secureCookies)
    {
      var tokenLength := |tokenStr|;
      if tokenLength > MaxCookieSize * NumCookies {
        return Fail("token is too long to fit in cookies");
      }

      ghost var chunks := Chunks(tokenStr);
      var rest := tokenStr;
      for i := 0 to NumCookies
        invariant i < |chunks| && chunks[i..] == Chunks(rest)
        invariant w.header == old(w.header) + TokenHeaders(chunks[..i], secureCookies, expiry)
      {
        ChunksStep(chunks, rest, i);
        TokenHeadersPrefix(chunks, i, secureCookies, expiry);
        if |rest| > MaxCookieSize {
          SetCookie(w, AuthCookie(i, rest[..MaxCookieSize], secureCookies, expiry));
          rest := rest[MaxCookieSize..];
        } else {
          SetCookie(w, AuthCookie(i, rest, secureCookies, expiry));
          break;
        }
      }
      TokenHeadersWritten(chunks, secureCookies, expiry);
      ChunksCount(tokenStr);
      return Pass;
    }

    /** The token the request carries: the present slots among the fifteen, joined in index order. */
    method GetToken(r: Request) returns (authCookie: Bytes)
      ensures authCookie == Joined(r)
    {
      authCookie := [];
      for i := 0 to NumCookies
        invariant authCookie == JoinRange(r, 0, i)
      {
        var cookie := CookieValue(r, AuthName(i));
        if cookie.Some? {
          authCookie := authCookie + cookie.value;
        }
        JoinRangeExtend(r, 0, i);
      }
    }

    /** Expires the CSRF cookie. */
    method UnsetCSRFToken(w: ResponseWriter)
      modifies w
      ensures w.header == old(w.header) + [ExpiredCookie(CsrfCookieName, secureCookies)]
      ensures Attributed(w.header[|w.header| - 1], secureCookies)
    {
      SetCookie(w, ExpiredCookie(CsrfCookieName, secureCookies));
    }

    /** Writes the CSRF cookie; this never fails. */
    method SetCSRFToken(w: ResponseWriter, csrfToken: Bytes, expiry: Time) returns (err: Outcome)
      modifies w
      ensures err == Pass
      ensures w.header == old(w.header) + [CsrfCookie(csrfToken, secureCookies, expiry)]
      ensures Attributed(w.header[|w.header| - 1], secureCookies)
    {
      SetCookie(w, CsrfCookie(csrfToken, secureCookies, expiry));
      return Pass;
    }

    /** The CSRF token the request carries, or the empty string when there is none. */
    function GetCSRFToken(r: Request): (v: Bytes)
      ensures CsrfCookieName in r ==> v == r[CsrfCookieName]
      ensures CsrfCookieName !in r ==> v == []
    {
      match CookieValue(r, CsrfCookieName)
      case Some(v) => v
      case None => []
    }
  }
}
