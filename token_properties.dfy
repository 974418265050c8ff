/**
 * What the credential transport guarantees across a response and the request
 * that follows it: the length check, the shape of the pieces, the round trip,
 * the stale tail a shorter token leaves behind, clearing on unset, and the
 * independence of the CSRF cookie.
 */
module TokenProperties {
  import opened Http
  import opened Token

  // ---------------------------------------------------------------------------
  // Cutting a token into pieces

  /** Joining a sequence of pieces front to back. */
  function Concat(cs: seq<Bytes>): Bytes
  {
    if cs == [] then [] else cs[0] + Concat(cs[1..])
  }

  /** The pieces joined in order give back the token. */
  lemma {:induction false} ChunksConcat(t: Bytes)
    ensures Concat(Chunks(t)) == t
    decreases |t|
  {
    if |t| > MaxCookieSize {
      var cs := Chunks(t);
      assert cs[1..] == Chunks(t[MaxCookieSize..]);
      ChunksConcat(t[MaxCookieSize..]);
      assert t == t[..MaxCookieSize] + t[MaxCookieSize..];
    }
  }

  function Min(a: int, b: int): int
  {
    if a <= b then a else b
  }

  /** Piece `j` is exactly bytes 4000*j up to 4000*(j+1), or up to the end of the token for the last one. */
  lemma {:induction false} ChunkAt(t: Bytes, j: nat)
    requires j < |Chunks(t)|
    ensures MaxCookieSize * j <= Min(MaxCookieSize * (j + 1), |t|) <= |t|
    ensures Chunks(t)[j] == t[MaxCookieSize * j .. Min(MaxCookieSize * (j + 1), |t|)]
    decreases j
  {
    if j > 0 {
      var rest := t[MaxCookieSize..];
      assert Chunks(t)[j] == Chunks(rest)[j - 1];
      ChunkAt(rest, j - 1);
      assert rest[MaxCookieSize * (j - 1) .. Min(MaxCookieSize * j, |rest|)]
          == t[MaxCookieSize * j .. Min(MaxCookieSize * (j + 1), |t|)];
    }
  }

  /** The pieces fit into the fifteen slots exactly when the length check lets the token through. */
  lemma ChunksFit(t: Bytes)
    ensures |Chunks(t)| <= NumCookies <==> |t| <= MaxTokenSize
  {
    ChunksCount(t);
  }

  // ---------------------------------------------------------------------------
  // Joining slots

  /** Splitting the joined range at any index in between. */
  lemma {:induction false} JoinRangeSplit(r: Request, lo: nat, mid: nat, hi: nat)
    requires lo <= mid <= hi
    ensures JoinRange(r, lo, hi) == JoinRange(r, lo, mid) + JoinRange(r, mid, hi)
    decreases mid - lo
  {
    if lo < mid {
      JoinRangeSplit(r, lo + 1, mid, hi);
    }
  }

  /** Two requests that agree on slots `lo` .. `hi - 1` join to the same bytes there. */
  lemma {:induction false} JoinRangeAgree(r1: Request, r2: Request, lo: nat, hi: nat)
    requires forall i :: lo <= i < hi ==> Slot(r1, i) == Slot(r2, i)
    ensures JoinRange(r1, lo, hi) == JoinRange(r2, lo, hi)
    decreases hi - lo
  {
    if lo < hi {
      JoinRangeAgree(r1, r2, lo + 1, hi);
    }
  }

  /** Slots holding the pieces `cs[lo..]` join to those pieces concatenated. */
  lemma {:induction false} JoinRangePieces(r: Request, cs: seq<Bytes>, lo: nat)
    requires lo <= |cs|
    requires forall i :: lo <= i < |cs| ==> Slot(r, i) == cs[i]
    ensures JoinRange(r, lo, |cs|) == Concat(cs[lo..])
    decreases |cs| - lo
  {
    if lo < |cs| {
      JoinRangePieces(r, cs, lo + 1);
      assert cs[lo..][1..] == cs[lo + 1..];
    }
  }

  /** A range whose slots are all absent or empty joins to the empty string. */
  lemma {:induction false} JoinRangeAbsent(r: Request, lo: nat, hi: nat)
    requires forall i :: lo <= i < hi ==> Slot(r, i) == []
    ensures JoinRange(r, lo, hi) == []
    decreases hi - lo
  {
    if lo < hi {
      JoinRangeAbsent(r, lo + 1, hi);
    }
  }

  /** With none of the fifteen slots present the joined token is empty. */
  lemma JoinedEmpty(r: Request)
    requires forall i :: 0 <= i < NumCookies ==> AuthName(i) !in r
    ensures Joined(r) == []
  {
    JoinRangeAbsent(r, 0, NumCookies);
  }

  /** A slot is unaffected by setting or removing a cookie with a different name. */
  lemma SlotIgnoresOther(r: Request, name: string, v: Bytes, i: nat)
    requires name != AuthName(i)
    ensures Slot(r[name := v], i) == Slot(r, i) && Slot(r - {name}, i) == Slot(r, i)
  {
    assert CookieValue(r[name := v], AuthName(i)) == CookieValue(r, AuthName(i));
    assert CookieValue(r - {name}, AuthName(i)) == CookieValue(r, AuthName(i));
  }

  /** Only the fifteen slots are read: any other cookie leaves the joined token as it is. */
  lemma JoinedIgnoresOthers(r: Request, name: string, v: Bytes)
    requires forall i :: 0 <= i < NumCookies ==> name != AuthName(i)
    ensures Joined(r[name := v]) == Joined(r)
    ensures Joined(r - {name}) == Joined(r)
  {
    assert Joined(r[name := v]) == Joined(r) by {
      forall i | 0 <= i < NumCookies ensures Slot(r[name := v], i) == Slot(r, i) {
        SlotIgnoresOther(r, name, v, i);
      }
      JoinRangeAgree(r[name := v], r, 0, NumCookies);
    }
    forall i | 0 <= i < NumCookies ensures Slot(r - {name}, i) == Slot(r, i) {
      SlotIgnoresOther(r, name, v, i);
    }
    JoinRangeAgree(r - {name}, r, 0, NumCookies);
  }

  // ---------------------------------------------------------------------------
  // Setting the token

  /**
   * After the client applies the headers of a successful SetToken, slot i holds piece i for
   * every i below k = SlotsNeeded(|t|), and every other cookie is as it was.
   */
  lemma SetTokenEffect(r: Request, t: Bytes, secure: bool, expiry: Time)
    requires |t| <= MaxTokenSize
    ensures var after := Deliver(r, TokenHeaders(Chunks(t), secure, expiry));
      && (forall i :: 0 <= i < |Chunks(t)| ==> CookieValue(after, AuthName(i)) == Some(Chunks(t)[i]))
      && (forall i :: |Chunks(t)| <= i ==> CookieValue(after, AuthName(i)) == CookieValue(r, AuthName(i)))
      && CookieValue(after, CsrfCookieName) == CookieValue(r, CsrfCookieName)
      && (forall name :: (forall i :: 0 <= i < |Chunks(t)| ==> name != AuthName(i)) ==>
            CookieValue(after, name) == CookieValue(r, name))
  {
    var cs := Chunks(t);
    var hs := TokenHeaders(cs, secure, expiry);
    var after := Deliver(r, hs);
    forall i | 0 <= i < |cs|
      ensures CookieValue(after, AuthName(i)) == Some(cs[i])
    {
      forall k | i < k < |hs| ensures hs[k].name != hs[i].name {
        AuthNameDistinct(k, i);
      }
      DeliverLastWrite(r, hs, i);
    }
    forall i | |cs| <= i
      ensures CookieValue(after, AuthName(i)) == CookieValue(r, AuthName(i))
    {
      forall k | 0 <= k < |hs| ensures hs[k].name != AuthName(i) {
        AuthNameDistinct(k, i);
      }
      DeliverOther(r, hs, AuthName(i));
    }
    forall k | 0 <= k < |hs| ensures hs[k].name != CsrfCookieName {
      AuthNameDistinct(k, k);
    }
    DeliverOther(r, hs, CsrfCookieName);
    forall name | forall i :: 0 <= i < |cs| ==> name != AuthName(i)
      ensures CookieValue(after, name) == CookieValue(r, name)
    {
      DeliverOther(r, hs, name);
    }
  }

  /**
   * Reading after a successful SetToken gives the token followed by whatever the slots from
   * k = SlotsNeeded(|t|) on held before: a shorter token written over a longer one keeps the
   * older token's trailing pieces.
   */
  lemma SetThenGet(r: Request, t: Bytes, secure: bool, expiry: Time)
    requires |t| <= MaxTokenSize
    ensures Joined(Deliver(r, TokenHeaders(Chunks(t), secure, expiry)))
         == t + JoinRange(r, SlotsNeeded(|t|), NumCookies)
  {
    var cs := Chunks(t);
    var k := |cs|;
    var after := Deliver(r, TokenHeaders(cs, secure, expiry));
    ChunksFit(t);
    ChunksCount(t);
    SetTokenEffect(r, t, secure, expiry);
    assert JoinRange(after, 0, k) == t by {
      forall i | 0 <= i < k ensures Slot(after, i) == cs[i] {
      }
      JoinRangePieces(after, cs, 0);
      assert cs[0..] == cs;
      ChunksConcat(t);
    }
    assert JoinRange(after, k, NumCookies) == JoinRange(r, k, NumCookies) by {
      forall i | k <= i < NumCookies ensures Slot(after, i) == Slot(r, i) {
      }
      JoinRangeAgree(after, r, k, NumCookies);
    }
    JoinRangeSplit(after, 0, k, NumCookies);
  }

  /** The round trip: with no credential slot present beforehand, reading gives back exactly the token. */
  lemma RoundTrip(r: Request, t: Bytes, secure: bool, expiry: Time)
    requires |t| <= MaxTokenSize
    requires forall i :: 0 <= i < NumCookies ==> AuthName(i) !in r
    ensures Joined(Deliver(r, TokenHeaders(Chunks(t), secure, expiry))) == t
  {
    SetThenGet(r, t, secure, expiry);
    JoinRangeAbsent(r, SlotsNeeded(|t|), NumCookies);
  }

  /** UnsetToken followed by SetToken in one response reads back as exactly the token, whatever was there. */
  lemma UnsetThenSetRoundTrip(r: Request, t: Bytes, secure: bool, expiry: Time)
    requires |t| <= MaxTokenSize
    ensures Joined(Deliver(r, UnsetTokenHeaders(secure) + TokenHeaders(Chunks(t), secure, expiry))) == t
  {
    DeliverAppend(r, UnsetTokenHeaders(secure), TokenHeaders(Chunks(t), secure, expiry));
    UnsetTokenEffect(r, secure);
    RoundTrip(Deliver(r, UnsetTokenHeaders(secure)), t, secure, expiry);
  }

  /**
   * A token of one piece written over any credential whose slot 1 holds a non-empty piece
   * reads back longer than it was written, so it is not the token that was written.
   */
  lemma StaleFragmentSurvives(r: Request, t: Bytes, secure: bool, expiry: Time)
    requires |t| <= MaxCookieSize
    requires Slot(r, 1) != []
    ensures Joined(Deliver(r, TokenHeaders(Chunks(t), secure, expiry))) != t
  {
    SetThenGet(r, t, secure, expiry);
    assert JoinRange(r, 1, NumCookies) == Slot(r, 1) + JoinRange(r, 2, NumCookies);
  }

  /**
   * When slots 2..14 contribute nothing, as after an old credential of at most two pieces,
   * a one-piece token reads back as itself followed by whatever slot 1 held.
   */
  lemma StaleFragmentTwoSlots(r: Request, t: Bytes, secure: bool, expiry: Time)
    requires |t| <= MaxCookieSize
    requires forall i :: 2 <= i < NumCookies ==> Slot(r, i) == []
    ensures Joined(Deliver(r, TokenHeaders(Chunks(t), secure, expiry))) == t + Slot(r, 1)
  {
    assert SlotsNeeded(|t|) == 1;
    SetThenGet(r, t, secure, expiry);
    assert JoinRange(r, 1, NumCookies) == Slot(r, 1) by {
      JoinRangeAbsent(r, 2, NumCookies);
      assert JoinRange(r, 1, NumCookies) == Slot(r, 1) + JoinRange(r, 2, NumCookies);
    }
  }

  // ---------------------------------------------------------------------------
  // Unsetting the token

  /** After UnsetToken none of the fifteen slots is present, the token reads as empty, and the CSRF cookie is kept. */
  lemma UnsetTokenEffect(r: Request, secure: bool)
    ensures var after := Deliver(r, UnsetTokenHeaders(secure));
      && (forall i :: 0 <= i < NumCookies ==> AuthName(i) !in after)
      && Joined(after) == []
      && CookieValue(after, CsrfCookieName) == CookieValue(r, CsrfCookieName)
  {
    var hs := UnsetTokenHeaders(secure);
    var after := Deliver(r, hs);
    forall i | 0 <= i < NumCookies ensures AuthName(i) !in after {
      forall k | i < k < |hs| ensures hs[k].name != hs[i].name {
        AuthNameDistinct(k, i);
      }
      DeliverLastWrite(r, hs, i);
    }
    JoinedEmpty(after);
    forall k | 0 <= k < |hs| ensures hs[k].name != CsrfCookieName {
      AuthNameDistinct(k, k);
    }
    DeliverOther(r, hs, CsrfCookieName);
  }

  // ---------------------------------------------------------------------------
  // The CSRF cookie

  /** A CSRF token that was set reads back unchanged, and no credential slot is affected. */
  lemma CsrfSetThenGet(m: Middleware, r: Request, v: Bytes, expiry: Time)
    ensures var after := Deliver(r, [CsrfCookie(v, m.secureCookies, expiry)]);
      m.GetCSRFToken(after) == v && Joined(after) == Joined(r)
    ensures var after := Deliver(r, [CsrfCookie(v, m.secureCookies, expiry)]);
      forall i :: CookieValue(after, AuthName(i)) == CookieValue(r, AuthName(i))
  {
    var c := CsrfCookie(v, m.secureCookies, expiry);
    var after := Deliver(r, [c]);
    assert after == r[CsrfCookieName := v] by {
      DeliverOne(r, c);
    }
    forall i: nat ensures CookieValue(after, AuthName(i)) == CookieValue(r, AuthName(i)) {
      AuthNameDistinct(i, i);
    }
    assert Joined(after) == Joined(r) by {
      forall i | 0 <= i < NumCookies ensures CsrfCookieName != AuthName(i) {
        AuthNameDistinct(i, i);
      }
      JoinedIgnoresOthers(r, CsrfCookieName, v);
    }
  }

  /** After UnsetCSRFToken the CSRF token reads as empty, and no credential slot is affected. */
  lemma CsrfUnsetThenGet(m: Middleware, r: Request)
    ensures var after := Deliver(r, [ExpiredCookie(CsrfCookieName, m.secureCookies)]);
      m.GetCSRFToken(after) == [] && Joined(after) == Joined(r)
    ensures var after := Deliver(r, [ExpiredCookie(CsrfCookieName, m.secureCookies)]);
      forall i :: CookieValue(after, AuthName(i)) == CookieValue(r, AuthName(i))
  {
    var c := ExpiredCookie(CsrfCookieName, m.secureCookies);
    var after := Deliver(r, [c]);
    assert after == r - {CsrfCookieName} by {
      DeliverOne(r, c);
    }
    forall i: nat ensures CookieValue(after, AuthName(i)) == CookieValue(r, AuthName(i)) {
      AuthNameDistinct(i, i);
    }
    assert Joined(after) == Joined(r) by {
      forall i | 0 <= i < NumCookies ensures CsrfCookieName != AuthName(i) {
        AuthNameDistinct(i, i);
      }
      JoinedIgnoresOthers(r, CsrfCookieName, []);
    }
  }

  /** Neither writing nor expiring the credential token changes the CSRF token. */
  lemma CsrfUntouchedByToken(m: Middleware, r: Request, t: Bytes, expiry: Time)
    requires |t| <= MaxTokenSize
    ensures m.GetCSRFToken(Deliver(r, TokenHeaders(Chunks(t), m.secureCookies, expiry))) == m.GetCSRFToken(r)
    ensures m.GetCSRFToken(Deliver(r, UnsetTokenHeaders(m.secureCookies))) == m.GetCSRFToken(r)
  {
    SetTokenEffect(r, t, m.secureCookies, expiry);
    UnsetTokenEffect(r, m.secureCookies);
  }
}
