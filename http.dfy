/**
 * The small part of HTTP cookie handling that the credential transport relies on:
 * a cookie record as the server writes it, a response that collects Set-Cookie
 * instructions in order, the cookies a later request carries, and the client's
 * rule for turning the instructions of one response into the cookies of the next
 * request.
 */
module Http {

  /** One octet of a cookie value; lengths are counted in bytes. */
  newtype byte = b: int | 0 <= b < 256

  type Bytes = seq<byte>

  /** An expiry instant, kept opaque: nothing here consults a clock. `Zero` is an unset instant. */
  datatype Time = Zero | At(instant: int)

  /** A Set-Cookie instruction. A negative `maxAge` asks the client to delete the cookie now. */
  datatype Cookie = Cookie(
    name: string,
    value: Bytes,
    path: string,
    expires: Time,
    maxAge: int,
    secure: bool,
    httpOnly: bool)

  /** The response being built: the Set-Cookie headers written so far, in order. */
  class ResponseWriter {
    var header: seq<Cookie>

    constructor ()
      ensures header == []
    {
      header := [];
    }
  }

  /** Adds one Set-Cookie header to the response. */
  method SetCookie(w: ResponseWriter, c: Cookie)
    modifies w
    ensures w.header == old(w.header) + [c]
  {
    w.header := w.header + [c];
  }

  /** The cookies a request carries, by name. */
  type Request = map<string, Bytes>

  /** Looking a cookie up by name; `None` stands for the "named cookie not present" error. */
  function CookieValue(r: Request, name: string): Option<Bytes>
  {
    if name in r then Some(r[name]) else None
  }

  datatype Option<T> = None | Some(value: T)

  /** How a client applies one Set-Cookie instruction to the cookies it holds. */
  function Apply(r: Request, c: Cookie): Request
  {
    if c.maxAge < 0 then r - {c.name} else r[c.name := c.value]
  }

  /** The cookies the next request carries after the client has applied `hs` in order. */
  function Deliver(r: Request, hs: seq<Cookie>): Request
    decreases |hs|
  {
    if hs == [] then r else Deliver(Apply(r, hs[0]), hs[1..])
  }

  /** Applying two responses' worth of headers one after the other. */
  lemma {:induction false} DeliverAppend(r: Request, a: seq<Cookie>, b: seq<Cookie>)
    ensures Deliver(r, a + b) == Deliver(Deliver(r, a), b)
    decreases |a|
  {
    if a == [] {
      assert a + b == b;
    } else {
      assert (a + b)[1..] == a[1..] + b;
      DeliverAppend(Apply(r, a[0]), a[1..], b);
    }
  }

  /** A response with a single header. */
  lemma DeliverOne(r: Request, c: Cookie)
    ensures Deliver(r, [c]) == Apply(r, c)
  {
    assert [c][1..] == [];
  }

  /** A cookie that no header names keeps its presence and value. */
  lemma {:induction false} DeliverOther(r: Request, hs: seq<Cookie>, name: string)
    requires forall j :: 0 <= j < |hs| ==> hs[j].name != name
    ensures CookieValue(Deliver(r, hs), name) == CookieValue(r, name)
    decreases |hs|
  {
    if hs != [] {
      DeliverOther(Apply(r, hs[0]), hs[1..], name);
    }
  }

  /** The last header that names a cookie decides whether it is present and with what value. */
  lemma {:induction false} DeliverLastWrite(r: Request, hs: seq<Cookie>, j: nat)
    requires j < |hs|
    requires forall k :: j < k < |hs| ==> hs[k].name != hs[j].name
    ensures CookieValue(Deliver(r, hs), hs[j].name)
         == if hs[j].maxAge < 0 then None else Some(hs[j].value)
  {
    var c := hs[j];
    assert hs == hs[..j] + [c] + hs[j + 1..];
    DeliverAppend(r, hs[..j] + [c], hs[j + 1..]);
    DeliverAppend(r, hs[..j], [c]);
    var before := Deliver(r, hs[..j]);
    DeliverOne(before, c);
    DeliverOther(Apply(before, c), hs[j + 1..], c.name);
  }
}
