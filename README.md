# Skymarshal credential transport, modelled in Dafny

Skymarshal is the authentication front door of Concourse. Its token middleware
(`skymarshal/token/middleware.go`) carries a signed session token to the browser
in cookies. The token is opaque and may be up to 60000 bytes long; a single
cookie holds at most 4000 bytes. So the token is cut into pieces and written to
the cookies `skymarshal_auth0` … `skymarshal_auth14`. On every later request
the pieces are joined back in index order. A CSRF token travels beside it in the
single cookie `skymarshal_csrf`. Every cookie written is scoped to path `/`, is
HttpOnly, and is Secure exactly when the middleware was built with
`secureCookies`.

The project has three modules:

- `Http` (`http.dfy`) holds the part of HTTP the middleware relies on.
  - A `Cookie` record is one Set-Cookie instruction.
  - A `ResponseWriter` class collects these instructions in order in its
    `header` field. `SetCookie` appends one, as `http.SetCookie` does.
  - A `Request` is the map from cookie name to value that the next request
    carries.
  - `Deliver` is the client's side of the exchange. It applies a response's
    instructions in order. `MaxAge < 0` deletes the cookie; any other
    instruction stores the value.
- `Token` (`token.dfy`) models `middleware.go`.
  - It holds the constants and the slot names (`AuthCookieName + Itoa(i)`).
  - Two specification functions say what is written and what is read.
    `Chunks` gives the pieces a token is cut into. `Joined` is the concatenation
    of the present slots 0..14.
  - The class `Middleware` carries the `secureCookies` flag and the six
    operations. The four writers (`SetToken`, `UnsetToken`, `SetCSRFToken`,
    `UnsetCSRFToken`) are methods that append to a `ResponseWriter`.
    `SetToken` and `UnsetToken` keep the source's loops, and `GetToken` keeps
    its accumulating loop. `GetCSRFToken` is a function.
- `TokenProperties` (`token_properties.dfy`) holds the lemmas. They relate a
  response's instructions to what the following request reads back.

The stale-fragment behaviour is modelled as the source has it and is not
corrected. `SetToken` writes only slots 0..k-1, where k = max(1, ceil(len/4000)).
Slots from k on keep whatever they held. `SetThenGet` states the exact result:
the token, followed by the old contents of slots k..14. `StaleFragmentSurvives`
shows that a one-piece token written over a non-empty slot 1 does not read back
as itself. `StaleFragmentTwoSlots` gives the exact result when slots 2..14 contribute
nothing, as after an old credential of at most two pieces. `UnsetThenSetRoundTrip` shows that calling `UnsetToken`
before `SetToken` gives an exact round trip.

## Model

| member | source | states |
|---|---|---|
| `Token.Middleware.constructor` | skymarshal/token/middleware.go:21-27 | NewMiddleware records the Secure-cookie flag that every later write uses |
| `Token.Middleware.SetToken` | skymarshal/token/middleware.go:46-76 | fails exactly when the token is longer than 4000*15 bytes, and then writes no header; otherwise it appends one header per piece of `Chunks(token)`, to slots 0..k-1 in order. Exactly `SlotsNeeded(len)` headers are written, each value is at most 4000 bytes, and each has path `/`, HttpOnly and the configured Secure flag |
| `Token.Middleware.UnsetToken` | skymarshal/token/middleware.go:34-44 | appends an immediate-expiry header for each of the fifteen slots, in index order, each with path `/`, HttpOnly and the configured Secure flag |
| `Token.Middleware.GetToken` | skymarshal/token/middleware.go:78-87 | never fails; returns `Joined(r)`, the in-order concatenation of the present slots 0..14, where a missing slot contributes nothing |
| `Token.Middleware.UnsetCSRFToken` | skymarshal/token/middleware.go:89-97 | appends a single immediate-expiry header for `skymarshal_csrf`, with path `/`, HttpOnly and the configured Secure flag |
| `Token.Middleware.SetCSRFToken` | skymarshal/token/middleware.go:99-110 | always succeeds; appends a single `skymarshal_csrf` header carrying the value and expiry, with path `/`, HttpOnly and the configured Secure flag |
| `Token.Middleware.GetCSRFToken` | skymarshal/token/middleware.go:112-118 | returns the value of `skymarshal_csrf` when the request carries it, and the empty string otherwise; `CsrfSetThenGet` and `CsrfUnsetThenGet` are its partners |
| `Token.Chunks` | skymarshal/token/middleware.go:52-74 | the loop's pieces: there is always at least one, even for the empty token, and none is longer than 4000 bytes |
| `Token.ChunksCount` | skymarshal/token/middleware.go:52-74 | a token of n bytes is cut into exactly max(1, ceil(n/4000)) pieces, so the loop writes that many slots |
| `Token.ItoaInjective` | skymarshal/token/middleware.go:37 | the decimal rendering used in slot names is injective |
| `Token.AuthNameDistinct` | skymarshal/token/middleware.go:29-31 | `skymarshal_auth<i>` and `skymarshal_auth<j>` coincide exactly when i = j, and no slot name equals `skymarshal_csrf` |
| `TokenProperties.ChunksConcat` | skymarshal/token/middleware.go:52-74 | the pieces joined in order give back the token |
| `TokenProperties.ChunkAt` | skymarshal/token/middleware.go:53-62 | piece j is exactly bytes 4000*j up to min(4000*(j+1), len) of the token, so every piece except the last holds exactly 4000 bytes |
| `TokenProperties.ChunksFit` | skymarshal/token/middleware.go:47-50 | the length check passes exactly when the pieces fit into the fifteen slots |
| `TokenProperties.JoinedEmpty` | skymarshal/token/middleware.go:78-87 | with none of the fifteen slots present, the joined token is the empty string |
| `TokenProperties.JoinedIgnoresOthers` | skymarshal/token/middleware.go:80-85 | setting or removing any cookie other than the fifteen slots leaves the joined token unchanged |
| `TokenProperties.SetTokenEffect` | skymarshal/token/middleware.go:52-74 | after the client applies SetToken's headers, slot i holds piece i for every i < k; slots from k on, the CSRF cookie and every other cookie not named by a slot below k keep their presence and value |
| `TokenProperties.SetThenGet` | skymarshal/token/middleware.go:46-87 | reading after SetToken gives the token followed by the old contents of slots k..14 |
| `TokenProperties.RoundTrip` | skymarshal/token/middleware.go:46-87 | with no slot present beforehand, reading after SetToken gives back exactly the token, for every token of at most 60000 bytes |
| `TokenProperties.UnsetThenSetRoundTrip` | skymarshal/token/middleware.go:34-87 | UnsetToken then SetToken in one response reads back exactly the token, whatever cookies the client held |
| `TokenProperties.StaleFragmentSurvives` | skymarshal/token/middleware.go:63-73 | a token of at most 4000 bytes written over any request whose slot 1 holds a non-empty value does not read back as itself, whatever the other slots hold |
| `TokenProperties.StaleFragmentTwoSlots` | skymarshal/token/middleware.go:63-73 | a token of at most 4000 bytes written over a request whose slots 2..14 are absent or empty, as after an old credential of at most two pieces, reads back as the token followed by whatever slot 1 held |
| `TokenProperties.UnsetTokenEffect` | skymarshal/token/middleware.go:34-44 | after UnsetToken none of the fifteen slots is present, GetToken's result is empty, and the CSRF cookie is unchanged |
| `TokenProperties.CsrfSetThenGet` | skymarshal/token/middleware.go:99-118 | GetCSRFToken after SetCSRFToken returns the value set, for a client without a per-cookie size limit; every credential slot keeps its presence and value, so the joined credential token is unchanged |
| `TokenProperties.CsrfUnsetThenGet` | skymarshal/token/middleware.go:89-118 | GetCSRFToken after UnsetCSRFToken returns the empty string; every credential slot keeps its presence and value, so the joined credential token is unchanged |
| `TokenProperties.CsrfUntouchedByToken` | skymarshal/token/middleware.go:34-76 | neither SetToken's nor UnsetToken's headers change what GetCSRFToken returns |

## Left out

- `skymarshal/skymarshal.go`, the server composer, is not part of this model. It wires sub-servers from packages outside this model, registers routes on a standard-library router, and builds a fixed client list. It has no logic of its own to verify.
- Signing-key generation and client-secret derivation are left out. They are calls to cryptographic libraries with random input.
- The Go `Middleware` interface and its generated test double are not modelled. The single implementing struct is modelled as the class `Middleware`.
- Set-Cookie encoding is left out. The model assumes every byte of a value reaches the client unchanged. net/http in fact drops bytes that are not valid in a cookie value and quotes some others, so the round trip holds only for tokens made of valid cookie bytes, as signed tokens are.
- Cookie attributes the middleware never sets (Domain, SameSite, Raw fields) are left out, and so are invalid-name checks.
- Expiry by clock is left out. `Expires` is recorded as an opaque `Time`, and only the `MaxAge: -1` instruction removes a cookie. A client that drops some expired slots on its own is captured only through requests with missing slots, which `Joined` tolerates.
- `CsrfSetThenGet`: `Deliver` stores a cookie value of any length, because the model has no per-cookie size limit in the client. The CSRF round trip therefore holds as stated only for values within the client's limit (about 4096 bytes for name plus value in common browsers). `SetCSRFToken` never checks the length, so a longer value would be dropped by a real client, and a later `GetCSRFToken` would return the old value or the empty string. The credential lemmas are unaffected, because each slot carries at most 4000 bytes of value under a 17-byte name.
- `Deliver` ignores the `Secure` and `Path` attributes: every stored cookie comes back on the next request. With `secureCookies` set, the round-trip lemmas therefore assume the next request is sent over HTTPS, and all requests fall under path `/`.
- `Deliver` applies Set-Cookie headers with the same name in one response in order, the last one winning. `UnsetThenSetRoundTrip` relies on this, although section 4.1.1 of RFC 6265 says a server should not send two such headers in one response.
- A request is a map from name to value. Repeated cookies with the same name, where `Request.Cookie` returns the first, are not modelled.
- Concurrency across requests is left out. Each call is request-scoped and sequential.
