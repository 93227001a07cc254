# nanoproxy request handler, modelled in Dafny

nanoproxy is a forward HTTP proxy. A `CONNECT` request opens a raw TCP tunnel. Every other
request is forwarded as plain HTTP. This project models the pure logic inside the request
handler (`proxy/proxy.go`) and proves properties of it:

- **Hop-by-hop sanitisation** (`removeHopHeaders` over the fixed `hopHeaders` list, the rule
  of section 13.5.1 of RFC 2616). The headers are a map from key to a list of values. As in Go,
  `Del` looks up the canonical form of the name it is given (`textproto.CanonicalMIMEHeaderKey`).
- **Response header copying** (`copyHeader`). Every source value is `Add`ed to the destination.
  Go visits map keys in an unspecified order, so the visiting order is a parameter: any listing
  of the source keys in which each key appears once.
- **Client address resolution** (`extractClientAddressFromRequest`, `extractClientAddress`).
  The candidate comes from the first non-empty one of `x-forwarded-for`, `cf-connecting-ip` and
  `x-real-ip`, taking the text before the first comma; if none has a value, the peer address
  is used. The candidate is then trimmed and split into host and port. `net.SplitHostPort` and
  `net.JoinHostPort` are library code. They are written out following Go's branches, with the
  five `AddrError` reasons.
- **Dispatch** (`ServeHTTP`): `CONNECT` goes to the tunnel, everything else is forwarded.

Files and modules: `text.dfy` (`Text`: `strings.TrimSpace` and the first field of
`strings.Split`), `mime.dfy` (`Mime`: canonical header keys), `header.dfy` (`Header`: the
`http.Header` map and its `Get`/`Add`/`Del`), `names.dfy` (`HeaderNames`: the hop-by-hop names
are canonical), `hop.dfy` (`HopByHop`), `copy.dfy` (`HeaderCopy`), `netaddr.dfy` (`NetAddr`),
`client_address.dfy` (`ClientAddress`) and `proxy.dfy` (`Proxy`).

Notes on how the code behaves:

- Hop-by-hop removal is case-insensitive only because `Header.Del` canonicalises the name it is
  given. A key stored in a non-canonical spelling is not found, so it survives
  (`NonCanonicalKeySurvives`). Absence "in any casing" is therefore proved for headers whose keys
  are canonical (`WellFormed`), which is what `net/http` produces when it parses a message.
- The comment above `copyHeader` (proxy/proxy.go:115) says values are added "if they are not
  already present". The code adds every value unconditionally, so the model appends and never
  de-duplicates.
- A forwarding header counts only when `Header.Get` returns a non-empty string. `Get` reads only
  the first value stored under the key. So a header whose first value is empty is skipped, even
  if later values are not empty. A first value that starts with a comma is not skipped: its
  first field is empty, and the address resolves to ("", "") without falling back to the peer.
- The comment above `hopHeaders` (proxy/proxy.go:13-14) points to section 13 of RFC 2616, where
  section 14.10 also asks a proxy to remove every header named inside a `Connection` header.
  `removeHopHeaders` deletes only the fixed list, so such headers are forwarded.

## Model

| member | source | states |
|---|---|---|
| HopByHop.DeleteAll | proxy/proxy.go:100-104 | Calling `Del` for each name in a list removes exactly the canonical forms of those names from the key set. Every remaining key keeps its value list. |
| HopByHop.RemoveHopHeaders | proxy/proxy.go:100-104 | The resulting key set is the input's keys minus the canonical hop-by-hop keys. Every surviving key keeps its values unchanged, and no key is added. |
| HopByHop.HopHeadersAreCanonical | proxy/proxy.go:15-25 | All nine names are written in canonical form, including `Te` and `Proxy-Connection`. So the keys removed are exactly the names as listed. |
| HeaderNames.TeIsCanonicalTE | proxy/proxy.go:21 | The canonical form of `TE` is `Te`, the spelling the list uses. |
| Mime.CanonicalFixesCanonical | proxy/proxy.go:102 | Among valid field names, `Del`'s canonicalisation leaves a name unchanged exactly when it is already in canonical form. |
| HopByHop.NoHopHeadersRemain | proxy/proxy.go:100-104 | If every key of a header is canonical, then after removal no key canonicalises to a hop-by-hop name, and every key is still canonical. |
| HopByHop.RemovedInAnyCasing | proxy/proxy.go:100-104 | For a header whose keys are canonical, no key left after removal equals a hop-by-hop name in any letter case, so the spelling a client used is not a key. The canonical key is gone, and `Get` under any spelling returns "". |
| HopByHop.StrippedValues | proxy/proxy.go:100-104 | A key that is not a hop-by-hop key reads the same list of values before and after removal, whether or not it was present. |
| HopByHop.RemoveHopHeadersIdempotent | proxy/proxy.go:100-104 | Removing the hop-by-hop headers twice gives the same result as removing them once. |
| HopByHop.RemoveHopHeadersIdentity | proxy/proxy.go:100-104 | A header with no hop-by-hop key passes through unchanged. |
| HopByHop.NonCanonicalKeySurvives | proxy/proxy.go:100-104 | A `connection` entry stored under a lower-case key is not removed, because `Del` looks up only the canonical spelling. |
| Mime.CanonicalIgnoresCase | proxy/proxy.go:102 | Two valid header names that differ only in ASCII letter case have the same canonical key, so `Del` treats them as the same header. |
| HeaderCopy.AddAll | proxy/proxy.go:118-120 | Adding the values one at a time under a key appends them, in order, after the values already stored under the key's canonical form. No other key changes. |
| HeaderCopy.CopyKeys | proxy/proxy.go:116-122 | After visiting some source keys, each destination key holds its old values followed by the values of every visited key that canonicalises to it, in visiting order. A key is present exactly when it was before or received values. |
| HeaderCopy.CopyHeader | proxy/proxy.go:116-122 | Copying all source keys, in any visiting order, appends to each key the source values that canonicalise to it. Nothing is overwritten. |
| HeaderCopy.CopyHeaderAppends | proxy/proxy.go:116-122 | For canonical source keys, the result for every key k is the destination's values followed by the source's values under k. Duplicates are kept. Keys the source lacks are untouched, and only keys with values are added. |
| HeaderCopy.CopyHeaderOrderIrrelevant | proxy/proxy.go:117 | For canonical source keys, the order Go happens to visit the map in does not change the result. |
| ClientAddress.Candidate | proxy/proxy.go:125-135 | The candidate comes from the first header in priority order `x-forwarded-for`, `cf-connecting-ip`, `x-real-ip` whose first value is non-empty. It is that value's text before its first comma. If no such header exists, the candidate is the peer address. |
| ClientAddress.Resolve | proxy/proxy.go:141-162 | An empty candidate gives ("", ""). A successful split of the trimmed candidate gives exactly its host and port. A missing port or too many colons gives the trimmed candidate with an empty port. Any other split error gives ("", ""). |
| ClientAddress.ResolveJoined | proxy/proxy.go:141-162 | An address built by `JoinHostPort` from a bracket-free IP that does not start with a space and a colon-free, bracket-free port that does not end with a space resolves back to that IP and port. |
| ClientAddress.ClientAddressOf | proxy/proxy.go:125-138 | The peer address is resolved exactly when no forwarding header has a non-empty first value. Otherwise the result is the resolution of the first such header's first comma-separated entry. `ClientAddressOfChosen`, `ClientAddressOfPeer` and `LeadingCommaExample` specialise this. |
| ClientAddress.ClientAddressOfChosen | proxy/proxy.go:125-138 | When forwarding header number n is the first with a non-empty first value, the result is the resolution of that value's first comma-separated field, whatever the peer address, even when that field is empty. |
| ClientAddress.ClientAddressOfPeer | proxy/proxy.go:125-138 | When no forwarding header has a non-empty first value, a peer address built by `JoinHostPort` under the conditions of `ResolveJoined` resolves to its IP and port. |
| ClientAddress.LeadingCommaExample | proxy/proxy.go:127-128 | `X-Forwarded-For: ,1.2.3.4` gives an empty candidate, so the result is ("", ""), and the peer address is not used. |
| ClientAddress.ResolveBareHost | proxy/proxy.go:145-157 | A candidate whose trimmed form has no colon resolves to that trimmed form as the IP, with no port. This includes the empty and all-space candidates, which give ("", ""). |
| ClientAddress.ResolveUnbracketedColons | proxy/proxy.go:145-157 | A candidate whose trimmed form is unbracketed and has two or more colons fails with "too many colons", so it resolves to that trimmed form as the IP, with no port. |
| ClientAddress.ResolveUnclosedBracket | proxy/proxy.go:149-159 | A trimmed candidate that starts with `[` and holds a colon but no `]` fails with the missing-bracket reason, which is neither missing port nor too many colons, so it resolves to ("", ""). |
| ClientAddress.ForwardedForExample | proxy/proxy.go:125-137 | `X-Forwarded-For: 203.0.113.5, 10.0.0.1` resolves to IP `203.0.113.5` with no port, whatever the peer address. |
| ClientAddress.PeerAddressExample | proxy/proxy.go:125-137 | With no forwarding header, peer address `198.51.100.7:54321` resolves to IP `198.51.100.7` and port `54321`. |
| ClientAddress.BareIpv4Example | proxy/proxy.go:145-157 | `203.0.113.5` resolves to itself with an empty port. |
| ClientAddress.Ipv6LiteralExample | proxy/proxy.go:145-157 | `2001:db8::1` resolves to the whole literal with an empty port. |
| NetAddr.SplitHostPort | proxy/proxy.go:146 | An address without a colon fails with missing port. A successful split returns a port with no colon or bracket, and the input is either `host:port` or `[host]:port`. An unbracketed input yields a colon-free host. |
| NetAddr.SplitJoin | proxy/proxy.go:37 | Splitting the output of `JoinHostPort` gives back the host and port, for bracket-free parts with a colon-free port. |
| NetAddr.JoinSplit | proxy/proxy.go:37 | `JoinHostPort` undoes a successful split. The one exception is a bracketed host with no colon, which comes back without its brackets. |
| Text.TrimSpace | proxy/proxy.go:145 | The result is a contiguous part of the input. Everything cut off before or after it is whitespace, and it neither starts nor ends with whitespace. |
| Text.FirstField | proxy/proxy.go:128 | The result is a prefix of the input with no comma, and it ends at the first comma or at the end of the input. |
| Proxy.Dispatch | proxy/proxy.go:38-42 | A request goes to the tunnel exactly when its method is the string "CONNECT". Every other method string is forwarded. |
| Proxy.CopyAddsNoHopHeaders | proxy/proxy.go:92-95 | Copying a source none of whose keys, in whatever spelling, canonicalises to a hop-by-hop name into a destination of the same kind keeps the result free of hop-by-hop keys. |
| Proxy.ForwardingStripsHopHeaders | proxy/proxy.go:76-98 | With canonical header maps on both legs, and a client map that starts with no hop-by-hop key, neither the request's header map passed to `RoundTrip` nor the map in `w.Header()` holds a hop-by-hop key. Every other response value is appended after the values the client's map already held. |

## Left out

- `handleTunneling` (dialling with a timeout, the 200/503/500 replies, hijacking the connection, the two relay goroutines): network I/O and concurrency.
- `handleHTTP`'s round trip through `http.DefaultTransport`, `WriteHeader`, body streaming with `io.Copy`, closing the body and `http.Error`: I/O and foreign library behaviour. What it does to headers, which is to sanitise the request, then sanitise the response, then copy the response headers, is covered by `Proxy.ForwardingStripsHopHeaders`.
- Message framing that `net/http` keeps outside the header map: the server moves `Connection: close` into `Request.Close` and `Transfer-Encoding` into `Request.TransferEncoding`, and the transport writes them back onto the wire. `Proxy.ForwardingStripsHopHeaders` speaks only about the header maps.
- `transfer`: byte copying and closing of both connections, whose point is concurrent teardown.
- The log line in `ServeHTTP`, `New` and the `TunnelTimeout` field: logging and configuration with no logic. `NetAddr.JoinHostPort` is kept only as the inverse of `SplitHostPort`.
- `Mime.Canonical` follows `textproto.CanonicalMIMEHeaderKey` on ASCII keys. It leaves out the interning of common header names, which does not change the result.
- `Text.TrimSpace` works on Unicode characters. Go trims the UTF-8 encoded runes of a byte string, and invalid UTF-8 is not modelled.
- HopByHop.RemovedInAnyCasing: that no surviving key matches a hop-by-hop name in any letter case is proved only for headers whose keys are canonical. For other keys it does not hold, since a non-canonical spelling survives `Del` (see `HopByHop.NonCanonicalKeySurvives`).
- HeaderCopy.CopyHeaderAppends: the per-key "old values then source values" form is proved for canonical source keys. For a source holding two spellings of one key, `HeaderCopy.CopyHeader` states the general result, which depends on the visiting order.
