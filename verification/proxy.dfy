/** The proxy's request handler: method dispatch, and what the HTTP forwarding path
    guarantees about the headers on each side of the round trip. The round trip itself,
    the tunnel and the byte copying are I/O and are not modelled. */
module Proxy {
  import opened Mime
  import opened Header
  import opened HopByHop
  import opened HeaderCopy

  /** Where `ServeHTTP` sends a request. */
  datatype Route = Tunnel | Forward

  const MethodConnect: string := "CONNECT"

  /** `ServeHTTP`'s routing: exactly the method "CONNECT" opens a tunnel; every other method
      string, including other spellings of it, is forwarded as plain HTTP. */
  function Dispatch(httpMethod: string): (route: Route)
    ensures route == Tunnel <==> httpMethod == MethodConnect
    ensures route == Forward <==> httpMethod != MethodConnect
  {
    if httpMethod == MethodConnect then Tunnel else Forward
  }

  /** Copying headers that carry no hop-by-hop key into headers that carry none adds none. */
  lemma CopyAddsNoHopHeaders(dst: Header, src: Header, order: seq<string>)
    requires IsKeyOrder(order, src)
    requires NoHopHeaders(dst) && NoHopHeaders(src)
    ensures NoHopHeaders(CopyHeader(dst, src, order))
  {
    var out := CopyHeader(dst, src, order);
    forall k | k in out
      ensures Canonical(k) !in HopKeys()
    {
      if k !in dst {
        GatheredFrom(src, order, k);
        var i :| 0 <= i < |order| && Canonical(order[i]) == k;
        assert order[i] in src;
        CanonicalIdempotent(order[i]);
      }
    }
  }

  /** The response values that survive stripping reach the client after its own values. */
  lemma CopyStrippedAppends(response: Header, client: Header, order: seq<string>)
    requires WellFormed(RemoveHopHeaders(response))
    requires IsKeyOrder(order, RemoveHopHeaders(response))
    ensures forall k :: k !in HopKeys() ==>
      Values(CopyHeader(client, RemoveHopHeaders(response), order), k) == Values(client, k) + Values(response, k)
  {
    var stripped := RemoveHopHeaders(response);
    var out := CopyHeader(client, stripped, order);
    CopyHeaderAppends(client, stripped, order);
    forall k | k !in HopKeys()
      ensures Values(out, k) == Values(client, k) + Values(response, k)
    {
      assert Values(out, k) == Values(client, k) + Values(stripped, k);
      StrippedValues(response, k);
    }
  }

  /** The forwarding path (`handleHTTP`) strips the request's hop-by-hop headers before the
      round trip, strips the response's after it, and appends what remains to the client's
      response headers. With parsed (canonical) headers on both legs, and a client map that
      starts with no hop-by-hop key (as `w.Header()` does when `handleHTTP` runs), neither the request's
      header map passed to `RoundTrip` nor the header map in `w.Header()` carries a hop-by-hop
      header, and the client's map receives every other response value after the values it
      already held. Framing that `net/http` keeps outside the header map is not covered. */
  lemma ForwardingStripsHopHeaders(request: Header, response: Header, client: Header, order: seq<string>)
    requires WellFormed(request) && WellFormed(response)
    requires NoHopHeaders(client)
    requires IsKeyOrder(order, RemoveHopHeaders(response))
    ensures NoHopHeaders(RemoveHopHeaders(request))
    ensures NoHopHeaders(CopyHeader(client, RemoveHopHeaders(response), order))
    ensures forall k :: k !in HopKeys() ==>
      Values(CopyHeader(client, RemoveHopHeaders(response), order), k) == Values(client, k) + Values(response, k)
  {
    NoHopHeadersRemain(request);
    NoHopHeadersRemain(response);
    CopyAddsNoHopHeaders(client, RemoveHopHeaders(response), order);
    CopyStrippedAppends(response, client, order);
  }
}
