/** Go's `http.Header`: a map from header key to the list of values received under that key.
    `Get`, `Add` and `Del` canonicalise the key they are given before touching the map. */
module Header {
  import opened Mime

  type Header = map<string, seq<string>>

  /** The values stored under `key`, a missing key reading as no values. */
  function Values(h: Header, key: string): seq<string> {
    if key in h then h[key] else []
  }

  /** Every key is stored in canonical form, as `net/http` stores the headers it parses. */
  predicate WellFormed(h: Header) {
    forall k :: k in h ==> Canonical(k) == k
  }

  /** `Header.Get`: the first value under the canonical form of `key`, or "" when there is none. */
  function Get(h: Header, key: string): string {
    var vs := Values(h, Canonical(key));
    if vs == [] then "" else vs[0]
  }

  /** `Header.Add`: appends `v` to the values under the canonical form of `key`. */
  function Add(h: Header, key: string, v: string): (r: Header)
    ensures r.Keys == h.Keys + {Canonical(key)}
    ensures Values(r, Canonical(key)) == Values(h, Canonical(key)) + [v]
    ensures forall k :: k != Canonical(key) ==> Values(r, k) == Values(h, k)
    ensures forall k :: k in h && k != Canonical(key) ==> r[k] == h[k]
  {
    var ck := Canonical(key);
    h[ck := Values(h, ck) + [v]]
  }

  /** `Header.Del`: removes the canonical form of `key`, and nothing else. */
  function Del(h: Header, key: string): (r: Header)
    ensures r.Keys == h.Keys - {Canonical(key)}
    ensures forall k :: k in r ==> r[k] == h[k]
  {
    h - {Canonical(key)}
  }
}
