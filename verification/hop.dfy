/** Hop-by-hop header removal (section 13.5.1 of RFC 2616): the headers that only concern
    one transport connection are deleted before a request or response is passed on. */
module HopByHop {
  import opened Mime
  import opened Header
  import opened HeaderNames

  /** The fixed list, in the order and spelling the proxy deletes them. `Proxy-Connection`
      is not in RFC 2616 but is still sent by some clients; "Te" is how `TE` canonicalises. */
  const HopHeaders: seq<string> := [
    "Connection",
    "Proxy-Connection",
    "Keep-Alive",
    "Proxy-Authenticate",
    "Proxy-Authorization",
    "Te",
    "Trailers",
    "Transfer-Encoding",
    "Upgrade"
  ]

  /** The keys `Header.Del` actually removes for a list of names. */
  function CanonicalKeys(names: seq<string>): set<string> {
    set i | 0 <= i < |names| :: Canonical(names[i])
  }

  /** The map keys that removing the hop-by-hop headers deletes. */
  function HopKeys(): set<string> {
    CanonicalKeys(HopHeaders)
  }

  /** `h` holds no hop-by-hop header under any key. */
  predicate NoHopHeaders(h: Header) {
    forall k :: k in h ==> Canonical(k) !in HopKeys()
  }

  /** Calling `Header.Del` once per name, in list order. */
  function DeleteAll(h: Header, names: seq<string>): (r: Header)
    ensures r.Keys == h.Keys - CanonicalKeys(names)
    ensures forall k :: k in r ==> r[k] == h[k]
    decreases |names|
  {
    if names == [] then h
    else
      var r := DeleteAll(Del(h, names[0]), names[1..]);
      assert CanonicalKeys(names) == {Canonical(names[0])} + CanonicalKeys(names[1..]) by {
        forall k | k in CanonicalKeys(names)
          ensures k in {Canonical(names[0])} + CanonicalKeys(names[1..])
        {
          var i :| 0 <= i < |names| && k == Canonical(names[i]);
          if i > 0 {
            assert names[1..][i - 1] == names[i];
          }
        }
        forall k | k in CanonicalKeys(names[1..])
          ensures k in CanonicalKeys(names)
        {
          var i :| 0 <= i < |names| - 1 && k == Canonical(names[1..][i]);
          assert names[1..][i] == names[i + 1];
        }
      }
      r
  }

  /** `removeHopHeaders`: deletes exactly the hop-by-hop keys; every other key keeps its
      values and nothing is added. */
  function RemoveHopHeaders(h: Header): (r: Header)
    ensures r.Keys == h.Keys - HopKeys()
    ensures forall k :: k in r ==> r[k] == h[k]
  {
    DeleteAll(h, HopHeaders)
  }

  /** Every name in the list is already written in canonical form, so the keys deleted are
      exactly the names as written. */
  lemma HopHeadersAreCanonical()
    ensures forall i :: 0 <= i < |HopHeaders| ==> IsCanonical(HopHeaders[i])
    ensures forall i :: 0 <= i < |HopHeaders| ==> Canonical(HopHeaders[i]) == HopHeaders[i]
    ensures HopKeys() == set i | 0 <= i < |HopHeaders| :: HopHeaders[i]
  {
    ProxyConnectionIsCanonical();
    ProxyAuthenticateIsCanonical();
    ProxyAuthorizationIsCanonical();
    TransferEncodingIsCanonical();
    ConnectionIsCanonical();
    KeepAliveIsCanonical();
    TrailersIsCanonical();
    UpgradeAndTeAreCanonical();
    forall i | 0 <= i < |HopHeaders|
      ensures Canonical(HopHeaders[i]) == HopHeaders[i]
    {
      CanonicalFixesCanonical(HopHeaders[i]);
    }
  }

  /** A header whose keys are canonical is left with no key that canonicalises to a
      hop-by-hop name, and stays well formed. */
  lemma NoHopHeadersRemain(h: Header)
    requires WellFormed(h)
    ensures WellFormed(RemoveHopHeaders(h))
    ensures NoHopHeaders(RemoveHopHeaders(h))
  {
  }

  /** Whatever casing a client used for a hop-by-hop header, none of it is left afterwards:
      no surviving key is that name in any letter case, and `Get` under any spelling finds
      nothing. The first two facts rest on the keys being canonical. */
  lemma RemovedInAnyCasing(h: Header, i: nat, name: string)
    requires WellFormed(h)
    requires i < |HopHeaders| && EqualFold(name, HopHeaders[i])
    ensures forall k :: k in RemoveHopHeaders(h) ==> !EqualFold(k, HopHeaders[i])
    ensures name !in RemoveHopHeaders(h)
    ensures Canonical(name) !in RemoveHopHeaders(h)
    ensures Get(RemoveHopHeaders(h), name) == ""
  {
    var listed := HopHeaders[i];
    HopHeadersAreCanonical();
    assert IsCanonical(listed);
    assert EqualFold(listed, name);
    CanonicalIgnoresCase(listed, name);
    assert Canonical(name) in HopKeys();
    forall k | k in RemoveHopHeaders(h) && EqualFold(k, listed)
      ensures false
    {
      assert EqualFold(listed, k);
      CanonicalIgnoresCase(listed, k);
    }
  }

  /** Two maps with the same keys and the same value under each key are equal. */
  lemma SameEntries(a: Header, b: Header)
    requires a.Keys == b.Keys && forall k :: k in a ==> a[k] == b[k]
    ensures a == b
  {
  }

  /** A key that is not hop-by-hop reads the same values before and after removal. */
  lemma StrippedValues(h: Header, k: string)
    requires k !in HopKeys()
    ensures Values(RemoveHopHeaders(h), k) == Values(h, k)
  {
  }

  /** Removing the hop-by-hop headers twice is removing them once. */
  lemma RemoveHopHeadersIdempotent(h: Header)
    ensures RemoveHopHeaders(RemoveHopHeaders(h)) == RemoveHopHeaders(h)
  {
    var hopKeys := HopKeys();
    var once := RemoveHopHeaders(h);
    var twice := RemoveHopHeaders(once);
    assert (h.Keys - hopKeys) - hopKeys == h.Keys - hopKeys;
    SameEntries(twice, once);
  }

  /** A header without hop-by-hop keys passes through unchanged. */
  lemma RemoveHopHeadersIdentity(h: Header)
    requires forall k :: k in h ==> k !in HopKeys()
    ensures RemoveHopHeaders(h) == h
  {
    var hopKeys := HopKeys();
    var r := RemoveHopHeaders(h);
    assert h.Keys - hopKeys == h.Keys;
    SameEntries(r, h);
  }

  /** `Header.Del` looks up only the canonical spelling, so a hop-by-hop header stored under
      a non-canonical key (possible when a map is filled directly rather than parsed)
      survives the removal. */
  lemma NonCanonicalKeySurvives(values: seq<string>)
    ensures RemoveHopHeaders(map["connection" := values]) == map["connection" := values]
  {
    HopHeadersAreCanonical();
    assert "connection" !in HopKeys();
    RemoveHopHeadersIdentity(map["connection" := values]);
  }
}
