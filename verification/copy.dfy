/** `copyHeader`: merging a response's headers into the headers the client will receive.
    Every source value is passed to `Header.Add`, so values are appended, never overwritten
    and never de-duplicated. Go visits the keys of a map in an unspecified order, so the
    order is a parameter: any listing of the source keys, each exactly once. */
module HeaderCopy {
  import opened Mime
  import opened Header

  /** `order` lists the keys of `src` as a `range` loop over the map visits them. */
  predicate IsKeyOrder(order: seq<string>, src: Header) {
    && (forall i :: 0 <= i < |order| ==> order[i] in src)
    && (forall k :: k in src ==> k in order)
    && (forall i, j :: 0 <= i < j < |order| ==> order[i] != order[j])
  }

  /** Sequence concatenation regroups freely. */
  lemma AppendAssociative(a: seq<string>, b: seq<string>, c: seq<string>)
    ensures (a + b) + c == a + (b + c)
  {
  }

  /** The inner loop: `Add`s each value of `vs` under `key`, in order. */
  function AddAll(h: Header, key: string, vs: seq<string>): (r: Header)
    ensures r.Keys == if vs == [] then h.Keys else h.Keys + {Canonical(key)}
    ensures Values(r, Canonical(key)) == Values(h, Canonical(key)) + vs
    ensures forall k :: k != Canonical(key) ==> Values(r, k) == Values(h, k)
    decreases |vs|
  {
    if vs == [] then h
    else
      var ck := Canonical(key);
      var r := AddAll(Add(h, key, vs[0]), key, vs[1..]);
      assert Values(r, ck) == (Values(h, ck) + [vs[0]]) + vs[1..];
      AppendAssociative(Values(h, ck), [vs[0]], vs[1..]);
      assert [vs[0]] + vs[1..] == vs;
      r
  }

  /** The values a run over `keys` adds under the map key `k`: the source values of every
      listed key that canonicalises to `k`, concatenated in visiting order. */
  function Gathered(src: Header, keys: seq<string>, k: string): seq<string>
    requires forall i :: 0 <= i < |keys| ==> keys[i] in src
    decreases |keys|
  {
    if keys == [] then []
    else (if Canonical(keys[0]) == k then src[keys[0]] else []) + Gathered(src, keys[1..], k)
  }

  /** `AddAll` seen from one map key `k`: it gains `vs` exactly when `key` canonicalises to it. */
  lemma AddAllValues(h: Header, key: string, vs: seq<string>, k: string)
    ensures Values(AddAll(h, key, vs), k) == Values(h, k) + (if Canonical(key) == k then vs else [])
  {
    if Canonical(key) != k {
      assert Values(h, k) + [] == Values(h, k);
    }
  }

  /** The outer loop over the visited keys `keys`. */
  function CopyKeys(dst: Header, src: Header, keys: seq<string>): (r: Header)
    requires forall i :: 0 <= i < |keys| ==> keys[i] in src
    ensures forall k :: Values(r, k) == Values(dst, k) + Gathered(src, keys, k)
    ensures forall k :: k in r <==> k in dst || Gathered(src, keys, k) != []
    decreases |keys|
  {
    if keys == [] then dst
    else
      var next := AddAll(dst, keys[0], src[keys[0]]);
      var r := CopyKeys(next, src, keys[1..]);
      forall k
        ensures Values(r, k) == Values(dst, k) + Gathered(src, keys, k)
      {
        var head := if Canonical(keys[0]) == k then src[keys[0]] else [];
        AddAllValues(dst, keys[0], src[keys[0]], k);
        AppendAssociative(Values(dst, k), head, Gathered(src, keys[1..], k));
      }
      forall k
        ensures k in r <==> k in dst || Gathered(src, keys, k) != []
      {
        var head := if Canonical(keys[0]) == k then src[keys[0]] else [];
        assert Gathered(src, keys, k) == head + Gathered(src, keys[1..], k);
        assert k in next <==> k in dst || head != [];
      }
      r
  }

  /** Under a well-formed source each visited key is its own canonical form, so the values
      gathered for `k` are exactly the source's values under `k`. */
  lemma {:induction false} GatheredWellFormed(src: Header, keys: seq<string>, k: string)
    requires WellFormed(src)
    requires forall i :: 0 <= i < |keys| ==> keys[i] in src
    requires forall i, j :: 0 <= i < j < |keys| ==> keys[i] != keys[j]
    ensures Gathered(src, keys, k) == if k in keys then src[k] else []
    decreases |keys|
  {
    if keys != [] {
      var rest := keys[1..];
      assert forall i, j :: 0 <= i < j < |rest| ==> rest[i] != rest[j] by {
        forall i, j | 0 <= i < j < |rest|
          ensures rest[i] != rest[j]
        {
          assert rest[i] == keys[i + 1] && rest[j] == keys[j + 1];
        }
      }
      GatheredWellFormed(src, rest, k);
      assert Canonical(keys[0]) == keys[0];
      if keys[0] == k {
        assert k !in rest by {
          forall i | 0 <= i < |rest|
            ensures rest[i] != k
          {
            assert rest[i] == keys[i + 1];
          }
        }
      } else {
        assert (k in keys) == (k in rest) by {
          if k in keys {
            var i :| 0 <= i < |keys| && keys[i] == k;
            assert rest[i - 1] == k;
          }
        }
      }
    }
  }

  /** Values gathered under `k` come from some visited key that canonicalises to `k`. */
  lemma {:induction false} GatheredFrom(src: Header, keys: seq<string>, k: string)
    requires forall i :: 0 <= i < |keys| ==> keys[i] in src
    requires Gathered(src, keys, k) != []
    ensures exists i :: 0 <= i < |keys| && Canonical(keys[i]) == k
    decreases |keys|
  {
    if Canonical(keys[0]) != k {
      GatheredFrom(src, keys[1..], k);
      var i :| 0 <= i < |keys[1..]| && Canonical(keys[1..][i]) == k;
      assert Canonical(keys[i + 1]) == k;
    }
  }

  /** `copyHeader(dst, src)`, visiting the source keys in the order `order`. */
  function CopyHeader(dst: Header, src: Header, order: seq<string>): (r: Header)
    requires IsKeyOrder(order, src)
    ensures forall k :: Values(r, k) == Values(dst, k) + Gathered(src, order, k)
    ensures forall k :: k in r <==> k in dst || Gathered(src, order, k) != []
  {
    CopyKeys(dst, src, order)
  }

  /** With canonical source keys (as `net/http` delivers a response's headers) every key
      ends up with the destination's values followed by the source's values in order;
      keys the source does not hold are left untouched, and no key appears from nowhere. */
  lemma CopyHeaderAppends(dst: Header, src: Header, order: seq<string>)
    requires WellFormed(src) && IsKeyOrder(order, src)
    ensures forall k :: Values(CopyHeader(dst, src, order), k) == Values(dst, k) + Values(src, k)
    ensures forall k :: k in CopyHeader(dst, src, order) <==> k in dst || Values(src, k) != []
    ensures forall k :: k !in src && k in dst ==> CopyHeader(dst, src, order)[k] == dst[k]
  {
    var r := CopyHeader(dst, src, order);
    forall k
      ensures Values(r, k) == Values(dst, k) + Values(src, k)
      ensures k in r <==> k in dst || Values(src, k) != []
    {
      GatheredWellFormed(src, order, k);
      assert Gathered(src, order, k) == Values(src, k);
    }
    forall k | k !in src && k in dst
      ensures r[k] == dst[k]
    {
      assert Values(r, k) == Values(dst, k) + [];
    }
  }

  /** For a well-formed source the result does not depend on the order Go happens to visit
      the keys in. */
  lemma CopyHeaderOrderIrrelevant(dst: Header, src: Header, order1: seq<string>, order2: seq<string>)
    requires WellFormed(src) && IsKeyOrder(order1, src) && IsKeyOrder(order2, src)
    ensures CopyHeader(dst, src, order1) == CopyHeader(dst, src, order2)
  {
    CopyHeaderAppends(dst, src, order1);
    CopyHeaderAppends(dst, src, order2);
    var r1 := CopyHeader(dst, src, order1);
    var r2 := CopyHeader(dst, src, order2);
    assert r1.Keys == r2.Keys;
    forall k | k in r1
      ensures r1[k] == r2[k]
    {
      assert Values(r1, k) == Values(r2, k);
    }
  }
}
