/**
  The part of net/http's `Header` the link relies on: a map from key to the
  values added under it, `Add` to append one and `Get` to read the first.
  Keys are taken as already canonical (every key the link uses is).
 */
module Headers {
  import opened Octets

  type Header = map<Bytes, seq<Bytes>>

  const UPGRADE: Bytes := Ascii("Upgrade")

  /** The values stored under `key`, in the order they were added. */
  function Values(h: Header, key: Bytes): seq<Bytes>
  {
    if key in h then h[key] else []
  }

  /** `h.Add(key, value)`: append `value` to the values of `key`. */
  function Add(h: Header, key: Bytes, value: Bytes): (r: Header)
    ensures r.Keys == h.Keys + {key}
    ensures forall k :: k in h && k != key ==> r[k] == h[k]
    ensures Values(r, key) == Values(h, key) + [value]
  {
    h[key := Values(h, key) + [value]]
  }

  /** `h.Get(key)`: the first value of `key`, or the empty string. */
  function Get(h: Header, key: Bytes): (v: Bytes)
    ensures key !in h ==> v == []
    ensures key in h && h[key] != [] ==> v == h[key][0]
    ensures v != [] ==> v in Values(h, key)
  {
    if Values(h, key) == [] then [] else Values(h, key)[0]
  }

  /** `Get` after `Add` sees the new value only when the key had none. */
  lemma GetAfterAdd(h: Header, key: Bytes, value: Bytes, other: Bytes)
    ensures Get(Add(h, key, value), other) ==
      if other != key then Get(h, other)
      else if Values(h, key) == [] then value
      else Get(h, key)
  {
    if other == key && Values(h, key) != [] {
      assert (Values(h, key) + [value])[0] == Values(h, key)[0];
    }
  }

  /** Whether the header carries a non-empty first Upgrade value, which is what makes a 101 reply acceptable. */
  predicate HasUpgrade(h: Header)
    ensures HasUpgrade(h) <==> UPGRADE in h && h[UPGRADE] != [] && h[UPGRADE][0] != []
    ensures h == map[] ==> !HasUpgrade(h)
  {
    Get(h, UPGRADE) != []
  }
}
