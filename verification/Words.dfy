/** Little-endian words in byte memory (the processor is configured little-endian). */
module Words {
  import opened Raster

  type ByteValue = x: int | 0 <= x <= 255

  // A number as a byte, counted up from zero.
  function ToByte(n: ByteValue): (b: bv8)
    ensures b as int == n
  {
    if n == 0 then 0 else ToByte(n - 1) + 1
  }

  // Bytes with the same value are the same.
  lemma SameByte(a: bv8, b: bv8)
    requires a as int == b as int
    ensures a == b
  {
  }

  function Word16(p: Bytes): bv16
    requires |p| == 2
  {
    (p[0] as bv16) | ((p[1] as bv16) << 8)
  }

  function Word32(p: Bytes): bv32
    requires |p| == 4
  {
    (p[0] as bv32) | ((p[1] as bv32) << 8) | ((p[2] as bv32) << 16) | ((p[3] as bv32) << 24)
  }

  function Bytes16(v: bv16): (p: Bytes)
    ensures |p| == 2 && Word16(p) == v
  {
    [(v & 0xff) as bv8, (v >> 8) as bv8]
  }

  function Bytes32(v: bv32): (p: Bytes)
    ensures |p| == 4 && Word32(p) == v
  {
    [(v & 0xff) as bv8, ((v >> 8) & 0xff) as bv8, ((v >> 16) & 0xff) as bv8, (v >> 24) as bv8]
  }

  /** A word is stored in one way only. */
  lemma BytesOfWord32(p: Bytes)
    requires |p| == 4
    ensures Bytes32(Word32(p)) == p
  {
  }

  function Load32(m: array<bv8>, a: nat): bv32
    requires a + 4 <= m.Length
    reads m
  {
    Word32(m[a..a + 4])
  }

  method Store32(m: array<bv8>, a: nat, v: bv32)
    requires a + 4 <= m.Length
    modifies m
    ensures m[..] == Put(old(m[..]), a, Bytes32(v))
  {
    var p := Bytes32(v);
    PutBytes(m[..], a, p);
    m[a] := p[0];
    m[a + 1] := p[1];
    m[a + 2] := p[2];
    m[a + 3] := p[3];
  }

  method Store16(m: array<bv8>, a: nat, v: bv16)
    requires a + 2 <= m.Length
    modifies m
    ensures m[..] == Put(old(m[..]), a, Bytes16(v))
  {
    var p := Bytes16(v);
    PutBytes(m[..], a, p);
    m[a] := p[0];
    m[a + 1] := p[1];
  }

  // Two regions of `n` bytes have none in common.
  predicate Separate(a: nat, b: nat, n: nat) {
    a + n <= b || b + n <= a
  }

  /** The C library's `memcpy`: undefined when the two regions overlap without being the same. */
  method Memcpy(dst: array<bv8>, d: nat, src: array<bv8>, s: nat, n: nat)
    requires d + n <= dst.Length && s + n <= src.Length
    requires dst != src || Separate(d, s, n) || d == s
    modifies dst
    ensures dst[..] == Put(old(dst[..]), d, old(src[s..s + n]))
  {
    ghost var was, region := dst[..], src[s..s + n];
    for i := 0 to n
      invariant forall k | 0 <= k < i :: dst[d + k] == region[k]
      invariant forall k | 0 <= k < dst.Length && !(d <= k < d + i) :: dst[k] == was[k]
      invariant forall k | i <= k < n :: src[s + k] == region[k]
    {
      dst[d + i] := src[s + i];
    }
    assert dst[d..d + n] == region;
    assert dst[..] == Put(was, d, region);
  }
}
