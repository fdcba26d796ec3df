/** RC4 with three-byte keys, as in the textbook: the reference the decryption hardware is measured against. */
module Rc4 {
  import opened Words

  type Byte = x: int | 0 <= x < 256
  type Key = x: int | 0 <= x < 0x100_0000
  type Box = s: seq<Byte> | |s| == 256 witness seq(256, _ => 0)

  function Identity(): Box {
    seq(256, i requires 0 <= i < 256 => i)
  }

  function Swapped(s: Box, a: Byte, b: Byte): Box {
    s[a := s[b]][b := s[a]]
  }

  function Plus(a: int, b: int): Byte {
    (a + b) % 256
  }

  // The bytes of the key, the most significant one first.
  function KeyBytes(key: Key): (bytes: seq<Byte>)
    ensures |bytes| == 3 && key as int == 0x1_0000 * (bytes[0] as int) + 0x100 * (bytes[1] as int) + (bytes[2] as int)
  {
    [key / 0x1_0000, key / 0x100 % 0x100, key % 0x100]
  }

  // The key is used over and over again.
  function KeyByte(key: Key, i: Byte): Byte {
    KeyBytes(key)[i % 3]
  }

  /** The rounds of the key schedule use the key's three bytes in turn, the most significant one first. */
  lemma KeyIsItsBytes(key: Key, i: Byte)
    ensures key as int
         == 0x1_0000 * (KeyByte(key, 0) as int) + 0x100 * (KeyByte(key, 1) as int) + (KeyByte(key, 2) as int)
    ensures KeyByte(key, i) == KeyByte(key, i % 3)
  {
  }

  /** `n` rounds of the key schedule on the box `s0`: the box and j. */
  function ScheduleFrom(s0: Box, key: Key, n: nat): (Box, Byte)
    requires n <= 256
  {
    if n == 0 then (s0, 0)
    else
      var (s, j) := ScheduleFrom(s0, key, n - 1);
      var j' := Plus(Plus(j, s[n - 1]), KeyByte(key, n - 1));
      (Swapped(s, n - 1, j'), j')
  }

  lemma RoundIs(s0: Box, key: Key, n: Byte, s: Box, j: Byte, b: Byte)
    requires ScheduleFrom(s0, key, n) == (s, j) && KeyByte(key, n) == b
    ensures var j' := Plus(Plus(j, s[n]), b); ScheduleFrom(s0, key, n + 1) == (Swapped(s, n, j'), j')
  {
  }

  lemma NoRounds(s0: Box, key: Key)
    ensures ScheduleFrom(s0, key, 0) == (s0, 0)
  {
  }

  /** For example, with key 010203 the first round takes j to 1, the second to 3 and the third to 8. */
  lemma FirstRounds(key: Key)
    requires key == 0x01_0203
    ensures ScheduleFrom(Identity(), key, 1).1 == 1
    ensures ScheduleFrom(Identity(), key, 2).1 == 3
    ensures ScheduleFrom(Identity(), key, 3).1 == 8
  {
    hide ScheduleFrom, KeyByte;
    var s := Identity();
    KeyIsItsBytes(key, 0);
    NoRounds(s, key);
    RoundIs(s, key, 0, s, 0, 1);
    var s1 := Swapped(s, 0, 1);
    RoundIs(s, key, 1, s1, 1, 2);
    var s2 := Swapped(s1, 1, 3);
    RoundIs(s, key, 2, s2, 3, 3);
  }

  function KeySchedule(key: Key): Box {
    ScheduleFrom(Identity(), key, 256).0
  }

  /** The generator after `n` bytes: the box, i, j and the bytes so far. */
  datatype Generator = Generator(s: Box, i: Byte, j: Byte, stream: seq<Byte>)

  function Generate(s: Box, n: nat): (g: Generator)
    ensures |g.stream| == n
  {
    if n == 0 then Generator(s, 0, 0, [])
    else
      var g := Generate(s, n - 1);
      var i := Plus(g.i, 1);
      var j := Plus(g.j, g.s[i]);
      var s' := Swapped(g.s, i, j);
      Generator(s', i, j, g.stream + [s'[Plus(s'[i], s'[j])]])
  }

  function KeyStream(key: Key, n: nat): (ks: seq<Byte>)
    ensures |ks| == n
  {
    Generate(KeySchedule(key), n).stream
  }

  function XorBits(x: bv8, y: bv8): Byte {
    (x ^ y) as int
  }

  function Xor(a: Byte, b: Byte): Byte {
    XorBits(ToByte(a), ToByte(b))
  }

  // A byte and its bits.
  predicate IsBits(n: Byte, bits: bv8) {
    ToByte(n) == bits
  }

  lemma BitsOf(n: Byte) returns (bits: bv8)
    ensures IsBits(n, bits)
  {
    bits := ToByte(n);
  }

  lemma BitsDiffer(a: Byte, b: Byte, x: bv8, y: bv8)
    requires a != b && IsBits(a, x) && IsBits(b, y)
    ensures x != y
  {
  }

  /** The bits of a combined byte are the bits of the two bytes combined. */
  lemma XorIs(a: Byte, b: Byte, x: bv8, y: bv8)
    requires IsBits(a, x) && IsBits(b, y)
    ensures IsBits(Xor(a, b), x ^ y)
  {
    SameByte(ToByte(XorBits(x, y)), x ^ y);
  }

  lemma XorCancels(x: bv8, y: bv8)
    ensures x ^ (x ^ y) == y
  {
  }

  lemma XorTwice(a: Byte, b: Byte)
    ensures Xor(a, Xor(a, b)) == b
  {
    hide IsBits, Xor;
    var x := BitsOf(a);
    var y := BitsOf(b);
    XorIs(a, b, x, y);
    XorIs(a, Xor(a, b), x, x ^ y);
    XorCancels(x, y);
    if Xor(a, Xor(a, b)) != b {
      BitsDiffer(Xor(a, Xor(a, b)), b, x ^ (x ^ y), y);
    }
  }

  function XorAll(stream: seq<Byte>, text: seq<Byte>): (r: seq<Byte>)
    requires |stream| == |text|
    ensures |r| == |text|
  {
    seq(|text|, i requires 0 <= i < |text| => Xor(stream[i], text[i]))
  }

  /** Encryption and decryption alike. */
  function Crypt(key: Key, text: seq<Byte>): (r: seq<Byte>)
    ensures |r| == |text|
  {
    XorAll(KeyStream(key, |text|), text)
  }

  lemma XorAllTwice(stream: seq<Byte>, text: seq<Byte>)
    requires |stream| == |text|
    ensures XorAll(stream, XorAll(stream, text)) == text
  {
    forall i | 0 <= i < |text|
      ensures XorAll(stream, XorAll(stream, text))[i] == text[i]
    {
      XorTwice(stream[i], text[i]);
    }
  }

  /** Decrypting what was encrypted with the same key gives the text back. */
  lemma CryptTwice(key: Key, text: seq<Byte>)
    ensures Crypt(key, Crypt(key, text)) == text
  {
    XorAllTwice(KeyStream(key, |text|), text);
  }

  lemma SwapPermutes(s: Box, a: Byte, b: Byte)
    ensures multiset(Swapped(s, a, b)) == multiset(s)
  {
  }

  /** The key schedule only permutes the box. */
  lemma {:induction false} ScheduleIsPermutation(s0: Box, key: Key, n: nat)
    requires n <= 256
    ensures multiset(ScheduleFrom(s0, key, n).0) == multiset(s0)
  {
    hide KeyByte, Plus, Swapped;
    if n == 0 {
    } else {
      ScheduleIsPermutation(s0, key, n - 1);
      var (s, j) := ScheduleFrom(s0, key, n - 1);
      SwapPermutes(s, n - 1, Plus(Plus(j, s[n - 1]), KeyByte(key, n - 1)));
    }
  }

  predicate Readable(b: Byte) {
    'a' as int <= b <= 'z' as int || b == ' ' as int
  }

  /** The text consists of lower-case letters and spaces. */
  predicate AllReadable(text: seq<Byte>) {
    forall b | b in text :: Readable(b)
  }

  // ----- telling key streams apart

  predicate Legible(b: bv8) {
    97 <= b <= 122 || b == 32
  }

  lemma LegibleIsReadable(b: bv8)
    ensures Legible(b) <==> Readable(b as int)
  {
  }

  // Whatever the difference of two key bytes, one of three readable bytes does not survive it.
  lemma SpoiledBits(x: bv8, y: bv8)
    requires x != y
    ensures !Legible(x ^ (y ^ 32)) || !Legible(x ^ (y ^ 122)) || !Legible(x ^ (y ^ 97))
  {
  }

  lemma ThreeBytes()
    ensures IsBits(32, 32) && IsBits(122, 122) && IsBits(97, 97)
    ensures Readable(32) && Readable(122) && Readable(97)
  {
    SameByte(ToByte(32), 32);
    SameByte(ToByte(122), 122);
    SameByte(ToByte(97), 97);
  }

  lemma BitsAreLegible(n: Byte, bits: bv8)
    requires IsBits(n, bits)
    ensures Legible(bits) <==> Readable(n)
  {
    LegibleIsReadable(bits);
  }

  lemma Spoils(a: Byte, b: Byte, w: Byte, x: bv8, y: bv8, bits: bv8)
    requires IsBits(a, x) && IsBits(b, y) && IsBits(w, bits) && !Legible(x ^ (y ^ bits))
    ensures !Readable(Xor(a, Xor(b, w)))
  {
    hide IsBits, Xor, Readable, Legible;
    XorIs(b, w, y, bits);
    XorIs(a, Xor(b, w), x, y ^ bits);
    BitsAreLegible(Xor(a, Xor(b, w)), x ^ (y ^ bits));
  }

  lemma SpoilingByte(x: bv8, y: bv8) returns (w: Byte, bits: bv8)
    requires x != y
    ensures IsBits(w, bits) && Readable(w) && !Legible(x ^ (y ^ bits))
  {
    SpoiledBits(x, y);
    hide IsBits, Readable, Legible;
    ThreeBytes();
    if !Legible(x ^ (y ^ 32)) {
      w, bits := 32, 32;
    } else if !Legible(x ^ (y ^ 122)) {
      w, bits := 122, 122;
    } else {
      w, bits := 97, 97;
    }
  }

  lemma SpoiledByte(a: Byte, b: Byte) returns (w: Byte)
    requires a != b
    ensures Readable(w) && !Readable(Xor(a, Xor(b, w)))
  {
    hide IsBits, Xor, Readable, Legible;
    var x := BitsOf(a);
    var y := BitsOf(b);
    BitsDiffer(a, b, x, y);
    var v, bits := SpoilingByte(x, y);
    w := v;
    Spoils(a, b, w, x, y, bits);
  }

  /** Two different key streams are told apart by some encrypted text. */
  lemma StreamsDiffer(u: seq<Byte>, v: seq<Byte>) returns (cipher: seq<Byte>)
    requires |u| == |v| && u != v
    ensures |cipher| == |u| && AllReadable(XorAll(v, cipher)) && !AllReadable(XorAll(u, cipher))
  {
    hide Xor, Readable;
    var p :| 0 <= p < |u| && u[p] != v[p];
    var w := SpoiledByte(u[p], v[p]);
    var message := seq(|u|, i => if i == p then w else 32);
    assert Readable(32) by { SpaceIsReadable(); }
    cipher := XorAll(v, message);
    XorAllTwice(v, message);
    assert XorAll(u, cipher)[p] == Xor(u[p], Xor(v[p], w));
    assert XorAll(u, cipher)[p] in XorAll(u, cipher);
  }

  lemma SpaceIsReadable()
    ensures Readable(32)
  {
  }

  // ----- a box that is not filled in order

  // The same value everywhere but in the last cell.
  function Worn(v: Byte): Box {
    seq(256, i requires 0 <= i < 256 => if i < 255 then v else 255)
  }

  lemma {:induction false} ZerosStay(n: nat)
    requires n <= 255
    ensures ScheduleFrom(Worn(0), 0, n) == (Worn(0), 0)
  {
    if n == 0 {
    } else {
      ZerosStay(n - 1);
      assert Swapped(Worn(0), n - 1, 0) == Worn(0);
    }
  }

  // What is generated comes from the box.
  lemma {:induction false} StreamFromBox(s: Box, n: nat)
    ensures multiset(Generate(s, n).s) == multiset(s) && forall b | b in Generate(s, n).stream :: b in s
  {
    hide Plus, Swapped;
    if n == 0 {
    } else {
      StreamFromBox(s, n - 1);
      var g := Generate(s, n - 1);
      var i := Plus(g.i, 1);
      var j := Plus(g.j, g.s[i]);
      SwapPermutes(g.s, i, j);
      var s' := Swapped(g.s, i, j);
      assert s'[Plus(s'[i], s'[j])] in multiset(s');
    }
  }

  lemma {:induction false} FirstByte(s: Box, n: nat)
    requires n >= 1
    ensures Generate(s, n).stream[0] == Generate(s, 1).stream[0]
  {
    if n == 1 {
    } else {
      FirstByte(s, n - 1);
    }
  }

  lemma ZerosScheduled()
    ensures ScheduleFrom(Worn(0), 0, 256).0 == Worn(0)
  {
    ZerosStay(255);
    assert Worn(0)[255] == 255;
    assert Plus(Plus(0, 255), KeyByte(0, 255)) == 255;
    SwapSelf(Worn(0), 255);
  }

  lemma SwapSelf(s: Box, a: Byte)
    ensures Swapped(s, a, a) == s
  {
  }

  lemma OnesFirst(n: nat)
    requires n >= 1
    ensures Generate(ScheduleFrom(Worn(1), 0, 256).0, n).stream[0] != 0
  {
    hide ScheduleFrom, Generate;
    var s := ScheduleFrom(Worn(1), 0, 256).0;
    ScheduleIsPermutation(Worn(1), 0, 256);
    StreamFromBox(s, n);
    var b := Generate(s, n).stream[0];
    assert b in Generate(s, n).stream;
    assert b in s;
    assert b in multiset(s);
    assert b in multiset(Worn(1));
  }

  /** Key 0 scheduled on such a box of zeros generates 0 first, and on one of ones something else. */
  lemma WornStream(v: Byte, n: nat)
    requires n >= 1 && (v == 0 || v == 1)
    ensures Generate(ScheduleFrom(Worn(v), 0, 256).0, n).stream[0] == 0 <==> v == 0
  {
    hide ScheduleFrom, Generate, Worn;
    if v == 0 {
      ZerosScheduled();
      FirstByte(Worn(0), n);
      ZerosFirst();
    } else {
      OnesFirst(n);
    }
  }

  lemma ZerosFirst()
    ensures Generate(Worn(0), 1).stream[0] == 0
  {
    assert Generate(Worn(0), 0) == Generator(Worn(0), 0, 0, []);
    assert Swapped(Worn(0), 1, 0) == Worn(0);
  }
}
