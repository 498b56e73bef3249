/** Byte strings: the vocabulary shared by the cipher, hash and image models. */
module Bytes {

  type byte = x: int | 0 <= x < 256

  function Zeros(n: nat): (r: seq<byte>)
    ensures |r| == n && forall i :: 0 <= i < n ==> r[i] == 0
  {
    seq(n, _ => 0)
  }

  /** A 16-byte block. */
  type Block = b: seq<byte> | |b| == 16 witness Zeros(16)

  type BlockFun = Block -> Block

  /** A 32-byte digest. */
  type Digest = d: seq<byte> | |d| == 32 witness Zeros(32)

  const U32: nat := 0x1_0000_0000
  const U64: nat := 0x1_00000000_00000000
  const U128: nat := 0x1_00000000_00000000_00000000_00000000

  /** The direction of a cipher context. */
  datatype Mode = Encrypting | Decrypting

  datatype Option<T> = None | Some(value: T)

  // -------------------------------------------------- products and remainders

  lemma MulAssoc(a: nat, b: nat, c: nat)
    ensures a * b * c == a * (b * c)
  {
  }

  lemma MulAdd(m: nat, a: nat, b: nat)
    ensures m * (a + b) == m * a + m * b
  {
  }

  lemma {:induction false} MulStep(m: nat, a: nat, b: nat)
    requires a < b
    ensures m * b >= m * a + m
    decreases b
  {
    assert m * b == m * (b - 1) + m;
    if a + 1 < b {
      MulStep(m, a, b - 1);
    }
  }

  /** Quotient and remainder are the only numbers like them. */
  lemma DivModUnique(c: nat, m: nat, h: nat, r: nat)
    requires r < m && c == m * h + r
    ensures c / m == h && c % m == r
  {
    var q, s := c / m, c % m;
    assert c == m * q + s && 0 <= s < m;
    if q < h {
      MulStep(m, q, h);
    } else if h < q {
      MulStep(m, h, q);
    }
  }

  /** Numbers that differ by multiples of m have the same remainder. */
  lemma SameRem(x: nat, y: nat, m: nat, k: nat)
    requires m > 0 && x == y + m * k
    ensures x % m == y % m && x / m == y / m + k
  {
    var q, r := y / m, y % m;
    MulAdd(m, q, k);
    DivModUnique(x, m, q + k, r);
  }

  /** The blocks, the last one perhaps partial, of n bytes. */
  function BlockCount(n: nat): nat {
    (n + 15) / 16
  }

  function Power(b: nat, n: nat): (r: nat)
    ensures b > 0 ==> r > 0
  {
    if n == 0 then 1 else b * Power(b, n - 1)
  }

  lemma {:induction false} PowerSum(b: nat, j: nat, k: nat)
    ensures Power(b, j + k) == Power(b, j) * Power(b, k)
    decreases j
  {
    if j > 0 {
      var p, q := Power(b, j - 1), Power(b, k);
      PowerSum(b, j - 1, k);
      PowerNext(b, j);
      PowerNext(b, j + k);
      hide Power;
      MulAssoc(b, p, q);
    }
  }

  lemma PowerNext(b: nat, n: nat)
    requires n > 0
    ensures Power(b, n) == b * Power(b, n - 1)
  {
  }

  // ----------------------------------------------------------- exclusive or

  /** The exclusive or of two k-bit integers. */
  function XorBits(a: nat, b: nat, k: nat): (r: nat)
    ensures r < Power(2, k)
    decreases k
  {
    if k == 0 then 0 else 2 * XorBits(a / 2, b / 2, k - 1) + (if a % 2 == b % 2 then 0 else 1)
  }

  lemma XorBitsStep(a: nat, b: nat, k: nat)
    requires k > 0
    ensures XorBits(a, b, k) / 2 == XorBits(a / 2, b / 2, k - 1)
    ensures XorBits(a, b, k) % 2 == if a % 2 == b % 2 then 0 else 1
  {
  }

  /** Bit i of a number, the least significant first. */
  function BitOf(a: nat, i: nat): (r: nat)
    ensures r < 2
    decreases i
  {
    if i == 0 then a % 2 else BitOf(a / 2, i - 1)
  }

  /** Every bit is the sum of the two bits modulo two. */
  lemma {:induction false} XorBit(a: nat, b: nat, k: nat, i: nat)
    requires i < k
    ensures BitOf(XorBits(a, b, k), i) == (BitOf(a, i) + BitOf(b, i)) % 2
    decreases i
  {
    hide XorBits;
    XorBitsStep(a, b, k);
    if i > 0 {
      XorBit(a / 2, b / 2, k - 1, i - 1);
    }
  }

  /** The bit at place i is worth 2^i. */
  lemma {:induction false} BitOfPower(a: nat, i: nat)
    ensures BitOf(a, i) == a / Power(2, i) % 2
    decreases i
  {
    if i > 0 {
      BitOfPower(a / 2, i - 1);
      PowerNext(2, i);
      hide Power, BitOf;
      DivTwice(a, 2, Power(2, i - 1));
    }
  }

  lemma DivTwice(a: nat, m: nat, p: nat)
    requires m > 0 && p > 0
    ensures m * p > 0 && a / (m * p) == a / m / p
  {
    DivParts(a, m);
    DivParts(a / m, p);
    DivTwiceFrom(a, m, p, a / m, a % m, a / m / p, a / m % p);
  }

  lemma DivParts(a: nat, m: nat)
    requires m > 0
    ensures a == m * (a / m) + a % m && a % m < m && a / m >= 0
  {
  }

  lemma DivTwiceFrom(a: nat, m: nat, p: nat, u: nat, v: nat, q: nat, r: nat)
    requires a == m * u + v && v < m && u == p * q + r && r < p
    ensures m * p > 0 && a / (m * p) == q
  {
    MulAdd(m, p * q, r);
    MulAssoc(m, p, q);
    MulStep(m, r, p);
    var x, y, z := m * p, m * r, m * p * q;
    assert a == z + (y + v) && y + v < x;
    DivModUnique(a, x, q, y + v);
  }

  function Doubled(c: nat, j: nat): nat {
    if j == 0 then c else 2 * Doubled(c, j - 1)
  }

  lemma {:induction false} DoubledIs(c: nat, j: nat)
    ensures Doubled(c, j) == Power(2, j) * c
  {
    if j > 0 {
      DoubledIs(c, j - 1);
      PowerNext(2, j);
      hide Power;
      MulAssoc(2, Power(2, j - 1), c);
    }
  }

  /** The low j bits and the bits above them are added apart from each other. */
  lemma {:induction false} XorBitsParts(a: nat, b: nat, c: nat, d: nat, j: nat, k: nat)
    requires a < Power(2, j) && b < Power(2, j)
    ensures XorBits(a + Doubled(c, j), b + Doubled(d, j), j + k) == XorBits(a, b, j) + Doubled(XorBits(c, d, k), j)
    decreases j
  {
    hide XorBits, Doubled;
    var z := XorBits(c, d, k);
    DoubledStep(c, j);
    DoubledStep(d, j);
    DoubledStep(z, j);
    if j == 0 {
      XorBitsNone(a, b);
    } else {
      PowerNext(2, j);
      hide Power;
      HalfBelow(a, Power(2, j - 1));
      HalfBelow(b, Power(2, j - 1));
      XorBitsParts(a / 2, b / 2, c, d, j - 1, k);
      XorBitsTwice(a, b, 0, 0, j);
      XorBitsTwice(a, b, Doubled(c, j - 1), Doubled(d, j - 1), j + k);
    }
  }

  lemma HalfBelow(a: nat, p: nat)
    requires a < 2 * p
    ensures a / 2 < p
  {
  }

  lemma DoubledStep(c: nat, j: nat)
    ensures Doubled(c, j) == if j == 0 then c else 2 * Doubled(c, j - 1)
  {
  }

  lemma XorBitsNone(a: nat, b: nat)
    ensures XorBits(a, b, 0) == 0
  {
  }

  lemma XorBitsTwice(a: nat, b: nat, x: nat, y: nat, k: nat)
    requires k > 0
    ensures XorBits(a + 2 * x, b + 2 * y, k) ==
            2 * XorBits(a / 2 + x, b / 2 + y, k - 1) + if a % 2 == b % 2 then 0 else 1
  {
    HalfOfSum(a, x);
    HalfOfSum(b, y);
  }

  lemma HalfOfSum(a: nat, x: nat)
    ensures (a + 2 * x) / 2 == a / 2 + x && (a + 2 * x) % 2 == a % 2
  {
  }

  lemma {:induction false} XorBitsSelf(a: nat, k: nat)
    ensures XorBits(a, a, k) == 0
    decreases k
  {
    if k > 0 {
      XorBitsSelf(a / 2, k - 1);
    }
  }

  lemma {:induction false} XorBitsCancels(a: nat, b: nat, k: nat)
    requires a < Power(2, k)
    ensures XorBits(XorBits(a, b, k), b, k) == a
    decreases k
  {
    if k > 0 {
      hide XorBits;
      XorBitsStep(a, b, k);
      XorBitsStep(XorBits(a, b, k), b, k);
      XorBitsCancels(a / 2, b / 2, k - 1);
    }
  }

  lemma {:induction false} XorBitsComm(a: nat, b: nat, k: nat)
    ensures XorBits(a, b, k) == XorBits(b, a, k)
    decreases k
  {
    if k > 0 {
      XorBitsComm(a / 2, b / 2, k - 1);
    }
  }

  lemma {:induction false} XorBitsAssoc(a: nat, b: nat, c: nat, k: nat)
    ensures XorBits(XorBits(a, b, k), c, k) == XorBits(a, XorBits(b, c, k), k)
    decreases k
  {
    if k > 0 {
      hide XorBits;
      XorBitsAssoc(a / 2, b / 2, c / 2, k - 1);
      XorBitsStep(a, b, k);
      XorBitsStep(b, c, k);
      XorBitsStep(XorBits(a, b, k), c, k);
      XorBitsStep(a, XorBits(b, c, k), k);
    }
  }

  function XorByte(a: byte, b: byte): byte {
    Power2At8();
    XorBits(a, b, 8)
  }

  lemma Power2At8()
    ensures Power(2, 8) == 256
  {
    assert Power(2, 4) == 16;
  }

  lemma Power2At32()
    ensures Power(2, 32) == U32
  {
    hide Power;
    Power2At8();
    PowerSum(2, 8, 8);
    PowerSum(2, 16, 16);
  }

  /** Bytewise exclusive or of two strings of the same length. */
  function Xor(a: seq<byte>, b: seq<byte>): (r: seq<byte>)
    requires |a| == |b|
    ensures |r| == |a|
  {
    seq<byte>(|a|, i requires 0 <= i < |a| => XorByte(a[i], b[i]))
  }

  lemma XorCancels(x: byte, k: byte)
    ensures XorByte(XorByte(x, k), k) == x
  {
    Power2At8();
    XorBitsCancels(x, k, 8);
  }

  lemma XorInvolution(a: seq<byte>, k: seq<byte>)
    requires |a| == |k|
    ensures Xor(Xor(a, k), k) == a
  {
    hide XorByte;
    forall i | 0 <= i < |a|
      ensures Xor(Xor(a, k), k)[i] == a[i]
    {
      XorCancels(a[i], k[i]);
    }
  }

  lemma XorComm(a: seq<byte>, b: seq<byte>)
    requires |a| == |b|
    ensures Xor(a, b) == Xor(b, a)
  {
    hide XorByte;
    forall i | 0 <= i < |a|
      ensures Xor(a, b)[i] == Xor(b, a)[i]
    {
      XorByteComm(a[i], b[i]);
    }
  }

  lemma XorByteComm(a: byte, b: byte)
    ensures XorByte(a, b) == XorByte(b, a)
  {
    XorBitsComm(a, b, 8);
  }

  lemma XorConcat(a: seq<byte>, b: seq<byte>, c: seq<byte>, d: seq<byte>)
    requires |a| == |c| && |b| == |d|
    ensures Xor(a + b, c + d) == Xor(a, c) + Xor(b, d)
  {
    hide XorByte;
  }

  lemma XorSlice(a: seq<byte>, b: seq<byte>, lo: nat, hi: nat)
    requires |a| == |b| && lo <= hi <= |a|
    ensures Xor(a, b)[lo..hi] == Xor(a[lo..hi], b[lo..hi])
  {
    hide XorByte;
  }

  lemma {:induction false} XorBitsZero(a: nat, k: nat)
    requires a < Power(2, k)
    ensures XorBits(a, 0, k) == a == XorBits(0, a, k)
    decreases k
  {
    if k > 0 {
      XorBitsZero(a / 2, k - 1);
    }
  }

  lemma XorByteZero(b: byte)
    ensures XorByte(0, b) == b
  {
    hide XorBits;
    Power2At8();
    XorBitsZero(b, 8);
  }

  lemma XorZeros(b: seq<byte>)
    ensures Xor(Zeros(|b|), b) == b
  {
    hide XorByte;
    forall i | 0 <= i < |b|
      ensures XorByte(0, b[i]) == b[i]
    {
      XorByteZero(b[i]);
    }
  }

  // ------------------------------------------------------- chunks and padding

  function Flatten(chunks: seq<seq<byte>>): seq<byte> {
    if chunks == [] then [] else Flatten(chunks[..|chunks| - 1]) + chunks[|chunks| - 1]
  }

  lemma FlattenSnoc(chunks: seq<seq<byte>>, c: seq<byte>)
    ensures Flatten(chunks + [c]) == Flatten(chunks) + c
  {
    assert (chunks + [c])[..|chunks|] == chunks;
  }

  lemma FlattenNext(chunks: seq<seq<byte>>, i: nat)
    requires i < |chunks|
    ensures Flatten(chunks[..i + 1]) == Flatten(chunks[..i]) + chunks[i]
  {
    assert chunks[..i + 1][..i] == chunks[..i];
  }

  // ------------------------------------------------- buffering partial blocks

  /** The bytes from i to j of data after those before i. */
  lemma SliceMore(h: seq<byte>, data: seq<byte>, i: nat, j: nat)
    requires i <= j <= |data|
    ensures data[..i] + data[i..j] == data[..j] && h + data[..i] + data[i..j] == h + data[..j]
  {
    assert h + data[..i] + data[i..j] == h + (data[..i] + data[i..j]);
  }

  /** Whole blocks after a message without a rest, or no blocks after one with a rest. */
  lemma RestJoined(w: seq<byte>, p: seq<byte>, rest: seq<byte>, used: nat)
    requires used <= |rest| && (p == [] || used == 0)
    ensures w + rest[..used] + (p + rest[used..]) == w + p + rest
  {
    assert rest == rest[..used] + rest[used..];
  }

  /** A rest kept in the buffer behind what is there. */
  lemma RestBuffered(buffer: seq<byte>, p: seq<byte>, tail: seq<byte>)
    requires |p| + |tail| <= |buffer| && buffer[..|p|] == p
    ensures (buffer[..|p|] + tail + buffer[|p| + |tail|..])[..|p| + |tail|] == p + tail
    ensures |buffer[..|p|] + tail + buffer[|p| + |tail|..]| == |buffer|
    ensures tail == [] ==> p + tail == p
  {
  }

  /** Zero bytes up to the next multiple of 16. */
  function PadZero(s: seq<byte>): (r: seq<byte>)
    ensures |r| % 16 == 0 && s <= r
  {
    s + Zeros((16 - |s| % 16) % 16)
  }

  lemma PadZeroIs(s: seq<byte>, r: nat)
    requires |s| % 16 == r
    ensures PadZero(s) == s + Zeros(if r == 0 then 0 else 16 - r)
  {
  }

  // ------------------------------------------------------ big-endian integers

  /** n modulo 256^len in `len` bytes, the most significant first. */
  function Be(n: nat, len: nat): (r: seq<byte>)
    ensures |r| == len
    decreases len
  {
    if len == 0 then [] else Be(n / 256, len - 1) + [n % 256]
  }

  function BeNat(s: seq<byte>): nat {
    if s == [] then 0 else BeNat(s[..|s| - 1]) * 256 + s[|s| - 1]
  }

  lemma {:induction false} BeOfBeNat(s: seq<byte>)
    ensures Be(BeNat(s), |s|) == s
  {
    if s != [] {
      BeOfBeNat(s[..|s| - 1]);
      var v, b := BeNat(s[..|s| - 1]), s[|s| - 1];
      assert (v * 256 + b) / 256 == v && (v * 256 + b) % 256 == b;
    }
  }

  lemma {:induction false} BeNatOfBe(n: nat, len: nat)
    requires n < Power(256, len)
    ensures BeNat(Be(n, len)) == n
    decreases len
  {
    if len > 0 {
      assert n / 256 < Power(256, len - 1);
      BeNatOfBe(n / 256, len - 1);
      assert Be(n, len)[..len - 1] == Be(n / 256, len - 1);
    }
  }

  lemma {:induction false} BeNatBound(s: seq<byte>)
    ensures BeNat(s) < Power(256, |s|)
  {
    if s != [] {
      BeNatBound(s[..|s| - 1]);
    }
  }

  /** The encoding of q * 256^k + r splits into those of q and r. */
  lemma {:induction false} BeSplit(q: nat, r: nat, len: nat, k: nat)
    requires r < Power(256, k)
    ensures Be(q * Power(256, k) + r, len + k) == Be(q, len) + Be(r, k)
    decreases k
  {
    if k == 0 {
      assert q * 1 + 0 == q;
    } else {
      var p, n := Power(256, k - 1), q * Power(256, k) + r;
      assert n == 256 * (q * p) + r;
      assert n / 256 == q * p + r / 256 && n % 256 == r % 256;
      BeSplit(q, r / 256, len, k - 1);
    }
  }

  /** Only the value modulo 256^len is encoded. */
  lemma BeMod(q: nat, r: nat, len: nat)
    requires r < Power(256, len)
    ensures Be(q * Power(256, len) + r, len) == Be(r, len)
  {
    hide Power;
    BeSplit(q, r, 0, len);
    assert Be(q, 0) == [];
  }

  // --------------------------------------------------- little-endian integers

  function Le(n: nat, len: nat): (r: seq<byte>)
    ensures |r| == len
    decreases len
  {
    if len == 0 then [] else [n % 256] + Le(n / 256, len - 1)
  }

  function LeNat(s: seq<byte>): nat {
    if s == [] then 0 else s[0] + 256 * LeNat(s[1..])
  }

  lemma {:induction false} LeNatOfLe(n: nat, len: nat)
    requires n < Power(256, len)
    ensures LeNat(Le(n, len)) == n
    decreases len
  {
    if len > 0 {
      assert n / 256 < Power(256, len - 1);
      LeNatOfLe(n / 256, len - 1);
      assert Le(n, len)[1..] == Le(n / 256, len - 1);
    }
  }

  // ---------------------------------------------------------- powers of 256

  lemma Powers256()
    ensures Power(256, 2) == 0x1_0000 && Power(256, 4) == U32 && Power(256, 8) == U64 && Power(256, 16) == U128
  {
    assert Power(256, 3) == 0x100_0000;
    assert Power(256, 6) == 0x1_0000_0000_0000;
    assert Power(256, 10) == 0x1_0000_00000000_00000000;
    assert Power(256, 12) == 0x1_00000000_00000000_00000000;
    assert Power(256, 14) == 0x1_0000_00000000_00000000_00000000;
  }
}
