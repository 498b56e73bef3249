/**
 * The two GHASH multipliers of the code, over 64-bit words: the bit-by-bit product,
 * and Shoup's method with 4-bit tables. A word is the string of its bits, the most
 * significant first, so that two words side by side are a field element.
 */
module GhashTable {
  import opened Bytes
  import opened GhashField

  // ---------------------------------------------------------- 64-bit words

  type Word = w: seq<bool> | |w| == 64 witness Repeat(false, 64)

  function Shl(w: Word, n: nat): Word
    requires n <= 64
  {
    seq(64, i requires 0 <= i < 64 => i + n < 64 && w[i + n])
  }

  function Shr(w: Word, n: nat): Word
    requires n <= 64
  {
    seq(64, i requires 0 <= i < 64 => i >= n && w[i - n])
  }

  function Or(a: Word, b: Word): (r: Word)
    ensures forall i :: 0 <= i < 64 ==> r[i] == (a[i] || b[i])
  {
    seq(64, i requires 0 <= i < 64 => a[i] || b[i])
  }

  function XorWord(a: Word, b: Word): (r: Word)
    ensures forall i :: 0 <= i < 64 ==> r[i] == (a[i] != b[i])
  {
    seq(64, i requires 0 <= i < 64 => a[i] != b[i])
  }

  const ZERO_WORD: Word := Repeat(false, 64)

  /** 0xe100000000000000. */
  const E1: Word := ReductionBits(64)

  predicate NibbleBit(n: nat, t: nat) {
    match t
    case 0 => n / 8 % 2 == 1
    case 1 => n / 4 % 2 == 1
    case 2 => n / 2 % 2 == 1
    case _ => n % 2 == 1
  }

  /** The four bits of a hexadecimal digit. */
  function Nibble(n: nat): (r: seq<bool>)
    requires n < 16
    ensures |r| == 4
  {
    [NibbleBit(n, 0), NibbleBit(n, 1), NibbleBit(n, 2), NibbleBit(n, 3)]
  }

  /** The digit with the given bits. */
  function Digit(b: seq<bool>): (n: nat)
    requires |b| == 4
    ensures n < 16 && Nibble(n) == b
    ensures NibbleBit(n, 0) == b[0] && NibbleBit(n, 1) == b[1] && NibbleBit(n, 2) == b[2] && NibbleBit(n, 3) == b[3]
  {
    (if b[0] then 8 else 0) + (if b[1] then 4 else 0) + (if b[2] then 2 else 0) + (if b[3] then 1 else 0)
  }

  // ---------------------------------------------------------- blocks and bits

  /** Bit i of a byte, the most significant first. */
  predicate Bit(b: byte, i: nat)
    requires i < 8
  {
    if i < 4 then NibbleBit(b / 16, i) else NibbleBit(b % 16, i - 4)
  }

  function Bits(s: seq<byte>): (r: seq<bool>)
    ensures |r| == 8 * |s|
    ensures forall n :: 0 <= n < 8 * |s| ==> r[n] == Bit(s[n / 8], n % 8)
  {
    seq(8 * |s|, n requires 0 <= n < 8 * |s| => Bit(s[n / 8], n % 8))
  }

  function PackByte(b: seq<bool>): byte
    requires |b| == 8
  {
    16 * Digit(b[..4]) + Digit(b[4..])
  }

  /** The block with the given bits. */
  function Pack(e: Elem): Block {
    seq(16, k requires 0 <= k < 16 => PackByte(e[8 * k..8 * k + 8]))
  }

  /** The block product X . Y of section 6.3 of NIST SP 800-38D, on blocks of bytes. */
  function BlockProduct(x: Block, y: Block): Block {
    Pack(Product(Bits(x), Bits(y)))
  }

  lemma BitOfPack(b: seq<bool>, i: nat)
    requires |b| == 8 && i < 8
    ensures Bit(PackByte(b), i) == b[i]
  {
    hide Digit, NibbleBit;
    var h, l := Digit(b[..4]), Digit(b[4..]);
    assert (16 * h + l) / 16 == h && (16 * h + l) % 16 == l;
  }

  /** Packing loses nothing: the block of an element has exactly its bits. */
  lemma BitsOfPack(e: Elem)
    ensures Bits(Pack(e)) == e
  {
    hide Bit, PackByte;
    forall n | 0 <= n < 128
      ensures Bits(Pack(e))[n] == e[n]
    {
      BitOfPack(e[8 * (n / 8)..8 * (n / 8) + 8], n % 8);
    }
  }

  /** So the block product has exactly the bits of the field product, and different elements different blocks. */
  lemma BlockProductBits(x: Block, y: Block, e: Elem)
    ensures Bits(BlockProduct(x, y)) == Product(Bits(x), Bits(y))
    ensures Pack(e) == BlockProduct(x, y) <==> e == Product(Bits(x), Bits(y))
  {
    hide Bits, Pack, Product;
    BitsOfPack(Product(Bits(x), Bits(y)));
    BitsOfPack(e);
  }

  lemma NibblePlaces(n: nat, t: nat)
    requires t < 4
    ensures NibbleBit(n, t) == (BitOf(n, 3 - t) == 1)
  {
    assert n / 4 == n / 2 / 2 && n / 8 == n / 4 / 2;
    assert BitOf(n, 1) == BitOf(n / 2, 0);
    assert BitOf(n, 2) == BitOf(n / 2, 1) == BitOf(n / 4, 0);
    assert BitOf(n, 3) == BitOf(n / 2, 2) == BitOf(n / 4, 1) == BitOf(n / 8, 0);
  }

  lemma UpperPlaces(b: nat, j: nat)
    ensures BitOf(b, j + 4) == BitOf(b / 16, j)
  {
    var c := b / 2;
    var d := c / 2;
    var e := d / 2;
    assert e / 2 == b / 16;
    assert BitOf(b, j + 4) == BitOf(c, j + 3);
    assert BitOf(c, j + 3) == BitOf(d, j + 2);
    assert BitOf(d, j + 2) == BitOf(e, j + 1);
    assert BitOf(e, j + 1) == BitOf(e / 2, j);
  }

  lemma {:induction false} LowerPlaces(q: nat, r: nat, k: nat, j: nat)
    requires j < k
    ensures BitOf(Power(2, k) * q + r, j) == BitOf(r, j)
    decreases j
  {
    var p := Power(2, k - 1);
    MulAssoc(2, p, q);
    assert Power(2, k) * q + r == 2 * (p * q) + r;
    if j > 0 {
      assert (2 * (p * q) + r) / 2 == p * q + r / 2;
      LowerPlaces(q, r / 2, k - 1, j - 1);
    }
  }

  /** The bits of a byte by their places. */
  lemma BitPlaces(b: byte, i: nat)
    requires i < 8
    ensures Bit(b, i) == (BitOf(b, 7 - i) == 1)
  {
    hide BitOf, NibbleBit;
    if i < 4 {
      NibblePlaces(b / 16, i);
      UpperPlaces(b, 3 - i);
    } else {
      NibblePlaces(b % 16, i - 4);
      assert Power(2, 4) == 16;
      LowerPlaces(b / 16, b % 16, 4, 7 - i);
    }
  }

  /** Exclusive or of blocks is addition in the field. */
  lemma BitsXor(a: Block, b: Block)
    ensures Bits(Xor(a, b)) == Add(Bits(a), Bits(b))
  {
    hide Bit, XorBits, BitOf;
    forall n | 0 <= n < 128
      ensures Bits(Xor(a, b))[n] == Add(Bits(a), Bits(b))[n]
    {
      var x, y := a[n / 8], b[n / 8];
      BitPlaces(x, n % 8);
      BitPlaces(y, n % 8);
      BitPlaces(XorByte(x, y), n % 8);
      XorBit(x, y, 8, 7 - n % 8);
    }
  }

  lemma BlockProductCommutes(x: Block, y: Block)
    ensures BlockProduct(x, y) == BlockProduct(y, x)
  {
    ProductCommutes(Bits(x), Bits(y));
  }

  /** The field element held in two words. */
  function Value(h: Word, l: Word): Elem {
    seq(128, i requires 0 <= i < 128 => if i < 64 then h[i] else l[i - 64])
  }

  // ----------------------------------------------------- the bitwise product

  lemma ValueXor(ah: Word, al: Word, bh: Word, bl: Word)
    ensures Value(XorWord(ah, bh), XorWord(al, bl)) == Add(Value(ah, al), Value(bh, bl))
  {
  }

  /** Shifting the two words by one and folding in 0xe1 is multiplication by P. */
  lemma ValueShift(h: Word, l: Word)
    ensures var l' := Or(Shl(h, 63), Shr(l, 1));
            && (l[63] ==> Value(XorWord(Shr(h, 1), E1), l') == TimesP(Value(h, l)))
            && (!l[63] ==> Value(Shr(h, 1), l') == TimesP(Value(h, l)))
  {
    var l' := Or(Shl(h, 63), Shr(l, 1));
    assert Value(Shr(h, 1), l') == Shift(Value(h, l));
    assert Value(E1, ZERO_WORD) == REDUCTION;
    ValueXor(Shr(h, 1), l', E1, ZERO_WORD);
    assert XorWord(l', ZERO_WORD) == l';
  }

  /** (h:l) shifted right by one bit, 0xe1 folded into the top when a bit falls out. */
  function Halve(h: Word, l: Word): (r: (Word, Word))
    ensures Value(r.0, r.1) == TimesP(Value(h, l))
  {
    ValueShift(h, l);
    (if l[63] then XorWord(Shr(h, 1), E1) else Shr(h, 1), Or(Shl(h, 63), Shr(l, 1)))
  }

  lemma ValueOfHalves(e: Elem)
    ensures Value(e[..64], e[64..]) == e && Value(ZERO_WORD, ZERO_WORD) == ZERO
  {
  }

  /** internal_aes_gcm_gfmul: the product bit by bit, selecting on the bits of `X`. */
  method GfMul(X: Block, Y: Block) returns (product: Block)
    ensures product == BlockProduct(X, Y)
  {
    var x := Bits(X);
    var y0: Word, y1: Word := Bits(Y)[..64], Bits(Y)[64..];
    var z0: Word, z1: Word := ZERO_WORD, ZERO_WORD;
    ValueOfHalves(Bits(Y));
    for n := 0 to 128
      invariant ProductSteps(x[n..], Value(z0, z1), Value(y0, y1)) == Product(x, Bits(Y))
    {
      assert x[n..][0] == x[n] && x[n..][1..] == x[n + 1..];
      ValueXor(z0, z1, y0, y1);
      if x[n] {
        z0, z1 := XorWord(z0, y0), XorWord(z1, y1);
      }
      var y := Halve(y0, y1);
      y0, y1 := y.0, y.1;
    }
    product := Pack(Value(z0, z1));
  }

  // ------------------------------------------------------------- the 4-bit table

  /** What entry n of the table must hold: n times h, n read as a polynomial of degree below 4. */
  function Multiple(n: nat, h: Elem): Elem
    requires n < 16
  {
    Dot(Nibble(n), h)
  }

  lemma MultipleZero(h: Elem)
    ensures Multiple(0, h) == ZERO
  {
    assert Nibble(0) == [false, false, false, false];
    DotBitsLinear(Nibble(0), Nibble(0), Nibble(0), h);
    AddSelf(Dot(Nibble(0), h));
  }

  lemma DotLeadingOne(b: seq<bool>, v: Elem)
    requires |b| > 0 && b[0] && forall i :: 1 <= i < |b| ==> !b[i]
    ensures Dot(b, v) == v
  {
    DotFalse(b[1..], TimesP(v));
    AddZero(v);
  }

  lemma MultipleEight(h: Elem)
    ensures Multiple(8, h) == h
  {
    DotLeadingOne(Nibble(8), h);
  }

  lemma {:induction false} DotFalse(b: seq<bool>, v: Elem)
    requires forall i :: 0 <= i < |b| ==> !b[i]
    ensures Dot(b, v) == ZERO
  {
    if b != [] {
      DotFalse(b[1..], TimesP(v));
      AddZero(ZERO);
    }
  }

  lemma NibbleHalf(i: nat)
    requires i < 8
    ensures !NibbleBit(i, 0) && !NibbleBit(2 * i, 3)
    ensures NibbleBit(i, 1) == NibbleBit(2 * i, 0) && NibbleBit(i, 2) == NibbleBit(2 * i, 1)
    ensures NibbleBit(i, 3) == NibbleBit(2 * i, 2)
  {
  }

  /** Halving an even index multiplies the entry by P. */
  lemma MultipleHalf(i: nat, h: Elem)
    requires 0 < i < 8
    ensures TimesP(Multiple(2 * i, h)) == Multiple(i, h)
  {
    hide Add, TimesP, NibbleBit;
    var b := Nibble(i)[1..];
    NibbleHalf(i);
    assert Nibble(i) == [false] + b && Nibble(2 * i) == b + [false];
    DotAppend(b, [false], h);
    DotAppend([false], b, h);
    DotFalse([false], h);
    TimesPToZero(3);
    AddZero(Dot(b, h));
    AddZero(TimesP(Dot(b, h)));
    assert TimesPTo(Dot(b, h), 1) == TimesP(Dot(b, h));
  }

  lemma {:induction false} TimesPToZero(n: nat)
    ensures TimesPTo(ZERO, n) == ZERO
  {
    TimesPZero();
    if n > 0 {
      TimesPToZero(n - 1);
    }
  }

  lemma MultipleSum(i: nat, j: nat, h: Elem)
    requires i == 2 || i == 4 || i == 8
    requires j < i
    ensures Multiple(i + j, h) == Add(Multiple(i, h), Multiple(j, h))
  {
    NibbleSum(i, j);
    hide Nibble, NibbleBit;
    DotBitsLinear(Nibble(i), Nibble(j), Nibble(i + j), h);
  }

  /** A power of two and a smaller number have no bit in common. */
  lemma NibbleSum(i: nat, j: nat)
    requires (i == 2 || i == 4 || i == 8) && j < i
    ensures forall k :: 0 <= k < 4 ==> Nibble(i + j)[k] == (Nibble(i)[k] != Nibble(j)[k])
  {
    if i == 2 {
      assert j == 0 || j == 1;
    } else if i == 4 {
      assert j == 0 || j == 1 || j == 2 || j == 3;
    } else {
      assert j == 0 || j == 1 || j == 2 || j == 3 || j == 4 || j == 5 || j == 6 || j == 7;
    }
  }

  // ------------------------------------------------------------ shifting by four

  /** The table last4 of the code, each 16-bit constant by its hexadecimal digits. */
  function Last4Digits(rem: nat): (d: (nat, nat, nat, nat))
    requires rem < 16
    ensures d.0 < 16 && d.1 < 16 && d.2 < 16 && d.3 < 16
  {
    match rem
    case 0 => (0x0, 0x0, 0x0, 0x0)
    case 1 => (0x1, 0xc, 0x2, 0x0)
    case 2 => (0x3, 0x8, 0x4, 0x0)
    case 3 => (0x2, 0x4, 0x6, 0x0)
    case 4 => (0x7, 0x0, 0x8, 0x0)
    case 5 => (0x6, 0xc, 0xa, 0x0)
    case 6 => (0x4, 0x8, 0xc, 0x0)
    case 7 => (0x5, 0x4, 0xe, 0x0)
    case 8 => (0xe, 0x1, 0x0, 0x0)
    case 9 => (0xf, 0xd, 0x2, 0x0)
    case 10 => (0xd, 0x9, 0x4, 0x0)
    case 11 => (0xc, 0x5, 0x6, 0x0)
    case 12 => (0x9, 0x1, 0x8, 0x0)
    case 13 => (0x8, 0xd, 0xa, 0x0)
    case 14 => (0xa, 0x9, 0xc, 0x0)
    case _ => (0xb, 0x5, 0xe, 0x0)
  }

  /** last4[rem] << 48. */
  function Last4(rem: nat): Word
    requires rem < 16
  {
    var d := Last4Digits(rem);
    TopDigits(d.0, d.1, d.2, d.3)
  }

  /** The word whose first four hexadecimal digits are given, the rest zero. */
  function TopDigits(a: nat, b: nat, c: nat, d: nat): (w: Word)
    ensures forall i :: 0 <= i < 64 ==> w[i] == TopBit(a, b, c, d, i)
  {
    seq(64, i requires 0 <= i < 64 => TopBit(a, b, c, d, i))
  }

  predicate TopBit(a: nat, b: nat, c: nat, d: nat, i: nat) {
    if i < 4 then NibbleBit(a, i) else if i < 8 then NibbleBit(b, i - 4)
    else if i < 12 then NibbleBit(c, i - 8) else i < 16 && NibbleBit(d, i - 12)
  }

  /** The bits that a low nibble leaves behind after four multiplications by P. */
  predicate Residue(rem: nat, i: nat) {
    (((NibbleBit(rem, 3) && (i == 3 || i == 4 || i == 5 || i == 10)) !=
      (NibbleBit(rem, 2) && (i == 2 || i == 3 || i == 4 || i == 9))) !=
      (NibbleBit(rem, 1) && (i == 1 || i == 2 || i == 3 || i == 8))) !=
      (NibbleBit(rem, 0) && (i == 0 || i == 1 || i == 2 || i == 7))
  }

  lemma Last4Bit(rem: nat, i: nat)
    requires rem < 16
    ensures var d := Last4Digits(rem); TopBit(d.0, d.1, d.2, d.3, i) == Residue(rem, i)
  {
    if i < 4 {
      Last4First(rem, i);
    } else if i < 8 {
      Last4Second(rem, i);
    } else if i < 12 {
      Last4Third(rem, i);
    }
  }

  lemma Last4First(rem: nat, i: nat)
    requires rem < 16 && i < 4
    ensures NibbleBit(Last4Digits(rem).0, i) == Residue(rem, i)
  {
  }

  lemma Last4Second(rem: nat, i: nat)
    requires rem < 16 && 4 <= i < 8
    ensures NibbleBit(Last4Digits(rem).1, i - 4) == Residue(rem, i)
  {
  }

  lemma Last4Third(rem: nat, i: nat)
    requires rem < 16 && 8 <= i < 12
    ensures NibbleBit(Last4Digits(rem).2, i - 8) == Residue(rem, i)
  {
  }

  lemma TimesPAt(v: Elem, i: nat)
    requires i < 128
    ensures TimesP(v)[i] == ((i >= 1 && v[i - 1]) != (v[127] && (i == 0 || i == 1 || i == 2 || i == 7)))
  {
  }

  /** Where the reduction by 0xe1 puts a bit. */
  predicate Reduced(i: int) {
    i == 0 || i == 1 || i == 2 || i == 7
  }

  lemma TimesP2At(v: Elem, i: nat)
    requires i < 128
    ensures TimesP(TimesP(v))[i] ==
            (((i >= 2 && v[i - 2]) != (v[126] && Reduced(i))) != (v[127] && Reduced(i - 1)))
  {
    hide TimesP;
    var a := TimesP(v);
    TimesPAt(a, i);
    TimesPAt(v, 127);
    if i >= 1 {
      TimesPAt(v, i - 1);
    }
  }

  lemma TimesP4At(v: Elem, i: nat)
    requires i < 128
    ensures TimesPTo(v, 4)[i] == ((i >= 4 && v[i - 4]) != Residue(Digit(v[124..]), i))
  {
    var b, r := TimesP(TimesP(v)), Digit(v[124..]);
    assert NibbleBit(r, 0) == v[124] && NibbleBit(r, 1) == v[125];
    assert NibbleBit(r, 2) == v[126] && NibbleBit(r, 3) == v[127];
    FourTimes(v);
    hide TimesP, TimesPTo, Digit, NibbleBit;
    TimesP2At(b, i);
    TimesP2At(v, 127);
    TimesP2At(v, 126);
    if i >= 2 {
      TimesP2At(v, i - 2);
    }
  }

  lemma FourTimes(v: Elem)
    ensures TimesPTo(v, 4) == TimesP(TimesP(TimesP(TimesP(v))))
  {
    hide TimesP;
    var a := TimesP(v);
    var b := TimesP(a);
    var c := TimesP(b);
    assert TimesPTo(a, 3) == TimesPTo(b, 2) == TimesPTo(c, 1) == TimesP(c);
  }

  /** One nibble step of Shoup's method: shift by four and fold in last4 is P^4. */
  lemma ShiftByFour(h: Word, l: Word)
    ensures Value(XorWord(Shr(h, 4), Last4(Digit(l[60..]))), Or(Shl(h, 60), Shr(l, 4))) == TimesPTo(Value(h, l), 4)
  {
    var v, r := Value(h, l), Digit(l[60..]);
    var z := Value(XorWord(Shr(h, 4), Last4(r)), Or(Shl(h, 60), Shr(l, 4)));
    assert v[124..] == l[60..];
    forall i | 0 <= i < 128
      ensures z[i] == TimesPTo(v, 4)[i]
    {
      hide TimesPTo, Residue, Last4, Digit;
      TimesP4At(v, i);
      ShiftedBit(h, l, Last4(r), i);
      Last4Is(r, i);
    }
  }

  /** The bits of a value shifted by four, with t folded into its upper word. */
  lemma ShiftedBit(h: Word, l: Word, t: Word, i: nat)
    requires i < 128
    ensures Value(XorWord(Shr(h, 4), t), Or(Shl(h, 60), Shr(l, 4)))[i] ==
            ((i >= 4 && Value(h, l)[i - 4]) != (i < 64 && t[i]))
  {
  }

  lemma Last4Is(rem: nat, i: nat)
    requires rem < 16 && i < 128
    ensures (i < 64 && Last4(rem)[i]) == Residue(rem, i)
  {
    hide NibbleBit, Last4Digits;
    if i < 64 {
      Last4Bit(rem, i);
    }
  }

  /** (h:l) shifted right by four bits, last4 folded into the top. */
  function ShiftFour(h: Word, l: Word): (r: (Word, Word))
    ensures Value(r.0, r.1) == TimesPTo(Value(h, l), 4)
  {
    ShiftByFour(h, l);
    (XorWord(Shr(h, 4), Last4(Digit(l[60..]))), Or(Shl(h, 60), Shr(l, 4)))
  }

  lemma DigitsOf(x: Block, i: nat)
    requires i < 16
    ensures Nibble(x[i] % 16) == Bits(x)[8 * i + 4..8 * i + 8]
    ensures Nibble(x[i] / 16) == Bits(x)[8 * i..8 * i + 4]
  {
    hide Bits, NibbleBit;
    var b := Bits(x);
    forall k | 0 <= k < 4
      ensures Nibble(x[i] / 16)[k] == b[8 * i + k] && Nibble(x[i] % 16)[k] == b[8 * i + 4 + k]
    {
      assert (8 * i + k) / 8 == i && (8 * i + 4 + k) / 8 == i;
    }
  }

  /** Horner's rule, a nibble at a time. */
  lemma NibbleStep(x: seq<bool>, k: nat, n: nat, h: Elem)
    requires k + 4 <= |x| && n < 16 && Nibble(n) == x[k..k + 4]
    ensures Dot(x[k..], h) == Add(TimesPTo(Dot(x[k + 4..], h), 4), Multiple(n, h))
  {
    hide Add;
    assert x[k..] == x[k..k + 4] + x[k + 4..];
    DotAppend(x[k..k + 4], x[k + 4..], h);
    AddComm(Multiple(n, h), TimesPTo(Dot(x[k + 4..], h), 4));
  }

  // ----------------------------------------------------------- the two methods

  /** All entries of the table for h. */
  function Multiples(h: Elem): (t: seq<Elem>)
    ensures |t| == 16 && forall n :: 0 <= n < 16 ==> t[n] == Multiple(n, h)
  {
    seq(16, n requires 0 <= n < 16 => Multiple(n, h))
  }

  predicate IsRow(i: int) {
    i == 2 || i == 4 || i == 8
  }

  /** The recurrences by which the code fills a table. */
  ghost predicate Recurrences(t: seq<Elem>, h: Elem) {
    && |t| == 16 && t[0] == ZERO && t[8] == h
    && (forall i :: 0 < i < 8 ==> t[i] == TimesP(t[2 * i]))
    && (forall i, j :: IsRow(i) && 0 <= j < i ==> t[i + j] == Add(t[i], t[j]))
  }

  lemma MultiplesRecur(h: Elem, t: seq<Elem>)
    requires |t| == 16 && forall n :: 0 <= n < 16 ==> t[n] == Multiple(n, h)
    ensures Recurrences(t, h)
  {
    hide TimesP, Multiple, Add;
    MultipleZero(h);
    MultipleEight(h);
    forall i | 0 < i < 8
      ensures t[i] == TimesP(t[2 * i])
    {
      MultipleHalf(i, h);
    }
    forall i, j | IsRow(i) && 0 <= j < i
      ensures t[i + j] == Add(t[i], t[j])
    {
      MultipleSum(i, j, h);
    }
  }

  /** The recurrences leave no choice: halving from the eighth entry, and sums of rows. */
  lemma {:induction false} RecurrencesDetermine(h: Elem, t: seq<Elem>, u: seq<Elem>, n: nat)
    requires Recurrences(t, h) && Recurrences(u, h) && n < 16
    ensures t[n] == u[n]
    decreases if n == 0 || n == 1 || n == 2 || n == 4 || n == 8 then 8 - n else 16 + n
  {
    hide TimesP, Add;
    if n == 1 || n == 2 || n == 4 {
      RecurrencesDetermine(h, t, u, 2 * n);
      assert t[n] == TimesP(t[2 * n]) && u[n] == TimesP(u[2 * n]);
    } else if n != 0 && n != 8 {
      var i := if n < 4 then 2 else if n < 8 then 4 else 8;
      var j := n - i;
      RecurrencesDetermine(h, t, u, i);
      RecurrencesDetermine(h, t, u, j);
      assert t[i + j] == Add(t[i], t[j]) && u[i + j] == Add(u[i], u[j]);
    }
  }

  /** A table built by the recurrences is the table of the multiples, and that table is built so. */
  lemma MultiplesExactly(h: Elem, t: seq<Elem>)
    requires |t| == 16
    ensures Recurrences(t, h) <==> forall n :: 0 <= n < 16 ==> t[n] == Multiple(n, h)
  {
    hide Recurrences, Multiple;
    var u := seq(16, n requires 0 <= n < 16 => Multiple(n, h));
    MultiplesRecur(h, u);
    if Recurrences(t, h) {
      forall n | 0 <= n < 16
        ensures t[n] == Multiple(n, h)
      {
        RecurrencesDetermine(h, t, u, n);
      }
    } else if forall n :: 0 <= n < 16 ==> t[n] == Multiple(n, h) {
      MultiplesRecur(h, t);
    }
  }

  /** struct internal_ghash_key, table based: HH[i] and HL[i] hold i times the hash key. */
  class GhashKey {
    const HL: array<Word>
    const HH: array<Word>

    constructor ()
      ensures HL.Length == HH.Length == 16 && HL != HH && fresh(HL) && fresh(HH)
    {
      HL := new Word[16](_ => ZERO_WORD);
      HH := new Word[16](_ => ZERO_WORD);
    }

    ghost predicate Valid(h: Block)
      reads HL, HH
    {
      && HL.Length == HH.Length == 16 && HL != HH
      && forall n :: 0 <= n < 16 ==> Value(HH[n], HL[n]) == Multiples(Bits(h))[n]
    }

    /** internal_aes_gcm_ghash_gen_tbl, `h` the encryption of the zero block. */
    method GenTable(h: Block)
      requires HL.Length == HH.Length == 16 && HL != HH
      modifies HL, HH
      ensures Valid(h)
    {
      hide TimesP, Value, Multiple, Add;
      ghost var t := Multiples(Bits(h));
      MultiplesRecur(Bits(h), t);
      var vh: Word, vl: Word := Bits(h)[..64], Bits(h)[64..];
      ValueOfHalves(Bits(h));
      HL[8], HH[8] := vl, vh;
      HH[0], HL[0] := ZERO_WORD, ZERO_WORD;
      FillPowers(vh, vl, t, Bits(h));
      FillRows(t, Bits(h));
    }

    /** internal_aes_gcm_ghash_mult_tbl: x times h through the table, nibble by nibble from the last. */
    method MultTable(x: Block, ghost h: Block) returns (output: Block)
      requires Valid(h)
      ensures output == BlockProduct(x, h)
    {
      hide TimesP, Value, XorWord, Add, Dot, ShiftFour, Bits, Pack, Nibble, TimesPTo, Product;
      ghost var H, X := Bits(h), Bits(x);
      var i := 15;
      DigitsOf(x, i);
      var lo := x[15] % 16;
      var zh, zl := HH[lo], HL[lo];
      assert Value(HH[lo], HL[lo]) == Multiples(H)[lo] && X[124..128] == X[124..];
      while i >= 0
        invariant -1 <= i <= 15
        invariant Value(zh, zl) == Dot(X[if i == 15 then 124 else 8 * i + 8..], H)
      {
        DigitsOf(x, i);
        lo := x[i] % 16;
        var hi := x[i] / 16;
        assert Value(HH[lo], HL[lo]) == Multiples(H)[lo] && Value(HH[hi], HL[hi]) == Multiples(H)[hi];
        if i != 15 {
          NibbleStep(X, 8 * i + 4, lo, H);
          var z := ShiftFour(zh, zl);
          ValueXor(z.0, z.1, HH[lo], HL[lo]);
          zh, zl := XorWord(z.0, HH[lo]), XorWord(z.1, HL[lo]);
        }
        NibbleStep(X, 8 * i, hi, H);
        var z := ShiftFour(zh, zl);
        ValueXor(z.0, z.1, HH[hi], HL[hi]);
        zh, zl := XorWord(z.0, HH[hi]), XorWord(z.1, HL[hi]);
        i := i - 1;
      }
      assert X[0..] == X;
      ProductIsDot(X, H);
      output := Pack(Value(zh, zl));
    }

    /** The first loop: H/2, H/4 and H/8 at 4, 2 and 1. */
    method FillPowers(vh0: Word, vl0: Word, ghost t: seq<Elem>, ghost h: Elem)
      requires HL.Length == HH.Length == 16 && HL != HH && Recurrences(t, h)
      requires Value(vh0, vl0) == h && Value(HH[0], HL[0]) == t[0] && Value(HH[8], HL[8]) == t[8]
      modifies HL, HH
      ensures Value(HH[0], HL[0]) == t[0] && Value(HH[1], HL[1]) == t[1] && Value(HH[2], HL[2]) == t[2]
      ensures Value(HH[4], HL[4]) == t[4] && Value(HH[8], HL[8]) == t[8]
    {
      hide TimesP, Halve, Value;
      var vh, vl := vh0, vl0;
      var i := 4;
      while i > 0
        invariant i == 4 || i == 2 || i == 1 || i == 0
        invariant Value(vh, vl) == t[if i == 0 then 1 else 2 * i]
        invariant Value(HH[0], HL[0]) == t[0] && Value(HH[8], HL[8]) == t[8]
        invariant (i < 4 ==> Value(HH[4], HL[4]) == t[4]) && (i < 2 ==> Value(HH[2], HL[2]) == t[2])
        invariant i < 1 ==> Value(HH[1], HL[1]) == t[1]
      {
        var v := Halve(vh, vl);
        vh, vl := v.0, v.1;
        HL[i] := vl;
        HH[i] := vh;
        i := i / 2;
      }
    }

    /** The nested loops: every other entry is the sum of two earlier ones. */
    method FillRows(ghost t: seq<Elem>, ghost h: Elem)
      requires HL.Length == HH.Length == 16 && HL != HH && Recurrences(t, h)
      requires Value(HH[0], HL[0]) == t[0] && Value(HH[1], HL[1]) == t[1] && Value(HH[2], HL[2]) == t[2]
      requires Value(HH[4], HL[4]) == t[4] && Value(HH[8], HL[8]) == t[8]
      modifies HL, HH
      ensures forall n :: 0 <= n < 16 ==> Value(HH[n], HL[n]) == t[n]
    {
      var i := 2;
      while i <= 8
        invariant IsRow(i) || i == 16
        invariant forall k :: 0 <= k < i ==> Value(HH[k], HL[k]) == t[k]
        invariant Value(HH[2], HL[2]) == t[2] && Value(HH[4], HL[4]) == t[4] && Value(HH[8], HL[8]) == t[8]
        decreases 16 - i
      {
        FillRow(i, t, h);
        i := i * 2;
      }
    }

    method FillRow(i: nat, ghost t: seq<Elem>, ghost h: Elem)
      requires HL.Length == HH.Length == 16 && HL != HH && Recurrences(t, h)
      requires IsRow(i) && forall k :: 0 <= k <= i ==> Value(HH[k], HL[k]) == t[k]
      modifies HL, HH
      ensures forall k :: 0 <= k < 2 * i ==> Value(HH[k], HL[k]) == t[k]
      ensures forall k :: 2 * i <= k < 16 ==> HH[k] == old(HH[k]) && HL[k] == old(HL[k])
    {
      hide TimesP, Value, XorWord, Add;
      var vh, vl := HH[i], HL[i];
      assert Value(HH[i], HL[i]) == t[i];
      for j := 1 to i
        invariant forall k :: 0 <= k < i + j ==> Value(HH[k], HL[k]) == t[k]
        invariant forall k :: i + j <= k < 16 ==> HH[k] == old(HH[k]) && HL[k] == old(HL[k])
      {
        ValueXor(vh, vl, HH[j], HL[j]);
        assert Value(HH[j], HL[j]) == t[j];
        HH[i + j], HL[i + j] := XorWord(vh, HH[j]), XorWord(vl, HL[j]);
        assert t[i + j] == Add(t[i], t[j]);
        assert Value(HH[i + j], HL[i + j]) == t[i + j];
      }
    }
  }
}
