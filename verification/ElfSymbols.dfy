/**
 * Symbol lookup in ldelf/ta_elf_rel.c: the DT_GNU_HASH and DT_HASH tables as indexes over the
 * dynamic symbol table, and the order in which modules are searched.
 */
module ElfSymbols {
  import opened Bytes

  // ------------------------------------------------------------- the symbols

  datatype Sym = Sym(name: nat, bind: nat, typ: nat, shndx: nat, value: nat)

  /** What the loader keeps of a loaded ELF; a table is absent when its section is. */
  datatype Elf = Elf(dynstr: seq<byte>, syms: seq<Sym>, loadAddr: nat, maxAddr: nat,
                     gnu: Option<GnuTable>, sysv: Option<SysvTable>)

  const STB_GLOBAL := 1
  const STB_WEAK := 2
  const SHN_UNDEF := 0
  const SHN_XINDEX := 0xffff
  const STT_NOTYPE := 0
  const STT_OBJECT := 1
  const STT_FUNC := 2
  const STT_TLS := 6

  /** The zero-terminated string at an offset; the end of the section also terminates it. */
  function CString(s: seq<byte>, off: nat): seq<byte>
    requires off <= |s|
    decreases |s| - off
  {
    if off == |s| || s[off] == 0 then [] else [s[off]] + CString(s, off + 1)
  }

  datatype Verdict = No | Yes(val: nat) | Bad

  /** sym_compare; Bad is a call of err(). */
  function SymCompare(e: Elf, s: Sym, name: seq<byte>, weakOk: bool): Verdict {
    if s.name == 0 then No
    else if s.name > |e.dynstr| then Bad
    else if CString(e.dynstr, s.name) != name then No
    else if !(s.bind == STB_GLOBAL || (weakOk && s.bind == STB_WEAK)) then No
    else if s.bind == STB_WEAK && s.shndx == SHN_UNDEF then Yes(0)
    else if s.shndx == SHN_UNDEF || s.shndx == SHN_XINDEX then No
    else if s.typ == STT_NOTYPE || s.typ == STT_OBJECT || s.typ == STT_FUNC then
      if s.value > e.maxAddr - e.loadAddr then Bad else Yes(s.value + e.loadAddr)
    else if s.typ == STT_TLS then Yes(s.value)
    else Bad
  }

  /** The name stands in the string section at the symbol's offset and ends there. */
  predicate IsNamed(e: Elf, s: Sym, name: seq<byte>) {
    && s.name != 0 && s.name + |name| <= |e.dynstr|
    && e.dynstr[s.name..s.name + |name|] == name && 0 !in name
    && (s.name + |name| == |e.dynstr| || e.dynstr[s.name + |name|] == 0)
  }

  /** A symbol of the name whose binding is looked for. */
  predicate Considered(e: Elf, s: Sym, name: seq<byte>, weakOk: bool) {
    IsNamed(e, s, name) && (s.bind == STB_GLOBAL || (weakOk && s.bind == STB_WEAK))
  }

  predicate WeakUndefined(s: Sym) {
    s.bind == STB_WEAK && s.shndx == SHN_UNDEF
  }

  predicate Addressed(s: Sym) {
    s.typ == STT_NOTYPE || s.typ == STT_OBJECT || s.typ == STT_FUNC
  }

  /** What a symbol is worth: zero if undefined, relative to the load address, or an offset in its TLS block. */
  predicate Worth(e: Elf, s: Sym, v: nat) {
    if WeakUndefined(s) then v == 0
    else s.shndx != SHN_UNDEF && s.shndx != SHN_XINDEX &&
         if Addressed(s) then v == e.loadAddr + s.value <= e.maxAddr else s.typ == STT_TLS && v == s.value
  }

  /** What the loader does not go on with. */
  predicate Stops(e: Elf, s: Sym, name: seq<byte>, weakOk: bool) {
    || s.name > |e.dynstr|
    || (&& Considered(e, s, name, weakOk) && !WeakUndefined(s) && s.shndx != SHN_UNDEF && s.shndx != SHN_XINDEX
        && if Addressed(s) then e.loadAddr + s.value > e.maxAddr else s.typ != STT_TLS)
  }

  lemma {:induction false} CStringIs(s: seq<byte>, off: nat, name: seq<byte>)
    requires off <= |s|
    ensures CString(s, off) == name <==>
            && off + |name| <= |s| && s[off..off + |name|] == name && 0 !in name
            && (off + |name| == |s| || s[off + |name|] == 0)
    decreases |s| - off
  {
    if off < |s| && s[off] != 0 {
      if name == [] {
        assert CString(s, off) != name;
      } else {
        CStringIs(s, off + 1, name[1..]);
        CStringMore(s, off, name);
      }
    } else if name != [] && off < |s| && off + |name| <= |s| {
      assert s[off..off + |name|][0] == s[off];
    }
  }

  lemma CStringMore(s: seq<byte>, off: nat, name: seq<byte>)
    requires off < |s| && s[off] != 0 && name != []
    ensures off + |name| <= |s| ==>
              (s[off..off + |name|] == name <==> s[off] == name[0] && s[off + 1..off + |name|] == name[1..])
    ensures s[off] == name[0] ==> (0 in name <==> 0 in name[1..])
    ensures [s[off]] + CString(s, off + 1) == name <==> s[off] == name[0] && CString(s, off + 1) == name[1..]
  {
    hide CString;
    assert name == [name[0]] + name[1..];
    if off + |name| <= |s| {
      assert s[off..off + |name|] == [s[off]] + s[off + 1..off + |name|];
    }
  }

  /** The verdict on a symbol, from its fields and the bytes of the string section. */
  lemma VerdictExactly(e: Elf, s: Sym, name: seq<byte>, weakOk: bool)
    ensures var r := SymCompare(e, s, name, weakOk);
      && (r == Bad <==> Stops(e, s, name, weakOk))
      && forall v: nat :: r == Yes(v) <==> Considered(e, s, name, weakOk) && Worth(e, s, v)
  {
    hide CString;
    if s.name <= |e.dynstr| {
      CStringIs(e.dynstr, s.name, name);
      assert IsNamed(e, s, name) <==> s.name != 0 && CString(e.dynstr, s.name) == name;
    }
  }

  datatype Outcome = NotFound | Found(index: nat, val: nat) | Abort

  /** The reference: the first symbol from n on that is not refused. */
  function Scan(e: Elf, name: seq<byte>, weakOk: bool, n: nat): Outcome
    decreases |e.syms| - n
  {
    if n >= |e.syms| then NotFound else
    match SymCompare(e, e.syms[n], name, weakOk)
    case No => Scan(e, name, weakOk, n + 1)
    case Yes(v) => Found(n, v)
    case Bad => Abort
  }

  /** The names of all symbols lie in the string section. */
  predicate NamesInRange(e: Elf) {
    forall i :: 0 <= i < |e.syms| ==> e.syms[i].name <= |e.dynstr|
  }

  function NameOf(e: Elf, i: nat): seq<byte>
    requires NamesInRange(e) && i < |e.syms|
  {
    CString(e.dynstr, e.syms[i].name)
  }

  lemma OtherNameRefused(e: Elf, i: nat, name: seq<byte>, weakOk: bool)
    requires NamesInRange(e) && i < |e.syms| && NameOf(e, i) != name
    ensures SymCompare(e, e.syms[i], name, weakOk) == No
  {
  }

  predicate Refused(e: Elf, name: seq<byte>, weakOk: bool, i: nat)
    requires i < |e.syms|
  {
    SymCompare(e, e.syms[i], name, weakOk) == No
  }

  lemma {:induction false} ScanSkips(e: Elf, name: seq<byte>, weakOk: bool, a: nat, b: nat)
    requires a <= b <= |e.syms|
    requires forall i :: a <= i < b ==> Refused(e, name, weakOk, i)
    ensures Scan(e, name, weakOk, a) == Scan(e, name, weakOk, b)
    decreases b - a
  {
    hide SymCompare;
    if a < b {
      assert Refused(e, name, weakOk, a);
      ScanSkips(e, name, weakOk, a + 1, b);
    }
  }

  /** What a search of the symbols from lo on may answer, whatever its order. */
  ghost predicate Answers(e: Elf, name: seq<byte>, weakOk: bool, lo: nat, r: Outcome) {
    match r
    case Found(n, v) => lo <= n < |e.syms| && SymCompare(e, e.syms[n], name, weakOk) == Yes(v) &&
                        Considered(e, e.syms[n], name, weakOk) && Worth(e, e.syms[n], v)
    case Abort => exists n :: lo <= n < |e.syms| && SymCompare(e, e.syms[n], name, weakOk) == Bad &&
                              Stops(e, e.syms[n], name, weakOk)
    case NotFound => forall n :: lo <= n < |e.syms| ==> Refused(e, name, weakOk, n)
  }

  lemma {:induction false} ScanAnswers(e: Elf, name: seq<byte>, weakOk: bool, n: nat)
    ensures Answers(e, name, weakOk, n, Scan(e, name, weakOk, n))
    decreases |e.syms| - n
  {
    hide SymCompare, Considered, Worth, Stops;
    if n < |e.syms| {
      VerdictExactly(e, e.syms[n], name, weakOk);
      ScanAnswers(e, name, weakOk, n + 1);
      if SymCompare(e, e.syms[n], name, weakOk) == No {
        assert Refused(e, name, weakOk, n);
      }
    }
  }

  // ---------------------------------------------------------------- the hashes

  /** 5381 times a power of 33 plus the bytes in base 33, unbounded. */
  function Base33(name: seq<byte>): nat {
    if name == [] then 5381 else Base33(name[..|name| - 1]) * 33 + name[|name| - 1]
  }

  /** The bytes as the digits of a number in base 33, the first the most significant. */
  function InBase33(name: seq<byte>): nat {
    if name == [] then 0 else name[0] * Power(33, |name| - 1) + InBase33(name[1..])
  }

  lemma {:induction false} Base33From(name: seq<byte>, i: nat)
    requires i <= |name|
    ensures Base33(name) == Base33(name[..i]) * Power(33, |name| - i) + InBase33(name[i..])
    decreases |name| - i
  {
    if i == |name| {
      assert name[..i] == name && name[i..] == [];
    } else {
      var b, c, p := Base33(name[..i]), name[i], Power(33, |name| - i - 1);
      Base33From(name, i + 1);
      assert name[..i + 1][..i] == name[..i] && name[i..][1..] == name[i + 1..];
      PowerNext(33, |name| - i);
      assert InBase33(name[i..]) == c * p + InBase33(name[i + 1..]);
      hide Power, Base33, InBase33;
      HornerStep(b, c, p);
    }
  }

  lemma HornerStep(b: nat, c: nat, p: nat)
    ensures (b * 33 + c) * p == b * (33 * p) + c * p
  {
  }

  lemma GnuHashIs(name: seq<byte>)
    ensures GnuHash(name) == (5381 * Power(33, |name|) + InBase33(name)) % U32
  {
    Base33From(name, 0);
    assert name[..0] == [] && name[0..] == name;
  }

  function GnuHash(name: seq<byte>): (h: nat)
    ensures h < U32
  {
    Base33(name) % U32
  }

  /** Shift left by five, add the hash and the byte, in 32 bits. */
  function Shifted33(h: nat, c: byte): nat {
    (h * 32 % U32 + h + c) % U32
  }

  lemma Times33(x: nat, c: byte)
    ensures Shifted33(x % U32, c) == (x * 33 + c) % U32
  {
    var q, r := x / U32, x % U32;
    assert x == U32 * q + r;
    var k, s := r * 32 / U32, r * 32 % U32;
    assert r * 32 == U32 * k + s;
    SameRem(x * 33 + c, s + r + c, U32, 33 * q + k);
  }

  /** gnu_hash: shift by five and add, wrapping at every step. */
  method ComputeGnuHash(name: seq<byte>) returns (h: nat)
    ensures h == GnuHash(name) == (5381 * Power(33, |name|) + InBase33(name)) % U32
  {
    hide Shifted33;
    GnuHashIs(name);
    h := 5381;
    for i := 0 to |name|
      invariant h == GnuHash(name[..i])
    {
      assert name[..i + 1][..i] == name[..i];
      Times33(Base33(name[..i]), name[i]);
      h := Shifted33(h, name[i]);
    }
    assert name[..|name|] == name;
  }

  const U28: nat := 0x1000_0000

  /** Four bits in at the bottom; the four pushed beyond bit 27 come back at bits 4 to 7. */
  function ElfFold(h: nat, c: byte): (r: nat)
    ensures r < U28
  {
    var x := (h * 16 + c) % U32;
    XorBits(x, x / U28 * 16, 32) % U28
  }

  function ElfHash(name: seq<byte>): (h: nat)
    ensures h < U28
  {
    if name == [] then 0 else ElfFold(ElfHash(name[..|name| - 1]), name[|name| - 1])
  }

  lemma {:induction false} BitOfQuotient(a: nat, j: nat, i: nat)
    ensures BitOf(a / Power(2, j), i) == BitOf(a, i + j)
    decreases j
  {
    if j > 0 {
      BitOfQuotient(a / 2, j - 1, i);
      PowerNext(2, j);
      hide Power;
      DivTwice(a, 2, Power(2, j - 1));
    }
  }

  lemma {:induction false} BitOfProduct(a: nat, j: nat, i: nat)
    ensures BitOf(Doubled(a, j), i) == if i < j then 0 else BitOf(a, i - j)
    decreases j
  {
    if j > 0 && i > 0 {
      BitOfProduct(a, j - 1, i - 1);
    }
  }

  lemma {:induction false} BitOfRemainder(a: nat, j: nat, i: nat)
    ensures BitOf(a % Power(2, j), i) == if i < j then BitOf(a, i) else 0
    decreases j
  {
    if j == 0 {
      BitOfZero(i);
    } else {
      PowerNext(2, j);
      hide Power;
      HalfOfRemainder(a, Power(2, j - 1));
      if i > 0 {
        BitOfRemainder(a / 2, j - 1, i - 1);
      }
    }
  }

  lemma {:induction false} BitOfZero(i: nat)
    ensures BitOf(0, i) == 0
  {
    if i > 0 {
      BitOfZero(i - 1);
    }
  }

  lemma HalfOfRemainder(a: nat, p: nat)
    requires p > 0
    ensures a % (2 * p) / 2 == a / 2 % p && a % (2 * p) % 2 == a % 2
  {
    DivParts(a, 2);
    DivParts(a / 2, p);
    var q, r := a / 2 / p, a / 2 % p;
    MulAssoc(2, p, q);
    DivModUnique(a, 2 * p, q, 2 * r + a % 2);
  }

  /** r has bit k of x, added at bits 4 to 7 to the four bits of x above bit 27, which r leaves out. */
  ghost predicate FoldedBit(x: nat, r: nat, k: nat) {
    BitOf(r, k) ==
      if k >= 28 then 0 else if 4 <= k < 8 then (BitOf(x, k) + BitOf(x, k + 24)) % 2 else BitOf(x, k)
  }

  /** The hash r after the byte c, of the hash h before. */
  ghost predicate IsFolded(h: nat, c: byte, r: nat) {
    var x := (16 * h + c) % U32;
    r < U28 && forall k: nat :: FoldedBit(x, r, k)
  }

  lemma FoldedBitIs(x: nat, k: nat)
    requires x < U32
    ensures FoldedBit(x, XorBits(x, x / U28 * 16, 32) % U28, k)
  {
    hide BitOf, XorBits, Power, Doubled;
    var y := XorBits(x, x / U28 * 16, 32);
    Power2At28();
    Power2At32();
    BitOfRemainder(y, 28, k);
    if k < 28 {
      XorBit(x, x / U28 * 16, 32, k);
      DoubledIs(x / U28, 4);
      BitOfProduct(x / U28, 4, k);
      if k >= 4 {
        BitOfQuotient(x, 28, k - 4);
        BitOfRemainder(x, 32, k + 24);
        assert x % U32 == x;
      }
    }
  }

  lemma Power2At28()
    ensures Power(2, 28) == U28 && Power(2, 4) == 16
  {
    hide Power;
    Power2At8();
    PowerSum(2, 8, 8);
    PowerSum(2, 16, 8);
    Power2At4();
    PowerSum(2, 24, 4);
  }

  lemma Power2At4()
    ensures Power(2, 4) == 16
  {
  }

  lemma FoldIs(h: nat, c: byte)
    ensures IsFolded(h, c, ElfFold(h, c))
  {
    hide XorBits, FoldedBit;
    var x := (h * 16 + c) % U32;
    forall k: nat
      ensures FoldedBit(x, ElfFold(h, c), k)
    {
      FoldedBitIs(x, k);
    }
  }

  ghost predicate FoldsTo(name: seq<byte>, hs: seq<nat>, i: nat)
    requires i < |name| && i + 1 < |hs|
  {
    IsFolded(hs[i], name[i], hs[i + 1])
  }

  /** The hash is the last of the values from zero on, each with one byte of the name folded in. */
  ghost predicate AreFolded(name: seq<byte>, hs: seq<nat>, h: nat) {
    |hs| == |name| + 1 && hs[0] == 0 && hs[|name|] == h && forall i :: 0 <= i < |name| ==> FoldsTo(name, hs, i)
  }

  /** elf_hash. */
  method ComputeElfHash(name: seq<byte>) returns (h: nat)
    ensures h == ElfHash(name) && exists hs :: AreFolded(name, hs, h)
  {
    hide ElfFold, IsFolded;
    h := 0;
    ghost var hs := [0];
    for i := 0 to |name|
      invariant h == ElfHash(name[..i])
      invariant |hs| == i + 1 && hs[0] == 0 && hs[i] == h
      invariant forall k :: 0 <= k < i ==> FoldsTo(name, hs, k)
    {
      assert name[..i + 1][..i] == name[..i];
      FoldIs(h, name[i]);
      h := ElfFold(h, name[i]);
      ghost var before := hs;
      hs := hs + [h];
      forall k | 0 <= k < i
        ensures FoldsTo(name, hs, k)
      {
        assert FoldsTo(name, before, k);
      }
    }
    assert name[..|name|] == name;
    assert AreFolded(name, hs, h);
  }

  // ----------------------------------------------------------- DT_GNU_HASH

  /** `wide` is the width of a bloom word, 32 or 64; chain[i] belongs to symbol symoffset + i. */
  datatype GnuTable = GnuTable(wide: nat, symoffset: nat, shift: nat, bloom: seq<nat>, bucket: seq<nat>,
                               chain: seq<nat>)

  predicate BitSet(w: nat, k: nat)
    decreases k
  {
    if k == 0 then w % 2 == 1 else BitSet(w / 2, k - 1)
  }

  /** Both bits of a hash are set in its bloom word. */
  predicate BloomPasses(t: GnuTable, hash: nat)
    requires |t.bloom| > 0 && t.wide > 0
  {
    var word := t.bloom[Slot(hash / t.wide, |t.bloom|)];
    BitSet(word, hash % t.wide) && BitSet(word, hash / Power(2, t.shift) % t.wide)
  }

  function Slot(h: nat, n: nat): (k: nat)
    requires n > 0
    ensures k < n
  {
    h % n
  }

  function Bucket(t: GnuTable, e: Elf, i: nat): (b: nat)
    requires NamesInRange(e) && i < |e.syms| && |t.bucket| > 0
    ensures b < |t.bucket|
  {
    Slot(GnuHash(NameOf(e, i)), |t.bucket|)
  }

  /** The hash with its lowest bit, which the table uses as end-of-chain flag, set. */
  function Odd(h: nat): nat {
    h - h % 2 + 1
  }

  /** A table as a linker writes it. */
  ghost predicate WellFormedGnu(t: GnuTable, e: Elf) {
    && NamesInRange(e)
    && (t.wide == 32 || t.wide == 64) && t.shift < 32 && |t.bloom| > 0 && |t.bucket| > 0
    && 0 < t.symoffset <= |e.syms| && |t.chain| == |e.syms| - t.symoffset
    && (forall i :: t.symoffset <= i < |e.syms| ==> Entered(t, e, i))
    && (forall i, j :: t.symoffset <= i <= j < |e.syms| ==> Bucket(t, e, i) <= Bucket(t, e, j))
    && (forall b :: 0 <= b < |t.bucket| ==> StartsBucket(t, e, b))
  }

  /** Symbol i is in the bloom filter, and its chain word holds its hash and ends the chain with its bucket. */
  predicate Entered(t: GnuTable, e: Elf, i: nat)
    requires NamesInRange(e) && |t.bloom| > 0 && t.wide > 0 && |t.bucket| > 0
    requires t.symoffset <= i < |e.syms| && |t.chain| == |e.syms| - t.symoffset
  {
    var h, c := GnuHash(NameOf(e, i)), t.chain[i - t.symoffset];
    && BloomPasses(t, h)
    && Odd(c) == Odd(h)
    && (c % 2 == 1 <==> i + 1 == |e.syms| || Bucket(t, e, i + 1) != Bucket(t, e, i))
  }

  /** The bucket's entry is its first symbol, or lies below symoffset when it has none. */
  ghost predicate StartsBucket(t: GnuTable, e: Elf, b: nat)
    requires NamesInRange(e) && b < |t.bucket|
  {
    var n := t.bucket[b];
    if n < t.symoffset then forall i :: t.symoffset <= i < |e.syms| ==> Bucket(t, e, i) != b
    else n < |e.syms| && Bucket(t, e, n) == b && forall i :: t.symoffset <= i < n ==> Bucket(t, e, i) != b
  }

  /** A symbol of that name sits in the name's bucket, passes the bloom filter and carries the hash. */
  lemma Indexed(t: GnuTable, e: Elf, i: nat, name: seq<byte>)
    requires WellFormedGnu(t, e) && t.symoffset <= i < |e.syms| && NameOf(e, i) == name
    ensures Bucket(t, e, i) == Slot(GnuHash(name), |t.bucket|)
    ensures BloomPasses(t, GnuHash(name))
    ensures Odd(t.chain[i - t.symoffset]) == Odd(GnuHash(name))
  {
    hide NameOf, GnuHash, BloomPasses, Odd, Slot;
    assert Entered(t, e, i);
  }

  /** Symbols whose bucket or bloom bits do not fit the name are refused. */
  lemma AllRefused(t: GnuTable, e: Elf, name: seq<byte>, weakOk: bool, lo: nat, hi: nat)
    requires WellFormedGnu(t, e) && t.symoffset <= lo <= hi <= |e.syms|
    requires !BloomPasses(t, GnuHash(name)) ||
             forall i :: lo <= i < hi ==> Bucket(t, e, i) != Slot(GnuHash(name), |t.bucket|)
    ensures Scan(e, name, weakOk, lo) == Scan(e, name, weakOk, hi)
  {
    forall i | lo <= i < hi
      ensures Refused(e, name, weakOk, i)
    {
      hide *;
      if NameOf(e, i) == name {
        Indexed(t, e, i, name);
      } else {
        OtherNameRefused(e, i, name, weakOk);
      }
    }
    hide *;
    ScanSkips(e, name, weakOk, lo, hi);
  }

  lemma InBucketNext(t: GnuTable, e: Elf, n: nat)
    requires WellFormedGnu(t, e) && t.symoffset <= n < |e.syms|
    ensures t.chain[n - t.symoffset] % 2 == 0 ==> n + 1 < |e.syms| && Bucket(t, e, n + 1) == Bucket(t, e, n)
    ensures t.chain[n - t.symoffset] % 2 == 1 ==>
      forall i :: n < i < |e.syms| ==> Bucket(t, e, i) != Bucket(t, e, n)
  {
    hide BloomPasses, Odd, Bucket;
    assert Entered(t, e, n);
    forall i | n < i < |e.syms| && t.chain[n - t.symoffset] % 2 == 1
      ensures Bucket(t, e, i) != Bucket(t, e, n)
    {
      assert Bucket(t, e, n) <= Bucket(t, e, n + 1) <= Bucket(t, e, i);
    }
  }

  /** The DT_GNU_HASH branch of resolve_sym_helper. */
  method LookupGnu(t: GnuTable, e: Elf, name: seq<byte>, weakOk: bool) returns (r: Outcome)
    requires WellFormedGnu(t, e)
    ensures r == Scan(e, name, weakOk, t.symoffset)
  {
    hide SymCompare, GnuHash, NameOf, BloomPasses, Odd, Slot, Bucket, Entered;
    var hash := ComputeGnuHash(name);
    if !BloomPasses(t, hash) {
      AllRefused(t, e, name, weakOk, t.symoffset, |e.syms|);
      return NotFound;
    }
    var b := Slot(hash, |t.bucket|);
    var n := t.bucket[b];
    BucketStart(t, e, b);
    if n < t.symoffset {
      AllRefused(t, e, name, weakOk, t.symoffset, |e.syms|);
      return NotFound;
    }
    AllRefused(t, e, name, weakOk, t.symoffset, n);
    r := Follow(t, e, name, weakOk, hash, n);
  }

  lemma BucketStart(t: GnuTable, e: Elf, b: nat)
    requires WellFormedGnu(t, e) && b < |t.bucket|
    ensures StartsBucket(t, e, b)
  {
    hide StartsBucket, BloomPasses, Odd, Bucket;
  }

  /** The chain from symbol n, the first of its bucket. */
  method Follow(t: GnuTable, e: Elf, name: seq<byte>, weakOk: bool, hash: nat, start: nat) returns (r: Outcome)
    requires WellFormedGnu(t, e) && hash == GnuHash(name)
    requires t.symoffset <= start < |e.syms| && Bucket(t, e, start) == Slot(hash, |t.bucket|)
    ensures r == Scan(e, name, weakOk, start)
  {
    hide SymCompare, GnuHash, NameOf, BloomPasses, Odd, Slot, Bucket, StartsBucket, Entered;
    var n := start;
    while true
      invariant t.symoffset <= n < |e.syms| && Bucket(t, e, n) == Bucket(t, e, start)
      invariant Scan(e, name, weakOk, start) == Scan(e, name, weakOk, n)
      decreases |e.syms| - n
    {
      var hashval := t.chain[n - t.symoffset];
      if Odd(hashval) == Odd(hash) {
        match SymCompare(e, e.syms[n], name, weakOk)
        case Yes(v) => return Found(n, v);
        case Bad => return Abort;
        case No =>
      } else {
        if NameOf(e, n) == name {
          Indexed(t, e, n, name);
        }
        OtherNameRefused(e, n, name, weakOk);
      }
      InBucketNext(t, e, n);
      if hashval % 2 == 1 {
        AllRefused(t, e, name, weakOk, n + 1, |e.syms|);
        return NotFound;
      }
      n := n + 1;
    }
  }

  // ------------------------------------------------- tables do exist

  /** The first symbol of a bucket from i on, or 0. */
  function FirstIn(e: Elf, nb: nat, b: nat, i: nat): nat
    requires NamesInRange(e) && nb > 0
    decreases |e.syms| - i
  {
    if i >= |e.syms| then 0 else if Slot(GnuHash(NameOf(e, i)), nb) == b then i else FirstIn(e, nb, b, i + 1)
  }

  /** The symbol is the last of its bucket. */
  predicate LastIn(e: Elf, nb: nat, i: nat)
    requires NamesInRange(e) && nb > 0 && i < |e.syms|
  {
    i + 1 == |e.syms| || Slot(GnuHash(NameOf(e, i + 1)), nb) != Slot(GnuHash(NameOf(e, i)), nb)
  }

  function ChainWord(e: Elf, nb: nat, i: nat): nat
    requires NamesInRange(e) && nb > 0 && i < |e.syms|
  {
    var h := GnuHash(NameOf(e, i));
    h - h % 2 + if LastIn(e, nb, i) then 1 else 0
  }

  /** A table for the symbols from so on, with a bloom filter that lets everything pass. */
  function Built(e: Elf, so: nat, nb: nat, wide: nat, shift: nat): GnuTable
    requires NamesInRange(e) && nb > 0 && so <= |e.syms|
  {
    hide FirstIn, ChainWord;
    GnuTable(wide, so, shift, [Power(2, wide) - 1], seq<nat>(nb, b requires 0 <= b < nb => FirstIn(e, nb, b, so)),
             seq<nat>(|e.syms| - so, i requires 0 <= i < |e.syms| - so => ChainWord(e, nb, so + i)))
  }

  lemma {:induction false} AllBitsSet(wide: nat, k: nat)
    requires k < wide
    ensures BitSet(Power(2, wide) - 1, k)
    decreases k
  {
    if k > 0 {
      assert (Power(2, wide) - 1) / 2 == Power(2, wide - 1) - 1;
      AllBitsSet(wide - 1, k - 1);
    }
  }

  lemma {:induction false} FirstInIs(e: Elf, nb: nat, b: nat, i: nat, n: nat)
    requires NamesInRange(e) && nb > 0 && 0 < i && n == FirstIn(e, nb, b, i)
    ensures n == 0 ==> forall j :: i <= j < |e.syms| ==> Slot(GnuHash(NameOf(e, j)), nb) != b
    ensures n != 0 ==>
      && i <= n < |e.syms| && Slot(GnuHash(NameOf(e, n)), nb) == b
      && forall j :: i <= j < n ==> Slot(GnuHash(NameOf(e, j)), nb) != b
    decreases |e.syms| - i
  {
    hide GnuHash, NameOf, Slot;
    if i < |e.syms| && Slot(GnuHash(NameOf(e, i)), nb) != b {
      FirstInIs(e, nb, b, i + 1, n);
    }
  }

  /** Every list of symbols sorted by bucket has a well-formed table. */
  lemma BuiltIsWellFormed(e: Elf, so: nat, nb: nat, wide: nat, shift: nat)
    requires NamesInRange(e) && nb > 0 && 0 < so <= |e.syms| && (wide == 32 || wide == 64) && shift < 32
    requires forall i, j :: so <= i <= j < |e.syms| ==>
               Slot(GnuHash(NameOf(e, i)), nb) <= Slot(GnuHash(NameOf(e, j)), nb)
    ensures WellFormedGnu(Built(e, so, nb, wide, shift), e)
  {
    hide GnuHash, NameOf, Slot, BloomPasses;
    var t := Built(e, so, nb, wide, shift);
    forall i | so <= i < |e.syms|
      ensures Entered(t, e, i)
    {
      AlwaysPasses(t, GnuHash(NameOf(e, i)));
      assert t.chain[i - so] == ChainWord(e, nb, i);
    }
    forall b | 0 <= b < nb
      ensures StartsBucket(t, e, b)
    {
      FirstInIs(e, nb, b, so, t.bucket[b]);
    }
  }

  lemma AlwaysPasses(t: GnuTable, hash: nat)
    requires t.wide > 0 && t.bloom == [Power(2, t.wide) - 1]
    ensures BloomPasses(t, hash)
  {
    hide Power, BitSet;
    AllBitsSet(t.wide, hash % t.wide);
    AllBitsSet(t.wide, hash / Power(2, t.shift) % t.wide);
  }

  // ---------------------------------------------------------------- DT_HASH

  datatype SysvTable = SysvTable(bucket: seq<nat>, chain: seq<nat>)

  /** Following the chain from n passes through w and ends at the zero index. */
  predicate IsWalk(chain: seq<nat>, n: nat, w: seq<nat>)
    decreases |w|
  {
    if w == [] then n == 0 else n == w[0] && 0 < n < |chain| && IsWalk(chain, chain[n], w[1..])
  }

  /** Chains do not cycle, and every symbol is on the chain of its bucket. */
  ghost predicate WellFormedSysv(t: SysvTable, e: Elf) {
    && NamesInRange(e) && |t.bucket| > 0 && |t.chain| == |e.syms|
    && forall b :: 0 <= b < |t.bucket| ==> Chained(t, e, b)
  }

  ghost predicate Chained(t: SysvTable, e: Elf, b: nat)
    requires NamesInRange(e) && b < |t.bucket|
  {
    exists w :: IsWalk(t.chain, t.bucket[b], w) && Holds(t, e, b, w)
  }

  ghost predicate Holds(t: SysvTable, e: Elf, b: nat, w: seq<nat>)
    requires NamesInRange(e) && b < |t.bucket|
  {
    forall i :: 0 < i < |e.syms| && Slot(ElfHash(NameOf(e, i)), |t.bucket|) == b ==> i in w
  }

  /** The chain of a bucket. */
  ghost function ChainOf(t: SysvTable, e: Elf, b: nat): (w: seq<nat>)
    requires NamesInRange(e) && b < |t.bucket| && Chained(t, e, b)
    ensures IsWalk(t.chain, t.bucket[b], w) && Holds(t, e, b, w)
  {
    var w :| IsWalk(t.chain, t.bucket[b], w) && Holds(t, e, b, w);
    w
  }

  predicate Within(w: seq<nat>, n: nat) {
    forall k :: 0 <= k < |w| ==> 0 < w[k] < n
  }

  /** The first of the listed symbols that is not refused. */
  function Pick(e: Elf, name: seq<byte>, weakOk: bool, w: seq<nat>): Outcome
    requires Within(w, |e.syms|)
    decreases |w|
  {
    if w == [] then NotFound else
    match SymCompare(e, e.syms[w[0]], name, weakOk)
    case No => Pick(e, name, weakOk, w[1..])
    case Yes(v) => Found(w[0], v)
    case Bad => Abort
  }

  lemma {:induction false} WalkInRange(chain: seq<nat>, n: nat, w: seq<nat>)
    requires IsWalk(chain, n, w)
    ensures Within(w, |chain|)
    decreases |w|
  {
    if w != [] {
      WalkInRange(chain, chain[n], w[1..]);
      assert w == [n] + w[1..];
    }
  }

  /** The chain that a lookup of the name follows. */
  ghost function ChainFor(t: SysvTable, e: Elf, name: seq<byte>): (w: seq<nat>)
    requires WellFormedSysv(t, e)
    ensures Within(w, |e.syms|)
  {
    hide ElfHash, NameOf;
    var b := Slot(ElfHash(name), |t.bucket|);
    assert Chained(t, e, b);
    var w := ChainOf(t, e, b);
    WalkInRange(t.chain, t.bucket[b], w);
    w
  }

  /** The DT_HASH branch of resolve_sym_helper. */
  method LookupSysv(t: SysvTable, e: Elf, name: seq<byte>, weakOk: bool) returns (r: Outcome)
    requires WellFormedSysv(t, e)
    ensures r == Pick(e, name, weakOk, ChainFor(t, e, name))
  {
    hide SymCompare, ElfHash, NameOf, Slot, Chained, Holds;
    var hash := ComputeElfHash(name);
    var n := t.bucket[Slot(hash, |t.bucket|)];
    ghost var w := ChainFor(t, e, name);
    while n != 0
      invariant IsWalk(t.chain, n, w) && Within(w, |e.syms|)
      invariant Pick(e, name, weakOk, ChainFor(t, e, name)) == Pick(e, name, weakOk, w)
      decreases |w|
    {
      match SymCompare(e, e.syms[n], name, weakOk) {
        case Yes(v) => return Found(n, v);
        case Bad => return Abort;
        case No =>
      }
      n := t.chain[n];
      w := w[1..];
    }
    r := NotFound;
  }

  lemma {:induction false} PickAnswers(e: Elf, name: seq<byte>, weakOk: bool, w: seq<nat>)
    requires Within(w, |e.syms|)
    requires forall i :: 0 < i < |e.syms| ==> i in w || Refused(e, name, weakOk, i)
    ensures Answers(e, name, weakOk, 1, Pick(e, name, weakOk, w))
    decreases |w|
  {
    hide SymCompare, Considered, Worth, Stops;
    if w != [] {
      VerdictExactly(e, e.syms[w[0]], name, weakOk);
    }
    if w != [] && SymCompare(e, e.syms[w[0]], name, weakOk) == No {
      assert w == [w[0]] + w[1..];
      assert Refused(e, name, weakOk, w[0]);
      PickAnswers(e, name, weakOk, w[1..]);
    }
  }

  /** The chain finds an acceptable symbol exactly when the table has one. */
  lemma SysvAnswers(t: SysvTable, e: Elf, name: seq<byte>, weakOk: bool)
    requires WellFormedSysv(t, e)
    ensures Answers(e, name, weakOk, 1, Pick(e, name, weakOk, ChainFor(t, e, name)))
  {
    hide SymCompare, ElfHash, NameOf, Slot, Answers;
    var w := ChainFor(t, e, name);
    forall i | 0 < i < |e.syms|
      ensures i in w || Refused(e, name, weakOk, i)
    {
      if NameOf(e, i) != name {
        OtherNameRefused(e, i, name, weakOk);
      }
    }
    PickAnswers(e, name, weakOk, w);
  }

  /** With at most one symbol of the name, the chain order does not show. */
  lemma AnswersAsScan(e: Elf, name: seq<byte>, weakOk: bool, r: Outcome)
    requires Answers(e, name, weakOk, 1, r) && |e.syms| > 0
    requires forall i, j :: 0 < i < j < |e.syms| ==> Refused(e, name, weakOk, i) || Refused(e, name, weakOk, j)
    ensures r == Scan(e, name, weakOk, 1)
  {
    hide SymCompare;
    if r.NotFound? {
      ScanSkips(e, name, weakOk, 1, |e.syms|);
    } else if r.Found? {
      assert !Refused(e, name, weakOk, r.index);
      ScanSkips(e, name, weakOk, 1, r.index);
    } else {
      var n :| 0 < n < |e.syms| && SymCompare(e, e.syms[n], name, weakOk) == Bad;
      assert !Refused(e, name, weakOk, n);
      ScanSkips(e, name, weakOk, 1, n);
    }
  }

  // ------------------------------------------------------- searching modules

  /** The first symbol a table indexes; nothing is searched without a table. */
  function FirstIndexed(e: Elf): nat {
    if e.gnu.Some? then e.gnu.value.symoffset else if e.sysv.Some? then 1 else |e.syms|
  }

  /** The table that is searched is well formed. */
  ghost predicate Tabled(e: Elf) {
    && (e.gnu.Some? ==> WellFormedGnu(e.gnu.value, e))
    && (e.gnu.None? && e.sysv.Some? ==> WellFormedSysv(e.sysv.value, e))
  }

  /** The first symbol not refused, in symbol order or, in a DT_HASH table, in chain order. */
  ghost function Lookup(e: Elf, name: seq<byte>, weakOk: bool): Outcome
    requires Tabled(e)
  {
    if e.gnu.Some? then Scan(e, name, weakOk, e.gnu.value.symoffset)
    else if e.sysv.Some? then Pick(e, name, weakOk, ChainFor(e.sysv.value, e, name))
    else NotFound
  }

  /** resolve_sym_helper; Abort is a call of err(). */
  method ResolveIn(e: Elf, name: seq<byte>, weakOk: bool) returns (r: Outcome)
    requires Tabled(e)
    ensures r == Lookup(e, name, weakOk) && Answers(e, name, weakOk, FirstIndexed(e), r)
  {
    hide SymCompare, WellFormedGnu, WellFormedSysv, Scan, Pick, ChainFor;
    r := NotFound;
    if e.gnu.Some? {
      r := LookupGnu(e.gnu.value, e, name, weakOk);
    } else if e.sysv.Some? {
      r := LookupSysv(e.sysv.value, e, name, weakOk);
    }
    LookupAnswers(e, name, weakOk);
  }

  lemma LookupAnswers(e: Elf, name: seq<byte>, weakOk: bool)
    requires Tabled(e)
    ensures Answers(e, name, weakOk, FirstIndexed(e), Lookup(e, name, weakOk))
  {
    hide SymCompare, WellFormedGnu, WellFormedSysv, Scan, Pick, ChainFor;
    if e.gnu.Some? {
      ScanAnswers(e, name, weakOk, e.gnu.value.symoffset);
    } else if e.sysv.Some? {
      SysvAnswers(e.sysv.value, e, name, weakOk);
    }
  }

  /** One module: its global symbols first, then its weak ones. */
  ghost function Taken(e: Elf, name: seq<byte>): Outcome
    requires Tabled(e)
  {
    var r := Lookup(e, name, false);
    if r.NotFound? then Lookup(e, name, true) else r
  }

  method ResolveGlobalThenWeak(e: Elf, name: seq<byte>) returns (r: Outcome)
    requires Tabled(e)
    ensures r == Taken(e, name)
  {
    hide Tabled, Lookup, Answers;
    r := ResolveIn(e, name, false);
    if r.NotFound? {
      r := ResolveIn(e, name, true);
    }
  }

  /** Stopped is a call of err(). */
  datatype Resolution = Unresolved | Resolved(mod: nat, index: nat, val: nat) | Stopped

  ghost predicate AllTabled(queue: seq<Elf>) {
    forall i :: 0 <= i < |queue| ==> Tabled(queue[i])
  }

  /** The first module from i on that gives something. */
  ghost function FirstTaken(queue: seq<Elf>, name: seq<byte>, i: nat): Resolution
    requires AllTabled(queue) && i <= |queue|
    decreases |queue| - i
  {
    if i == |queue| then Unresolved else
    match Taken(queue[i], name)
    case NotFound => FirstTaken(queue, name, i + 1)
    case Found(n, v) => Resolved(i, n, v)
    case Abort => Stopped
  }

  ghost function ResolutionOf(queue: seq<Elf>, only: Option<nat>, name: seq<byte>): Resolution
    requires AllTabled(queue) && (only.Some? ==> only.value < |queue|)
  {
    if only.None? || Taken(queue[only.value], name).NotFound? then FirstTaken(queue, name, 0)
    else match Taken(queue[only.value], name)
         case Found(n, v) => Resolved(only.value, n, v)
         case Abort => Stopped
  }

  /** ta_elf_resolve_sym; `only` is the queue position of the module the caller names. */
  method ResolveSym(queue: seq<Elf>, only: Option<nat>, name: seq<byte>) returns (r: Resolution)
    requires AllTabled(queue) && (only.Some? ==> only.value < |queue|)
    ensures r == ResolutionOf(queue, only, name)
  {
    hide Tabled, Taken;
    if only.Some? {
      var o := ResolveGlobalThenWeak(queue[only.value], name);
      match o {
        case Found(n, v) => return Resolved(only.value, n, v);
        case Abort => return Stopped;
        case NotFound =>
      }
    }
    for i := 0 to |queue|
      invariant FirstTaken(queue, name, 0) == FirstTaken(queue, name, i)
    {
      var o := ResolveGlobalThenWeak(queue[i], name);
      match o {
        case Found(n, v) => return Resolved(i, n, v);
        case Abort => return Stopped;
        case NotFound =>
      }
    }
    return Unresolved;
  }

  // ---------------------------------------------------- the documented order

  ghost predicate Accepts(e: Elf, name: seq<byte>, weakOk: bool, n: nat, v: nat) {
    FirstIndexed(e) <= n < |e.syms| && SymCompare(e, e.syms[n], name, weakOk) == Yes(v)
  }

  /** Global, weak, and weak but undefined. */
  function Tier(s: Sym): (t: nat)
    ensures t < 3
  {
    if s.bind == STB_GLOBAL then 0 else if s.shndx != SHN_UNDEF then 1 else 2
  }

  /** The module has an acceptable symbol of a tier below t. */
  ghost predicate Offers(e: Elf, name: seq<byte>, t: nat) {
    exists n: nat, v: nat :: Accepts(e, name, true, n, v) && Tier(e.syms[n]) < t
  }

  /** No indexed symbol of the name makes the loader stop. */
  ghost predicate Quiet(e: Elf, name: seq<byte>) {
    forall n :: FirstIndexed(e) <= n < |e.syms| ==> SymCompare(e, e.syms[n], name, true) != Bad
  }

  ghost predicate Sound(queue: seq<Elf>, name: seq<byte>) {
    forall i :: 0 <= i < |queue| ==> Tabled(queue[i]) && Quiet(queue[i], name)
  }

  /** The modules to look in: the one that is named, or all. */
  predicate InScope(only: Option<nat>, j: nat) {
    only.None? || only.value == j
  }

  /**
   * What the comment above ta_elf_resolve_sym describes: of all symbols in scope one of the best tier, in the
   * first module that has that tier; nothing when there is no symbol at all.
   */
  ghost predicate Documented(queue: seq<Elf>, only: Option<nat>, name: seq<byte>, r: Resolution) {
    match r
    case Stopped => false
    case Unresolved => forall j: nat :: j < |queue| && InScope(only, j) ==> !Offers(queue[j], name, 3)
    case Resolved(m, n, v) =>
      && m < |queue| && InScope(only, m) && Accepts(queue[m], name, true, n, v)
      && var t := Tier(queue[m].syms[n]);
      && (forall j: nat :: j < |queue| && InScope(only, j) ==> !Offers(queue[j], name, t))
      && (forall j: nat :: j < m && InScope(only, j) ==> !Offers(queue[j], name, t + 1))
  }

  lemma LookupMeans(e: Elf, name: seq<byte>)
    requires Tabled(e) && Quiet(e, name)
    ensures var r := Lookup(e, name, true);
            match r
            case Abort => false
            case NotFound => !Offers(e, name, 3)
            case Found(n, v) => Accepts(e, name, true, n, v)
  {
    hide SymCompare, Tabled, Lookup, Tier;
    LookupAnswers(e, name, true);
    if Lookup(e, name, true).NotFound? {
      forall n: nat, v: nat
        ensures !Accepts(e, name, true, n, v)
      {
        if FirstIndexed(e) <= n < |e.syms| {
          assert Refused(e, name, true, n);
        }
      }
    }
  }

  lemma GlobalMeans(e: Elf, name: seq<byte>)
    requires Tabled(e) && Quiet(e, name)
    ensures var r := Lookup(e, name, false);
            match r
            case Abort => false
            case NotFound => !Offers(e, name, 1)
            case Found(n, v) => Accepts(e, name, true, n, v) && Tier(e.syms[n]) == 0
  {
    hide Tabled, Lookup;
    LookupAnswers(e, name, false);
    if Lookup(e, name, false).NotFound? {
      forall n: nat, v: nat | Accepts(e, name, true, n, v)
        ensures Tier(e.syms[n]) != 0
      {
        assert Refused(e, name, false, n);
      }
    }
  }

  /** What one module gives: nothing only if it has nothing, and a global symbol if it has one. */
  lemma TakenMeans(e: Elf, name: seq<byte>)
    requires Tabled(e) && Quiet(e, name)
    ensures match Taken(e, name)
            case Abort => false
            case NotFound => !Offers(e, name, 3)
            case Found(n, v) =>
              && Accepts(e, name, true, n, v) && Offers(e, name, 3)
              && (Tier(e.syms[n]) == 0 <==> Offers(e, name, 1))
  {
    hide Tabled, Lookup, Tier, SymCompare;
    GlobalMeans(e, name);
    LookupMeans(e, name);
  }

  /** The first acceptable symbol of the module is not a weak undefined one. */
  ghost predicate TakesDefined(e: Elf, name: seq<byte>)
    requires Tabled(e)
  {
    var r := Lookup(e, name, true);
    r.Found? && r.index < |e.syms| && Tier(e.syms[r.index]) < 2
  }

  lemma OffersMore(e: Elf, name: seq<byte>, t: nat, u: nat)
    requires t <= u && Offers(e, name, t)
    ensures Offers(e, name, u)
  {
    hide SymCompare, Tier;
    var n: nat, v: nat :| Accepts(e, name, true, n, v) && Tier(e.syms[n]) < t;
    assert Accepts(e, name, true, n, v) && Tier(e.syms[n]) < u;
  }

  /** The tier of what a module gives. */
  lemma TakenTier(e: Elf, name: seq<byte>)
    requires Tabled(e) && Quiet(e, name) && Offers(e, name, 3)
    ensures var r := Taken(e, name);
            && r.Found? && Accepts(e, name, true, r.index, r.val)
            && var t := Tier(e.syms[r.index]);
            && (t == 0 <==> Offers(e, name, 1)) && (t != 0 ==> (t == 1 <==> TakesDefined(e, name)))
  {
    hide Tabled, Lookup, Tier, SymCompare;
    GlobalMeans(e, name);
    TakenMeans(e, name);
  }

  lemma {:induction false} FirstTakenMeans(queue: seq<Elf>, name: seq<byte>, i: nat)
    requires Sound(queue, name) && i <= |queue|
    ensures match FirstTaken(queue, name, i)
            case Stopped => false
            case Unresolved => forall j :: i <= j < |queue| ==> !Offers(queue[j], name, 3)
            case Resolved(m, n, v) =>
              && i <= m < |queue| && Offers(queue[m], name, 3) && Taken(queue[m], name) == Found(n, v)
              && forall j :: i <= j < m ==> !Offers(queue[j], name, 3)
    decreases |queue| - i
  {
    hide Tabled, Quiet, Taken, SymCompare;
    if i < |queue| {
      TakenMeans(queue[i], name);
      FirstTakenMeans(queue, name, i + 1);
    }
  }

  /** The first module in the queue that has any acceptable symbol. */
  ghost predicate FirstOffering(queue: seq<Elf>, name: seq<byte>, m: nat) {
    m < |queue| && Offers(queue[m], name, 3) && forall j :: 0 <= j < m ==> !Offers(queue[j], name, 3)
  }

  /**
   * When the search follows the comment. Over the whole queue: the first module with any acceptable symbol has
   * a global one; or no module has a global one and its first acceptable symbol is defined, or no module has a
   * defined one. For a named module with an acceptable symbol: it has a global one, its first is defined, or none
   * is. For a named module without one: no module of the queue has one, because the code goes on to search there.
   */
  ghost predicate FollowsComment(queue: seq<Elf>, only: Option<nat>, name: seq<byte>)
    requires AllTabled(queue) && (only.Some? ==> only.value < |queue|)
  {
    match only
    case None =>
      forall m: nat :: FirstOffering(queue, name, m) ==>
        || Offers(queue[m], name, 1)
        || ((forall j :: 0 <= j < |queue| ==> !Offers(queue[j], name, 1)) &&
            (TakesDefined(queue[m], name) || forall j :: 0 <= j < |queue| ==> !Offers(queue[j], name, 2)))
    case Some(k) =>
      if Offers(queue[k], name, 3)
      then Offers(queue[k], name, 1) || TakesDefined(queue[k], name) || !Offers(queue[k], name, 2)
      else forall j :: 0 <= j < |queue| ==> !Offers(queue[j], name, 3)
  }

  lemma NamedFollows(queue: seq<Elf>, k: nat, name: seq<byte>)
    requires Sound(queue, name) && k < |queue|
    ensures Documented(queue, Some(k), name, ResolutionOf(queue, Some(k), name)) <==>
            FollowsComment(queue, Some(k), name)
  {
    hide Tabled, Quiet, Taken, Accepts, Tier, Offers, TakesDefined, SymCompare;
    if Offers(queue[k], name, 3) {
      TakenTier(queue[k], name);
      NoneBelow(queue[k], name);
    } else {
      TakenMeans(queue[k], name);
      FirstTakenMeans(queue, name, 0);
    }
  }

  lemma NoneBelow(e: Elf, name: seq<byte>)
    ensures !Offers(e, name, 0)
    ensures Offers(e, name, 1) ==> Offers(e, name, 2)
  {
    hide Accepts, Tier;
    if Offers(e, name, 1) {
      OffersMore(e, name, 1, 2);
    }
  }

  lemma QueueFollows(queue: seq<Elf>, name: seq<byte>)
    requires Sound(queue, name)
    ensures Documented(queue, None, name, ResolutionOf(queue, None, name)) <==> FollowsComment(queue, None, name)
  {
    hide Tabled, Quiet, Taken, Accepts, Tier, Offers, TakesDefined, SymCompare;
    FirstTakenMeans(queue, name, 0);
    forall j | 0 <= j < |queue|
      ensures !Offers(queue[j], name, 0) && (Offers(queue[j], name, 1) ==> Offers(queue[j], name, 2))
    {
      NoneBelow(queue[j], name);
    }
    var r := ResolutionOf(queue, None, name);
    if r.Resolved? {
      var m := r.mod;
      assert FirstOffering(queue, name, m);
      TakenTier(queue[m], name);
      forall x: nat | FirstOffering(queue, name, x)
        ensures x == m
      {
      }
      forall j, t: nat | 0 <= j < m && t <= 3
        ensures !Offers(queue[j], name, t)
      {
        if Offers(queue[j], name, t) {
          OffersMore(queue[j], name, t, 3);
        }
      }
    }
  }

  /** The order of the comment is followed exactly then. */
  lemma DocumentedOrderIff(queue: seq<Elf>, only: Option<nat>, name: seq<byte>)
    requires Sound(queue, name) && (only.Some? ==> only.value < |queue|)
    ensures Documented(queue, only, name, ResolutionOf(queue, only, name)) <==> FollowsComment(queue, only, name)
  {
    hide Documented, FollowsComment, ResolutionOf, Tabled, Quiet;
    if only.None? {
      QueueFollows(queue, name);
    } else {
      NamedFollows(queue, only.value, name);
    }
  }

  // ------------------------------------------- where the two orders differ

  /** A module with one symbol named f, bound in the given section, in a DT_HASH table. */
  function WithSymbol(bind: nat, shndx: nat): Elf {
    Elf([0, 102, 0], [Sym(0, 0, 0, 0, 0), Sym(1, bind, STT_FUNC, shndx, 8)], 0, 16, None,
        Some(SysvTable([1], [0, 0])))
  }

  lemma SymbolIsTabled(e: Elf, bind: nat, shndx: nat)
    requires e == WithSymbol(bind, shndx)
    ensures Tabled(e) && Quiet(e, [102])
  {
    hide ElfHash;
    var t := e.sysv.value;
    assert IsWalk(t.chain, 1, [1]) by {
      assert IsWalk(t.chain, 0, []);
    }
    assert NamesInRange(e);
    assert Holds(t, e, 0, [1]);
    assert Chained(t, e, 0);
  }

  lemma NamedF(e: Elf, bind: nat, shndx: nat)
    requires e == WithSymbol(bind, shndx)
    ensures CString(e.dynstr, 1) == [102]
  {
    assert CString(e.dynstr, 2) == [];
  }

  /** What such a module offers. */
  lemma SymbolOffers(e: Elf, bind: nat, shndx: nat, t: nat)
    requires e == WithSymbol(bind, shndx) && shndx != SHN_XINDEX
    ensures Offers(e, [102], t) <==>
            (bind == STB_WEAK || (bind == STB_GLOBAL && shndx != SHN_UNDEF)) && Tier(e.syms[1]) < t
  {
    NamedF(e, bind, shndx);
    var v := if bind == STB_WEAK && shndx == SHN_UNDEF then 0 else 8;
    if (bind == STB_WEAK || (bind == STB_GLOBAL && shndx != SHN_UNDEF)) && Tier(e.syms[1]) < t {
      assert Accepts(e, [102], true, 1, v);
    }
  }

  lemma TakesIts(e: Elf, bind: nat, shndx: nat)
    requires e == WithSymbol(bind, shndx) && Tabled(e) && Quiet(e, [102])
    ensures TakesDefined(e, [102]) ==> Tier(e.syms[1]) < 2
  {
    hide SymCompare, Tabled, Lookup, Tier;
    LookupMeans(e, [102]);
  }

  /** A weak symbol in the first module wins over a global one in the second. */
  lemma WeakBeforeGlobal(queue: seq<Elf>)
    requires queue == [WithSymbol(STB_WEAK, 5), WithSymbol(STB_GLOBAL, 5)]
    ensures Sound(queue, [102]) && !Documented(queue, None, [102], ResolutionOf(queue, None, [102]))
  {
    hide Tabled, Quiet, TakesDefined, Documented, ResolutionOf, Offers;
    SymbolIsTabled(queue[0], STB_WEAK, 5);
    SymbolIsTabled(queue[1], STB_GLOBAL, 5);
    SymbolOffers(queue[0], STB_WEAK, 5, 3);
    SymbolOffers(queue[0], STB_WEAK, 5, 1);
    SymbolOffers(queue[1], STB_GLOBAL, 5, 1);
    assert FirstOffering(queue, [102], 0);
    DocumentedOrderIff(queue, None, [102]);
  }

  /** A weak undefined symbol in the first module, resolved to zero, wins over a weak defined one in the second. */
  lemma UndefinedBeforeDefined(queue: seq<Elf>)
    requires queue == [WithSymbol(STB_WEAK, SHN_UNDEF), WithSymbol(STB_WEAK, 5)]
    ensures Sound(queue, [102]) && !Documented(queue, None, [102], ResolutionOf(queue, None, [102]))
  {
    hide Tabled, Quiet, TakesDefined, Documented, ResolutionOf, Offers;
    SymbolIsTabled(queue[0], STB_WEAK, SHN_UNDEF);
    SymbolIsTabled(queue[1], STB_WEAK, 5);
    SymbolOffers(queue[0], STB_WEAK, SHN_UNDEF, 3);
    SymbolOffers(queue[0], STB_WEAK, SHN_UNDEF, 1);
    SymbolOffers(queue[1], STB_WEAK, 5, 2);
    TakesIts(queue[0], STB_WEAK, SHN_UNDEF);
    assert FirstOffering(queue, [102], 0);
    DocumentedOrderIff(queue, None, [102]);
  }

  /** A module is named that has no such symbol, and another module's is found. */
  lemma NamedModuleLeft(queue: seq<Elf>)
    requires queue == [WithSymbol(STB_GLOBAL, SHN_UNDEF), WithSymbol(STB_GLOBAL, 5)]
    ensures Sound(queue, [102]) && !Documented(queue, Some(0), [102], ResolutionOf(queue, Some(0), [102]))
  {
    hide Tabled, Quiet, TakesDefined, Documented, ResolutionOf, Offers;
    SymbolIsTabled(queue[0], STB_GLOBAL, SHN_UNDEF);
    SymbolIsTabled(queue[1], STB_GLOBAL, 5);
    SymbolOffers(queue[0], STB_GLOBAL, SHN_UNDEF, 3);
    SymbolOffers(queue[1], STB_GLOBAL, 5, 3);
    DocumentedOrderIff(queue, Some(0), [102]);
  }
}
