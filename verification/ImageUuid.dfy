/**
 * The UUID of what follows a subkey: uuid_v5_sha512 of scripts/sign_encrypt.py, which works on a 128-bit
 * integer, and calc_next_uuid of core/crypto/signed_hdr.c, which works on fields.
 */
module ImageUuid {
  import opened Bytes
  import opened ImageFormat

  /** SHA-512, of which the first 16 bytes are used. */
  type Sha512 = seq<byte> -> seq<byte>

  function First16(d: seq<byte>): Uuid {
    if |d| >= 16 then d[..16] else d + Zeros(16 - |d|)
  }

  // ----------------------------------------------------------------- the script

  const BIT62: nat := 0x4000_0000_0000_0000
  const BIT76: nat := 0x1000_00000000_00000000

  function SetVariant(x: nat): nat {
    x - x / BIT62 % 4 * BIT62 + 2 * BIT62
  }

  function SetVersion(x: nat): nat {
    x - x / BIT76 % 16 * BIT76 + 5 * BIT76
  }

  /** UUID(bytes=b, version=5): variant and version are set in the integer. */
  function VersionFive(b: Uuid): Uuid {
    hide BeNat, Be, SetVariant, SetVersion;
    Be(SetVersion(SetVariant(BeNat(b))), 16)
  }

  /** name_img_to_str: what comes before the first zero byte. */
  function BeforeNul(s: seq<byte>): (r: seq<byte>)
    ensures |r| <= |s| && r == s[..|r|]
  {
    if s == [] || s[0] == 0 then [] else [s[0]] + BeforeNul(s[1..])
  }

  /** The UUID the script expects next. */
  function NextUuid(sha: Sha512, uuid: Uuid, nameImg: seq<byte>): Uuid {
    hide VersionFive, First16, BeforeNul;
    if nameImg == [] then uuid else VersionFive(First16(sha(uuid + BeforeNul(nameImg))))
  }

  // ---------------------------------------------------------- the secure world

  /** The fields set by calc_next_uuid, seen in the octets: four bits of byte 6, two of byte 8. */
  function FieldsSet(b: Uuid): Uuid {
    b[6 := b[6] % 16 + 0x50][8 := b[8] % 64 + 0x80]
  }

  /** strnlen. */
  method Strnlen(s: seq<byte>) returns (n: nat)
    ensures n <= |s| && s[..n] == BeforeNul(s)
  {
    n := 0;
    while n < |s| && s[n] != 0
      invariant n <= |s| && forall j :: 0 <= j < n ==> s[j] != 0
    {
      n := n + 1;
    }
    NulAt(s, n);
  }

  lemma {:induction false} NulAt(s: seq<byte>, n: nat)
    requires n <= |s| && (forall j :: 0 <= j < n ==> s[j] != 0) && (n < |s| ==> s[n] == 0)
    ensures BeforeNul(s) == s[..n]
    decreases n
  {
    if n > 0 {
      NulAt(s[1..], n - 1);
    }
  }

  lemma {:induction false} NulIs(s: seq<byte>, n: nat)
    requires n == |BeforeNul(s)|
    ensures n <= |s| && (forall j :: 0 <= j < n ==> s[j] != 0) && (n < |s| ==> s[n] == 0)
    decreases |s|
  {
    if s != [] && s[0] != 0 {
      NulIs(s[1..], n - 1);
      forall j | 0 <= j < n
        ensures s[j] != 0
      {
        assert j > 0 ==> s[j] == s[1..][j - 1];
      }
    }
  }

  /**
   * The next UUID spelled out: the subkey's own without a name, and else the first sixteen bytes of the hash of the
   * subkey's UUID followed by the name up to its first zero byte, with the bits of version and variant set.
   */
  ghost predicate IsNextUuid(sha: Sha512, uuid: Uuid, name: seq<byte>, next: Uuid) {
    if name == [] then next == uuid else
    exists n: nat :: EndsAt(name, n) && IsVersionFive(sha(uuid + name[..n]), next)
  }

  /** The first n bytes are all before the first zero byte. */
  ghost predicate EndsAt(s: seq<byte>, n: nat) {
    n <= |s| && (forall j :: 0 <= j < n ==> s[j] != 0) && (n < |s| ==> s[n] == 0)
  }

  ghost predicate IsVersionFive(d: seq<byte>, u: Uuid) {
    |d| >= 16 ==> forall i :: 0 <= i < 16 ==>
      u[i] == if i == 6 then d[6] % 16 + 0x50 else if i == 8 then d[8] % 64 + 0x80 else d[i]
  }

  lemma NextUuidSpelledOut(sha: Sha512, uuid: Uuid, nameImg: seq<byte>)
    ensures IsNextUuid(sha, uuid, nameImg, NextUuid(sha, uuid, nameImg))
  {
    hide VersionFive, BeforeNul;
    var n := |BeforeNul(nameImg)|;
    NulIs(nameImg, n);
    assert EndsAt(nameImg, n);
    if nameImg != [] {
      SameUuid(First16(sha(uuid + nameImg[..n])));
    }
  }

  /** calc_next_uuid, when the hash context and the memory can be had. */
  method CalcNextUuid(sha: Sha512, uuid: Uuid, name: seq<byte>) returns (next: Uuid)
    ensures next == NextUuid(sha, uuid, name) && IsNextUuid(sha, uuid, name, next)
  {
    hide IsNextUuid;
    NextUuidSpelledOut(sha, uuid, name);
    hide VersionFive, First16, FieldsSet, BeforeNul;
    if name == [] {
      return uuid;
    }
    var n := Strnlen(name);
    var digest := First16(sha(uuid + name[..n]));
    next := FieldsSet(digest);
    SameUuid(digest);
  }

  // ---------------------------------------------------------------- agreement

  /** A big-endian number around one of its bytes. */
  lemma {:induction false} BeNatAround(p: seq<byte>, v: byte, s: seq<byte>)
    ensures BeNat(p + [v] + s) == (BeNat(p) * 256 + v) * Power(256, |s|) + BeNat(s)
    decreases |s|
  {
    var t := p + [v] + s;
    if s == [] {
      assert t[..|t| - 1] == p;
    } else {
      var u := s[..|s| - 1];
      assert t[..|t| - 1] == p + [v] + u;
      BeNatAround(p, v, u);
      ShiftByte(BeNat(p) * 256 + v, Power(256, |u|), BeNat(u));
    }
  }

  lemma ShiftByte(a: nat, q: nat, u: nat)
    ensures (a * q + u) * 256 == a * (256 * q) + u * 256
  {
    assert a * (256 * q) == 256 * (a * q);
  }

  const P56: nat := 0x1_00000000_000000
  const P72: nat := 0x1_00000000_00000000_00

  lemma Powers()
    ensures Power(256, 7) == P56 && Power(256, 9) == P72
  {
    Powers256();
  }

  lemma Div62(x: nat, q: nat, r: nat)
    requires r < BIT62 && x == BIT62 * q + r
    ensures x / BIT62 == q
  {
  }

  lemma Div76(x: nat, q: nat, r: nat)
    requires r < BIT76 && x == BIT76 * q + r
    ensures x / BIT76 == q
  {
  }

  /** The two variant bits in the integer. */
  lemma VariantBits(a: nat, v: nat, r: nat)
    requires v < 256 && r < P56
    ensures SetVariant((a * 256 + v) * P56 + r) == (a * 256 + (v % 64 + 128)) * P56 + r
  {
    var x, h, l := (a * 256 + v) * P56 + r, v / 64, v % 64;
    assert v == 64 * h + l;
    assert x == BIT62 * (4 * a + h) + (l * P56 + r);
    Div62(x, 4 * a + h, l * P56 + r);
    SameRem(4 * a + h, h, 4, a);
  }

  /** The four version bits in the integer. */
  lemma VersionBits(a: nat, v: nat, r: nat)
    requires v < 256 && r < P72
    ensures SetVersion((a * 256 + v) * P72 + r) == (a * 256 + (v % 16 + 80)) * P72 + r
  {
    var y, h, l := (a * 256 + v) * P72 + r, v / 16, v % 16;
    assert v == 16 * h + l;
    assert y == BIT76 * (16 * a + h) + (l * P72 + r);
    Div76(y, 16 * a + h, l * P72 + r);
    SameRem(16 * a + h, h, 16, a);
  }

  lemma VariantByte(b: Uuid, c: Uuid)
    requires c == b[8 := b[8] % 64 + 128]
    ensures BeNat(c) == SetVariant(BeNat(b))
  {
    hide BeNat, Power, SetVariant, SetVersion;
    Powers();
    var p, t := b[..8], b[9..];
    assert b == p + [b[8]] + t && c == p + [c[8]] + t;
    BeNatAround(p, b[8], t);
    BeNatAround(p, c[8], t);
    BeNatBound(t);
    VariantBits(BeNat(p), b[8], BeNat(t));
  }

  lemma VersionByte(b: Uuid, c: Uuid)
    requires c == b[6 := b[6] % 16 + 80]
    ensures BeNat(c) == SetVersion(BeNat(b))
  {
    hide BeNat, Power, SetVariant, SetVersion;
    Powers();
    var p, t := b[..6], b[7..];
    assert b == p + [b[6]] + t && c == p + [c[6]] + t;
    BeNatAround(p, b[6], t);
    BeNatAround(p, c[6], t);
    BeNatBound(t);
    VersionBits(BeNat(p), b[6], BeNat(t));
  }

  /** Both sides set the same bits. */
  lemma SameUuid(b: Uuid)
    ensures VersionFive(b) == FieldsSet(b)
  {
    hide BeNat, Be, SetVariant, SetVersion;
    var c: Uuid := b[8 := b[8] % 64 + 0x80];
    var d: Uuid := c[6 := c[6] % 16 + 0x50];
    VariantByte(b, c);
    VersionByte(c, d);
    BeOfBeNat(d);
    assert d == FieldsSet(b);
  }
}
