/** The bytes of signed images as scripts/sign_encrypt.py writes and parses them. */
module ImageFormat {
  import opened Bytes

  const SHDR_MAGIC: nat := 0x4f545348
  const SHDR_BOOTSTRAP_TA: nat := 1
  const SHDR_SUBKEY: nat := 3
  const HASH_SIZE: nat := 32
  const TEE_ATTR_RSA_MODULUS: nat := 0xD0000130
  const TEE_ATTR_RSA_PUBLIC_EXPONENT: nat := 0xD0000230

  /** Where the attributes' values begin: after the UUID, five words and two attributes of three words. */
  const ATTRS_END: nat := 60

  type Uuid = u: seq<byte> | |u| == 16 witness Zeros(16)

  type Word = w: nat | w < 0x1_0000_0000

  predicate KnownAlgo(a: nat) {
    a == 0x70414930 || a == 0x70004830
  }

  // ------------------------------------------------------ little-endian words

  /** struct.pack of several 32-bit words. */
  function Words(ws: seq<Word>): (r: seq<byte>)
    ensures |r| == 4 * |ws|
  {
    hide Le;
    if ws == [] then [] else Words(ws[..|ws| - 1]) + Le(ws[|ws| - 1], 4)
  }

  /** The word at byte offset o. */
  function WordAt(s: seq<byte>, o: nat): nat
    requires o + 4 <= |s|
  {
    LeNat(s[o..o + 4])
  }

  lemma {:induction false} WordsAt(ws: seq<Word>, i: nat)
    requires i < |ws|
    ensures WordAt(Words(ws), 4 * i) == ws[i]
    decreases |ws|
  {
    hide Le, LeNat, Power;
    var n := |ws| - 1;
    var head := Words(ws[..n]);
    if i == n {
      Powers256();
      LeNatOfLe(ws[n], 4);
      assert Words(ws)[4 * n..4 * n + 4] == Le(ws[n], 4);
    } else {
      WordsAt(ws[..n], i);
      assert Words(ws)[4 * i..4 * i + 4] == head[4 * i..4 * i + 4];
    }
  }

  /** A piece of a concatenation is found at its offset. */
  lemma PieceAt(pre: seq<byte>, piece: seq<byte>, post: seq<byte>)
    ensures (pre + piece + post)[|pre|..|pre| + |piece|] == piece
    ensures (pre + piece + post)[|pre| + |piece|..] == post
  {
  }

  // ------------------------------------------------------- integers as bytes

  function BitLength(x: nat): nat {
    if x == 0 then 0 else 1 + BitLength(x / 2)
  }

  /** int_to_bytes: big-endian, with room for a sign bit. */
  function IntBytes(x: nat): seq<byte> {
    Be(x, (BitLength(x) + 8) / 8)
  }

  lemma {:induction false} BitLengthBounds(x: nat)
    ensures x < Power(2, BitLength(x))
  {
    if x > 0 {
      BitLengthBounds(x / 2);
    }
  }

  lemma {:induction false} PowerOfBytes(n: nat)
    ensures Power(2, 8 * n) == Power(256, n)
  {
    if n > 0 {
      PowerOfBytes(n - 1);
      PowerSum(2, 8, 8 * (n - 1));
      Power2At8();
    }
  }

  lemma {:induction false} PowerGrows(j: nat, k: nat)
    requires j <= k
    ensures Power(2, j) <= Power(2, k)
    decreases k
  {
    if j < k {
      PowerGrows(j, k - 1);
    }
  }

  /** int.from_bytes recovers what int_to_bytes wrote. */
  lemma IntBytesBack(x: nat)
    ensures BeNat(IntBytes(x)) == x
  {
    hide Be, BeNat, Power;
    var n := (BitLength(x) + 8) / 8;
    BitLengthBounds(x);
    PowerGrows(BitLength(x), 8 * n);
    PowerOfBytes(n);
    BeNatOfBe(x, n);
  }

  // ------------------------------------------------------------- the entities

  datatype Key = Key(n: nat, e: nat)

  /** A signed subkey: the public key it carries and what is said of it. */
  datatype Subkey = Subkey(uuid: Uuid, nameSize: Word, version: Word, maxDepth: Word, algo: Word, key: Key,
                           sigAlgo: Word, digest: Digest, sig: seq<byte>)

  datatype Ta = Ta(uuid: Uuid, version: Word, img: seq<byte>, sigAlgo: Word, digest: Digest, sig: seq<byte>)

  function Shdr(imgType: Word, imgSize: Word, algo: Word, sigSize: nat): (r: seq<byte>)
    ensures |r| == 20
  {
    hide Le;
    Words([SHDR_MAGIC, imgType, imgSize, algo]) + Le(HASH_SIZE, 2) + Le(sigSize, 2)
  }

  /** The image of set_subkey, which is what the signature covers. */
  function SubkeyImg(k: Subkey): (r: seq<byte>)
    requires |IntBytes(k.key.n)| + |IntBytes(k.key.e)| + ATTRS_END < U32
    ensures |r| == ATTRS_END + |IntBytes(k.key.n)| + |IntBytes(k.key.e)|
  {
    hide Words, IntBytes;
    k.uuid + Words(SubkeyWords(k)) + IntBytes(k.key.n) + IntBytes(k.key.e)
  }

  function SubkeyWords(k: Subkey): (r: seq<Word>)
    requires |IntBytes(k.key.n)| + |IntBytes(k.key.e)| + ATTRS_END < U32
    ensures |r| == 11
  {
    hide IntBytes;
    var n, e := |IntBytes(k.key.n)|, |IntBytes(k.key.e)|;
    [k.nameSize, k.version, k.maxDepth, k.algo, 2, TEE_ATTR_RSA_MODULUS, ATTRS_END, n,
     TEE_ATTR_RSA_PUBLIC_EXPONENT, ATTRS_END + n, e]
  }

  /** The sizes fit their fields, and the signature algorithms are known. */
  predicate WritableSubkey(k: Subkey) {
    && |IntBytes(k.key.n)| + |IntBytes(k.key.e)| + ATTRS_END < U32
    && |k.sig| < 0x1_0000 && KnownAlgo(k.sigAlgo) && KnownAlgo(k.algo)
  }

  predicate WritableTa(t: Ta) {
    |t.img| < U32 && |t.sig| < 0x1_0000 && KnownAlgo(t.sigAlgo)
  }

  function SubkeyShdr(k: Subkey): (r: seq<byte>)
    requires WritableSubkey(k)
    ensures |r| == 20
  {
    hide Shdr, IntBytes, SubkeyImg;
    Shdr(SHDR_SUBKEY, |SubkeyImg(k)|, k.sigAlgo, |k.sig|)
  }

  function SubkeyBytes(k: Subkey): seq<byte>
    requires WritableSubkey(k)
  {
    hide SubkeyShdr, IntBytes, SubkeyImg;
    SubkeyShdr(k) + k.digest + k.sig + SubkeyImg(k)
  }

  function TaShdr(t: Ta): (r: seq<byte>)
    requires WritableTa(t)
    ensures |r| == 20
  {
    hide Shdr;
    Shdr(SHDR_BOOTSTRAP_TA, |t.img|, t.sigAlgo, |t.sig|)
  }

  function TaBytes(t: Ta): seq<byte>
    requires WritableTa(t)
  {
    hide TaShdr, Le;
    TaShdr(t) + t.digest + t.sig + (t.uuid + Le(t.version, 4) + t.img)
  }

  // ---------------------------------------------------------------- parsing

  /** A Python slice with non-negative bounds, which is cut at the end of the data. */
  function Slice(s: seq<byte>, a: nat, b: nat): seq<byte> {
    var lo, hi := if a < |s| then a else |s|, if b < |s| then b else |s|;
    if hi < lo then [] else s[lo..hi]
  }

  datatype Header = Header(shdr: seq<byte>, imgType: nat, imgSize: nat, algo: nat, digest: seq<byte>, sig: seq<byte>)

  datatype Parsed =
    | ParsedSubkey(h: Header, uuid: seq<byte>, nameSize: nat, version: nat, maxDepth: nat, algo: nat, key: Key,
                   img: seq<byte>, nameImg: seq<byte>, nextInf: seq<byte>)
    | ParsedTa(h: Header, uuid: seq<byte>, taVersion: seq<byte>, img: seq<byte>)

  /** The signed header and what follows it; None where the script raises. */
  function ParseHeader(inf: seq<byte>): Option<(Header, seq<byte>)> {
    hide LeNat;
    if |inf| < 20 then None else
    var hashSize, sigSize := LeNat(inf[16..18]), LeNat(inf[18..20]);
    var offs := 20 + hashSize + sigSize;
    if WordAt(inf, 0) != SHDR_MAGIC || !KnownAlgo(WordAt(inf, 12)) || hashSize != HASH_SIZE then None
    else
      Some((Header(inf[..20], WordAt(inf, 4), WordAt(inf, 8), WordAt(inf, 12), Slice(inf, 20, 20 + hashSize),
                   Slice(inf, 20 + hashSize, offs)),
            Slice(inf, offs, |inf|)))
  }

  /** find_attr, from attribute n on. */
  function FindAttr(body: seq<byte>, count: nat, id: nat, n: nat): Option<seq<byte>>
    decreases if n < count then count - n else 0
  {
    hide LeNat;
    var o := 36 + 12 * n;
    if n >= count || o + 12 > |body| then None
    else if WordAt(body, o) == id then
      Some(Slice(body, WordAt(body, o + 4), WordAt(body, o + 4) + WordAt(body, o + 8)))
    else FindAttr(body, count, id, n + 1)
  }

  function ParseSubkeyBody(valid: Key -> bool, h: Header, body: seq<byte>): Option<Parsed> {
    hide LeNat, FindAttr, BeNat;
    if |body| < 36 then None else
    var nameSize, count := WordAt(body, 16), WordAt(body, 32);
    var attr := Slice(body, 36, h.imgSize);
    var end := 36 + |attr|;
    var n, e := FindAttr(body, count, TEE_ATTR_RSA_MODULUS, 0), FindAttr(body, count, TEE_ATTR_RSA_PUBLIC_EXPONENT, 0);
    if n.None? || e.None? then None else
    var key := Key(BeNat(n.value), BeNat(e.value));
    if !valid(key) || |Slice(body, 0, end)| != h.imgSize then None
    else
      Some(ParsedSubkey(h, body[..16], nameSize, WordAt(body, 20), WordAt(body, 24), WordAt(body, 28), key,
                        Slice(body, 0, end), Slice(body, end, end + nameSize),
                        Slice(body, end + nameSize, |body|)))
  }

  function ParseTaBody(h: Header, body: seq<byte>): Option<Parsed> {
    var img := Slice(body, 20, |body|);
    if |img| != h.imgSize then None
    else Some(ParsedTa(h, Slice(body, 0, 16), Slice(body, 16, 20), img))
  }

  /** BinaryImage.parse, without the branch for encrypted images, which always raises. */
  function Parse(valid: Key -> bool, inf: seq<byte>): Option<Parsed> {
    hide ParseHeader, ParseSubkeyBody, ParseTaBody;
    match ParseHeader(inf)
    case None => None
    case Some((h, body)) =>
      if h.imgType == SHDR_SUBKEY then ParseSubkeyBody(valid, h, body)
      else if h.imgType == SHDR_BOOTSTRAP_TA then ParseTaBody(h, body)
      else None
  }

  // ------------------------------------------------------------ the round trip

  lemma SliceIs(s: seq<byte>, a: nat, b: nat)
    requires a <= b <= |s|
    ensures Slice(s, a, b) == s[a..b]
  {
  }

  lemma WordInside(pre: seq<byte>, s: seq<byte>, post: seq<byte>, o: nat)
    requires o + 4 <= |s|
    ensures |pre| + o + 4 <= |pre + s + post| && WordAt(pre + s + post, |pre| + o) == WordAt(s, o)
  {
    hide LeNat;
    assert (pre + s + post)[|pre| + o..|pre| + o + 4] == s[o..o + 4];
  }

  /** The fields of a file that begins with a signed header, found by their offsets. */
  predicate HeaderLaid(f: seq<byte>, imgType: nat, imgSize: nat, algo: nat, digest: seq<byte>, sig: seq<byte>) {
    && |digest| == 32 && 52 + |sig| <= |f|
    && WordAt(f, 0) == 0x4f545348 && WordAt(f, 4) == imgType && WordAt(f, 8) == imgSize && WordAt(f, 12) == algo
    && LeNat(f[16..18]) == 32 && LeNat(f[18..20]) == |sig|
    && f[20..52] == digest && f[52..52 + |sig|] == sig
  }

  lemma HeaderLayout(imgType: Word, imgSize: Word, algo: Word, digest: Digest, sig: seq<byte>, rest: seq<byte>,
                     f: seq<byte>)
    requires |sig| < 0x1_0000 && f == Shdr(imgType, imgSize, algo, |sig|) + digest + sig + rest
    ensures HeaderLaid(f, imgType, imgSize, algo, digest, sig)
    ensures f[..20] == Shdr(imgType, imgSize, algo, |sig|) && f[52 + |sig|..] == rest
  {
    hide Le, LeNat, Power, Words, WordAt;
    var ws: seq<Word> := [SHDR_MAGIC, imgType, imgSize, algo];
    var w, hs, ss := Words(ws), Le(HASH_SIZE, 2), Le(|sig|, 2);
    assert f == w + (hs + ss + digest + sig + rest);
    HeaderWords(ws, hs + ss + digest + sig + rest, f);
    Powers256();
    LeNatOfLe(HASH_SIZE, 2);
    LeNatOfLe(|sig|, 2);
    assert f[16..18] == hs && f[18..20] == ss;
  }

  /** A header as written, in front of anything. */
  lemma HeaderBack(imgType: Word, imgSize: Word, algo: Word, digest: Digest, sig: seq<byte>, rest: seq<byte>)
    requires KnownAlgo(algo) && |sig| < 0x1_0000
    ensures ParseHeader(Shdr(imgType, imgSize, algo, |sig|) + digest + sig + rest) ==
            Some((Header(Shdr(imgType, imgSize, algo, |sig|), imgType, imgSize, algo, digest, sig), rest))
  {
    hide LeNat, Shdr, WordAt;
    var f := Shdr(imgType, imgSize, algo, |sig|) + digest + sig + rest;
    HeaderLayout(imgType, imgSize, algo, digest, sig, rest, f);
    SliceIs(f, 20, 52);
    SliceIs(f, 52, 52 + |sig|);
    SliceIs(f, 52 + |sig|, |f|);
    hide Slice;
    assert f[52 + |sig|..|f|] == f[52 + |sig|..];
  }

  lemma HeaderWords(ws: seq<Word>, rest: seq<byte>, inf: seq<byte>)
    requires |ws| == 4 && inf == Words(ws) + rest
    ensures |inf| >= 16
    ensures WordAt(inf, 0) == ws[0] && WordAt(inf, 4) == ws[1] && WordAt(inf, 8) == ws[2] && WordAt(inf, 12) == ws[3]
  {
    hide Words, WordAt;
    assert [] + Words(ws) + rest == inf;
    WordsInside([], ws, rest, 0);
    WordsInside([], ws, rest, 1);
    WordsInside([], ws, rest, 2);
    WordsInside([], ws, rest, 3);
  }

  lemma WordsInside(pre: seq<byte>, ws: seq<Word>, post: seq<byte>, i: nat)
    requires i < |ws|
    ensures |pre| + 4 * i + 4 <= |pre + Words(ws) + post|
    ensures WordAt(pre + Words(ws) + post, |pre| + 4 * i) == ws[i]
  {
    hide Words, WordAt;
    WordsAt(ws, i);
    WordInside(pre, Words(ws), post, 4 * i);
  }

  lemma SliceAfter(pre: seq<byte>, s: seq<byte>, a: nat, b: nat)
    ensures Slice(pre + s, |pre| + a, |pre| + b) == Slice(s, a, b)
  {
    var lo, hi := if a < |s| then a else |s|, if b < |s| then b else |s|;
    if lo <= hi {
      assert (pre + s)[|pre| + lo..|pre| + hi] == s[lo..hi];
    }
  }

  /** The words and the attribute values of a subkey image, in front of anything. */
  lemma SubkeyFields(k: Subkey, rest: seq<byte>, body: seq<byte>)
    requires WritableSubkey(k) && body == SubkeyImg(k) + rest
    ensures |body| >= 60 && body[..16] == k.uuid
    ensures forall i :: 0 <= i < 11 ==> WordAt(body, 16 + 4 * i) == SubkeyWords(k)[i]
    ensures var n, e := IntBytes(k.key.n), IntBytes(k.key.e);
      && Slice(body, 60, 60 + |n|) == n && Slice(body, 60 + |n|, 60 + |n| + |e|) == e
  {
    hide WordAt, Words, SubkeyWords, IntBytes, Slice;
    var ws, n, e := SubkeyWords(k), IntBytes(k.key.n), IntBytes(k.key.e);
    assert body == k.uuid + Words(ws) + (n + e + rest);
    forall i | 0 <= i < 11
      ensures WordAt(body, 16 + 4 * i) == ws[i]
    {
      WordsInside(k.uuid, ws, n + e + rest, i);
    }
    var pre := k.uuid + Words(ws);
    SliceIs(body, 60, 60 + |n|);
    SliceIs(body, 60 + |n|, 60 + |n| + |e|);
    PieceAt(pre, n, e + rest);
    assert body == pre + n + (e + rest);
    PieceAt(pre + n, e, rest);
    assert body == pre + n + e + rest;
    assert |pre| == 60 && |pre + n| == 60 + |n|;
    assert body[60..60 + |n|] == n && body[60 + |n|..60 + |n| + |e|] == e;
    assert body[..16] == k.uuid;
  }

  lemma AttrsFound(k: Subkey, rest: seq<byte>, body: seq<byte>)
    requires WritableSubkey(k) && body == SubkeyImg(k) + rest
    ensures FindAttr(body, 2, TEE_ATTR_RSA_MODULUS, 0) == Some(IntBytes(k.key.n))
    ensures FindAttr(body, 2, TEE_ATTR_RSA_PUBLIC_EXPONENT, 0) == Some(IntBytes(k.key.e))
  {
    hide WordAt, IntBytes, Slice, SubkeyImg;
    SubkeyFields(k, rest, body);
    var ws := SubkeyWords(k);
    assert WordAt(body, 16 + 4 * 5) == ws[5] && WordAt(body, 16 + 4 * 6) == ws[6] && WordAt(body, 16 + 4 * 7) == ws[7];
    assert WordAt(body, 16 + 4 * 8) == ws[8] && WordAt(body, 16 + 4 * 9) == ws[9];
    assert WordAt(body, 16 + 4 * 10) == ws[10];
    assert FindAttr(body, 2, TEE_ATTR_RSA_PUBLIC_EXPONENT, 0) == FindAttr(body, 2, TEE_ATTR_RSA_PUBLIC_EXPONENT, 1);
  }

  /** What parsing a written subkey gives. */
  function SubkeyParsed(k: Subkey, rest: seq<byte>): Parsed
    requires WritableSubkey(k)
  {
    hide SubkeyShdr, SubkeyImg, IntBytes, Slice;
    ParsedSubkey(Header(SubkeyShdr(k), SHDR_SUBKEY, |SubkeyImg(k)|, k.sigAlgo, k.digest, k.sig),
                 k.uuid, k.nameSize, k.version, k.maxDepth, k.algo, k.key, SubkeyImg(k),
                 Slice(rest, 0, k.nameSize), Slice(rest, k.nameSize, |rest|))
  }

  lemma SubkeyBodyBack(valid: Key -> bool, k: Subkey, rest: seq<byte>, h: Header)
    requires WritableSubkey(k) && valid(k.key)
    requires h == SubkeyParsed(k, rest).h
    ensures ParseSubkeyBody(valid, h, SubkeyImg(k) + rest) == Some(SubkeyParsed(k, rest))
  {
    hide WordAt, IntBytes, Slice, SubkeyImg, FindAttr, BeNat, SubkeyShdr;
    var img := SubkeyImg(k);
    var body := img + rest;
    SubkeyFields(k, rest, body);
    AttrsFound(k, rest, body);
    IntBytesBack(k.key.n);
    IntBytesBack(k.key.e);
    var ws := SubkeyWords(k);
    assert WordAt(body, 16 + 4 * 0) == ws[0] && WordAt(body, 16 + 4 * 1) == ws[1] && WordAt(body, 16 + 4 * 2) == ws[2];
    assert WordAt(body, 16 + 4 * 3) == ws[3] && WordAt(body, 16 + 4 * 4) == ws[4];
    SliceIs(body, 36, |img|);
    SliceIs(body, 0, |img|);
    SliceAfter(img, rest, 0, k.nameSize);
    SliceAfter(img, rest, k.nameSize, |rest|);
    assert body[0..|img|] == img;
    assert |Slice(body, 36, |img|)| == |img| - 36;
  }

  /** Parsing recovers every field of a written subkey, its modulus and exponent, and what follows it. */
  lemma SubkeyBack(valid: Key -> bool, k: Subkey, rest: seq<byte>)
    requires WritableSubkey(k) && valid(k.key)
    ensures Parse(valid, SubkeyBytes(k) + rest) == Some(SubkeyParsed(k, rest))
  {
    hide SubkeyImg, IntBytes, ParseHeader, ParseSubkeyBody, Shdr, SubkeyParsed;
    var img := SubkeyImg(k);
    assert SubkeyBytes(k) + rest == SubkeyShdr(k) + k.digest + k.sig + (img + rest);
    HeaderBack(SHDR_SUBKEY, |img|, k.sigAlgo, k.digest, k.sig, img + rest);
    var h := Header(SubkeyShdr(k), SHDR_SUBKEY, |img|, k.sigAlgo, k.digest, k.sig);
    ParsedHeaderIs(k, rest, h);
    SubkeyBodyBack(valid, k, rest, h);
  }

  lemma ParsedHeaderIs(k: Subkey, rest: seq<byte>, h: Header)
    requires WritableSubkey(k)
    requires h == Header(SubkeyShdr(k), SHDR_SUBKEY, |SubkeyImg(k)|, k.sigAlgo, k.digest, k.sig)
    ensures SubkeyParsed(k, rest).h == h
  {
    hide SubkeyImg, IntBytes, SubkeyShdr;
  }

  function TaParsed(t: Ta): Parsed
    requires WritableTa(t)
  {
    hide TaShdr, Le;
    ParsedTa(Header(TaShdr(t), SHDR_BOOTSTRAP_TA, |t.img|, t.sigAlgo, t.digest, t.sig), t.uuid, Le(t.version, 4), t.img)
  }

  lemma TaBack(valid: Key -> bool, t: Ta)
    requires WritableTa(t)
    ensures Parse(valid, TaBytes(t)) == Some(TaParsed(t)) && LeNat(Le(t.version, 4)) == t.version
  {
    hide ParseHeader, Shdr, Le, LeNat, Power;
    Powers256();
    LeNatOfLe(t.version, 4);
    var body := t.uuid + Le(t.version, 4) + t.img;
    HeaderBack(SHDR_BOOTSTRAP_TA, |t.img|, t.sigAlgo, t.digest, t.sig, body);
    SliceIs(body, 0, 16);
    SliceIs(body, 16, 20);
    SliceIs(body, 20, |body|);
    assert body[0..16] == t.uuid && body[16..20] == Le(t.version, 4) && body[20..|body|] == t.img;
    hide Slice;
    assert TaBytes(t) == TaShdr(t) + t.digest + t.sig + body;
    var h := Header(TaShdr(t), SHDR_BOOTSTRAP_TA, |t.img|, t.sigAlgo, t.digest, t.sig);
    assert ParseHeader(TaBytes(t)) == Some((h, body));
    assert ParseTaBody(h, body) == Some(TaParsed(t));
  }

  // ---------------------------------------------------------------- the layout

  /** A trusted application as written, field by field. */
  lemma TaLayout(t: Ta)
    requires WritableTa(t)
    ensures var f, b := TaBytes(t), 52 + |t.sig|;
      && HeaderLaid(f, 1, |t.img|, t.sigAlgo, t.digest, t.sig) && |f| == b + 20 + |t.img|
      && f[b..b + 16] == t.uuid && WordAt(f, b + 16) == t.version && f[b + 20..] == t.img
  {
    hide Shdr, Le, LeNat, Power, HeaderLaid;
    var body, f, b := t.uuid + Le(t.version, 4) + t.img, TaBytes(t), 52 + |t.sig|;
    HeaderLayout(SHDR_BOOTSTRAP_TA, |t.img|, t.sigAlgo, t.digest, t.sig, body, f);
    Powers256();
    LeNatOfLe(t.version, 4);
    assert |f| == b + |body|;
    InRest(f, b, body, 0, 16);
    InRest(f, b, body, 16, 20);
    InRest(f, b, body, 20, |body|);
    assert body[0..16] == t.uuid && body[16..20] == Le(t.version, 4) && body[20..|body|] == t.img;
    assert f[b + 20..] == f[b + 20..b + |body|];
  }

  lemma InRest(f: seq<byte>, b: nat, body: seq<byte>, i: nat, j: nat)
    requires b <= |f| && f[b..] == body && i <= j <= |body|
    ensures f[b + i..b + j] == body[i..j]
  {
    assert f[b..][i..j] == f[b + i..b + j];
  }

  /** The body of a subkey: its UUID, what is said of it, and the two attributes with their values. */
  predicate SubkeyLaid(f: seq<byte>, b: nat, k: Subkey, n: nat, e: nat) {
    && b + 60 + n + e == |f| && f[b..b + 16] == k.uuid
    && WordAt(f, b + 16) == k.nameSize && WordAt(f, b + 20) == k.version
    && WordAt(f, b + 24) == k.maxDepth && WordAt(f, b + 28) == k.algo && WordAt(f, b + 32) == 2
    && WordAt(f, b + 36) == 0xD0000130 && WordAt(f, b + 40) == 60 && WordAt(f, b + 44) == n
    && WordAt(f, b + 48) == 0xD0000230 && WordAt(f, b + 52) == 60 + n && WordAt(f, b + 56) == e
    && BeNat(f[b + 60..b + 60 + n]) == k.key.n && BeNat(f[b + 60 + n..]) == k.key.e
  }

  /** A subkey as written, field by field. */
  lemma SubkeyLayout(k: Subkey) returns (n: nat, e: nat)
    requires WritableSubkey(k)
    ensures HeaderLaid(SubkeyBytes(k), 3, 60 + n + e, k.sigAlgo, k.digest, k.sig)
    ensures SubkeyLaid(SubkeyBytes(k), 52 + |k.sig|, k, n, e)
  {
    hide Shdr, IntBytes, SubkeyImg, HeaderLaid, WordAt, BeNat;
    n, e := |IntBytes(k.key.n)|, |IntBytes(k.key.e)|;
    var img, f, b := SubkeyImg(k), SubkeyBytes(k), 52 + |k.sig|;
    HeaderLayout(SHDR_SUBKEY, |img|, k.sigAlgo, k.digest, k.sig, img, f);
    assert |f| == b + |img|;
    BodyLaid(k, img);
    BodyInFile(f, b, img, k, n, e);
  }

  lemma BodyLaid(k: Subkey, img: seq<byte>)
    requires WritableSubkey(k) && img == SubkeyImg(k)
    ensures SubkeyLaid(img, 0, k, |IntBytes(k.key.n)|, |IntBytes(k.key.e)|)
  {
    hide IntBytes, WordAt, BeNat, Slice, SubkeyImg;
    var n, e := IntBytes(k.key.n), IntBytes(k.key.e);
    assert img == img + [];
    SubkeyFields(k, [], img);
    IntBytesBack(k.key.n);
    IntBytesBack(k.key.e);
    SliceIs(img, 60, 60 + |n|);
    SliceIs(img, 60 + |n|, 60 + |n| + |e|);
    assert img[60 + |n|..] == img[60 + |n|..60 + |n| + |e|];
    var ws := SubkeyWords(k);
    assert WordAt(img, 16 + 4 * 0) == ws[0] && WordAt(img, 16 + 4 * 1) == ws[1] && WordAt(img, 16 + 4 * 2) == ws[2];
    assert WordAt(img, 16 + 4 * 3) == ws[3] && WordAt(img, 16 + 4 * 4) == ws[4] && WordAt(img, 16 + 4 * 5) == ws[5];
    assert WordAt(img, 16 + 4 * 6) == ws[6] && WordAt(img, 16 + 4 * 7) == ws[7] && WordAt(img, 16 + 4 * 8) == ws[8];
    assert WordAt(img, 16 + 4 * 9) == ws[9] && WordAt(img, 16 + 4 * 10) == ws[10];
  }

  lemma WordInRest(f: seq<byte>, b: nat, body: seq<byte>, o: nat)
    requires b <= |f| && f[b..] == body && o + 4 <= |body|
    ensures WordAt(f, b + o) == WordAt(body, o)
  {
    hide LeNat;
    InRest(f, b, body, o, o + 4);
  }

  lemma BodyInFile(f: seq<byte>, b: nat, img: seq<byte>, k: Subkey, n: nat, e: nat)
    requires b <= |f| && f[b..] == img && SubkeyLaid(img, 0, k, n, e)
    ensures SubkeyLaid(f, b, k, n, e)
  {
    hide WordAt, BeNat;
    InRest(f, b, img, 0, 16);
    InRest(f, b, img, 60, 60 + n);
    InRest(f, b, img, 60 + n, 60 + n + e);
    assert img[60 + n..] == img[60 + n..60 + n + e] && f[b + 60 + n..] == f[b + 60 + n..b + 60 + n + e];
    forall i | 4 <= i < 15
      ensures WordAt(f, b + 4 * i) == WordAt(img, 4 * i)
    {
      WordInRest(f, b, img, 4 * i);
    }
    assert WordAt(f, b + 4 * 4) == WordAt(img, 4 * 4) && WordAt(f, b + 4 * 5) == WordAt(img, 4 * 5);
    assert WordAt(f, b + 4 * 6) == WordAt(img, 4 * 6) && WordAt(f, b + 4 * 7) == WordAt(img, 4 * 7);
    assert WordAt(f, b + 4 * 8) == WordAt(img, 4 * 8) && WordAt(f, b + 4 * 9) == WordAt(img, 4 * 9);
    assert WordAt(f, b + 4 * 10) == WordAt(img, 4 * 10) && WordAt(f, b + 4 * 11) == WordAt(img, 4 * 11);
    assert WordAt(f, b + 4 * 12) == WordAt(img, 4 * 12) && WordAt(f, b + 4 * 13) == WordAt(img, 4 * 13);
    assert WordAt(f, b + 4 * 14) == WordAt(img, 4 * 14);
  }
}
