/**
 * core/crypto/signed_hdr.c: the secure world's reading of a subkey, and its agreement with the script's.
 * Memory and hash contexts are taken to be available.
 */
module SignedHdr {
  import opened Bytes
  import opened ImageFormat
  import opened ImageUuid
  import opened ImageChain

  /** sizeof(struct shdr_subkey), without its attributes. */
  const SUBKEY_SIZE: nat := 36

  const TEE_MAIN_ALGO_RSA: nat := 0x30

  datatype PubKey = PubKey(uuid: Uuid, nameSize: nat, maxDepth: nat, key: Key, nextUuid: Uuid)

  function AttrCount(img: seq<byte>): nat
    requires |img| >= SUBKEY_SIZE
  {
    WordAt(img, 32)
  }

  /** Attribute n ends inside the image. */
  predicate AttrInside(img: seq<byte>, n: nat)
    requires SUBKEY_SIZE + 12 * n + 12 <= |img|
  {
    WordAt(img, SUBKEY_SIZE + 12 * n + 4) + WordAt(img, SUBKEY_SIZE + 12 * n + 8) <= |img|
  }

  predicate AttrsInside(img: seq<byte>)
    requires |img| >= SUBKEY_SIZE
  {
    && SUBKEY_SIZE + 12 * AttrCount(img) <= |img|
    && forall n :: 0 <= n < AttrCount(img) ==> AttrInside(img, n)
  }

  /** check_attrs. */
  method CheckAttrs(img: seq<byte>) returns (ok: bool)
    requires |img| >= SUBKEY_SIZE
    ensures ok <==> AttrsInside(img)
  {
    hide WordAt, AttrInside;
    var count := AttrCount(img);
    if SUBKEY_SIZE + 12 * count > |img| {
      return false;
    }
    for n := 0 to count
      invariant forall j :: 0 <= j < n ==> AttrInside(img, j)
    {
      if !AttrInside(img, n) {
        return false;
      }
    }
    return true;
  }

  /** find_attr, and the bytes the attribute points at. */
  method LoadAttr(img: seq<byte>, id: nat) returns (r: Option<seq<byte>>)
    requires |img| >= SUBKEY_SIZE && AttrsInside(img)
    ensures r == FindAttr(img, AttrCount(img), id, 0)
  {
    hide WordAt, AttrInside, Slice;
    var count := AttrCount(img);
    var n := 0;
    while n < count
      invariant n <= count && FindAttr(img, count, id, n) == FindAttr(img, count, id, 0)
    {
      var o := SUBKEY_SIZE + 12 * n;
      if WordAt(img, o) == id {
        var at, size := WordAt(img, o + 4), WordAt(img, o + 8);
        AttrBytes(img, n, at, size);
        return Some(img[at..at + size]);
      }
      n := n + 1;
    }
    return None;
  }

  lemma AttrBytes(img: seq<byte>, n: nat, at: nat, size: nat)
    requires SUBKEY_SIZE + 12 * n + 12 <= |img| && AttrInside(img, n)
    requires at == WordAt(img, SUBKEY_SIZE + 12 * n + 4) && size == WordAt(img, SUBKEY_SIZE + 12 * n + 8)
    ensures at + size <= |img| && Slice(img, at, at + size) == img[at..at + size]
  {
    hide LeNat;
  }

  const MAIN_HASH_SHA256: nat := 4

  /** TEE_ALG_GET_DIGEST_HASH of an RSA signature algorithm: bits 12 to 15. */
  function HashId(algo: nat): (id: nat)
    ensures id < 16
  {
    algo / 0x1000 % 16
  }

  /** tee_alg_get_digest_size of a hash, zero for none: SHA-1, SHA-2, SM3 and SHA-3 by their numbers. */
  function DigestSize(id: nat): nat {
    match id
    case 1 => 16
    case 2 => 20
    case 3 => 28
    case 4 => 32
    case 5 => 48
    case 6 => 64
    case 7 => 32
    case 8 => 28
    case 9 => 32
    case 10 => 48
    case 11 => 64
    case _ => 0
  }

  /** is_weak_hash_algo: MD5, SHA-1 and their concatenation. */
  predicate WeakHash(id: nat) {
    id == 1 || id == 2 || id == 15
  }

  function DigestBy(w: World, algo: nat, m: seq<byte>): seq<byte> {
    if HashId(algo) == MAIN_HASH_SHA256 then w.hash(m) else w.others(HashId(algo), m)
  }

  /** The algorithms that the script knows are RSA with SHA-256. */
  lemma KnownIsSha256(w: World, algo: nat, m: seq<byte>)
    requires KnownAlgo(algo)
    ensures HashId(algo) == MAIN_HASH_SHA256 && algo % 256 == TEE_MAIN_ALGO_RSA && DigestBy(w, algo, m) == w.hash(m)
  {
  }

  /** Whether the subkey may be used at this point of a chain. */
  predicate Loadable(w: World, h: Header, body: seq<byte>, expected: Option<Uuid>, maxDepth: nat) {
    && h.imgType == SHDR_SUBKEY && SUBKEY_SIZE <= h.imgSize <= |body|
    && var img := body[..h.imgSize];
       && h.digest == DigestBy(w, h.algo, h.shdr + img) && AttrsInside(img)
       && WordAt(img, 24) < maxDepth && Matches(expected, img[..16])
       && h.imgSize + WordAt(img, 16) <= |body|
       && WordAt(img, 28) % 256 == TEE_MAIN_ALGO_RSA
       && FindAttr(img, AttrCount(img), TEE_ATTR_RSA_PUBLIC_EXPONENT, 0).Some?
       && FindAttr(img, AttrCount(img), TEE_ATTR_RSA_MODULUS, 0).Some?
  }

  /** The key of a subkey that may be used. */
  function PubKeyOf(w: World, h: Header, body: seq<byte>): PubKey
    requires SUBKEY_SIZE <= h.imgSize <= |body|
    requires var img := body[..h.imgSize];
      && h.imgSize + WordAt(img, 16) <= |body|
      && FindAttr(img, AttrCount(img), TEE_ATTR_RSA_PUBLIC_EXPONENT, 0).Some?
      && FindAttr(img, AttrCount(img), TEE_ATTR_RSA_MODULUS, 0).Some?
  {
    hide WordAt, FindAttr, BeNat, NextUuid;
    var img := body[..h.imgSize];
    var n := FindAttr(img, AttrCount(img), TEE_ATTR_RSA_MODULUS, 0).value;
    var e := FindAttr(img, AttrCount(img), TEE_ATTR_RSA_PUBLIC_EXPONENT, 0).value;
    PubKey(img[..16], WordAt(img, 16), WordAt(img, 24), Key(BeNat(n), BeNat(e)),
           NextUuid(w.sha, img[..16], body[h.imgSize..h.imgSize + WordAt(img, 16)]))
  }

  lemma LoadableHas(w: World, h: Header, body: seq<byte>, expected: Option<Uuid>, maxDepth: nat)
    requires Loadable(w, h, body, expected, maxDepth)
    ensures SUBKEY_SIZE <= h.imgSize <= |body|
    ensures var img := body[..h.imgSize];
      && h.imgSize + WordAt(img, 16) <= |body|
      && FindAttr(img, AttrCount(img), TEE_ATTR_RSA_PUBLIC_EXPONENT, 0).Some?
      && FindAttr(img, AttrCount(img), TEE_ATTR_RSA_MODULUS, 0).Some?
    ensures var k := PubKeyOf(w, h, body); k.maxDepth < maxDepth && Matches(expected, k.uuid)
  {
    hide WordAt, FindAttr, AttrsInside, BeNat, NextUuid;
  }

  /** What the script's parser makes of the same bytes. */
  predicate Agrees(w: World, h: Header, body: seq<byte>, k: PubKey) {
    var p := ParseSubkeyBody(w.valid, h, body);
    && p.Some? && p.value.ParsedSubkey?
    && p.value.uuid == k.uuid && p.value.nameSize == k.nameSize && p.value.maxDepth == k.maxDepth
    && p.value.key == k.key && p.value.img == body[..if h.imgSize <= |body| then h.imgSize else 0]
    && k.nextUuid == NextUuid(w.sha, k.uuid, p.value.nameImg)
  }

  /**
   * shdr_load_pub_key. It answers exactly when the subkey may be used; and whatever bytes it answers for, the
   * script reads the same key, the same limits and the same next UUID from them.
   */
  method ShdrLoadPubKey(w: World, h: Header, offs: nat, ns: seq<byte>, expected: Option<Uuid>, maxDepth: nat)
    returns (r: Option<PubKey>)
    requires offs <= |ns|
    ensures r.Some? <==> Loadable(w, h, ns[offs..], expected, maxDepth)
    ensures r.Some? ==> (LoadableHas(w, h, ns[offs..], expected, maxDepth); r.value == PubKeyOf(w, h, ns[offs..]))
    ensures r.Some? && w.valid(r.value.key) ==> Agrees(w, h, ns[offs..], r.value)
  {
    hide WordAt, FindAttr, AttrsInside, NextUuid, BeNat, ParseSubkeyBody, Agrees;
    ghost var body := ns[offs..];
    if h.imgType != SHDR_SUBKEY || h.imgSize < SUBKEY_SIZE || h.imgSize + offs > |ns| {
      return None;
    }
    var img := ns[offs..offs + h.imgSize];
    assert img == body[..h.imgSize];
    if DigestBy(w, h.algo, h.shdr + img) != h.digest {
      return None;
    }
    var ok := CheckAttrs(img);
    if !ok || WordAt(img, 24) >= maxDepth || !Matches(expected, img[..16]) {
      return None;
    }
    var uuid, nameSize := img[..16], WordAt(img, 16);
    if nameSize + offs + h.imgSize > |ns| {
      return None;
    }
    var name := ns[offs + h.imgSize..offs + h.imgSize + nameSize];
    var next := CalcNextUuid(w.sha, uuid, name);
    if WordAt(img, 28) % 256 != TEE_MAIN_ALGO_RSA {
      return None;
    }
    var e := LoadAttr(img, TEE_ATTR_RSA_PUBLIC_EXPONENT);
    var n := LoadAttr(img, TEE_ATTR_RSA_MODULUS);
    if e.None? || n.None? {
      return None;
    }
    var k := PubKey(uuid, nameSize, WordAt(img, 24), Key(BeNat(n.value), BeNat(e.value)), next);
    assert name == body[h.imgSize..h.imgSize + nameSize];
    if w.valid(k.key) {
      ScriptAgrees(w, h, body, img, n.value, e.value, k);
    }
    r := Some(k);
  }

  lemma WordOfPrefix(img: seq<byte>, rest: seq<byte>, o: nat)
    requires o + 4 <= |img|
    ensures WordAt(img + rest, o) == WordAt(img, o)
  {
    hide LeNat;
    assert (img + rest)[o..o + 4] == img[o..o + 4];
  }

  lemma {:induction false} FindAttrOfPrefix(img: seq<byte>, rest: seq<byte>, id: nat, n: nat)
    requires |img| >= SUBKEY_SIZE && AttrsInside(img)
    ensures FindAttr(img + rest, AttrCount(img), id, n) == FindAttr(img, AttrCount(img), id, n)
    decreases if n < AttrCount(img) then AttrCount(img) - n else 0
  {
    hide WordAt, Slice;
    if n < AttrCount(img) {
      var o := SUBKEY_SIZE + 12 * n;
      WordOfPrefix(img, rest, o);
      WordOfPrefix(img, rest, o + 4);
      WordOfPrefix(img, rest, o + 8);
      FindAttrOfPrefix(img, rest, id, n + 1);
      assert AttrInside(img, n);
      SliceOfPrefix(img, rest, WordAt(img, o + 4), WordAt(img, o + 4) + WordAt(img, o + 8));
    }
  }

  lemma SliceOfPrefix(img: seq<byte>, rest: seq<byte>, a: nat, b: nat)
    requires a <= b <= |img|
    ensures Slice(img + rest, a, b) == Slice(img, a, b)
  {
  }

  lemma ScriptAgrees(w: World, h: Header, body: seq<byte>, img: seq<byte>, n: seq<byte>, e: seq<byte>, k: PubKey)
    requires SUBKEY_SIZE <= h.imgSize <= |body| && img == body[..h.imgSize] && AttrsInside(img)
    requires FindAttr(img, AttrCount(img), TEE_ATTR_RSA_MODULUS, 0) == Some(n)
    requires FindAttr(img, AttrCount(img), TEE_ATTR_RSA_PUBLIC_EXPONENT, 0) == Some(e)
    requires k.uuid == img[..16] && k.nameSize == WordAt(img, 16) && k.maxDepth == WordAt(img, 24)
    requires k.key == Key(BeNat(n), BeNat(e)) && w.valid(k.key) && h.imgSize + k.nameSize <= |body|
    requires k.nextUuid == NextUuid(w.sha, k.uuid, body[h.imgSize..h.imgSize + k.nameSize])
    ensures Agrees(w, h, body, k)
  {
    hide WordAt, FindAttr, AttrsInside, NextUuid, BeNat, Slice;
    var rest := body[h.imgSize..];
    assert body == img + rest;
    WordOfPrefix(img, rest, 16);
    WordOfPrefix(img, rest, 24);
    WordOfPrefix(img, rest, 32);
    FindAttrOfPrefix(img, rest, TEE_ATTR_RSA_MODULUS, 0);
    FindAttrOfPrefix(img, rest, TEE_ATTR_RSA_PUBLIC_EXPONENT, 0);
    SliceIs(body, 36, h.imgSize);
    SliceIs(body, 0, h.imgSize);
    SliceIs(body, h.imgSize, h.imgSize + k.nameSize);
    assert |Slice(body, 36, h.imgSize)| == h.imgSize - 36;
    assert body[0..h.imgSize] == img;
    assert body[..16] == img[..16];
  }

  // ------------------------------------------------------------- whole chains

  /** shdr_alloc_and_copy: a header that lies in what is left of the image, and what follows it. */
  function HeaderOf(inf: seq<byte>): Option<(Header, seq<byte>)> {
    hide LeNat;
    if |inf| < 20 then None else
    var hashSize, sigSize := LeNat(inf[16..18]), LeNat(inf[18..20]);
    var size := 20 + hashSize + sigSize;
    if size > |inf| then None
    else
      Some((Header(inf[..20], WordAt(inf, 4), WordAt(inf, 8), WordAt(inf, 12), inf[20..20 + hashSize],
                   inf[20 + hashSize..size]), inf[size..]))
  }

  lemma HeaderShrinks(inf: seq<byte>)
    requires HeaderOf(inf).Some?
    ensures var r := HeaderOf(inf).value;
      |r.0.shdr| == 20 && |r.0.digest| + |r.0.sig| + 20 + |r.1| == |inf| && r.1 == inf[|inf| - |r.1|..]
  {
    hide LeNat, WordAt;
  }

  /** The signature over the header's digest, as shdr_verify_signature and shdr_verify_signature2 check it. */
  predicate Trusted(w: World, key: Key, h: Header)
    requires |h.shdr| == 20
  {
    var id := HashId(h.algo);
    && WordAt(h.shdr, 0) == SHDR_MAGIC && h.algo % 256 == TEE_MAIN_ALGO_RSA
    && !WeakHash(id) && DigestSize(id) != 0 && |h.digest| == DigestSize(id)
    && w.check(key, h.algo, h.digest, h.sig)
  }

  predicate IsTa(imgType: nat) {
    imgType <= 2
  }

  /** The subkeys in front of a trusted application, if the secure world goes along with them. */
  function Walk(w: World, key: Key, inf: seq<byte>, expected: Option<Uuid>, maxDepth: nat, taUuid: Uuid)
    : Option<seq<PubKey>>
    decreases |inf|
  {
    hide HeaderOf, Trusted, Loadable, PubKeyOf;
    match HeaderOf(inf)
    case None => None
    case Some((h, body)) =>
      HeaderShrinks(inf);
      if !Trusted(w, key, h) then None
      else if h.imgType != SHDR_SUBKEY then
        if IsTa(h.imgType) && Matches(expected, taUuid) then Some([]) else None
      else if !Loadable(w, h, body, expected, maxDepth) then None
      else
        LoadableHas(w, h, body, expected, maxDepth);
        var k := PubKeyOf(w, h, body);
        NameSizeOf(w, h, body, k);
        Continued([k], Walk(w, k.key, body[h.imgSize + k.nameSize..], Some(k.nextUuid), k.maxDepth, taUuid))
  }

  lemma NameSizeOf(w: World, h: Header, body: seq<byte>, k: PubKey)
    requires SUBKEY_SIZE <= h.imgSize <= |body|
    requires var img := body[..h.imgSize];
      && h.imgSize + WordAt(img, 16) <= |body|
      && FindAttr(img, AttrCount(img), TEE_ATTR_RSA_PUBLIC_EXPONENT, 0).Some?
      && FindAttr(img, AttrCount(img), TEE_ATTR_RSA_MODULUS, 0).Some?
    requires k == PubKeyOf(w, h, body)
    ensures h.imgSize + k.nameSize <= |body|
  {
    hide WordAt, FindAttr;
  }

  /** The keys so far in front of those still to come. */
  function Continued(keys: seq<PubKey>, rest: Option<seq<PubKey>>): Option<seq<PubKey>> {
    if rest.None? then None else Some(keys + rest.value)
  }

  lemma ContinuedMore(keys: seq<PubKey>, k: PubKey, rest: Option<seq<PubKey>>)
    ensures Continued(keys, Continued([k], rest)) == Continued(keys + [k], rest)
  {
    if rest.Some? {
      assert keys + ([k] + rest.value) == keys + [k] + rest.value;
    }
  }

  lemma NoneBefore(rest: Option<seq<PubKey>>)
    ensures Continued([], rest) == rest
  {
    if rest.Some? {
      assert [] + rest.value == rest.value;
    }
  }

  /** The loop of ree_fs_ta_open over the subkeys in front of a trusted application. */
  method LoadChain(w: World, root: Key, ns: seq<byte>, taUuid: Uuid)
    returns (r: Option<seq<PubKey>>, ghost offs: seq<nat>)
    ensures r == Walk(w, root, ns, None, U32 - 1, taUuid)
    ensures r.Some? ==> SignedChain(w, root, ns, 0, r.value, offs)
    ensures r.Some? && r.value != [] ==> taUuid == r.value[|r.value| - 1].nextUuid
  {
    hide Walk, SignedChain;
    r := WalkChain(w, root, ns, taUuid);
    offs := [];
    if r.Some? {
      assert ns[0..] == ns;
      offs := LoadedIsSigned(w, root, ns, 0, None, U32 - 1, taUuid);
    }
  }

  method WalkChain(w: World, root: Key, ns: seq<byte>, taUuid: Uuid) returns (r: Option<seq<PubKey>>)
    ensures r == Walk(w, root, ns, None, U32 - 1, taUuid)
  {
    hide HeaderOf, Trusted, Loadable, Agrees, ParseSubkeyBody, PubKeyOf, Matches;
    var keys: seq<PubKey>, offs, key := [], 0, root;
    var maxDepth: nat, expected: Option<Uuid> := U32 - 1, None;
    assert ns[0..] == ns;
    NoneBefore(Walk(w, root, ns, None, U32 - 1, taUuid));
    while true
      invariant offs <= |ns|
      invariant Continued(keys, Walk(w, key, ns[offs..], expected, maxDepth, taUuid)) ==
                Walk(w, root, ns, None, U32 - 1, taUuid)
      decreases |ns| - offs
    {
      var at := HeaderOf(ns[offs..]);
      if at.None? {
        return None;
      }
      HeaderShrinks(ns[offs..]);
      var h := at.value.0;
      offs := |ns| - |at.value.1|;
      if !Trusted(w, key, h) {
        return None;
      }
      if h.imgType != SHDR_SUBKEY {
        assert keys + [] == keys;
        return if IsTa(h.imgType) && Matches(expected, taUuid) then Some(keys) else None;
      }
      var k := ShdrLoadPubKey(w, h, offs, ns, expected, maxDepth);
      if k.None? {
        return None;
      }
      LoadableHas(w, h, ns[offs..], expected, maxDepth);
      NameSizeOf(w, h, ns[offs..], k.value);
      ghost var next := ns[offs + h.imgSize + k.value.nameSize..];
      ContinuedMore(keys, k.value, Walk(w, k.value.key, next, Some(k.value.nextUuid), k.value.maxDepth, taUuid));
      keys := keys + [k.value];
      assert ns[offs..][h.imgSize + k.value.nameSize..] == ns[offs + h.imgSize + k.value.nameSize..];
      offs := offs + h.imgSize + k.value.nameSize;
      key, maxDepth, expected := k.value.key, k.value.maxDepth, Some(k.value.nextUuid);
    }
  }

  // --------------------------------------------------- what the offsets alone say

  /** A header at offset o, its digest and its signature lie in the file. */
  predicate FitsAt(ns: seq<byte>, o: nat) {
    o + 20 <= |ns| && BodyAt(ns, o) <= |ns|
  }

  /** Where digest, signature and image of the header at offset o begin. */
  function SigOffset(ns: seq<byte>, o: nat): (r: nat)
    requires o + 20 <= |ns|
    ensures r >= o + 20
  {
    o + 20 + LeNat(ns[o + 16..o + 18])
  }

  function BodyAt(ns: seq<byte>, o: nat): (r: nat)
    requires o + 20 <= |ns|
    ensures r >= SigOffset(ns, o)
  {
    SigOffset(ns, o) + LeNat(ns[o + 18..o + 20])
  }

  function DigestAt(ns: seq<byte>, o: nat): seq<byte>
    requires FitsAt(ns, o)
  {
    ns[o + 20..SigOffset(ns, o)]
  }

  function SigAt(ns: seq<byte>, o: nat): seq<byte>
    requires FitsAt(ns, o)
  {
    ns[SigOffset(ns, o)..BodyAt(ns, o)]
  }

  /** A signature algorithm of the code: RSA over a hash that is not weak, with the digest size of that hash. */
  predicate StrongAt(ns: seq<byte>, o: nat)
    requires FitsAt(ns, o)
  {
    var algo := WordAt(ns, o + 12);
    var id, size := algo / 0x1000 % 16, LeNat(ns[o + 16..o + 18]);
    && WordAt(ns, o) == 0x4f545348 && algo % 256 == 0x30
    && id != 0 && id != 1 && id != 2 && id < 12
    && size == if id == 3 || id == 8 then 28 else if id == 5 || id == 10 then 48
               else if id == 6 || id == 11 then 64 else 32
  }

  /** The number in the first attribute with the given id in the image of a subkey. */
  ghost predicate NumberIs(img: seq<byte>, id: nat, x: nat) {
    |img| >= 36 && exists n :: NumberAt(img, id, n, x)
  }

  ghost predicate NumberAt(img: seq<byte>, id: nat, n: nat, x: nat)
    requires |img| >= 36
  {
    && n < WordAt(img, 32) && 36 + 12 * n + 12 <= |img| && WordAt(img, 36 + 12 * n) == id
    && (forall i :: 0 <= i < n ==> IdAt(img, i) != id)
    && var at, size := WordAt(img, 36 + 12 * n + 4), WordAt(img, 36 + 12 * n + 8);
       at + size <= |img| && x == BeNat(img[at..at + size])
  }

  function IdAt(img: seq<byte>, i: nat): nat {
    if 36 + 12 * i + 4 <= |img| then WordAt(img, 36 + 12 * i) else 0
  }

  /** The subkey whose header is at offset o: its image, what the header's digest is of, and what is read from it. */
  ghost predicate SubkeyAt(w: World, ns: seq<byte>, o: nat, k: PubKey, next: nat)
    requires FitsAt(ns, o)
  {
    var b, size, algo := BodyAt(ns, o), WordAt(ns, o + 8), WordAt(ns, o + 12);
    && WordAt(ns, o + 4) == 3 && 36 <= size && b + size <= |ns|
    && var img := ns[b..b + size];
       && DigestAt(ns, o) == (if algo / 0x1000 % 16 == 4 then w.hash(ns[o..o + 20] + img)
                              else w.others(algo / 0x1000 % 16, ns[o..o + 20] + img))
       && k.uuid == img[..16] && k.nameSize == WordAt(img, 16) && k.maxDepth == WordAt(img, 24)
       && NumberIs(img, 0xD0000130, k.key.n) && NumberIs(img, 0xD0000230, k.key.e)
       && next == b + size + k.nameSize <= |ns|
       && k.nextUuid == NextUuid(w.sha, k.uuid, ns[b + size..next])
  }

  lemma HeaderHere(w: World, key: Key, ns: seq<byte>, o: nat, h: Header, body: seq<byte>)
    requires o <= |ns| && HeaderOf(ns[o..]) == Some((h, body)) && |h.shdr| == 20 && Trusted(w, key, h)
    ensures FitsAt(ns, o) && StrongAt(ns, o) && w.check(key, WordAt(ns, o + 12), DigestAt(ns, o), SigAt(ns, o))
    ensures h.imgType == WordAt(ns, o + 4) && h.imgSize == WordAt(ns, o + 8) && h.algo == WordAt(ns, o + 12)
    ensures h.shdr == ns[o..o + 20] && h.digest == DigestAt(ns, o) && body == ns[BodyAt(ns, o)..]
  {
    hide LeNat;
    var t := ns[o..];
    SliceIn(ns, o, 0, 4);
    SliceIn(ns, o, 4, 8);
    SliceIn(ns, o, 8, 12);
    SliceIn(ns, o, 12, 16);
    SliceIn(ns, o, 16, 18);
    SliceIn(ns, o, 18, 20);
    SliceIn(ns, o, 0, 20);
    assert h.shdr[0..4] == t[0..4];
    var a := 20 + LeNat(t[16..18]);
    var b := a + LeNat(t[18..20]);
    SliceIn(ns, o, 20, a);
    SliceIn(ns, o, a, b);
    SliceTwice(ns, o, b);
  }

  lemma SliceIn(ns: seq<byte>, o: nat, i: nat, j: nat)
    requires i <= j && o + j <= |ns|
    ensures ns[o..][i..j] == ns[o + i..o + j]
  {
  }

  lemma {:induction false} AttrFound(img: seq<byte>, id: nat, n: nat)
    requires |img| >= 36 && AttrsInside(img) && FindAttr(img, AttrCount(img), id, n).Some?
    requires forall i :: 0 <= i < n ==> IdAt(img, i) != id
    ensures NumberIs(img, id, BeNat(FindAttr(img, AttrCount(img), id, n).value))
    decreases AttrCount(img) - n
  {
    hide WordAt, BeNat, AttrInside;
    var o := 36 + 12 * n;
    if WordAt(img, o) == id {
      var at, size := WordAt(img, o + 4), WordAt(img, o + 8);
      AttrBytes(img, n, at, size);
      assert NumberAt(img, id, n, BeNat(img[at..at + size]));
    } else {
      assert IdAt(img, n) != id;
      AttrFound(img, id, n + 1);
    }
  }

  lemma SubkeyHere(w: World, ns: seq<byte>, o: nat, h: Header, body: seq<byte>, expected: Option<Uuid>, maxDepth: nat)
    requires FitsAt(ns, o) && Loadable(w, h, body, expected, maxDepth)
    requires h.imgType == WordAt(ns, o + 4) && h.imgSize == WordAt(ns, o + 8) && h.algo == WordAt(ns, o + 12)
    requires h.shdr == ns[o..o + 20] && h.digest == DigestAt(ns, o) && body == ns[BodyAt(ns, o)..]
    ensures (LoadableHas(w, h, body, expected, maxDepth);
             var k := PubKeyOf(w, h, body); SubkeyAt(w, ns, o, k, BodyAt(ns, o) + h.imgSize + k.nameSize))
  {
    hide WordAt, FindAttr, BeNat, NextUuid, NumberIs, BodyAt, DigestAt;
    LoadableHas(w, h, body, expected, maxDepth);
    var b, k := BodyAt(ns, o), PubKeyOf(w, h, body);
    var img := body[..h.imgSize];
    assert img == ns[b..b + h.imgSize];
    AttrFound(img, TEE_ATTR_RSA_MODULUS, 0);
    AttrFound(img, TEE_ATTR_RSA_PUBLIC_EXPONENT, 0);
    var e := b + h.imgSize;
    assert body[h.imgSize..h.imgSize + k.nameSize] == ns[e..e + k.nameSize];
  }

  /** The key that checks the i-th header: the root, then the key in the subkey before. */
  function CheckingKey(root: Key, keys: seq<PubKey>, i: nat): Key
    requires i <= |keys|
  {
    if i == 0 then root else keys[i - 1].key
  }

  /** The header at offset o is signed under the key. */
  ghost predicate SignedAt(w: World, key: Key, ns: seq<byte>, o: nat) {
    hide WordAt, DigestAt, SigAt, StrongAt, BodyAt;
    FitsAt(ns, o) && StrongAt(ns, o) && w.check(key, WordAt(ns, o + 12), DigestAt(ns, o), SigAt(ns, o))
  }

  /** Subkey `i` stands at its offset, and the next header behind it. */
  ghost predicate SubkeyStep(w: World, ns: seq<byte>, keys: seq<PubKey>, offs: seq<nat>, i: nat)
    requires i < |keys| < |offs|
  {
    FitsAt(ns, offs[i]) && SubkeyAt(w, ns, offs[i], keys[i], offs[i + 1])
  }

  /**
   * Headers at offsets that follow from the sizes in the file, each signed under the key of the subkey before it,
   * each subkey's digest that of its header and image, and a trusted application at the end.
   */
  ghost predicate SignedChain(w: World, root: Key, ns: seq<byte>, o: nat, keys: seq<PubKey>, offs: seq<nat>) {
    && |offs| == |keys| + 1 && offs[0] == o
    && (forall i :: 0 <= i <= |keys| ==> SignedAt(w, CheckingKey(root, keys, i), ns, offs[i]))
    && (forall i :: 0 <= i < |keys| ==> SubkeyStep(w, ns, keys, offs, i))
    && offs[|keys|] + 8 <= |ns| && WordAt(ns, offs[|keys|] + 4) <= 2
  }

  lemma SignedLast(w: World, root: Key, ns: seq<byte>, o: nat)
    requires SignedAt(w, root, ns, o) && FitsAt(ns, o) && WordAt(ns, o + 4) <= 2
    ensures SignedChain(w, root, ns, o, [], [o])
  {
    hide SignedAt, WordAt;
  }

  lemma SignedMore(w: World, root: Key, ns: seq<byte>, o: nat, k: PubKey, keys: seq<PubKey>, offs: seq<nat>, next: nat)
    requires SignedAt(w, root, ns, o) && FitsAt(ns, o) && SubkeyAt(w, ns, o, k, next)
    requires SignedChain(w, k.key, ns, next, keys, offs)
    ensures SignedChain(w, root, ns, o, [k] + keys, [o] + offs)
  {
    hide SignedAt, SubkeyAt, FitsAt, WordAt;
    var all, at := [k] + keys, [o] + offs;
    forall i | 0 <= i <= |all|
      ensures SignedAt(w, CheckingKey(root, all, i), ns, at[i])
    {
      hide SubkeyStep;
      if i > 0 {
        assert SignedAt(w, CheckingKey(k.key, keys, i - 1), ns, offs[i - 1]);
        assert at[i] == offs[i - 1];
      }
    }
    forall i | 0 <= i < |all|
      ensures SubkeyStep(w, ns, all, at, i)
    {
      if i > 0 {
        assert SubkeyStep(w, ns, keys, offs, i - 1);
        assert at[i] == offs[i - 1] && at[i + 1] == offs[i] && all[i] == keys[i - 1];
      }
    }
  }

  /** Whatever the bytes, a chain that is gone along with is signed from the root on. */
  lemma {:induction false} LoadedIsSigned(w: World, key: Key, ns: seq<byte>, o: nat, expected: Option<Uuid>,
                                          maxDepth: nat, taUuid: Uuid) returns (offs: seq<nat>)
    requires o <= |ns| && Walk(w, key, ns[o..], expected, maxDepth, taUuid).Some?
    ensures var keys := Walk(w, key, ns[o..], expected, maxDepth, taUuid).value;
      && SignedChain(w, key, ns, o, keys, offs)
      && Matches(if keys == [] then expected else Some(keys[|keys| - 1].nextUuid), taUuid)
    decreases |ns| - o
  {
    hide HeaderOf, Trusted, Loadable, PubKeyOf, SubkeyAt, StrongAt, WordAt, SignedChain, DigestAt, SigAt;
    var h, body := HeaderOf(ns[o..]).value.0, HeaderOf(ns[o..]).value.1;
    HeaderShrinks(ns[o..]);
    HeaderHere(w, key, ns, o, h, body);
    offs := [o];
    if h.imgType != SHDR_SUBKEY {
      SignedLast(w, key, ns, o);
    } else {
      LoadableHas(w, h, body, expected, maxDepth);
      var k := PubKeyOf(w, h, body);
      NameSizeOf(w, h, body, k);
      var b, n := BodyAt(ns, o), h.imgSize + k.nameSize;
      SubkeyHere(w, ns, o, h, body, expected, maxDepth);
      SliceTwice(ns, b, n);
      var rest := LoadedIsSigned(w, k.key, ns, b + n, Some(k.nextUuid), k.maxDepth, taUuid);
      offs := [o] + rest;
      var more := Walk(w, k.key, ns[b + n..], Some(k.nextUuid), k.maxDepth, taUuid).value;
      SignedMore(w, key, ns, o, k, more, rest, b + n);
    }
  }

  lemma SliceTwice(ns: seq<byte>, b: nat, n: nat)
    requires b + n <= |ns|
    ensures ns[b..][n..] == ns[b + n..]
  {
  }

  /** Each key sinks below the one before it and is named by it. */
  predicate Linked(keys: seq<PubKey>) {
    forall i :: 0 < i < |keys| ==> keys[i].maxDepth < keys[i - 1].maxDepth && keys[i].uuid == keys[i - 1].nextUuid
  }

  /** Whatever the bytes, the keys of a chain that is gone along with are linked and few. */
  lemma {:induction false} LoadedChainIsShort(w: World, key: Key, inf: seq<byte>, expected: Option<Uuid>, maxDepth: nat,
                                              taUuid: Uuid)
    requires Walk(w, key, inf, expected, maxDepth, taUuid).Some?
    ensures var keys := Walk(w, key, inf, expected, maxDepth, taUuid).value;
      && Linked(keys)
      && (keys != [] ==>
            keys[0].maxDepth < maxDepth && Matches(expected, keys[0].uuid) && |keys| <= keys[0].maxDepth + 1)
    decreases |inf|
  {
    hide HeaderOf, Trusted, Loadable, PubKeyOf;
    var h, body := HeaderOf(inf).value.0, HeaderOf(inf).value.1;
    HeaderShrinks(inf);
    if h.imgType == SHDR_SUBKEY {
      LoadableHas(w, h, body, expected, maxDepth);
      var k := PubKeyOf(w, h, body);
      NameSizeOf(w, h, body, k);
      LoadedChainIsShort(w, k.key, body[h.imgSize + k.nameSize..], Some(k.nextUuid), k.maxDepth, taUuid);
    }
  }

  // ------------------------------------------------------- chains as written

  lemma WrittenAttrs(k: Subkey, img: seq<byte>)
    requires WritableSubkey(k) && img == SubkeyImg(k)
    ensures |img| >= 60 && AttrCount(img) == 2 && AttrsInside(img)
    ensures WordAt(img, 16) == k.nameSize && WordAt(img, 24) == k.maxDepth && WordAt(img, 28) == k.algo
    ensures img[..16] == k.uuid
    ensures FindAttr(img, 2, TEE_ATTR_RSA_MODULUS, 0).Some? && FindAttr(img, 2, TEE_ATTR_RSA_PUBLIC_EXPONENT, 0).Some?
  {
    hide WordAt, IntBytes, Slice, Words, FindAttr;
    assert img + [] == img;
    SubkeyFields(k, [], img);
    AttrsFound(k, [], img);
    var ws := SubkeyWords(k);
    assert WordAt(img, 16 + 4 * 0) == ws[0] && WordAt(img, 16 + 4 * 2) == ws[2] && WordAt(img, 16 + 4 * 3) == ws[3];
    assert WordAt(img, 16 + 4 * 4) == ws[4];
    assert WordAt(img, 16 + 4 * 6) == ws[6] && WordAt(img, 16 + 4 * 7) == ws[7];
    assert WordAt(img, 16 + 4 * 9) == ws[9] && WordAt(img, 16 + 4 * 10) == ws[10];
    assert AttrInside(img, 0) && AttrInside(img, 1);
  }

  /** A subkey as the script writes it can be used exactly where its UUID and depth allow. */
  lemma WrittenIsLoadable(w: World, k: Subkey, rest: seq<byte>, expected: Option<Uuid>, maxDepth: nat)
    requires WritableSubkey(k) && k.digest == w.hash(SubkeyShdr(k) + SubkeyImg(k)) && |rest| >= k.nameSize
    ensures Loadable(w, SubkeyParsed(k, rest).h, SubkeyImg(k) + rest, expected, maxDepth) <==>
            k.maxDepth < maxDepth && Matches(expected, k.uuid)
  {
    hide WordAt, IntBytes, Slice, FindAttr, SubkeyImg, SubkeyShdr, AttrsInside, SubkeyParsed;
    var img, h := SubkeyImg(k), SubkeyParsed(k, rest).h;
    WrittenAttrs(k, img);
    WrittenHeader(k, rest, h);
    KnownIsSha256(w, h.algo, h.shdr + img);
    assert (img + rest)[..|img|] == img;
  }

  lemma WrittenHeader(k: Subkey, rest: seq<byte>, h: Header)
    requires WritableSubkey(k) && h == SubkeyParsed(k, rest).h
    ensures h.imgType == SHDR_SUBKEY && h.imgSize == |SubkeyImg(k)| && h.shdr == SubkeyShdr(k) && h.digest == k.digest
    ensures h.algo == k.sigAlgo && KnownAlgo(h.algo)
  {
    hide IntBytes, Slice, SubkeyImg, SubkeyShdr;
  }

  /** Such a chain. */
  lemma IdentitySubkeyExample()
    ensures exists w: World, root: Key, l: Link, t: Ta ::
      Writable([l], Some(t)) && Correct(w, root, None, -1, [l], Some(t)) && l.key.nameSize == 0
  {
    hide SubkeyShdr, SubkeyImg, TaShdr, Le;
    var w := World(k => true, m => Zeros(32), m => Zeros(64), (k, a, d, s) => true, s => true, (a, m) => []);
    var key := Key(3, 3);
    assert BitLength(3) == 2;
    var k := Subkey(Zeros(16), 0, 0, 0, 0x70414930, key, 0x70414930, Zeros(32), []);
    var t := Ta(Zeros(16), 0, [], 0x70414930, Zeros(32), []);
    var l := Link(k, []);
    assert |IntBytes(3)| == 1;
    assert [l][1..] == [] && NameImg([], 0) == [];
    assert Writable([], Some(t)) && Writable([l], Some(t));
    assert Correct(w, key, Some(Zeros(16)), 0, [], Some(t));
    assert Correct(w, key, None, -1, [l], Some(t));
  }

  /** On a header with something behind it the secure world and the script read the same. */
  lemma HeadersAgree(inf: seq<byte>, h: Header, body: seq<byte>)
    requires ParseHeader(inf) == Some((h, body)) && body != []
    ensures HeaderOf(inf) == Some((h, body))
    ensures |h.shdr| == 20 && WordAt(h.shdr, 0) == SHDR_MAGIC && |h.digest| == HASH_SIZE
  {
    hide LeNat;
    var offs := 52 + LeNat(inf[18..20]);
    SliceIs(inf, 20, 52);
    SliceIs(inf, 52, offs);
    SliceIs(inf, offs, |inf|);
    assert h.shdr[0..4] == inf[0..4];
    assert h.digest == inf[20..52] && h.sig == inf[52..offs] && body == inf[offs..];
    var r := HeaderOf(inf);
    assert r.Some? && r.value.1 == body;
    assert r.value.0 == h;
  }

  /** The keys of a chain, as the secure world is to see them. */
  function KeysOf(w: World, links: seq<Link>): seq<PubKey>
    requires forall i :: 0 <= i < |links| ==> WritableLink(links[i])
    decreases |links|
  {
    hide WritableSubkey, NextUuid, NameImg;
    if links == [] then [] else
    assert WritableLink(links[0]);
    var k := links[0].key;
    [PubKey(k.uuid, k.nameSize, k.maxDepth, k.key, NextUuid(w.sha, k.uuid, NameImg(links[0].name, k.nameSize)))] +
    KeysOf(w, links[1..])
  }

  lemma WrittenPubKey(w: World, k: Subkey, nameImg: seq<byte>, rest: seq<byte>, h: Header, body: seq<byte>)
    requires WritableSubkey(k) && |nameImg| == k.nameSize && h == SubkeyParsed(k, nameImg + rest).h
    requires body == SubkeyImg(k) + (nameImg + rest)
    ensures SUBKEY_SIZE <= h.imgSize <= |body|
    ensures var img := body[..h.imgSize];
      && h.imgSize + WordAt(img, 16) <= |body|
      && FindAttr(img, AttrCount(img), TEE_ATTR_RSA_PUBLIC_EXPONENT, 0).Some?
      && FindAttr(img, AttrCount(img), TEE_ATTR_RSA_MODULUS, 0).Some?
    ensures PubKeyOf(w, h, body) == PubKey(k.uuid, k.nameSize, k.maxDepth, k.key, NextUuid(w.sha, k.uuid, nameImg))
    ensures body[h.imgSize + k.nameSize..] == rest
  {
    hide WordAt, FindAttr, BeNat, NextUuid, IntBytes, SubkeyImg, SubkeyParsed, Slice;
    var img := SubkeyImg(k);
    WrittenHeader(k, nameImg + rest, h);
    WrittenAttrs(k, img);
    assert img + [] == img;
    ThreeParts(img, nameImg, rest, body);
    AttrsFound(k, [], img);
    IntBytesBack(k.key.n);
    IntBytesBack(k.key.e);
  }

  lemma ThreeParts(a: seq<byte>, b: seq<byte>, c: seq<byte>, all: seq<byte>)
    requires all == a + (b + c)
    ensures all[..|a|] == a && all[|a|..|a| + |b|] == b && all[|a| + |b|..] == c
  {
  }

  /**
   * A correctly signed chain in front of its trusted application is gone along with exactly when its first
   * depth is below the limit it starts with, and then with its keys, depths and UUIDs.
   */
  lemma {:induction false} CorrectIsLoaded(w: World, root: Key, expected: Option<Uuid>, depth: int, limit: nat,
                                           links: seq<Link>, t: Ta)
    requires Writable(links, Some(t)) && Correct(w, root, expected, depth, links, Some(t))
    requires depth >= 0 ==> limit == depth
    ensures Walk(w, root, FileOf(links, Some(t)), expected, limit, t.uuid) ==
            if links != [] && links[0].key.maxDepth >= limit then None else Some(KeysOf(w, links))
    decreases |links|
  {
    hide HeaderOf, Trusted, Loadable, PubKeyOf, FileOf, Rest, SubkeyParsed, SubkeyShdr, SubkeyImg, IntBytes, TaShdr, Le,
         NextUuid, NameImg, Shdr, WritableTa, ParseHeader, SubkeyBytes, TaBytes;
    var inf := FileOf(links, Some(t));
    if links == [] {
      assert WritableTa(t) by {
        TaWritable(t);
      }
      TaHeader(t, inf);
      TaTrusted(w, root, t, inf);
    } else {
      var k, rest := links[0].key, Rest(links, Some(t));
      var h, body := SubkeyParsed(k, rest).h, SubkeyImg(k) + rest;
      SubkeyHeader(links, t, inf, h, body);
      WrittenHeader(k, rest, h);
      SubkeyTrusted(w, root, k, rest, inf, h, body);
      RestIs(links, t);
      var nameImg, more := NameImg(links[0].name, k.nameSize), FileOf(links[1..], Some(t));
      WrittenIsLoadable(w, k, rest, expected, limit);
      WrittenPubKey(w, k, nameImg, more, h, body);
      if k.maxDepth < limit {
        CorrectIsLoaded(w, k.key, Some(NextUuid(w.sha, k.uuid, nameImg)), k.maxDepth, k.maxDepth, links[1..], t);
        assert links[1..] != [] ==> links[1].key.maxDepth < k.maxDepth by {
          if links[1..] != [] {
            assert links[1..][0] == links[1];
          }
        }
      }
    }
  }

  /**
   * Where the two verifiers differ: an identity subkey, one without a name field, in front of a trusted
   * application with its UUID. The secure world goes along with it; the script refuses.
   */
  lemma IdentitySubkeyDiffers(w: World, root: Key, l: Link, t: Ta)
    requires Writable([l], Some(t)) && Correct(w, root, None, -1, [l], Some(t))
    requires l.key.nameSize == 0 && l.key.maxDepth < U32 - 1
    ensures t.uuid == l.key.uuid == NextUuid(w.sha, l.key.uuid, [])
    ensures Walk(w, root, FileOf([l], Some(t)), None, U32 - 1, t.uuid) == Some(KeysOf(w, [l]))
    ensures !Verify(w, FileOf([l], Some(t)), root, Unset, -1, t.uuid)
  {
    hide Verify, Walk, FileOf, Rest, SubkeyParsed, SubkeyImg, SubkeyShdr, IntBytes, TaShdr, Le, KeysOf;
    assert [l][0] == l && [l][1..] == [];
    assert NameImg(l.name, 0) == [];
    CorrectIsAccepted(w, root, None, -1, [l], Some(t), t.uuid);
    CorrectIsLoaded(w, root, None, -1, U32 - 1, [l], t);
  }

  lemma TaWritable(t: Ta)
    requires Writable([], Some(t))
    ensures WritableTa(t)
  {
  }

  lemma RestIs(links: seq<Link>, t: Ta)
    requires Writable(links, Some(t)) && links != []
    ensures Rest(links, Some(t)) == NameImg(links[0].name, links[0].key.nameSize) + FileOf(links[1..], Some(t))
  {
    hide NameImg, FileOf;
  }

  lemma SubkeyHeader(links: seq<Link>, t: Ta, inf: seq<byte>, h: Header, body: seq<byte>)
    requires Writable(links, Some(t)) && links != [] && inf == FileOf(links, Some(t))
    requires h == SubkeyParsed(links[0].key, Rest(links, Some(t))).h
    requires body == SubkeyImg(links[0].key) + Rest(links, Some(t))
    ensures ParseHeader(inf) == Some((h, body)) && body != []
  {
    hide FileOf, Rest, IntBytes, ParseHeader, Slice, SubkeyParsed, SubkeyBytes, Words;
    var k, rest := links[0].key, Rest(links, Some(t));
    FileStep(links, Some(t));
    WrittenSubkeyHeader(k, rest);
  }

  lemma WrittenSubkeyHeader(k: Subkey, rest: seq<byte>)
    requires WritableSubkey(k)
    ensures ParseHeader(SubkeyBytes(k) + rest) == Some((SubkeyParsed(k, rest).h, SubkeyImg(k) + rest))
    ensures SubkeyImg(k) + rest != []
  {
    hide IntBytes, ParseHeader, Slice, Shdr, SubkeyImg, SubkeyParsed;
    var img := SubkeyImg(k);
    var h := Header(SubkeyShdr(k), SHDR_SUBKEY, |img|, k.sigAlgo, k.digest, k.sig);
    assert SubkeyBytes(k) + rest == SubkeyShdr(k) + k.digest + k.sig + (img + rest);
    HeaderBack(SHDR_SUBKEY, |img|, k.sigAlgo, k.digest, k.sig, img + rest);
    ParsedHeaderIs(k, rest, h);
  }

  lemma SubkeyTrusted(w: World, root: Key, k: Subkey, rest: seq<byte>, inf: seq<byte>, h: Header, body: seq<byte>)
    requires WritableSubkey(k) && h == SubkeyParsed(k, rest).h && w.check(root, k.sigAlgo, k.digest, k.sig)
    requires ParseHeader(inf) == Some((h, body)) && body != []
    ensures HeaderOf(inf) == Some((h, body)) && |h.shdr| == 20 && Trusted(w, root, h)
  {
    hide ParseHeader, HeaderOf, WordAt, SubkeyImg, SubkeyShdr, IntBytes, Slice, HashId;
    HeadersAgree(inf, h, body);
    WrittenHeader(k, rest, h);
    KnownIsSha256(w, h.algo, []);
  }

  lemma TaHeader(t: Ta, inf: seq<byte>)
    requires Writable([], Some(t)) && WritableTa(t) && inf == FileOf([], Some(t))
    ensures var body := t.uuid + Le(t.version, 4) + t.img;
      && body != []
      && ParseHeader(inf) ==
         Some((Header(TaShdr(t), SHDR_BOOTSTRAP_TA, |t.img|, t.sigAlgo, t.digest, t.sig), body))
  {
    hide ParseHeader, Shdr, Le;
    HeaderBack(SHDR_BOOTSTRAP_TA, |t.img|, t.sigAlgo, t.digest, t.sig, t.uuid + Le(t.version, 4) + t.img);
  }

  lemma TaTrusted(w: World, root: Key, t: Ta, inf: seq<byte>)
    requires WritableTa(t) && w.check(root, t.sigAlgo, t.digest, t.sig)
    requires var body := t.uuid + Le(t.version, 4) + t.img;
      && body != []
      && ParseHeader(inf) ==
         Some((Header(TaShdr(t), SHDR_BOOTSTRAP_TA, |t.img|, t.sigAlgo, t.digest, t.sig), body))
    ensures HeaderOf(inf) == ParseHeader(inf)
    ensures var h := HeaderOf(inf).value.0; |h.shdr| == 20 && Trusted(w, root, h) && h.imgType == SHDR_BOOTSTRAP_TA
  {
    hide ParseHeader, HeaderOf, WordAt, TaShdr, Le, HashId;
    var r := ParseHeader(inf).value;
    HeadersAgree(inf, r.0, r.1);
    KnownIsSha256(w, t.sigAlgo, []);
  }
}
