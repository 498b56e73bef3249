/** BinaryImage of scripts/sign_encrypt.py: how files of subkey chains are put together, and taken apart again. */
module ImageWriter {
  import opened Bytes
  import opened ImageFormat
  import opened ImageUuid
  import opened ImageChain

  // ------------------------------------------------------------- taking apart

  predicate Fits(p: Parsed)
    requires p.ParsedSubkey?
  {
    && |p.h.digest| == 32 && |p.uuid| == 16 && p.nameSize < U32 && p.version < U32 && p.maxDepth < U32 && p.algo < U32
    && p.h.algo < U32
  }

  function SubkeyOf(p: Parsed): Subkey
    requires p.ParsedSubkey? && Fits(p)
  {
    Subkey(p.uuid, p.nameSize, p.version, p.maxDepth, p.algo, p.key, p.h.algo, p.h.digest, p.h.sig)
  }

  function TaOf(p: Parsed): Option<Ta>
    requires p.ParsedTa?
  {
    hide LeNat;
    if |p.h.digest| == 32 && |p.uuid| == 16 && p.h.algo < U32 && LeNat(p.taVersion) < U32
    then Some(Ta(p.uuid, LeNat(p.taVersion), p.img, p.h.algo, p.h.digest, p.h.sig))
    else None
  }

  /** A whole file, parsed image by image. */
  function Unpack(valid: Key -> bool, inf: seq<byte>): Option<(seq<Link>, Option<Ta>)>
    decreases |inf|
  {
    hide Parse, TaOf;
    match Parse(valid, inf)
    case None => None
    case Some(p) =>
      if p.ParsedTa? then
        (match TaOf(p) case None => None case Some(t) => Some(([], Some(t))))
      else if !Fits(p) then None
      else if p.nextInf == [] then Some(([Link(SubkeyOf(p), [])], None))
      else
        ParseShrinks(valid, inf);
        match Unpack(valid, p.nextInf)
        case None => None
        case Some((ls, ta)) => Some(([Link(SubkeyOf(p), BeforeNul(p.nameImg))] + ls, ta))
  }

  /** Names do not hold the byte that pads them, and nothing is named after the end. */
  predicate Named(links: seq<Link>, ta: Option<Ta>) {
    && (forall i :: 0 <= i < |links| ==> 0 !in links[i].name)
    && (ta.None? && links != [] ==> links[|links| - 1].name == [])
  }

  lemma NameBack(name: seq<byte>, n: nat)
    requires |name| <= n && 0 !in name
    ensures BeforeNul(NameImg(name, n)) == name
  {
    hide BeforeNul;
    var s := NameImg(name, n);
    assert forall j :: 0 <= j < |name| ==> s[j] == name[j];
    NulAt(s, |name|);
    assert s[..|name|] == name;
  }

  /** Writing and parsing a whole chain gives back every subkey, every name and the trusted application. */
  lemma {:induction false} ChainBack(valid: Key -> bool, links: seq<Link>, ta: Option<Ta>)
    requires Writable(links, ta) && Named(links, ta)
    requires forall i :: 0 <= i < |links| ==> valid(links[i].key.key)
    ensures Unpack(valid, FileOf(links, ta)) == Some((links, ta))
    decreases |links|
  {
    hide Parse, SubkeyParsed, SubkeyImg, IntBytes, SubkeyShdr, Slice, NameImg, FileOf, Rest, TaParsed, TaShdr, Le,
         LeNat, BeforeNul, WritableTa;
    if links == [] {
      TaFile(valid, ta);
      TaBack(valid, ta.value);
    } else {
      var l, rest := links[0], Rest(links, ta);
      var p := SubkeyParsed(l.key, rest);
      FirstBack(valid, links, ta, p);
      SubkeyParsedIs(l.key, rest, p);
      assert SubkeyOf(p) == l.key;
      if |links| == 1 && ta.None? {
        RestEmpty(links, ta, l.key.nameSize);
        assert links == [Link(l.key, [])];
      } else {
        RestSplits(links, ta);
        FileNotEmpty(links[1..], ta);
        NameBack(l.name, l.key.nameSize);
        ChainBack(valid, links[1..], ta);
        assert links == [l] + links[1..];
      }
    }
  }

  // -------------------------------------------------------- putting together

  /** The last subkey of a file of subkeys, which add_subkey looks for; None where the script stops. */
  function LastSubkey(valid: Key -> bool, inf: seq<byte>): Option<Parsed>
    decreases |inf|
  {
    hide Parse;
    match Parse(valid, inf)
    case None => None
    case Some(p) =>
      if p.ParsedTa? then None
      else if p.nextInf == [] then Some(p)
      else
        ParseShrinks(valid, inf);
        LastSubkey(valid, p.nextInf)
  }

  lemma {:induction false} LastBack(valid: Key -> bool, links: seq<Link>)
    requires Writable(links, None) && forall i :: 0 <= i < |links| ==> valid(links[i].key.key)
    ensures LastSubkey(valid, FileOf(links, None)) == Some(SubkeyParsed(links[|links| - 1].key, []))
    decreases |links|
  {
    hide Parse, SubkeyParsed, SubkeyImg, IntBytes, SubkeyShdr, Slice, NameImg, FileOf, WritableTa;
    var l, rest := links[0], Rest(links, None);
    var p := SubkeyParsed(l.key, rest);
    FirstBack(valid, links, None, p);
    SubkeyParsedIs(l.key, rest, p);
    if |links| == 1 {
      RestEmpty(links, None, l.key.nameSize);
    } else {
      RestSplits(links, None);
      FileNotEmpty(links[1..], None);
      LastBack(valid, links[1..]);
    }
  }

  /** str.ljust: never shortened. */
  function Ljust(name: seq<byte>, n: nat): (r: seq<byte>)
    ensures |name| <= n ==> r == NameImg(name, n)
  {
    if |name| <= n then name + Zeros(n - |name|) else name
  }

  /** The depth a new subkey gets: below the one it is added to, which must leave room. */
  function ChosenDepth(previous: Option<nat>, asked: Option<nat>): Option<nat> {
    match asked
    case None =>
      if previous.None? then Some(0) else if previous.value <= 0 then None else Some(previous.value - 1)
    case Some(d) =>
      if previous.Some? && d >= previous.value then None else Some(d)
  }

  lemma DepthSinks(previous: Option<nat>, asked: Option<nat>)
    requires previous.Some? && ChosenDepth(previous, asked).Some?
    ensures ChosenDepth(previous, asked).value < previous.value
  {
  }

  class BinaryImage {
    const hash: seq<byte> -> Digest
    const sigSize: nat
    var shdr: seq<byte>
    var imgDigest: Digest
    var sig: seq<byte>
    var img: seq<byte>
    /** UUID and version of a trusted application, set by set_bootstrap_ta. */
    var ta: seq<byte>
    /** The file of subkeys this image is added to, and the name it gets there. */
    var subkeyImg: seq<byte>
    var nameImg: seq<byte>
    var previousMaxDepth: Option<nat>

    constructor (hash: seq<byte> -> Digest, sigSize: nat)
      ensures this.hash == hash && this.sigSize == sigSize
      ensures subkeyImg == [] && nameImg == [] && previousMaxDepth == None && ta == []
    {
      this.hash, this.sigSize := hash, sigSize;
      shdr, sig, img, ta, subkeyImg, nameImg := [], [], [], [], [], [];
      imgDigest := Zeros(32);
      previousMaxDepth := None;
    }

    /** add_subkey: walk to the last subkey of the file. */
    method AddSubkey(valid: Key -> bool, file: seq<byte>, name: seq<byte>) returns (ok: bool)
      modifies `subkeyImg, `nameImg, `previousMaxDepth
      ensures ok <==> LastSubkey(valid, file).Some?
      ensures ok ==> var last := LastSubkey(valid, file).value;
        && last.ParsedSubkey? && subkeyImg == file
        && nameImg == Ljust(name, last.nameSize) && previousMaxDepth == Some(last.maxDepth)
    {
      hide Parse, Ljust;
      var inf := file;
      while true
        invariant LastSubkey(valid, inf) == LastSubkey(valid, file)
        decreases |inf|
      {
        var r := Parse(valid, inf);
        if r.None? || r.value.ParsedTa? {
          return false;
        }
        if r.value.nextInf == [] {
          subkeyImg := file;
          previousMaxDepth := Some(r.value.maxDepth);
          nameImg := Ljust(name, r.value.nameSize);
          return true;
        }
        ParseShrinks(valid, inf);
        inf := r.value.nextInf;
      }
    }

    /** set_subkey: struct.pack fails on what does not fit. */
    method SetSubkey(k: Subkey, asked: Option<nat>) returns (ok: bool)
      requires WritableSubkey(k)
      modifies `shdr, `img, `imgDigest
      ensures ok <==>
        && ChosenDepth(previousMaxDepth, asked).Some? && ChosenDepth(previousMaxDepth, asked).value < U32
        && sigSize < 0x1_0000
      ensures ok ==> var made := Made(k, ChosenDepth(previousMaxDepth, asked).value);
        && WritableSubkey(made) && img == SubkeyImg(made)
        && shdr == Shdr(SHDR_SUBKEY, |img|, k.sigAlgo, sigSize) && imgDigest == hash(shdr + img)
    {
      hide SubkeyImg, Shdr, IntBytes;
      var depth := ChosenDepth(previousMaxDepth, asked);
      if depth.None? || depth.value >= U32 || sigSize >= 0x1_0000 {
        return false;
      }
      img := SubkeyImg(Made(k, depth.value));
      shdr := Shdr(SHDR_SUBKEY, |img|, k.sigAlgo, sigSize);
      imgDigest := hash(shdr + img);
      ok := true;
    }

    /** The bytes of the image itself once a signature is added. */
    ghost function SignedWith(s: seq<byte>): seq<byte>
      reads this
    {
      shdr + imgDigest + s + (ta + img)
    }

    /**
     * set_bootstrap_ta: whatever signature of the announced size is added, the bytes are those of the trusted
     * application, they parse back to it, and its digest is the one the verifiers compute.
     */
    method SetBootstrapTa(t: Ta)
      requires |t.img| < U32 && KnownAlgo(t.sigAlgo) && sigSize < 0x1_0000
      modifies `shdr, `img, `imgDigest, `ta
      ensures imgDigest == TaDigest(hash, t, sigSize)
      ensures forall s: seq<byte> :: |s| == sigSize ==>
        && WritableTa(t.(digest := imgDigest, sig := s))
        && SignedWith(s) == TaBytes(t.(digest := imgDigest, sig := s))
      ensures forall valid: Key -> bool, s: seq<byte> :: |s| == sigSize ==>
        Parse(valid, SignedWith(s)) == Some(TaParsed(t.(digest := imgDigest, sig := s)))
    {
      hide Shdr, Le, Parse, TaParsed;
      img := t.img;
      shdr := Shdr(SHDR_BOOTSTRAP_TA, |img|, t.sigAlgo, sigSize);
      ta := t.uuid + Le(t.version, 4);
      imgDigest := hash(shdr + ta + img);
      forall s: seq<byte> | |s| == sigSize
        ensures SignedWith(s) == TaBytes(t.(digest := imgDigest, sig := s))
      {
        OneTa(t.(digest := imgDigest, sig := s));
      }
      forall valid: Key -> bool, s: seq<byte> | |s| == sigSize
        ensures Parse(valid, SignedWith(s)) == Some(TaParsed(t.(digest := imgDigest, sig := s)))
      {
        hide TaBytes;
        TaBack(valid, t.(digest := imgDigest, sig := s));
      }
    }

    /** sign; the key gives signatures of its own size. */
    method Sign(signer: Digest -> seq<byte>) returns (ok: bool)
      modifies `sig
      ensures sig == signer(imgDigest) && (ok <==> |sig| == sigSize)
    {
      sig := signer(imgDigest);
      ok := |sig| == sigSize;
    }

    /** write. */
    method Write() returns (out: seq<byte>)
      ensures out == subkeyImg + nameImg + SignedWith(sig)
    {
      out := subkeyImg + nameImg + shdr + imgDigest + sig + ta + img;
    }
  }

  /** The subkey with the depth it was given; its digest and signature are still to be made. */
  function Made(k: Subkey, depth: nat): Subkey
    requires depth < U32
  {
    k.(maxDepth := depth)
  }

  /** The chain with the name of what comes after its last subkey filled in. */
  function WithName(links: seq<Link>, name: seq<byte>): (r: seq<Link>)
    requires links != []
    ensures |r| == |links|
  {
    links[|links| - 1 := Link(links[|links| - 1].key, name)]
  }

  predicate NameFits(links: seq<Link>, name: seq<byte>) {
    links != [] && |name| <= links[|links| - 1].key.nameSize
  }

  lemma WithNameWritable(links: seq<Link>, name: seq<byte>, more: seq<Link>, ta: Option<Ta>)
    requires Writable(links, None) && NameFits(links, name) && Writable(more, ta)
    ensures Writable(WithName(links, name) + more, ta)
  {
    hide WritableSubkey, WritableTa;
    var all := WithName(links, name) + more;
    forall i | 0 <= i < |all|
      ensures WritableLink(all[i])
    {
      assert i < |links| ==> WritableLink(links[i]);
      assert i >= |links| ==> all[i] == more[i - |links|];
    }
  }

  /** A file of subkeys, a name and more of the chain are the file of the longer chain. */
  lemma {:induction false} FileExtends(links: seq<Link>, name: seq<byte>, more: seq<Link>, ta: Option<Ta>)
    requires Writable(links, None) && NameFits(links, name) && Writable(more, ta)
    ensures Writable(WithName(links, name) + more, ta)
    ensures FileOf(WithName(links, name) + more, ta) ==
            FileOf(links, None) + NameImg(name, links[|links| - 1].key.nameSize) + FileOf(more, ta)
    decreases |links|
  {
    hide FileOf, NameImg, SubkeyBytes, WritableSubkey, WritableTa, Writable;
    WithNameWritable(links, name, more, ta);
    var all := WithName(links, name) + more;
    var end := NameImg(name, links[|links| - 1].key.nameSize);
    FileStep(all, ta);
    FileStep(links, None);
    FirstWritable(links);
    var a := SubkeyBytes(links[0].key);
    if |links| == 1 {
      assert all[1..] == more;
      MoreThanOne(more, ta);
      assert a + [] + end + FileOf(more, ta) == a + (end + FileOf(more, ta));
    } else {
      TailWritable(links);
      assert all[1..] == WithName(links[1..], name) + more && all[0] == links[0];
      FileExtends(links[1..], name, more, ta);
      var b, c := NameImg(links[0].name, links[0].key.nameSize), FileOf(links[1..], None);
      assert a + (b + (c + end + FileOf(more, ta))) == a + (b + c) + end + FileOf(more, ta);
    }
  }

  lemma FirstWritable(links: seq<Link>)
    requires Writable(links, None)
    ensures links != [] && WritableLink(links[0]) && WritableSubkey(links[0].key)
  {
    hide WritableSubkey;
  }

  lemma MoreThanOne(more: seq<Link>, ta: Option<Ta>)
    requires Writable(more, ta)
    ensures more != [] || ta.Some?
  {
  }

  lemma TailWritable(links: seq<Link>)
    requires Writable(links, None) && |links| > 1
    ensures Writable(links[1..], None) && WritableLink(links[0])
  {
    hide WritableSubkey;
  }

  /** The key makes signatures of the size that the header announces. */
  ghost predicate Sizes(signer: Digest -> seq<byte>, sigSize: nat) {
    sigSize < 0x1_0000 && forall d: Digest :: |signer(d)| == sigSize
  }

  /** The signed subkey as it comes out. */
  function Finished(hash: seq<byte> -> Digest, signer: Digest -> seq<byte>, k: Subkey, depth: Word,
                    sigSize: nat): Subkey
    requires WritableSubkey(k)
  {
    hide Shdr, SubkeyImg, IntBytes;
    var m := Made(k, depth);
    var d := hash(Shdr(SHDR_SUBKEY, |SubkeyImg(m)|, k.sigAlgo, sigSize) + SubkeyImg(m));
    m.(digest := d, sig := signer(d))
  }

  lemma FinishedBytes(hash: seq<byte> -> Digest, signer: Digest -> seq<byte>, k: Subkey, depth: Word, sigSize: nat,
                      f: Subkey)
    requires WritableSubkey(k) && f == Finished(hash, signer, k, depth, sigSize)
    requires |f.sig| == sigSize < 0x1_0000
    ensures WritableSubkey(f) && SubkeyImg(f) == SubkeyImg(Made(k, depth))
    ensures SubkeyBytes(f) == Shdr(SHDR_SUBKEY, |SubkeyImg(f)|, k.sigAlgo, sigSize) + f.digest + f.sig + SubkeyImg(f)
    ensures f.digest == hash(SubkeyShdr(f) + SubkeyImg(f))
  {
    hide Shdr, Words, IntBytes;
  }

  /** command_sign_subkey without an earlier subkey. */
  method SignFirstSubkey(hash: seq<byte> -> Digest, signer: Digest -> seq<byte>, sigSize: nat, k: Subkey,
                         asked: Option<nat>) returns (out: Option<seq<byte>>)
    requires WritableSubkey(k)
    ensures out.Some? ==>
      && ChosenDepth(None, asked).Some? && ChosenDepth(None, asked).value < U32
      && var f := Finished(hash, signer, k, ChosenDepth(None, asked).value, sigSize);
         Writable([Link(f, [])], None) && out.value == FileOf([Link(f, [])], None)
    ensures Sizes(signer, sigSize) && ChosenDepth(None, asked).Some? && ChosenDepth(None, asked).value < U32 ==>
      out.Some?
  {
    hide Shdr, SubkeyImg, IntBytes, SubkeyBytes;
    var image := new BinaryImage(hash, sigSize);
    var ok := image.SetSubkey(k, asked);
    if !ok {
      return None;
    }
    ok := image.Sign(signer);
    if !ok {
      return None;
    }
    var d := ChosenDepth(None, asked).value;
    ghost var f := Finished(hash, signer, k, d, sigSize);
    FinishedBytes(hash, signer, k, d, sigSize, f);
    var bytes := image.Write();
    assert bytes == SubkeyBytes(f) by {
      assert [] + [] + (image.shdr + image.imgDigest + image.sig + ([] + image.img)) ==
             image.shdr + image.imgDigest + image.sig + image.img;
    }
    out := Some(bytes);
  }

  /** command_sign_subkey on a file of subkeys: a longer chain, one step deeper. */
  method SignNextSubkey(valid: Key -> bool, hash: seq<byte> -> Digest, signer: Digest -> seq<byte>, sigSize: nat,
                        file: seq<byte>, name: seq<byte>, k: Subkey, asked: Option<nat>, ghost links: seq<Link>)
    returns (out: Option<seq<byte>>)
    requires WritableSubkey(k) && Writable(links, None) && NameFits(links, name) && file == FileOf(links, None)
    requires forall i :: 0 <= i < |links| ==> valid(links[i].key.key)
    ensures out.Some? ==>
      var last := links[|links| - 1].key;
      var depth := ChosenDepth(Some(last.maxDepth), asked);
      && depth.Some? && depth.value < last.maxDepth
      && var all := WithName(links, name) + [Link(Finished(hash, signer, k, depth.value, sigSize), [])];
         Writable(all, None) && out.value == FileOf(all, None)
    ensures Sizes(signer, sigSize) && ChosenDepth(Some(links[|links| - 1].key.maxDepth), asked).Some? ==> out.Some?
  {
    hide Shdr, SubkeyImg, IntBytes, SubkeyBytes, FileOf, NameImg, SubkeyParsed, LastSubkey, Writable;
    hide WithName, Finished;
    var image := new BinaryImage(hash, sigSize);
    ghost var last := links[|links| - 1].key;
    LastBack(valid, links);
    LastWritable(links);
    SubkeyParsedIs(last, [], SubkeyParsed(last, []));
    var ok := image.AddSubkey(valid, file, name);
    ok := image.SetSubkey(k, asked);
    if !ok {
      return None;
    }
    ok := image.Sign(signer);
    if !ok {
      return None;
    }
    var bytes := image.Write();
    ghost var d := ChosenDepth(Some(last.maxDepth), asked).value;
    DepthSinks(Some(last.maxDepth), asked);
    ghost var f := Finished(hash, signer, k, d, sigSize);
    FinishedIs(hash, signer, k, d, sigSize, f);
    FinishedBytes(hash, signer, k, d, sigSize, f);
    OneLink(f);
    FileExtends(links, name, [Link(f, [])], None);
    assert [] + image.img == image.img;
    out := Some(bytes);
  }

  lemma FinishedIs(hash: seq<byte> -> Digest, signer: Digest -> seq<byte>, k: Subkey, depth: Word, sigSize: nat,
                   f: Subkey)
    requires WritableSubkey(k) && f == Finished(hash, signer, k, depth, sigSize)
    ensures var img := SubkeyImg(Made(k, depth)); f.digest == hash(Shdr(SHDR_SUBKEY, |img|, k.sigAlgo, sigSize) + img)
    ensures f.sig == signer(f.digest)
  {
    hide Shdr, SubkeyImg, IntBytes;
  }

  lemma LastWritable(links: seq<Link>)
    requires Writable(links, None)
    ensures links != [] && WritableSubkey(links[|links| - 1].key)
  {
  }

  lemma OneLink(k: Subkey)
    requires WritableSubkey(k)
    ensures Writable([Link(k, [])], None) && FileOf([Link(k, [])], None) == SubkeyBytes(k)
  {
    hide SubkeyBytes, IntBytes;
  }

  function TaDigest(hash: seq<byte> -> Digest, t: Ta, sigSize: nat): Digest
    requires |t.img| < U32
  {
    hide Shdr, Le;
    hash(Shdr(SHDR_BOOTSTRAP_TA, |t.img|, t.sigAlgo, sigSize) + (t.uuid + Le(t.version, 4)) + t.img)
  }

  function FinishedTa(hash: seq<byte> -> Digest, signer: Digest -> seq<byte>, t: Ta, sigSize: nat): Ta
    requires |t.img| < U32
  {
    hide TaDigest;
    var d := TaDigest(hash, t, sigSize);
    t.(digest := d, sig := signer(d))
  }

  /** The chain that a trusted application is signed under: none, or that of a file, its last link named. */
  function Under(links: seq<Link>, name: seq<byte>): (r: seq<Link>)
    ensures |r| == |links|
  {
    if links == [] then [] else WithName(links, name)
  }

  /** command_sign_enc without encryption, with or without a file of subkeys. */
  method SignTa(valid: Key -> bool, hash: seq<byte> -> Digest, signer: Digest -> seq<byte>, sigSize: nat,
                subkey: Option<seq<byte>>, name: seq<byte>, t: Ta, ghost links: seq<Link>)
    returns (out: Option<seq<byte>>)
    requires |t.img| < U32 && KnownAlgo(t.sigAlgo) && sigSize < 0x1_0000
    requires subkey.None? ==> links == []
    requires subkey.Some? ==> Writable(links, None) && NameFits(links, name) && subkey.value == FileOf(links, None)
    requires forall i :: 0 <= i < |links| ==> valid(links[i].key.key)
    ensures out.Some? ==>
      var f := FinishedTa(hash, signer, t, sigSize);
      && Writable(Under(links, name), Some(f)) && out.value == FileOf(Under(links, name), Some(f))
    ensures Sizes(signer, sigSize) ==> out.Some?
  {
    hide Shdr, TaBytes, FileOf, NameImg, SubkeyParsed, LastSubkey, Writable, WithName, Le, WritableSubkey, Parse,
         TaDigest, TaParsed;
    var image := new BinaryImage(hash, sigSize);
    image.SetBootstrapTa(t);
    if subkey.Some? {
      ghost var last := links[|links| - 1].key;
      LastBack(valid, links);
      LastWritable(links);
      SubkeyParsedIs(last, [], SubkeyParsed(last, []));
      var found := image.AddSubkey(valid, subkey.value, name);
    }
    var ok := image.Sign(signer);
    if !ok {
      return None;
    }
    var bytes := image.Write();
    ghost var f := FinishedTa(hash, signer, t, sigSize);
    OneTa(f);
    if subkey.Some? {
      FileExtends(links, name, [], Some(f));
      assert WithName(links, name) + [] == WithName(links, name);
    } else {
      assert [] + [] + TaBytes(f) == TaBytes(f);
    }
    out := Some(bytes);
  }

  lemma OneTa(t: Ta)
    requires WritableTa(t)
    ensures Writable([], Some(t)) && FileOf([], Some(t)) == TaBytes(t)
    ensures TaBytes(t) == Shdr(SHDR_BOOTSTRAP_TA, |t.img|, t.sigAlgo, |t.sig|) + t.digest + t.sig +
                          (t.uuid + Le(t.version, 4) + t.img)
  {
    hide Shdr, Le;
  }
}
