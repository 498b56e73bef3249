/** adjust_segments of ldelf/ta_elf.c: load segments merged and aligned to pages in place. */
module ElfSegments {
  import opened Bytes

  const SMALL_PAGE_SIZE: nat := 4096

  /** The bit of PF_W; flags are the set of their bits. */
  const PF_W_BIT: nat := 1

  datatype Segment = Segment(offset: nat, vaddr: nat, filesz: nat, memsz: nat, flags: set<nat>, align: nat,
                             remappedWriteable: bool)
  {
    function End(): nat { vaddr + memsz }

    function FileEnd(): nat { vaddr + filesz }

    /** How far the segment's addresses lie from its file offsets. */
    function Shift(): int { vaddr - offset }
  }

  function RoundDown(v: nat): (r: nat)
    ensures r <= v < r + SMALL_PAGE_SIZE && r % SMALL_PAGE_SIZE == 0
  {
    v - v % SMALL_PAGE_SIZE
  }

  function RoundUp(v: nat): (r: nat)
    ensures v <= r < v + SMALL_PAGE_SIZE && r % SMALL_PAGE_SIZE == 0
  {
    RoundDown(v + SMALL_PAGE_SIZE - 1)
  }

  function BitAnd(a: nat, b: nat): nat
    decreases a
  {
    if a == 0 then 0 else 2 * BitAnd(a / 2, b / 2) + (a % 2) * (b % 2)
  }

  // -------------------------------------------------------------- the promise

  /** The sanity asserts on one segment, and on it and the one before. */
  predicate Sane(s: Segment, align: nat, bound: nat) {
    && s.align == align >= SMALL_PAGE_SIZE
    && s.vaddr + s.memsz < bound
    && s.filesz <= s.memsz
    && s.offset % SMALL_PAGE_SIZE == s.vaddr % SMALL_PAGE_SIZE
  }

  predicate Follows(s: Segment, prev: Segment) {
    s.vaddr >= prev.vaddr + prev.memsz && s.offset >= prev.offset + prev.filesz
  }

  predicate Sanity(segs: seq<Segment>, bound: nat) {
    && (forall i :: 0 <= i < |segs| ==> Sane(segs[i], segs[0].align, bound))
    && (forall i :: 1 <= i < |segs| ==> Follows(segs[i], segs[i - 1]))
  }

  /** Sorted, with disjoint page-rounded ranges, and aligned from the second segment on. */
  predicate Layout(out: seq<Segment>) {
    && (forall j :: 0 <= j < |out| ==> out[j].filesz <= out[j].memsz)
    && (forall j :: 1 <= j < |out| ==>
          out[j].vaddr % SMALL_PAGE_SIZE == 0 && out[j].offset % SMALL_PAGE_SIZE == 0)
    && (forall i, j :: 0 <= i < j < |out| ==> RoundUp(out[i].End()) <= RoundDown(out[j].vaddr))
  }

  /** s lies inside t, its file-backed part inside t's. */
  predicate Inside(s: Segment, t: Segment) {
    && t.vaddr <= s.vaddr && s.End() <= t.End() && s.FileEnd() <= t.FileEnd()
    && s.flags <= t.flags
  }

  /** Segment i begins on a page that segment i - 1 reaches into. */
  predicate Merges(segs: seq<Segment>, i: nat)
    requires i < |segs|
  {
    i > 0 && RoundDown(segs[i].vaddr) < segs[i - 1].End()
  }

  /** The output segment that segment i goes to. */
  function Target(segs: seq<Segment>, i: nat): nat
    requires i < |segs|
  {
    if i == 0 then 0 else Target(segs, i - 1) + if Merges(segs, i) then 0 else 1
  }

  /** The first input segment of the one that i is merged into. */
  function Head(segs: seq<Segment>, i: nat): (h: nat)
    requires i < |segs|
    ensures h <= i
  {
    if Merges(segs, i) then Head(segs, i - 1) else i
  }

  /** The flags of the first n input segments that go to output segment j. */
  function Absorbed(segs: seq<Segment>, n: nat, j: nat): set<nat>
    requires n <= |segs|
  {
    if n == 0 then {}
    else Absorbed(segs, n - 1, j) + if Target(segs, n - 1) == j then segs[n - 1].flags else {}
  }

  /** align - 1; the sanity asserts make the alignment positive. */
  function Mask(segs: seq<Segment>): nat
    requires segs != []
  {
    if segs[0].align == 0 then 0 else segs[0].align - 1
  }

  /** Segment i begins inside a page of the file that the segment before it also maps. */
  predicate SharesFilePage(segs: seq<Segment>, i: nat)
    requires 0 < i < |segs|
  {
    && BitAnd(segs[i].offset, Mask(segs)) != 0
    && RoundDown(segs[i].offset) < segs[i - 1].FileEnd() - segs[Head(segs, i - 1)].Shift()
  }

  /** An output segment that begins with segment h must be a writeable copy of its file page. */
  predicate Remapped(segs: seq<Segment>, h: nat)
    requires h < |segs|
  {
    segs[h].remappedWriteable || (h > 0 && SharesFilePage(segs, h))
  }

  /** What the asserts inside the loop ask of segment i. */
  predicate Mergeable(segs: seq<Segment>, i: nat)
    requires 0 < i < |segs|
  {
    if Merges(segs, i) then
      && BitAnd(segs[i].vaddr, Mask(segs)) == BitAnd(segs[i].offset, Mask(segs))
      && segs[i - 1].memsz == segs[i - 1].filesz
    else
      SharesFilePage(segs, i) ==> PF_W_BIT in segs[i].flags
  }

  /** The first n input segments are all in the output, each inside its target. */
  ghost predicate Placed(segs: seq<Segment>, n: nat, out: seq<Segment>) {
    && n <= |segs|
    && (if n == 0 then out == [] else |out| == Target(segs, n - 1) + 1)
    && (forall i :: 0 <= i < n ==> InTarget(segs, i, out))
    && (forall j :: 0 <= j < |out| ==> out[j].flags == Absorbed(segs, n, j))
  }

  predicate InTarget(segs: seq<Segment>, i: nat, out: seq<Segment>)
    requires i < |segs|
  {
    var j := Target(segs, i);
    && j < |out| && Inside(segs[i], out[j])
    && out[j].Shift() == segs[Head(segs, i)].Shift()
    && out[j].remappedWriteable == Remapped(segs, Head(segs, i))
  }

  /** What output segment the i-th of n input segments begins or ends, and where exactly. */
  predicate ExtentAt(segs: seq<Segment>, i: nat, n: nat, out: seq<Segment>)
    requires i < n <= |segs|
  {
    var j := Target(segs, i);
    && j < |out|
    && (i == 0 ==> out[0].vaddr == segs[0].vaddr && out[0].offset == segs[0].offset)
    && (i > 0 && Target(segs, i - 1) != j ==>
          out[j].vaddr == RoundDown(segs[i].vaddr) && out[j].offset == RoundDown(segs[i].offset))
    && (i == n - 1 || Target(segs, i + 1) != j ==>
          out[j].End() == segs[i].End() && out[j].FileEnd() == segs[i].FileEnd())
  }

  ghost predicate Extents(segs: seq<Segment>, n: nat, out: seq<Segment>) {
    n <= |segs| && forall i :: 0 <= i < n ==> ExtentAt(segs, i, n, out)
  }

  // -------------------------------------------------------------- one step

  function Merged(prev: Segment, s: Segment): Segment
    requires prev.vaddr <= s.vaddr
  {
    prev.(filesz := s.FileEnd() - prev.vaddr, memsz := s.End() - prev.vaddr, flags := prev.flags + s.flags)
  }

  function Aligned(s: Segment): Segment
    requires s.offset % SMALL_PAGE_SIZE == s.vaddr % SMALL_PAGE_SIZE
  {
    var d := s.vaddr - RoundDown(s.vaddr);
    s.(filesz := s.filesz + d, memsz := s.memsz + d, vaddr := RoundDown(s.vaddr), offset := RoundDown(s.offset))
  }

  lemma AlignedKeeps(s: Segment)
    requires s.offset % SMALL_PAGE_SIZE == s.vaddr % SMALL_PAGE_SIZE
    ensures Inside(s, Aligned(s)) && Aligned(s).Shift() == s.Shift()
    ensures Aligned(s).End() == s.End() && Aligned(s).FileEnd() == s.FileEnd()
  {
  }

  lemma RoundUpFits(e: nat, v: nat)
    requires e <= RoundDown(v)
    ensures RoundUp(e) <= RoundDown(v) == RoundDown(RoundDown(v))
  {
  }

  lemma {:induction false} TargetBelow(segs: seq<Segment>, i: nat, n: nat)
    requires i <= n < |segs|
    ensures Target(segs, i) <= Target(segs, n)
    decreases n
  {
    hide Merges;
    if i < n {
      TargetBelow(segs, i, n - 1);
    }
  }

  /** The state of the loop: the first n input segments are done and make up `out`. */
  ghost predicate Done(segs: seq<Segment>, n: nat, out: seq<Segment>) {
    && Placed(segs, n, out) && Layout(out) && Extents(segs, n, out)
    && (n > 0 ==> |out| > 0)
    && (n > 0 ==> out[|out| - 1].End() == segs[n - 1].End() && out[|out| - 1].FileEnd() == segs[n - 1].FileEnd())
  }

  lemma FirstDone(segs: seq<Segment>)
    requires |segs| > 0 && segs[0].filesz <= segs[0].memsz
    ensures Done(segs, 1, segs[..1])
  {
    assert Absorbed(segs, 1, 0) == segs[0].flags;
  }

  lemma MergePlaced(segs: seq<Segment>, n: nat, out: seq<Segment>)
    requires 0 < n < |segs| && Done(segs, n, out)
    requires Merges(segs, n) && segs[n].vaddr >= segs[n - 1].End() && segs[n - 1].memsz == segs[n - 1].filesz
    requires out[|out| - 1].vaddr <= segs[n].vaddr
    ensures Placed(segs, n + 1, out[|out| - 1 := Merged(out[|out| - 1], segs[n])])
  {
    var k := |out| - 1;
    var last := Merged(out[k], segs[n]);
    var res := out[k := last];
    forall i | 0 <= i < n + 1
      ensures InTarget(segs, i, res)
    {
      TargetBelow(segs, i, n);
      assert i < n ==> InTarget(segs, i, out);
      assert InTarget(segs, n - 1, out);
    }
  }

  lemma MergeExtents(segs: seq<Segment>, n: nat, out: seq<Segment>)
    requires 0 < n < |segs| && Done(segs, n, out) && Merges(segs, n) && out[|out| - 1].vaddr <= segs[n].vaddr
    ensures Extents(segs, n + 1, out[|out| - 1 := Merged(out[|out| - 1], segs[n])])
  {
    hide Layout, InTarget, Absorbed, Merges;
    var res := out[|out| - 1 := Merged(out[|out| - 1], segs[n])];
    assert Target(segs, n) == Target(segs, n - 1) by {
      SameTarget(segs, n);
    }
    var m := n + 1;
    forall i | 0 <= i < m
      ensures ExtentAt(segs, i, m, res)
    {
      TargetBelow(segs, i, n);
      if i < n {
        assert ExtentAt(segs, i, n, out);
        TargetBelow(segs, i + 1, n);
        TargetBelow(segs, i, i + 1);
      }
    }
  }

  lemma SameTarget(segs: seq<Segment>, i: nat)
    requires 0 < i < |segs|
    ensures Target(segs, i) == if Merges(segs, i) then Target(segs, i - 1) else Target(segs, i - 1) + 1
  {
    hide Merges;
  }

  lemma AlignExtents(segs: seq<Segment>, n: nat, out: seq<Segment>, s: Segment)
    requires 0 < n < |segs| && Done(segs, n, out) && !Merges(segs, n)
    requires s.vaddr == RoundDown(segs[n].vaddr) && s.offset == RoundDown(segs[n].offset)
    requires s.End() == segs[n].End() && s.FileEnd() == segs[n].FileEnd()
    ensures Extents(segs, n + 1, out + [s])
  {
    hide Layout, InTarget, Absorbed, Merges, RoundDown;
    var res := out + [s];
    SameTarget(segs, n);
    var m := n + 1;
    forall i | 0 <= i < m
      ensures ExtentAt(segs, i, m, res)
    {
      TargetBelow(segs, i, n);
      if i < n {
        assert ExtentAt(segs, i, n, out);
      }
    }
  }

  lemma MergeDone(segs: seq<Segment>, n: nat, out: seq<Segment>)
    requires 0 < n < |segs| && Done(segs, n, out)
    requires Merges(segs, n) && segs[n].vaddr >= segs[n - 1].End() && segs[n - 1].memsz == segs[n - 1].filesz
    requires segs[n].filesz <= segs[n].memsz
    ensures out[|out| - 1].vaddr <= segs[n].vaddr
    ensures Done(segs, n + 1, out[|out| - 1 := Merged(out[|out| - 1], segs[n])])
  {
    hide Placed, Merges, Target, RoundUp, RoundDown, Extents;
    assert out[|out| - 1].vaddr <= segs[n].vaddr by {
      assert out[|out| - 1].vaddr <= out[|out| - 1].End();
    }
    MergePlaced(segs, n, out);
    MergeExtents(segs, n, out);
  }

  lemma AlignPlaced(segs: seq<Segment>, n: nat, out: seq<Segment>, s: Segment)
    requires 0 < n < |segs| && Placed(segs, n, out) && !Merges(segs, n)
    requires Inside(segs[n], s) && s.Shift() == segs[n].Shift() && s.flags == segs[n].flags
    requires s.remappedWriteable == Remapped(segs, n)
    ensures Placed(segs, n + 1, out + [s])
  {
    var k := |out|;
    var res := out + [s];
    forall i | 0 <= i < n + 1
      ensures InTarget(segs, i, res)
    {
      assert i < n ==> InTarget(segs, i, out);
    }
    NoneAbsorbed(segs, n, k);
  }

  lemma {:induction false} NoneAbsorbed(segs: seq<Segment>, n: nat, j: nat)
    requires n <= |segs| && (n > 0 ==> Target(segs, n - 1) < j)
    ensures Absorbed(segs, n, j) == {}
  {
    hide Merges;
    if n > 1 {
      TargetBelow(segs, n - 2, n - 1);
      NoneAbsorbed(segs, n - 1, j);
    }
  }

  lemma AlignDone(segs: seq<Segment>, n: nat, out: seq<Segment>, s: Segment)
    requires 0 < n < |segs| && Done(segs, n, out) && !Merges(segs, n)
    requires segs[n].offset % SMALL_PAGE_SIZE == segs[n].vaddr % SMALL_PAGE_SIZE && segs[n].filesz <= segs[n].memsz
    requires s == Aligned(segs[n]).(remappedWriteable := Remapped(segs, n))
    ensures Done(segs, n + 1, out + [s])
  {
    hide Placed, Target, Extents;
    AlignedKeeps(segs[n]);
    AlignPlaced(segs, n, out, s);
    AlignExtents(segs, n, out, s);
    var res := out + [s];
    forall i, j | 0 <= i < j < |res|
      ensures RoundUp(res[i].End()) <= RoundDown(res[j].vaddr)
    {
      hide Aligned, Placed;
      if j == |out| {
        RoundUpFits(segs[n - 1].End(), segs[n].vaddr);
        if i < |out| - 1 {
          assert RoundUp(out[i].End()) <= RoundDown(out[|out| - 1].vaddr);
        }
      }
    }
  }

  // ---------------------------------------------------------------- the code

  class TaElf {
    var segs: seq<Segment>

    /** The loop of sanity asserts. */
    method CheckSanity(bound: nat) returns (ok: bool)
      ensures ok == Sanity(segs, bound)
    {
      var align := 0;
      for i := 0 to |segs|
        invariant forall j :: 0 <= j < i ==> Sane(segs[j], segs[0].align, bound)
        invariant forall j :: 1 <= j < i ==> Follows(segs[j], segs[j - 1])
        invariant align == if i == 0 then 0 else segs[0].align
      {
        var s := segs[i];
        if s.align < SMALL_PAGE_SIZE || s.vaddr + s.memsz >= bound || s.filesz > s.memsz
           || s.offset % SMALL_PAGE_SIZE != s.vaddr % SMALL_PAGE_SIZE {
          assert !Sane(segs[i], segs[0].align, bound);
          return false;
        }
        if i > 0 && !Follows(s, segs[i - 1]) {
          return false;
        }
        if align == 0 {
          align := s.align;
        }
        if align != s.align {
          assert !Sane(segs[i], segs[0].align, bound);
          return false;
        }
      }
      return true;
    }

    /**
     * adjust_segments; `ok` is false when an assert fails. size_t holds the numbers below `bound`.
     * Where each segment goes is told by Target, a function of the input alone.
     */
    method AdjustSegments(bound: nat) returns (ok: bool)
      modifies this
      ensures ok <==> Sanity(old(segs), bound) && forall i :: 0 < i < |old(segs)| ==> Mergeable(old(segs), i)
      ensures ok ==> Layout(segs) && Placed(old(segs), |old(segs)|, segs) && Extents(old(segs), |old(segs)|, segs)
    {
      hide Mergeable, Placed, Layout, Done, Aligned, Merged, Extents;
      ok := CheckSanity(bound);
      if !ok {
        return;
      }
      ghost var input := segs;
      if segs == [] {
        EmptyDone(segs);
        return;
      }
      var mask := Mask(segs);
      var k := 1;
      ghost var n := 1;
      FirstDone(input);
      while k < |segs|
        invariant 1 <= k <= |segs| && 1 <= n <= |input|
        invariant segs[k..] == input[n..]
        invariant Done(input, n, segs[..k])
        invariant forall i :: 0 < i < n ==> Mergeable(input, i)
        decreases |segs| - k
      {
        ok, k := AdjustOne(mask, k, input, n);
        if !ok {
          return;
        }
        n := n + 1;
      }
      AllDone(input, n, segs[..k]);
      assert segs[..k] == segs;
    }

    /** One turn of the loop, on segment k, after n input segments. */
    method AdjustOne(mask: nat, k: nat, ghost input: seq<Segment>, ghost n: nat) returns (ok: bool, next: nat)
      requires 1 <= k < |segs| && 1 <= n < |input| && segs[k..] == input[n..]
      requires Sane(input[n], input[0].align, input[n].End() + 1) && Follows(input[n], input[n - 1])
      requires mask == Mask(input)
      requires Done(input, n, segs[..k])
      modifies this
      ensures ok <==> Mergeable(input, n)
      ensures ok ==>
        && 1 <= next <= |segs| && segs[next..] == input[n + 1..]
        && Done(input, n + 1, segs[..next])
    {
      hide Placed, Layout, Done, RoundDown, BitAnd, Extents;
      var s, prev := segs[k], segs[k - 1];
      next := k;
      assert s == input[n] && prev == segs[..k][k - 1];
      assert segs[k + 1..] == segs[k..][1..] == input[n..][1..] == input[n + 1..];
      LastDone(input, n, segs[..k]);
      if RoundDown(s.vaddr) < prev.End() {
        ok := BitAnd(s.vaddr, mask) == BitAnd(s.offset, mask) && prev.memsz == prev.filesz;
        if ok {
          MergeDone(input, n, segs[..k]);
          var rest := segs[k + 1..];
          ghost var out := segs[..k][k - 1 := Merged(prev, s)];
          segs := segs[..k - 1] + [Merged(prev, s)] + rest;
          assert segs[..k] == out && segs[k..] == rest;
        }
        return;
      }
      if BitAnd(s.offset, mask) != 0 && RoundDown(s.offset) < prev.offset + prev.filesz {
        if PF_W_BIT !in s.flags {
          return false, k;
        }
        s := s.(remappedWriteable := true);
      }
      s := Aligned(s);
      AlignDone(input, n, segs[..k], s);
      ghost var out, rest := segs[..k] + [s], segs[k + 1..];
      segs := segs[k := s];
      assert segs[..k + 1] == out && segs[k + 1..] == rest;
      return true, k + 1;
    }
  }

  lemma LastDone(segs: seq<Segment>, n: nat, out: seq<Segment>)
    requires 0 < n <= |segs| && Done(segs, n, out)
    ensures |out| > 0
    ensures var last := out[|out| - 1];
      && last.Shift() == segs[Head(segs, n - 1)].Shift()
      && last.End() == segs[n - 1].End() && last.FileEnd() == segs[n - 1].FileEnd()
  {
    assert InTarget(segs, n - 1, out);
  }

  lemma AllDone(segs: seq<Segment>, n: nat, out: seq<Segment>)
    requires n == |segs| && Done(segs, n, out)
    ensures Layout(out) && Placed(segs, n, out) && Extents(segs, n, out)
  {
    hide Layout, Placed, Extents;
  }

  lemma EmptyDone(segs: seq<Segment>)
    requires segs == []
    ensures Layout(segs) && Placed(segs, 0, segs) && Extents(segs, 0, segs)
  {
  }

  // ------------------------------------------------ where segments go, exactly

  lemma RoundDownIs(v: nat)
    ensures RoundDown(v) == v / 4096 * 4096
  {
  }

  /** A segment goes where the one before it went exactly when it begins on a page that one reaches into. */
  lemma TargetExactly(segs: seq<Segment>, i: nat)
    requires 0 < i < |segs|
    ensures Target(segs, 0) == 0
    ensures Target(segs, i) == Target(segs, i - 1) <==>
            segs[i].vaddr / 4096 * 4096 < segs[i - 1].vaddr + segs[i - 1].memsz
    ensures Target(segs, i) == Target(segs, i - 1) || Target(segs, i) == Target(segs, i - 1) + 1
  {
    hide RoundDown;
    RoundDownIs(segs[i].vaddr);
    SameTarget(segs, i);
  }

  /** An output segment has the flags of the segments that went there and no others. */
  lemma {:induction false} FlagsExactly(segs: seq<Segment>, n: nat, j: nat, b: nat)
    requires n <= |segs|
    ensures b in Absorbed(segs, n, j) <==> exists i :: 0 <= i < n && Target(segs, i) == j && b in segs[i].flags
    decreases n
  {
    hide Target;
    if n > 0 {
      FlagsExactly(segs, n - 1, j, b);
    }
  }

  /** The begin and end of the output segment that segment i begins or ends, in plain numbers. */
  lemma ExtentsExactly(segs: seq<Segment>, out: seq<Segment>, i: nat)
    requires i < |segs| && Placed(segs, |segs|, out) && Extents(segs, |segs|, out)
    ensures |out| == Target(segs, |segs| - 1) + 1 && Target(segs, i) < |out|
    ensures var t := out[Target(segs, i)];
      && (i == 0 ==> t.vaddr == segs[0].vaddr && t.offset == segs[0].offset)
      && (i > 0 && segs[i].vaddr / 4096 * 4096 >= segs[i - 1].vaddr + segs[i - 1].memsz ==>
            t.vaddr == segs[i].vaddr / 4096 * 4096 && t.offset == segs[i].offset / 4096 * 4096)
      && (i + 1 == |segs| || segs[i + 1].vaddr / 4096 * 4096 >= segs[i].vaddr + segs[i].memsz ==>
            t.vaddr + t.memsz == segs[i].vaddr + segs[i].memsz && t.vaddr + t.filesz == segs[i].vaddr + segs[i].filesz)
  {
    hide Target, Absorbed, RoundDown, InTarget;
    assert ExtentAt(segs, i, |segs|, out);
    if i > 0 {
      TargetExactly(segs, i);
      RoundDownIs(segs[i].vaddr);
      RoundDownIs(segs[i].offset);
    } else {
      assert Target(segs, 0) == 0 by {
        FirstTarget(segs);
      }
    }
    if i + 1 < |segs| {
      TargetExactly(segs, i + 1);
    }
  }

  lemma FirstTarget(segs: seq<Segment>)
    requires |segs| > 0
    ensures Target(segs, 0) == 0
  {
  }

  /** No segment begins on a page that the one before it reaches into. */
  predicate PagesApart(segs: seq<Segment>) {
    forall i :: 0 < i < |segs| ==> segs[i].vaddr / 4096 * 4096 >= segs[i - 1].vaddr + segs[i - 1].memsz
  }

  lemma {:induction false} OwnTarget(segs: seq<Segment>, i: nat)
    requires PagesApart(segs) && i < |segs|
    ensures Target(segs, i) == i
    decreases i
  {
    hide Target;
    if i == 0 {
      FirstTarget(segs);
    } else {
      OwnTarget(segs, i - 1);
      TargetExactly(segs, i);
    }
  }

  /** Segments on pages of their own come out as many as went in, each with its own flags and its own end. */
  lemma ApartStaysApart(segs: seq<Segment>, out: seq<Segment>, i: nat)
    requires PagesApart(segs) && i < |segs| && Placed(segs, |segs|, out) && Extents(segs, |segs|, out)
    ensures |out| == |segs| && out[i].flags == segs[i].flags
    ensures out[i].vaddr == (if i == 0 then segs[0].vaddr else segs[i].vaddr / 4096 * 4096)
    ensures out[i].vaddr + out[i].memsz == segs[i].vaddr + segs[i].memsz
    ensures out[i].vaddr + out[i].filesz == segs[i].vaddr + segs[i].filesz
  {
    hide Target, InTarget, RoundDown, Absorbed;
    OwnTarget(segs, |segs| - 1);
    OwnTarget(segs, i);
    ExtentsExactly(segs, out, i);
    forall b
      ensures b in out[i].flags <==> b in segs[i].flags
    {
      FlagsExactly(segs, |segs|, i, b);
      forall k | 0 <= k < |segs|
        ensures Target(segs, k) == k
      {
        OwnTarget(segs, k);
      }
    }
  }

  /** Masking with an alignment that is a power of two is the remainder. */
  lemma {:induction false} BitAndMask(a: nat, k: nat)
    ensures BitAnd(a, Power(2, k) - 1) == a % Power(2, k)
    decreases k
  {
    if k == 0 {
      BitAndZero(a);
    } else {
      hide BitAnd, Power;
      PowerNext(2, k);
      BitAndMask(a / 2, k - 1);
      MaskStep(a, Power(2, k - 1), Power(2, k));
    }
  }

  lemma MaskStep(a: nat, p: nat, m: nat)
    requires p > 0 && m == 2 * p && BitAnd(a / 2, p - 1) == a / 2 % p
    ensures BitAnd(a, m - 1) == a % m
  {
    hide BitAnd;
    OddMask(p);
    BitAndStep(a, m - 1);
    RemTwice(a, p);
  }

  lemma OddMask(p: nat)
    requires p > 0
    ensures (2 * p - 1) / 2 == p - 1 && (2 * p - 1) % 2 == 1
  {
  }

  lemma {:induction false} BitAndZero(a: nat)
    ensures BitAnd(a, 0) == 0
    decreases a
  {
    if a > 0 {
      BitAndZero(a / 2);
    }
  }

  lemma BitAndStep(a: nat, b: nat)
    ensures BitAnd(a, b) == 2 * BitAnd(a / 2, b / 2) + a % 2 * (b % 2)
  {
    if a == 0 {
      assert BitAnd(0, b / 2) == 0;
    }
  }

  lemma RemTwice(a: nat, p: nat)
    requires p > 0
    ensures a % (2 * p) == 2 * (a / 2 % p) + a % 2
  {
    var u, v := a / 2, a % 2;
    var q, r := u / p, u % p;
    DivParts(u, p);
    MulAssoc(2, p, q);
    DivModUnique(a, 2 * p, q, 2 * r + v);
  }

  /** Which output segments are marked for remapping: by their first input segment and the end of the one before. */
  lemma RemappedExactly(segs: seq<Segment>, out: seq<Segment>, i: nat)
    requires i < |segs| && Placed(segs, |segs|, out) && Extents(segs, |segs|, out)
    requires i == 0 || Target(segs, i) != Target(segs, i - 1)
    ensures Target(segs, i) < |out| && (i > 0 ==> Target(segs, i) > 0)
    ensures var j := Target(segs, i);
      out[j].remappedWriteable <==>
        || segs[i].remappedWriteable
        || (i > 0 && BitAnd(segs[i].offset, Mask(segs)) != 0 &&
            segs[i].offset / 4096 * 4096 < out[j - 1].offset + out[j - 1].filesz)
  {
    hide Target, Absorbed, RoundDown, BitAnd;
    assert InTarget(segs, i, out);
    RoundDownIs(segs[i].offset);
    if i > 0 {
      SameTarget(segs, i);
      assert InTarget(segs, i - 1, out) && ExtentAt(segs, i - 1, |segs|, out);
    }
  }

  // -------------------------------------------------- what the layout gives

  predicate Meets(s: Segment, t: Segment) {
    s.vaddr < t.End() && t.vaddr < s.End()
  }

  /** A segment that occupies memory meets its target and no other output segment. */
  lemma ExactlyOne(segs: seq<Segment>, out: seq<Segment>, i: nat, j: nat)
    requires i < |segs| && Placed(segs, |segs|, out) && Layout(out) && segs[i].memsz > 0 && j < |out|
    ensures Meets(segs[i], out[j]) <==> j == Target(segs, i)
  {
    hide Target, Absorbed;
    assert InTarget(segs, i, out);
    var t := Target(segs, i);
    if j < t {
      assert RoundUp(out[j].End()) <= RoundDown(out[t].vaddr);
    } else if t < j {
      assert RoundUp(out[t].End()) <= RoundDown(out[j].vaddr);
    }
  }

  /** The file offset that a segment maps at an address. */
  function OffsetAt(s: Segment, a: nat): int {
    s.offset + a - s.vaddr
  }

  /**
   * Every file-backed address stays file-backed, and keeps its file offset exactly when the segment lies
   * from its file offsets as far as the first segment it was merged with does.
   */
  lemma OffsetKeptIff(segs: seq<Segment>, out: seq<Segment>, i: nat, a: nat)
    requires i < |segs| && Placed(segs, |segs|, out)
    requires segs[i].vaddr <= a < segs[i].FileEnd()
    ensures Target(segs, i) < |out|
    ensures var t := out[Target(segs, i)];
      && t.vaddr <= a < t.FileEnd()
      && (OffsetAt(t, a) == OffsetAt(segs[i], a) <==> segs[i].Shift() == segs[Head(segs, i)].Shift())
  {
    hide Target, Absorbed, Head;
    assert InTarget(segs, i, out);
  }

  /** Equal steps in address and offset at each merge are enough for every segment. */
  lemma {:induction false} DeltasAgree(segs: seq<Segment>, i: nat)
    requires i < |segs|
    requires forall m :: 0 < m < |segs| && Merges(segs, m) ==>
               segs[m].vaddr - segs[m - 1].vaddr == segs[m].offset - segs[m - 1].offset
    ensures segs[i].Shift() == segs[Head(segs, i)].Shift()
    decreases i
  {
    if Merges(segs, i) {
      DeltasAgree(segs, i - 1);
    }
  }
}
