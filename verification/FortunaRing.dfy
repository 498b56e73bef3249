/**
 * The ring buffer between crypto_rng_add_event and the Fortuna state, as the memory accesses of the
 * writer holding the spin lock interleaved with those of the reader holding the mutex.
 */
module FortunaRing {

  const SLOTS: nat := 8

  /** Source number, pool number, length and the data bytes as one value: four separate stores and loads. */
  type Elem = e: seq<nat> | |e| == 4 witness [0, 0, 0, 0]

  const ZERO: Elem := [0, 0, 0, 0]

  /** The one writer inside push_ring_buffer; other writers spin. */
  datatype Writer = NoWriter | Locked(event: Elem) | Writing(event: Elem, stored: nat)

  /** The one reader inside pop_ring_buffer, and the fields it has loaded. */
  datatype Reader = NoReader | Reading(got: seq<nat>)

  /** The memory, the two threads, and the history of published and consumed elements. */
  datatype Ring = Ring(elem: seq<Elem>, begin: nat, end: nat, writer: Writer, reader: Reader,
                       accepted: seq<Elem>, popped: seq<Elem>)

  /** Static storage: all zero. */
  predicate Init(s: Ring) {
    && |s.elem| == SLOTS && (forall i :: 0 <= i < SLOTS ==> s.elem[i] == ZERO)
    && s.begin == 0 && s.end == 0 && s.writer == NoWriter && s.reader == NoReader
    && s.accepted == [] && s.popped == []
  }

  // ---------------------------------------------------------------- the steps

  datatype Step =
    | Lock(event: Elem)
    | CheckRoom
    | StoreField
    | Publish
    | LoadBegin
    | LoadField
    | Consume

  predicate Enabled(s: Ring, step: Step) {
    match step
    case Lock(e) => s.writer.NoWriter?
    case CheckRoom => s.writer.Locked?
    case StoreField => s.writer.Writing? && s.writer.stored < 4
    case Publish => s.writer.Writing? && s.writer.stored == 4
    case LoadBegin => s.reader.NoReader?
    case LoadField => s.reader.Reading? && |s.reader.got| < 4
    case Consume => s.reader.Reading? && |s.reader.got| == 4
  }

  function Next(k: nat): (r: nat)
    ensures r < SLOTS
  {
    (k + 1) % SLOTS
  }

  /** One step; the indices are in range by the invariant below. */
  function Do(s: Ring, step: Step): Ring
    requires Enabled(s, step) && |s.elem| == SLOTS && s.end < SLOTS
  {
    match step
    case Lock(e) => s.(writer := Locked(e))
    case CheckRoom =>
      if Next(s.begin) == s.end then s.(writer := NoWriter) else s.(writer := Writing(s.writer.event, 0))
    case StoreField =>
      var n, k := Next(s.begin), s.writer.stored;
      s.(elem := s.elem[n := s.elem[n][k := s.writer.event[k]]], writer := s.writer.(stored := k + 1))
    case Publish =>
      s.(begin := Next(s.begin), writer := NoWriter, accepted := s.accepted + [s.writer.event])
    case LoadBegin =>
      if s.begin == s.end then s else s.(reader := Reading([]))
    case LoadField =>
      s.(reader := Reading(s.reader.got + [s.elem[s.end][|s.reader.got|]]))
    case Consume =>
      s.(end := Next(s.end), reader := NoReader, popped := s.popped + [s.reader.got])
  }

  // ------------------------------------------------------------ the invariant

  /** What the reader is to see: the slot that was never written, then what was published. */
  function History(s: Ring): seq<Elem> {
    [ZERO] + s.accepted
  }

  /** The slot of the i-th element of the history. */
  function Slot(i: nat): (k: nat)
    ensures k < SLOTS
  {
    i % SLOTS
  }

  lemma SlotNext(i: nat)
    ensures Next(Slot(i)) == Slot(i + 1)
  {
  }

  lemma SlotsApart(i: nat, j: nat)
    requires i < j < i + SLOTS
    ensures Slot(i) != Slot(j)
  {
  }

  /** The published elements not yet consumed are intact in their slots, and so is the next to be consumed. */
  predicate Intact(s: Ring)
    requires |s.elem| == SLOTS
  {
    forall i :: |s.popped| <= i <= |s.accepted| ==> s.elem[Slot(i)] == History(s)[i]
  }

  predicate WriterInv(s: Ring)
    requires |s.elem| == SLOTS
  {
    s.writer.Writing? ==>
      && s.writer.stored <= 4 && |s.accepted| - |s.popped| < 7
      && s.elem[Slot(|s.accepted| + 1)][..s.writer.stored] == s.writer.event[..s.writer.stored]
  }

  predicate ReaderInv(s: Ring) {
    s.reader.Reading? ==>
      && |s.popped| < |s.accepted| && |s.reader.got| <= 4
      && s.reader.got == History(s)[|s.popped|][..|s.reader.got|]
  }

  predicate Inv(s: Ring) {
    && |s.elem| == SLOTS
    && s.begin == Slot(|s.accepted|) && s.end == Slot(|s.popped|)
    && |s.popped| <= |s.accepted| <= |s.popped| + 7
    && s.popped == History(s)[..|s.popped|]
    && Intact(s) && WriterInv(s) && ReaderInv(s)
  }

  lemma InitInv(s: Ring)
    requires Init(s)
    ensures Inv(s)
  {
    assert History(s)[..0] == [];
  }

  /** The buffer is full exactly when seven elements are waiting. */
  lemma FullExactly(s: Ring)
    requires Inv(s)
    ensures Next(s.begin) == s.end <==> |s.accepted| - |s.popped| == 7
    ensures s.begin == s.end <==> |s.accepted| == |s.popped|
  {
    hide Intact, WriterInv, ReaderInv;
  }

  lemma StoreInv(s: Ring)
    requires Inv(s) && Enabled(s, StoreField)
    ensures Inv(Do(s, StoreField))
  {
    hide Slot, Next;
    SlotNext(|s.accepted|);
    var t := Do(s, StoreField);
    var n, k := Next(s.begin), s.writer.stored;
    assert n == Slot(|s.accepted| + 1);
    forall i | |t.popped| <= i <= |t.accepted|
      ensures t.elem[Slot(i)] == History(t)[i]
    {
      SlotsApart(i, |s.accepted| + 1);
    }
    assert t.elem[n][..k + 1] == t.writer.event[..k + 1];
  }

  lemma PublishInv(s: Ring)
    requires Inv(s) && Enabled(s, Publish)
    ensures Inv(Do(s, Publish))
  {
    hide Slot, Next;
    SlotNext(|s.accepted|);
    var t := Do(s, Publish);
    var n := Slot(|s.accepted| + 1);
    assert s.elem[n] == s.elem[n][..4] == s.writer.event[..4] == s.writer.event;
    forall i | |t.popped| <= i <= |t.accepted|
      ensures t.elem[Slot(i)] == History(t)[i]
    {
      assert i <= |s.accepted| ==> History(t)[i] == History(s)[i];
    }
    assert History(t)[..|t.popped|] == History(s)[..|s.popped|];
  }

  lemma ConsumeInv(s: Ring)
    requires Inv(s) && Enabled(s, Consume)
    ensures Inv(Do(s, Consume))
  {
    hide Slot, Next;
    SlotNext(|s.popped|);
    var t := Do(s, Consume);
    var e := History(s)[|s.popped|];
    assert s.reader.got == e[..4] == e;
    assert History(s)[..|s.popped| + 1] == History(s)[..|s.popped|] + [e];
  }

  lemma LoadInv(s: Ring)
    requires Inv(s) && Enabled(s, LoadField)
    ensures Inv(Do(s, LoadField))
  {
    hide Slot, Next;
    var k := |s.reader.got|;
    var e := History(s)[|s.popped|];
    assert s.elem[s.end] == e;
    assert e[..k + 1] == e[..k] + [e[k]];
  }

  lemma StepInv(s: Ring, step: Step)
    requires Inv(s) && Enabled(s, step)
    ensures Inv(Do(s, step))
  {
    hide Slot, Next;
    match step
    case Lock(e) =>
    case CheckRoom => FullExactly(s);
    case StoreField => StoreInv(s);
    case Publish => PublishInv(s);
    case LoadBegin => FullExactly(s);
    case LoadField => LoadInv(s);
    case Consume => ConsumeInv(s);
  }

  // --------------------------------------------------------------- every run

  /** A run of the two threads, in any interleaving. */
  ghost predicate Run(states: seq<Ring>, steps: seq<Step>) {
    && |states| == |steps| + 1 && Init(states[0])
    && forall i :: 0 <= i < |steps| ==>
         && |states[i].elem| == SLOTS && states[i].end < SLOTS && Enabled(states[i], steps[i])
         && states[i + 1] == Do(states[i], steps[i])
  }

  /**
   * In every interleaving, what was consumed is a prefix of the never written slot followed by what was
   * accepted, in order; what is waiting is intact; and an event is refused only when seven are waiting.
   */
  lemma {:induction false} EveryRun(states: seq<Ring>, steps: seq<Step>, n: nat)
    requires Run(states, steps) && n < |states|
    ensures Inv(states[n])
    ensures states[n].popped <= [ZERO] + states[n].accepted
    ensures |states[n].popped| <= |states[n].accepted| <= |states[n].popped| + 7
    decreases n
  {
    hide Inv, Do, Enabled;
    if n == 0 {
      InitInv(states[0]);
    } else {
      EveryRun(states, steps, n - 1);
      StepInv(states[n - 1], steps[n - 1]);
      assert states[n - 1 + 1] == Do(states[n - 1], steps[n - 1]);
    }
    InvGives(states[n]);
  }

  lemma InvGives(s: Ring)
    requires Inv(s)
    ensures s.popped <= [ZERO] + s.accepted && |s.popped| <= |s.accepted| <= |s.popped| + 7
  {
  }

  /** No step takes back what was accepted or consumed. */
  lemma HistoryGrows(s: Ring, step: Step)
    requires Inv(s) && Enabled(s, step)
    ensures s.accepted <= Do(s, step).accepted && s.popped <= Do(s, step).popped
    ensures Do(s, step).accepted != s.accepted ==> Do(s, step).accepted == s.accepted + [s.writer.event]
  {
  }

  /** A writer that got past the check publishes its event: what holds the lock is lost only when full. */
  lemma RefusedOnlyWhenFull(s: Ring)
    requires Inv(s) && Enabled(s, CheckRoom)
    ensures Do(s, CheckRoom).writer == NoWriter <==> |s.accepted| - |s.popped| == 7
  {
    FullExactly(s);
  }

  /** A reader begins to pop exactly when an element waits. */
  lemma EmptyOnlyWhenNoneWaits(s: Ring)
    requires Inv(s) && Enabled(s, LoadBegin)
    ensures Do(s, LoadBegin).reader == Reading([]) <==> |s.popped| < |s.accepted|
    ensures Do(s, LoadBegin) == s <==> |s.popped| == |s.accepted|
  {
    FullExactly(s);
  }

  /** What a pop ends with is the oldest element waiting. */
  lemma ConsumesOldest(s: Ring)
    requires Inv(s) && Enabled(s, Consume)
    ensures |s.popped| < |s.accepted|
    ensures Do(s, Consume).popped == s.popped + [([ZERO] + s.accepted)[|s.popped|]]
  {
    var e := History(s)[|s.popped|];
    assert s.reader.got == e[..4] == e;
  }
}
