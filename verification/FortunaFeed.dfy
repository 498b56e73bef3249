/** The ring buffer of FortunaRing and the generator of Fortuna together: what the pools get of what was pushed. */
module FortunaFeed {
  import opened Bytes
  import opened Fortuna
  import FortunaRing

  const RING_BUF_DATA_SIZE: nat := 4

  /** The part of the data that a slot has room for. */
  function Cut(data: seq<byte>): seq<byte> {
    if |data| < RING_BUF_DATA_SIZE then data else data[..RING_BUF_DATA_SIZE]
  }

  /** What push_ring_buffer stores: source, pool, length, and the bytes as one number. */
  function Pushed(e: Event): FortunaRing.Elem {
    [e.snum, e.pnum, |Cut(e.data)|, BeNat(Cut(e.data))]
  }

  /** What pop_ring_buffer makes of it. */
  function Popped(x: FortunaRing.Elem): Event {
    Event(x[0] % 256, x[1], Be(x[3], if x[2] < RING_BUF_DATA_SIZE then x[2] else RING_BUF_DATA_SIZE))
  }

  function AllPushed(events: seq<Event>): (r: seq<FortunaRing.Elem>)
    ensures |r| == |events|
  {
    seq(|events|, i requires 0 <= i < |events| => Pushed(events[i]))
  }

  function AllPopped(xs: seq<FortunaRing.Elem>): (r: seq<Event>)
    ensures |r| == |xs|
  {
    seq(|xs|, i requires 0 <= i < |xs| => Popped(xs[i]))
  }

  /** The events as they come out: with no more data than a slot holds. */
  function AllCut(events: seq<Event>): (r: seq<Event>)
    ensures |r| == |events|
  {
    seq(|events|, i requires 0 <= i < |events| => events[i].(data := Cut(events[i].data)))
  }

  /** An event comes out as it went in, cut to the size of a slot. */
  lemma PushedComesOut(e: Event)
    ensures Popped(Pushed(e)) == e.(data := Cut(e.data))
  {
    hide Be, BeNat;
    BeOfBeNat(Cut(e.data));
  }

  lemma AllComeOut(events: seq<Event>)
    ensures AllPopped(AllPushed(events)) == AllCut(events)
  {
    hide Pushed, Popped, Cut;
    forall i | 0 <= i < |events|
      ensures AllPopped(AllPushed(events))[i] == AllCut(events)[i]
    {
      PushedComesOut(events[i]);
    }
  }

  lemma {:induction false} WithDataAppend(a: seq<Event>, b: seq<Event>)
    ensures WithData(a + b) == WithData(a) + WithData(b)
    decreases |b|
  {
    if b == [] {
      assert a + b == a;
    } else {
      assert (a + b)[..|a + b| - 1] == a + b[..|b| - 1];
      WithDataAppend(a, b[..|b| - 1]);
    }
  }

  lemma WithDataPrefix(a: seq<Event>, b: seq<Event>)
    requires a <= b
    ensures WithData(a) <= WithData(b)
  {
    hide WithData;
    assert b == a + b[|a|..];
    WithDataAppend(a, b[|a|..]);
  }

  /** The slot that was never written carries nothing. */
  lemma ZeroSlot(xs: seq<FortunaRing.Elem>)
    ensures WithData(AllPopped([FortunaRing.ZERO] + xs)) == WithData(AllPopped(xs))
  {
    var z := Popped(FortunaRing.ZERO);
    assert z.data == [];
    assert WithData([z]) == [] by {
      assert [z][..0] == [];
    }
    hide WithData, Popped;
    assert AllPopped([FortunaRing.ZERO] + xs) == [z] + AllPopped(xs);
    WithDataAppend([z], AllPopped(xs));
  }

  /** What the first k pops brought is a prefix of what was pushed, in every interleaving. */
  lemma PoppedInOrder(states: seq<FortunaRing.Ring>, steps: seq<FortunaRing.Step>, n: nat, events: seq<Event>, k: nat)
    requires FortunaRing.Run(states, steps) && n < |states| && states[n].accepted == AllPushed(events)
    requires k <= |states[n].popped|
    ensures WithData(AllPopped(states[n].popped)[..k]) <= WithData(AllCut(events))
  {
    hide FortunaRing.Run, WithData, Popped, AllPushed, AllCut;
    FortunaRing.EveryRun(states, steps, n);
    var out, all := states[n].popped, [FortunaRing.ZERO] + states[n].accepted;
    assert AllPopped(out)[..k] <= AllPopped(all);
    WithDataPrefix(AllPopped(out)[..k], AllPopped(all));
    ZeroSlot(states[n].accepted);
    AllComeOut(events);
  }

  /**
   * Any interleaving of pushes and pops, and any run of the generator that takes what is popped: the events
   * that came out are a prefix of those pushed, in order, each once; those that reached a pool are among them in
   * that order, and all of them when no call fails.
   */
  method RunOnRing(s: State, data: seq<byte>, ops: seq<Op>, ghost states: seq<FortunaRing.Ring>,
                   ghost steps: seq<FortunaRing.Step>, ghost n: nat, ghost events: seq<Event>)
    requires s.Valid() && FortunaRing.Run(states, steps) && n < |states|
    requires states[n].accepted == AllPushed(events) && s.ring == AllPopped(states[n].popped)
    modifies s
    ensures s.Valid() && s.drained <= WithData(AllCut(events))
    ensures Subsequence(s.fed, s.drained) && (s.Reliable() ==> s.fed == s.drained)
    ensures forall g: nat :: Blocks(s.log, g) <= MAX_BLOCKS
  {
    hide Blocks, WithData, Subsequence, FortunaRing.Run, AllPushed, AllPopped, AllCut;
    hide State.Disciplined, State.Scheduled, State.Reliable;
    Run(s, data, ops);
    PoppedInOrder(states, steps, n, events, s.taken);
  }
}
