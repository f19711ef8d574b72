/** The event rings of the keyboard and mouse drivers, which overwrite the oldest event when full. */
module InputRing {
  import opened Words
  import opened IpcRing

  const QUEUE_SIZE: nat := 64

  /** Everything a driver has enqueued, and how far its readers have come: `seen` is one past the
      position of the last event delivered. */
  datatype Feed<E> = Feed(history: seq<E>, seen: nat)

  predicate Ok<E>(f: Feed<E>) {
    f.seen <= |f.history|
  }

  /** A window of the newest 63 events slides over the history: the next event to deliver is the one
      after the last delivered, or the oldest of the window if that has moved on. */
  function Start<E>(f: Feed<E>): (p: nat)
    requires Ok(f)
    ensures f.seen <= p <= |f.history|
  {
    if f.seen + QUEUE_SIZE - 1 < |f.history| then |f.history| - (QUEUE_SIZE - 1) else f.seen
  }

  function Pending<E>(f: Feed<E>): seq<E>
    requires Ok(f)
  {
    f.history[Start(f)..]
  }

  function Put<E>(f: Feed<E>, e: E): (r: Feed<E>)
    requires Ok(f)
    ensures Ok(r)
  {
    Feed(f.history + [e], f.seen)
  }

  function Taken<E>(f: Feed<E>): (r: Feed<E>)
    requires Ok(f)
    ensures Ok(r)
  {
    if Pending(f) == [] then f else Feed(f.history, Start(f) + 1)
  }

  function Oldest<E>(f: Feed<E>): Option<E>
    requires Ok(f)
  {
    if Pending(f) == [] then None else Some(Pending(f)[0])
  }

  // ----- the ring -----

  class EventQueue<E> {
    const queue: array<E>
    var head: nat
    var tail: nat
    ghost var fed: Feed<E>

    constructor (queue: array<E>)
      requires queue.Length == QUEUE_SIZE
      ensures this.queue == queue && Valid() && fed == Feed([], 0)
    {
      this.queue, head, tail, fed := queue, 0, 0, Feed([], 0);
    }

    /** The ring holds the window of its history. */
    ghost predicate Valid()
      reads this, queue
    {
      queue.Length == QUEUE_SIZE && head < QUEUE_SIZE && tail < QUEUE_SIZE &&
      Ok(fed) && Contents(queue[..], tail, head) == Pending(fed)
    }

    /** `enqueue_event` */
    method Enqueue(e: E)
      requires Valid()
      modifies this, queue
      ensures Valid() && fed == Put(old(fed), e)
    {
      ghost var buf := queue[..];
      queue[head] := e;
      assert queue[..] == buf[head := e];
      if (head + 1) % QUEUE_SIZE == tail {
        Overwrite(buf, tail, head, e);
        head := (head + 1) % QUEUE_SIZE;
        tail := (tail + 1) % QUEUE_SIZE;
      } else {
        FullAndEmpty(buf, tail, head);
        WriteAtTail(buf, tail, head, e);
        AdvanceTail(queue[..], tail, head);
        head := (head + 1) % QUEUE_SIZE;
      }
      SlideOne(fed, e);
      fed := Put(fed, e);
    }

    /** The second half of the polling functions: the oldest event, if there is one. */
    method Dequeue() returns (out: Option<E>)
      requires Valid()
      modifies this
      ensures Valid() && fed == Taken(old(fed)) && out == Oldest(old(fed))
    {
      FullAndEmpty(queue[..], tail, head);
      if tail == head {
        return None;
      }
      AdvanceHead(queue[..], tail, head);
      out := Some(queue[tail]);
      tail := (tail + 1) % QUEUE_SIZE;
      fed := Taken(fed);
    }

    /** `kbd_ps2_poll_event` and `mouse_ps2_poll_event`, with the event read from the hardware, if any. */
    method Poll(arrived: Option<E>) returns (out: Option<E>)
      requires Valid()
      modifies this, queue
      ensures Valid() && fed == Polled(old(fed), arrived) && out == Answer(old(fed), arrived)
    {
      if arrived.Some? {
        Enqueue(arrived.value);
      }
      out := Dequeue();
    }
  }

  lemma Overwrite<E>(buf: seq<E>, tail: nat, head: nat, e: E)
    requires |buf| > 1 && tail < |buf| && head < |buf| && Next(head, |buf|) == tail
    ensures |Contents(buf, tail, head)| == |buf| - 1
    ensures Contents(buf[head := e], Next(tail, |buf|), Next(head, |buf|)) == Contents(buf, tail, head)[1..] + [e]
  {
    var t := Next(tail, |buf|);
    FullAndEmpty(buf, tail, head);
    AdvanceHead(buf, tail, head);
    WriteAtTail(buf, t, head, e);
    AdvanceTail(buf[head := e], t, head);
  }

  /** One more event moves a full window by one and lengthens any other. */
  lemma SlideOne<E>(f: Feed<E>, e: E)
    requires Ok(f)
    ensures |Pending(f)| <= 63
    ensures Pending(Put(f, e)) == (if |Pending(f)| == 63 then Pending(f)[1..] else Pending(f)) + [e]
  {
  }

  // ----- every run -----

  datatype Step<E> = Enqueue(event: E) | Dequeue

  function Apply<E>(f: Feed<E>, s: Step<E>): (r: Feed<E>)
    requires Ok(f)
    ensures Ok(r)
  {
    match s
    case Enqueue(e) => Put(f, e)
    case Dequeue => Taken(f)
  }

  function Run<E>(f: Feed<E>, steps: seq<Step<E>>): (r: Feed<E>)
    requires Ok(f)
    ensures Ok(r)
    decreases |steps|
  {
    if steps == [] then f else Run(Apply(f, steps[0]), steps[1..])
  }

  /** The positions in the history of the events a run delivers, in the order of delivery. */
  function Delivered<E>(f: Feed<E>, steps: seq<Step<E>>): seq<nat>
    requires Ok(f)
    decreases |steps|
  {
    if steps == [] then []
    else
      var rest := Delivered(Apply(f, steps[0]), steps[1..]);
      if steps[0].Dequeue? && Pending(f) != [] then [Start(f)] + rest else rest
  }

  ghost predicate Increasing(ps: seq<nat>, low: nat, high: nat) {
    (forall i, j :: 0 <= i < j < |ps| ==> ps[i] < ps[j]) && forall i :: 0 <= i < |ps| ==> low <= ps[i] < high
  }

  lemma {:induction false} DeliveredInOrder<E>(f: Feed<E>, steps: seq<Step<E>>)
    requires Ok(f)
    ensures Increasing(Delivered(f, steps), f.seen, Run(f, steps).seen) && f.seen <= Run(f, steps).seen
    ensures f.history <= Run(f, steps).history
    decreases |steps|
  {
    if steps != [] {
      DeliveredInOrder(Apply(f, steps[0]), steps[1..]);
    }
  }

  /** An event that is neither delivered nor pending was overwritten by 63 newer ones. */
  lemma {:induction false} LostOnlyByOverwriting<E>(f: Feed<E>, steps: seq<Step<E>>, p: nat)
    requires Ok(f) && f.seen <= p < Start(Run(f, steps)) && p !in Delivered(f, steps)
    ensures p + 63 < |Run(f, steps).history|
    decreases |steps|
  {
    if steps != [] {
      var g, rest := Apply(f, steps[0]), steps[1..];
      DeliveredInOrder(g, rest);
      if g.seen <= p {
        assert p !in Delivered(g, rest);
        LostOnlyByOverwriting(g, rest, p);
      } else {
        assert steps[0].Dequeue? && p != Start(f);
      }
    }
  }

  /** Of the events enqueued since start-up, after any steps: delivered ones come in order, each at
      most once; those from `Start` on wait; and every other one has 63 newer ones behind it. */
  lemma EveryEventAccountedFor<E>(steps: seq<Step<E>>)
    ensures var d, g := Delivered(Feed([], 0), steps), Run(Feed([], 0), steps);
            Increasing(d, 0, g.seen) &&
            forall p: nat :: p < |g.history| && p !in d && p < Start(g) ==> p + 63 < |g.history|
  {
    var f: Feed<E> := Feed([], 0);
    DeliveredInOrder(f, steps);
    forall p: nat | p < |Run(f, steps).history| && p !in Delivered(f, steps) && p < Start(Run(f, steps))
      ensures p + 63 < |Run(f, steps).history|
    {
      LostOnlyByOverwriting(f, steps, p);
    }
  }

  /** The events a run hands out. */
  function Outputs<E>(f: Feed<E>, steps: seq<Step<E>>): seq<E>
    requires Ok(f)
    decreases |steps|
  {
    if steps == [] then []
    else
      var rest := Outputs(Apply(f, steps[0]), steps[1..]);
      if steps[0].Dequeue? && Oldest(f).Some? then [Oldest(f).value] + rest else rest
  }

  /** Each is the event that was enqueued at the position delivered. */
  lemma {:induction false} OutputsAreDelivered<E>(f: Feed<E>, steps: seq<Step<E>>)
    requires Ok(f)
    ensures |Outputs(f, steps)| == |Delivered(f, steps)|
    ensures forall i :: 0 <= i < |Outputs(f, steps)| ==>
              Delivered(f, steps)[i] < |Run(f, steps).history| &&
              Outputs(f, steps)[i] == Run(f, steps).history[Delivered(f, steps)[i]]
    decreases |steps|
  {
    if steps != [] {
      var g, rest := Apply(f, steps[0]), steps[1..];
      OutputsAreDelivered(g, rest);
      DeliveredInOrder(f, steps);
      if steps[0].Dequeue? && Pending(f) != [] {
        assert Oldest(f).value == f.history[Start(f)];
      }
    }
  }

  // ----- runs of polls -----

  function Polled<E>(f: Feed<E>, arrived: Option<E>): (r: Feed<E>)
    requires Ok(f)
    ensures Ok(r)
  {
    Taken(if arrived.Some? then Put(f, arrived.value) else f)
  }

  function Answer<E>(f: Feed<E>, arrived: Option<E>): Option<E>
    requires Ok(f)
  {
    Oldest(if arrived.Some? then Put(f, arrived.value) else f)
  }

  function Answers<E>(f: Feed<E>, arrivals: seq<Option<E>>): seq<Option<E>>
    requires Ok(f)
    decreases |arrivals|
  {
    if arrivals == [] then [] else [Answer(f, arrivals[0])] + Answers(Polled(f, arrivals[0]), arrivals[1..])
  }

  /** A driver that is only polled never drops an event: each poll returns what has just arrived. */
  lemma {:induction false} PollsNeverDrop<E>(f: Feed<E>, arrivals: seq<Option<E>>)
    requires Ok(f) && Pending(f) == []
    ensures Answers(f, arrivals) == arrivals
    decreases |arrivals|
  {
    if arrivals != [] {
      if arrivals[0].Some? {
        SlideOne(f, arrivals[0].value);
      }
      PollsNeverDrop(Polled(f, arrivals[0]), arrivals[1..]);
    }
  }
}

/** The keyboard driver: what it makes of scan codes. */
module Keyboard {
  import opened Words
  import opened InputRing

  const MOD_SHIFT: bv8 := 0x01

  datatype Kind = Press | Release

  datatype KbdEvent = KbdEvent(kind: Kind, scancode: byte, keycode: int, modifiers: bv8)

  function Decode(keycodes: byte -> int, modifiers: bv8, sc: byte): KbdEvent {
    KbdEvent(if sc >= 0x80 then Release else Press, sc, keycodes(sc % 0x80), modifiers)
  }

  /** Codes below 128 are presses and the others releases; the two codes of a key, 128 apart, give the
      same key code. An event keeps its scan code and the modifiers in force. */
  lemma PressAndRelease(keycodes: byte -> int, modifiers: bv8, sc: byte)
    requires sc < 128
    ensures Decode(keycodes, modifiers, sc) == KbdEvent(Press, sc, keycodes(sc), modifiers)
    ensures Decode(keycodes, modifiers, sc + 128) == KbdEvent(Release, sc + 128, keycodes(sc), modifiers)
  {
  }

  /** The modifiers after scan code sc. */
  function Modified(modifiers: bv8, sc: byte): bv8 {
    var pressed := if sc == 0x12 || sc == 0x59 then modifiers | MOD_SHIFT else modifiers;
    if sc == 0xF0 then pressed & !MOD_SHIFT else pressed
  }

  function ModifiedBy(codes: seq<byte>): bv8 {
    if codes == [] then 0 else Modified(ModifiedBy(codes[..|codes| - 1]), codes[|codes| - 1])
  }

  predicate IsShift(sc: byte) {
    sc == 0x12 || sc == 0x59 || sc == 0xF0
  }

  /** The k-th code is a press of shift, and no later one concerns shift. */
  predicate HeldSince(codes: seq<byte>, k: nat) {
    k < |codes| && (codes[k] == 0x12 || codes[k] == 0x59) && forall j :: k < j < |codes| ==> !IsShift(codes[j])
  }

  ghost predicate ShiftPressedLast(codes: seq<byte>) {
    exists k: nat :: HeldSince(codes, k)
  }

  lemma ShiftPressedNext(codes: seq<byte>, sc: byte)
    ensures ShiftPressedLast(codes + [sc]) <==> if IsShift(sc) then sc != 0xF0 else ShiftPressedLast(codes)
  {
    var all := codes + [sc];
    forall k: nat
      ensures HeldSince(all, k) <==> if IsShift(sc) then k == |codes| && sc != 0xF0 else HeldSince(codes, k)
    {
      assert all[|codes|] == sc;
      assert forall j :: 0 <= j < |codes| ==> all[j] == codes[j];
    }
    if IsShift(sc) && sc != 0xF0 {
      assert HeldSince(all, |codes|);
    }
  }

  /** An event carries the shift bit exactly if, of the codes before it that concern shift, the last one
      is a press (0xF0, which comes with the release of any key, ends it), and no other bit. */
  lemma {:induction false} ModifiersAreShift(codes: seq<byte>)
    ensures ModifiedBy(codes) == if ShiftPressedLast(codes) then 1 else 0
  {
    if codes != [] {
      var n := |codes| - 1;
      ModifiersAreShift(codes[..n]);
      ShiftPressedNext(codes[..n], codes[n]);
      assert codes[..n] + [codes[n]] == codes;
    }
  }

  lemma NoCodesYet()
    ensures ModifiedBy([]) == 0
  {
  }

  class KbdDriver {
    const events: EventQueue<KbdEvent>
    const keycodes: byte -> int
    var modifiers: bv8
    ghost var codes: seq<byte>

    constructor (events: EventQueue<KbdEvent>, keycodes: byte -> int)
      requires events.Valid()
      ensures this.events == events && this.keycodes == keycodes && Valid() && codes == []
    {
      this.events, this.keycodes, modifiers, codes := events, keycodes, 0, [];
      new;
      NoCodesYet();
    }

    ghost predicate Valid()
      reads this, events, events.queue
    {
      events.Valid() && modifiers == ModifiedBy(codes)
    }

    /** `kbd_ps2_poll_event`, with the scan code waiting at the data port, if any. */
    method PollEvent(code: Option<byte>) returns (out: Option<KbdEvent>)
      requires Valid()
      modifies this`modifiers, this`codes, events, events.queue
      ensures Valid() && codes == old(codes) + (if code.Some? then [code.value] else [])
      ensures var arrived := if code.Some? then Some(Decode(keycodes, ModifiedBy(old(codes)), code.value)) else None;
              events.fed == Polled(old(events.fed), arrived) && out == Answer(old(events.fed), arrived)
    {
      var arrived: Option<KbdEvent> := None;
      if code.Some? {
        arrived := Some(Decode(keycodes, modifiers, code.value));
        modifiers := Modified(modifiers, code.value);
        codes := codes + [code.value];
      }
      out := events.Poll(arrived);
    }
  }
}
