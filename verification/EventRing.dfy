/** The input event node: a ring of RING_SIZE slots that drops its oldest event when a
    write finds it full. */
module EventRing {
  import opened Machine

  const RING_SIZE: nat := 256
  const CAPACITY: nat := RING_SIZE - 1
  /** sizeof(input_event): a timeval of two longs, two shorts and an int. */
  const EVENT_SIZE: nat := 24

  datatype InputEvent = InputEvent(sec: int, usec: int, kind: int, code: int, value: int)

  /** The fields of an event node between two critical sections. */
  datatype Ring = Ring(slots: seq<InputEvent>, head: nat, tail: nat)

  predicate ValidRing(r: Ring) {
    |r.slots| == RING_SIZE && r.head < RING_SIZE && r.tail < RING_SIZE
  }

  /** `(i + 1) % RING_SIZE` for an index. */
  function Next(i: nat): nat {
    if i + 1 == RING_SIZE then 0 else i + 1
  }

  /** The critical section of `write`. */
  function WriteStep(r: Ring, e: InputEvent): (r': Ring)
    requires ValidRing(r)
    ensures ValidRing(r')
  {
    Ring(r.slots[r.head := e], Next(r.head), if Next(r.head) == r.tail then Next(r.tail) else r.tail)
  }

  /** The critical section of `read` on a ring that is not empty. */
  function TakeStep(r: Ring): (r': Ring)
    requires ValidRing(r) && r.head != r.tail
    ensures ValidRing(r')
  {
    r.(tail := Next(r.tail))
  }

  function Length(r: Ring): nat
    requires ValidRing(r)
  {
    if r.tail <= r.head then r.head - r.tail else r.head + RING_SIZE - r.tail
  }

  /** `n` slots from `i` on, around the end of the ring. */
  function Slots(slots: seq<InputEvent>, i: nat, n: nat): (q: seq<InputEvent>)
    requires |slots| == RING_SIZE && i < RING_SIZE
    ensures |q| == n
    decreases n, i
  {
    if n == 0 then [] else [slots[i]] + Slots(slots, Next(i), n - 1)
  }

  /** The events in the ring, oldest first. */
  function Queue(r: Ring): (q: seq<InputEvent>)
    requires ValidRing(r)
    ensures |q| == Length(r)
  {
    Slots(r.slots, r.tail, Length(r))
  }

  /** A queue that forgets its oldest entries beyond CAPACITY. */
  function Bounded(q: seq<InputEvent>): (b: seq<InputEvent>)
    ensures |b| <= CAPACITY
  {
    if |q| > CAPACITY then q[|q| - CAPACITY..] else q
  }

  lemma BoundedTwice(a: seq<InputEvent>, b: seq<InputEvent>)
    ensures Bounded(Bounded(a) + b) == Bounded(a + b)
  {
  }

  lemma BoundedStart(q: seq<InputEvent>, events: seq<InputEvent>)
    requires |q| <= CAPACITY
    ensures q == Bounded(q + events[..0])
  {
    assert q + events[..0] == q;
  }

  lemma BoundedStep(q: seq<InputEvent>, events: seq<InputEvent>, i: nat)
    requires i < |events|
    ensures Bounded(Bounded(q + events[..i]) + [events[i]]) == Bounded(q + events[..i + 1])
  {
    assert q + events[..i + 1] == (q + events[..i]) + [events[i]];
    BoundedTwice(q + events[..i], [events[i]]);
  }

  /** The slot `n` places behind `i`. */
  function Behind(i: nat, n: nat): (k: nat)
    requires i < RING_SIZE && n <= RING_SIZE
    ensures k < RING_SIZE
  {
    if i + n < RING_SIZE then i + n else i + n - RING_SIZE
  }

  /** Overwriting the slot behind the last one appends. */
  lemma {:induction false} SlotsPush(slots: seq<InputEvent>, i: nat, n: nat, e: InputEvent)
    requires |slots| == RING_SIZE && i < RING_SIZE && n < RING_SIZE
    ensures Slots(slots[Behind(i, n) := e], i, n + 1) == Slots(slots, i, n) + [e]
    decreases n
  {
    if n > 0 {
      SlotsPush(slots, Next(i), n - 1, e);
      assert Behind(Next(i), n - 1) == Behind(i, n) != i;
    } else {
      assert Slots(slots[i := e], Next(i), 0) == [];
    }
  }

  lemma SlotsTail(slots: seq<InputEvent>, i: nat, n: nat)
    requires |slots| == RING_SIZE && i < RING_SIZE
    ensures Slots(slots, i, n + 1)[1..] == Slots(slots, Next(i), n)
  {
  }

  /** Writing appends and drops the oldest event if the ring was full. */
  lemma WriteQueues(r: Ring, e: InputEvent)
    requires ValidRing(r)
    ensures Queue(WriteStep(r, e)) == Bounded(Queue(r) + [e])
  {
    SlotsPush(r.slots, r.tail, Length(r), e);
    WriteMoves(r, e);
    if Next(r.head) == r.tail {
      SlotsTail(r.slots[r.head := e], r.tail, CAPACITY);
    }
  }

  /** The ring is full with 255 events. */
  lemma BoundedPush(q: seq<InputEvent>, e: InputEvent)
    requires |q| <= CAPACITY
    ensures |q| <= 255 && Bounded(q + [e]) == (if |q| == 255 then q[1..] else q) + [e]
  {
  }

  lemma WriteMoves(r: Ring, e: InputEvent)
    requires ValidRing(r)
    ensures Behind(r.tail, Length(r)) == r.head
    ensures Length(WriteStep(r, e)) == Min(CAPACITY, Length(r) + 1)
    ensures Next(r.head) == r.tail <==> Length(r) == CAPACITY
  {
  }

  /** Taking removes the oldest event, which is the one in the slot at `tail`. */
  lemma TakeQueues(r: Ring)
    requires ValidRing(r) && r.head != r.tail
    ensures Queue(r) == [r.slots[r.tail]] + Queue(TakeStep(r))
  {
  }

  lemma TakeMoves(all: seq<InputEvent>, k: nat, evt: InputEvent, rest: seq<InputEvent>)
    requires k < |all| && all[k..] == [evt] + rest
    ensures rest == all[k + 1..] && evt == all[k] && all[..k + 1] == all[..k] + [evt]
  {
    assert all[k..][1..] == all[k + 1..];
    assert all[k..][0] == all[k];
  }

  method NextIndex(i: nat) returns (next: nat)
    requires i < RING_SIZE
    ensures next == Next(i)
  {
    next := (i + 1) % RING_SIZE;
  }

  class EventNode {
    const event_ring: array<InputEvent>
    var head: nat
    var tail: nat

    ghost predicate Valid()
      reads this
    {
      event_ring.Length == RING_SIZE && head < RING_SIZE && tail < RING_SIZE
    }

    ghost function State(): (r: Ring)
      requires Valid()
      reads this, event_ring
      ensures ValidRing(r)
    {
      Ring(event_ring[..], head, tail)
    }

    /** `event_node_t::event_node_t`: all bytes zero. */
    constructor ()
      ensures Valid() && Queue(State()) == [] && fresh(event_ring)
    {
      event_ring := new InputEvent[RING_SIZE](_ => InputEvent(0, 0, 0, 0, 0));
      head, tail := 0, 0;
    }

    /** `event_node_t::write`. */
    method Write(event: InputEvent)
      requires Valid()
      modifies this, event_ring
      ensures Valid() && State() == WriteStep(old(State()), event)
      ensures Queue(State()) == Bounded(old(Queue(State())) + [event])
      ensures Queue(State()) ==
        old(if |Queue(State())| == 255 then Queue(State())[1..] else Queue(State())) + [event]
    {
      WriteQueues(State(), event);
      BoundedPush(Queue(State()), event);
      var next_head := NextIndex(head);
      if next_head == tail {
        tail := NextIndex(tail);
      }
      event_ring[head] := event;
      head := next_head;
    }

    /** The critical section of `read`. */
    method Take() returns (evt: InputEvent)
      requires Valid() && head != tail
      modifies this`tail
      ensures Valid() && State() == TakeStep(old(State()))
      ensures old(Queue(State())) == [evt] + Queue(State())
    {
      TakeQueues(State());
      evt := event_ring[tail];
      tail := NextIndex(tail);
    }

    /** One turn of the loop of `read`, the queue having held `all` at first. */
    method ReadNext(buffer: array<InputEvent>, k: nat, ghost all: seq<InputEvent>)
      requires Valid() && buffer != event_ring && k < buffer.Length && head != tail
      requires k <= |all| && Queue(State()) == all[k..] && buffer[..k] == all[..k]
      modifies this`tail, buffer
      ensures Valid() && k < |all| && Queue(State()) == all[k + 1..] && buffer[..k + 1] == all[..k + 1]
      ensures buffer[k + 1..] == old(buffer[k + 1..])
    {
      var evt := Take();
      TakeMoves(all, k, evt, Queue(State()));
      buffer[k] := evt;
      assert buffer[..k + 1] == all[..k] + [evt];
    }

    /** `event_node_t::read` with nobody writing meanwhile, `count` counting bytes and
        `buffer` holding whole events. A reader with room that finds the node empty at once
        blocks, having changed nothing. */
    method Read(buffer: array<InputEvent>, count: nat) returns (bytes_copied: nat, blocked: bool)
      requires Valid() && buffer != event_ring && count / EVENT_SIZE <= buffer.Length
      modifies this`tail, buffer
      ensures Valid()
      ensures blocked <==> old(Queue(State())) == [] && count >= EVENT_SIZE
      ensures var k := Min(count / EVENT_SIZE, |old(Queue(State()))|);
        bytes_copied == k * EVENT_SIZE && Queue(State()) == old(Queue(State()))[k..] &&
        buffer[..] == old(Queue(State()))[..k] + old(buffer[..])[k..]
    {
      ghost var all, room, was := Queue(State()), count / EVENT_SIZE, buffer[..];
      var k: nat := 0;
      bytes_copied, blocked := 0, false;
      while bytes_copied + EVENT_SIZE <= count
        invariant Valid() && k <= |all| && k <= room && bytes_copied == k * EVENT_SIZE && !blocked
        invariant Queue(State()) == all[k..] && buffer[..k] == all[..k] && buffer[k..] == was[k..]
        decreases room - k
      {
        if head == tail {
          blocked := bytes_copied == 0;
          break;
        }
        assert buffer[k + 1..] == buffer[k..][1..] && was[k + 1..] == was[k..][1..];
        ReadNext(buffer, k, all);
        bytes_copied, k := bytes_copied + EVENT_SIZE, k + 1;
      }
      assert k == Min(room, |all|);
      assert buffer[..] == buffer[..k] + buffer[k..];
    }

    /** The node holds what is left of `all`. */
    ghost predicate Holds(all: seq<InputEvent>)
      reads this, event_ring
    {
      Valid() && Queue(State()) == Bounded(all)
    }

    method WriteNext(events: seq<InputEvent>, i: nat, ghost before: seq<InputEvent>)
      requires i < |events| && Holds(before + events[..i])
      modifies this, event_ring
      ensures Holds(before + events[..i + 1])
    {
      BoundedStep(before, events, i);
      Write(events[i]);
    }

    /** The loop of `event_write`. */
    method WriteAll(events: seq<InputEvent>, count: nat)
      requires Valid() && count <= |events|
      modifies this, event_ring
      ensures Valid() && Queue(State()) == Bounded(old(Queue(State())) + events[..count])
    {
      ghost var before := Queue(State());
      var i: nat := 0;
      BoundedStart(before, events);
      while i < count
        invariant i <= count && Holds(before + events[..i])
      {
        WriteNext(events, i, before);
        i := i + 1;
      }
    }

    /** `event_write`: as many whole events as `length` bytes hold, the number being an `int`. */
    method EventWrite(events: seq<InputEvent>, length: U64) returns (written: int)
      requires Valid() && length / EVENT_SIZE <= |events|
      modifies this, event_ring
      ensures Valid()
      ensures Queue(State()) == Bounded(old(Queue(State())) + events[..EventCount(length)])
      ensures var all := old(Queue(State())) + events[..EventCount(length)];
        Queue(State()) == if |all| <= 255 then all else all[|all| - 255..]
      ensures written == Signed(length / EVENT_SIZE * EVENT_SIZE, TWO32)
      ensures length < TWO31 ==> written == EventCount(length) * EVENT_SIZE && EventCount(length) == length / 24
    {
      var count := Signed(length / EVENT_SIZE, TWO32);
      WriteAll(events, Max(0, count));
      SignedScaled(length / EVENT_SIZE, EVENT_SIZE, TWO32);
      written := Signed(count * EVENT_SIZE, TWO32);
    }
  }

  /** The events written for `length` bytes: all that fit, while their number is an `int`. */
  function EventCount(length: U64): (n: nat)
    ensures n <= length / EVENT_SIZE
    ensures length / EVENT_SIZE < TWO31 ==> n == length / EVENT_SIZE
    ensures var c := length / 24 % 0x1_0000_0000; n == if c < 0x8000_0000 then c else 0
  {
    Max(0, Signed(length / EVENT_SIZE, TWO32))
  }
}
