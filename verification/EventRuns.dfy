/** Writers and readers of an event node in any interleaving. `write` is one step. A reader
    takes a slot under the lock and copies it to its caller after releasing the lock, so
    taking and copying are two steps, with anything in between. */
module EventRuns {
  import opened EventRing

  /** A step of the system; readers are identified by numbers. */
  datatype Step = Write(event: InputEvent) | Take(reader: nat) | Copy(reader: nat)

  /** What one copy hands to user space. */
  datatype Delivery = Delivery(reader: nat, event: InputEvent)

  /** The ring, the slot each reader is about to copy, the events seen by the takes and
      what has reached user space. */
  datatype System = System(ring: Ring, pending: map<nat, nat>, dequeued: seq<InputEvent>, delivered: seq<Delivery>)

  predicate ValidSystem(s: System) {
    ValidRing(s.ring) && forall r :: r in s.pending ==> s.pending[r] < RING_SIZE
  }

  function Start(): System {
    var zero := InputEvent(0, 0, 0, 0, 0);
    System(Ring(seq(RING_SIZE, _ => zero), 0, 0), map[], [], [])
  }

  /** A reader with nothing to take stays blocked; one that has taken copies next. */
  predicate Enabled(s: System, step: Step) {
    match step
    case Write(_) => true
    case Take(r) => r !in s.pending && s.ring.head != s.ring.tail
    case Copy(r) => r in s.pending
  }

  function Do(s: System, step: Step): (s': System)
    requires ValidSystem(s) && Enabled(s, step)
    ensures ValidSystem(s')
  {
    match step
    case Write(e) => s.(ring := WriteStep(s.ring, e))
    case Take(r) => System(TakeStep(s.ring), s.pending[r := s.ring.tail],
                           s.dequeued + [s.ring.slots[s.ring.tail]], s.delivered)
    case Copy(r) => s.(pending := s.pending - {r},
                       delivered := s.delivered + [Delivery(r, s.ring.slots[s.pending[r]])])
  }

  /** The steps can happen one after the other from `s`. */
  predicate Possible(s: System, steps: seq<Step>)
    requires ValidSystem(s)
    decreases |steps|
  {
    steps == [] || (Enabled(s, steps[0]) && Possible(Do(s, steps[0]), steps[1..]))
  }

  function Run(s: System, steps: seq<Step>): (s': System)
    requires ValidSystem(s) && Possible(s, steps)
    ensures ValidSystem(s')
    decreases |steps|
  {
    if steps == [] then s else Run(Do(s, steps[0]), steps[1..])
  }

  // ---------------------------------------------------------------- the history view

  /** The same system without a ring: everything ever written, by number, the oldest number
      still queued, the number each reader holds, and which numbers were taken or dropped. */
  datatype History = History(written: seq<InputEvent>, next: nat, pending: map<nat, nat>,
                             taken: seq<nat>, dropped: seq<nat>)

  const EMPTY := History([], 0, map[], [], [])

  function Record(h: History, step: Step): History {
    match step
    case Write(e) =>
      if |h.written| == h.next + CAPACITY then
        h.(written := h.written + [e], next := h.next + 1, dropped := h.dropped + [h.next])
      else h.(written := h.written + [e])
    case Take(r) => h.(next := h.next + 1, pending := h.pending[r := h.next], taken := h.taken + [h.next])
    case Copy(r) => h.(pending := h.pending - {r})
  }

  function Recorded(h: History, steps: seq<Step>): History
    decreases |steps|
  {
    if steps == [] then h else Recorded(Record(h, steps[0]), steps[1..])
  }

  /** The slot of event number `k`. */
  function SlotOf(k: nat): (i: nat)
    ensures i < RING_SIZE
  {
    k % RING_SIZE
  }

  /** The queue holds the numbers from `next` on, and the ring the last RING_SIZE events. */
  predicate Couples(r: Ring, h: History) {
    && ValidRing(r) && h.next <= |h.written| <= h.next + CAPACITY
    && r.head == SlotOf(|h.written|) && r.tail == SlotOf(h.next)
    && forall k :: 0 <= k < |h.written| && |h.written| <= k + RING_SIZE ==> r.slots[SlotOf(k)] == h.written[k]
  }

  predicate Coupled(s: System, h: History) {
    && Couples(s.ring, h)
    && s.pending.Keys == h.pending.Keys
    && (forall r :: r in h.pending ==> h.pending[r] < h.next && s.pending[r] == SlotOf(h.pending[r]))
    && |s.dequeued| == |h.taken|
    && (forall i :: 0 <= i < |h.taken| ==> h.taken[i] < h.next && s.dequeued[i] == h.written[h.taken[i]])
  }

  lemma SlotNext(k: nat)
    ensures SlotOf(k + 1) == Next(SlotOf(k))
  {
  }

  /** Two of RING_SIZE consecutive numbers never share a slot. */
  lemma SlotsDiffer(j: nat, k: nat)
    requires j < k < j + RING_SIZE
    ensures SlotOf(j) != SlotOf(k)
  {
  }

  /** The ring is empty exactly when every written event was taken or dropped. */
  lemma EmptyIff(r: Ring, h: History)
    requires Couples(r, h)
    ensures r.head == r.tail <==> h.next == |h.written|
  {
    if h.next < |h.written| {
      SlotsDiffer(h.next, |h.written|);
    }
  }

  lemma WriteCouples(r: Ring, h: History, e: InputEvent)
    requires Couples(r, h)
    ensures Couples(WriteStep(r, e), Record(h, Write(e)))
  {
    var w := |h.written|;
    SlotNext(w);
    SlotNext(h.next);
    var h' := Record(h, Write(e));
    var r' := WriteStep(r, e);
    if h.next + CAPACITY == w {
      assert SlotOf(w + 1) == SlotOf(h.next);
    } else {
      SlotsDiffer(h.next, w + 1);
    }
    forall k | 0 <= k < |h'.written| && |h'.written| <= k + RING_SIZE
      ensures r'.slots[SlotOf(k)] == h'.written[k]
    {
      if k < w {
        SlotsDiffer(k, w);
      }
    }
  }

  /** One step keeps the two views together. */
  lemma StepCouples(s: System, h: History, step: Step)
    requires ValidSystem(s) && Coupled(s, h) && Enabled(s, step)
    ensures Coupled(Do(s, step), Record(h, step))
  {
    match step
    case Write(e) => WriteCouples(s.ring, h, e);
    case Take(r) =>
      EmptyIff(s.ring, h);
      SlotNext(h.next);
    case Copy(r) =>
  }

  /** Over every run the ring is the history's drop-oldest queue. */
  lemma {:induction false} RunCouples(s: System, h: History, steps: seq<Step>)
    requires ValidSystem(s) && Coupled(s, h) && Possible(s, steps)
    ensures Coupled(Run(s, steps), Recorded(h, steps))
    decreases |steps|
  {
    if steps != [] {
      StepCouples(s, h, steps[0]);
      RunCouples(Do(s, steps[0]), Record(h, steps[0]), steps[1..]);
    }
  }

  lemma {:induction false} SlotsAre(r: Ring, h: History, i: nat, n: nat)
    requires Couples(r, h) && i + n <= |h.written| <= i + RING_SIZE
    ensures Slots(r.slots, SlotOf(i), n) == h.written[i..i + n]
    decreases n
  {
    if n > 0 {
      SlotNext(i);
      SlotsAre(r, h, i + 1, n - 1);
      assert h.written[i..i + n] == [h.written[i]] + h.written[i + 1..i + n];
    }
  }

  lemma QueueIs(r: Ring, h: History)
    requires Couples(r, h)
    ensures Queue(r) == h.written[h.next..] && Length(r) == |h.written| - h.next
  {
    LengthIs(h.next, |h.written|, r);
    SlotsAre(r, h, h.next, |h.written| - h.next);
    assert h.written[h.next..|h.written|] == h.written[h.next..];
  }

  lemma LengthIs(i: nat, j: nat, r: Ring)
    requires ValidRing(r) && i <= j <= i + CAPACITY && r.tail == SlotOf(i) && r.head == SlotOf(j)
    ensures Length(r) == j - i
  {
  }

  // ---------------------------------------------------------------- conservation and order

  /** The events of the write steps, in order. */
  function Writes(steps: seq<Step>): (es: seq<InputEvent>)
    ensures |es| <= |steps|
    decreases |steps|
  {
    if steps == [] then []
    else (if steps[0].Write? then [steps[0].event] else []) + Writes(steps[1..])
  }

  predicate Increasing(idx: seq<nat>) {
    forall i, j :: 0 <= i < j < |idx| ==> idx[i] < idx[j]
  }

  /** Every number below `next` was taken or dropped, once and in order. */
  predicate Accounted(h: History) {
    && h.next <= |h.written| && |h.taken| + |h.dropped| == h.next
    && Increasing(h.taken) && Increasing(h.dropped)
    && (forall k :: k in h.taken ==> k < h.next)
    && (forall k :: k in h.dropped ==> k < h.next && k !in h.taken)
    && (forall k :: 0 <= k < h.next ==> k in h.taken || k in h.dropped)
  }

  lemma IncreasingPush(idx: seq<nat>, n: nat)
    requires Increasing(idx) && forall k :: k in idx ==> k < n
    ensures Increasing(idx + [n])
  {
    var t := idx + [n];
    forall i, j | 0 <= i < j < |t| ensures t[i] < t[j] {
      assert idx[i] in idx;
    }
  }

  lemma StepAccounts(h: History, step: Step)
    requires Accounted(h) && (step.Take? ==> h.next < |h.written|)
    ensures Accounted(Record(h, step))
  {
    match step
    case Write(e) => IncreasingPush(h.dropped, h.next);
    case Take(r) =>
      IncreasingPush(h.taken, h.next);
      var h' := Record(h, step);
      assert forall k :: k in h'.taken <==> k in h.taken || k == h.next;
    case Copy(r) =>
  }

  lemma {:induction false} RunAccounts(s: System, h: History, steps: seq<Step>)
    requires ValidSystem(s) && Coupled(s, h) && Possible(s, steps) && Accounted(h)
    ensures Accounted(Recorded(h, steps))
    decreases |steps|
  {
    if steps != [] {
      EmptyIff(s.ring, h);
      StepAccounts(h, steps[0]);
      StepCouples(s, h, steps[0]);
      RunAccounts(Do(s, steps[0]), Record(h, steps[0]), steps[1..]);
    }
  }

  lemma {:induction false} WrittenGrows(h: History, steps: seq<Step>)
    ensures Recorded(h, steps).written == h.written + Writes(steps)
    decreases |steps|
  {
    if steps != [] {
      WrittenGrows(Record(h, steps[0]), steps[1..]);
    }
  }

  /** Each of the events `w` was dequeued, dropped or is still queued, nothing else was ever
      dequeued, and the order of writing is kept. */
  predicate Conserved(s: System, h: History, w: seq<InputEvent>) {
    && ValidRing(s.ring) && |w| == |s.dequeued| + |h.dropped| + |Queue(s.ring)|
    && Queue(s.ring) == w[|s.dequeued| + |h.dropped|..]
    && Increasing(h.taken) && |h.taken| == |s.dequeued|
    && (forall i :: 0 <= i < |h.taken| ==> h.taken[i] < |w| && s.dequeued[i] == w[h.taken[i]])
    && (forall k :: 0 <= k < |s.dequeued| + |h.dropped| ==> (k in h.taken <==> k !in h.dropped))
  }

  lemma ConservedAt(s: System, h: History)
    requires Coupled(s, h) && Accounted(h)
    ensures Conserved(s, h, h.written)
  {
    QueueIs(s.ring, h);
  }

  /** Conservation over every interleaving. */
  lemma Conservation(steps: seq<Step>)
    requires Possible(Start(), steps)
    ensures Conserved(Run(Start(), steps), Recorded(EMPTY, steps), Writes(steps))
  {
    RunCouples(Start(), EMPTY, steps);
    RunAccounts(Start(), EMPTY, steps);
    WrittenGrows(EMPTY, steps);
    assert EMPTY.written + Writes(steps) == Writes(steps);
    ConservedAt(Run(Start(), steps), Recorded(EMPTY, steps));
  }

  /** No write finds the ring full. */
  predicate NeverFull(s: System, steps: seq<Step>)
    requires ValidSystem(s) && Possible(s, steps)
    decreases |steps|
  {
    steps == [] || ((steps[0].Write? ==> Length(s.ring) < CAPACITY) && NeverFull(Do(s, steps[0]), steps[1..]))
  }

  lemma {:induction false} DroppedGrows(h: History, steps: seq<Step>)
    ensures |h.dropped| <= |Recorded(h, steps).dropped|
    decreases |steps|
  {
    if steps != [] {
      DroppedGrows(Record(h, steps[0]), steps[1..]);
    }
  }

  lemma {:induction false} FullDrops(s: System, h: History, steps: seq<Step>)
    requires ValidSystem(s) && Coupled(s, h) && Possible(s, steps)
    ensures NeverFull(s, steps) <==> |Recorded(h, steps).dropped| == |h.dropped|
    decreases |steps|
  {
    if steps != [] {
      QueueIs(s.ring, h);
      StepCouples(s, h, steps[0]);
      FullDrops(Do(s, steps[0]), Record(h, steps[0]), steps[1..]);
      DroppedGrows(Record(h, steps[0]), steps[1..]);
    }
  }

  lemma {:induction false} AllTaken(idx: seq<nat>, n: nat, i: nat)
    requires Increasing(idx) && |idx| == n && (forall k :: k in idx ==> k < n) && i < n
    ensures idx[i] == i
  {
    LowerBound(idx, i);
    UpperBound(idx, n, i);
  }

  lemma {:induction false} LowerBound(idx: seq<nat>, i: nat)
    requires Increasing(idx) && i < |idx|
    ensures i <= idx[i]
  {
    if i > 0 {
      LowerBound(idx, i - 1);
    }
  }

  lemma {:induction false} UpperBound(idx: seq<nat>, n: nat, i: nat)
    requires Increasing(idx) && i < |idx| && forall k :: k in idx ==> k < n
    ensures idx[i] + (|idx| - i) <= n
    decreases |idx| - i
  {
    if i + 1 < |idx| {
      UpperBound(idx, n, i + 1);
    } else {
      assert idx[i] in idx;
    }
  }

  lemma PrefixIff(s: System, h: History, w: seq<InputEvent>)
    requires Conserved(s, h, w) && Accounted(h)
    ensures s.dequeued + Queue(s.ring) == w <==> |h.dropped| == 0
  {
    if |h.dropped| == 0 {
      forall i | 0 <= i < |s.dequeued| ensures s.dequeued[i] == w[i] {
        AllTaken(h.taken, |h.taken|, i);
      }
    } else {
      assert |s.dequeued + Queue(s.ring)| < |w|;
    }
  }

  /** The dequeued events are a prefix of the written ones and the queue is the rest exactly
      when no write met a full ring. */
  lemma NothingLost(steps: seq<Step>)
    requires Possible(Start(), steps)
    ensures var s := Run(Start(), steps);
      s.dequeued + Queue(s.ring) == Writes(steps) <==> NeverFull(Start(), steps)
  {
    Conservation(steps);
    RunAccounts(Start(), EMPTY, steps);
    FullDrops(Start(), EMPTY, steps);
    PrefixIff(Run(Start(), steps), Recorded(EMPTY, steps), Writes(steps));
  }

  // ---------------------------------------------------------------- the copy window

  lemma {:induction false} PendingKept(s: System, h: History, steps: seq<Step>, r: nat)
    requires ValidSystem(s) && Coupled(s, h) && Possible(s, steps) && r in s.pending && Copy(r) !in steps
    ensures r in Run(s, steps).pending && r in Recorded(h, steps).pending
    ensures Recorded(h, steps).pending[r] == h.pending[r]
    decreases |steps|
  {
    if steps != [] {
      assert steps[0] in steps;
      StepCouples(s, h, steps[0]);
      PendingKept(Do(s, steps[0]), Record(h, steps[0]), steps[1..], r);
    }
  }

  /** Among `n` writes after a take from a queue of `c` events, the last one that lands in the
      taken slot, counting from 0. */
  function LastReuse(c: nat, n: nat): (j: nat)
    requires 1 <= c <= CAPACITY && n > RING_SIZE - c
    ensures RING_SIZE - c <= j < n && n - j <= RING_SIZE
  {
    n - 1 - (n - 1 - (RING_SIZE - c)) % RING_SIZE
  }

  lemma ReuseSlot(k: nat, c: nat, n: nat)
    requires 1 <= c <= CAPACITY && n > RING_SIZE - c
    ensures SlotOf(k + c + LastReuse(c, n)) == SlotOf(k)
  {
  }

  /** Between its take and its copy a reader keeps the slot of the event it dequeued. */
  lemma PendingSlot(s0: System, h0: History, r: nat, mid: seq<Step>)
    requires ValidSystem(s0) && Coupled(s0, h0) && Enabled(s0, Take(r))
    requires Possible(Do(s0, Take(r)), mid) && Copy(r) !in mid
    ensures var s2, h2 := Run(Do(s0, Take(r)), mid), Recorded(Record(h0, Take(r)), mid);
      && Enabled(s2, Copy(r)) && s2.pending[r] == SlotOf(h0.next)
      && Couples(s2.ring, h2) && h2.written == h0.written + Writes(mid)
  {
    var s1, h1 := Do(s0, Take(r)), Record(h0, Take(r));
    StepCouples(s0, h0, Take(r));
    RunCouples(s1, h1, mid);
    PendingKept(s1, h1, mid, r);
    WrittenGrows(h1, mid);
  }

  /** What a reader delivers: the event it dequeued, as long as at most RING_SIZE - c writes
      fall between its take (from a queue of c events) and its copy. With one more write the
      slot is reused, and the last write that reused it is delivered instead. */
  lemma CopyWindow(pre: seq<Step>, r: nat, mid: seq<Step>)
    requires Possible(Start(), pre) && Enabled(Run(Start(), pre), Take(r))
    requires Possible(Do(Run(Start(), pre), Take(r)), mid) && Copy(r) !in mid
    ensures var s0 := Run(Start(), pre);
      var s2 := Run(Do(s0, Take(r)), mid);
      var c, n := |Queue(s0.ring)|, |Writes(mid)|;
      && 1 <= c <= CAPACITY && Enabled(s2, Copy(r))
      && Do(s2, Copy(r)).delivered == s2.delivered +
           [Delivery(r, if n <= RING_SIZE - c then Queue(s0.ring)[0] else Writes(mid)[LastReuse(c, n)])]
  {
    var s0, h0 := Run(Start(), pre), Recorded(EMPTY, pre);
    RunCouples(Start(), EMPTY, pre);
    TakeWindow(s0, h0, r, mid);
  }

  /** The same from any state that couples with its history. */
  lemma TakeWindow(s0: System, h0: History, r: nat, mid: seq<Step>)
    requires ValidSystem(s0) && Coupled(s0, h0) && Enabled(s0, Take(r))
    requires Possible(Do(s0, Take(r)), mid) && Copy(r) !in mid
    ensures var s2 := Run(Do(s0, Take(r)), mid);
      var c, n := |Queue(s0.ring)|, |Writes(mid)|;
      && 1 <= c <= CAPACITY && Enabled(s2, Copy(r))
      && s2.ring.slots[s2.pending[r]] == if n <= RING_SIZE - c then Queue(s0.ring)[0] else Writes(mid)[LastReuse(c, n)]
  {
    EmptyIff(s0.ring, h0);
    QueueIs(s0.ring, h0);
    PendingSlot(s0, h0, r, mid);
    SlotHolds(Run(Do(s0, Take(r)), mid).ring, Recorded(Record(h0, Take(r)), mid), h0.written, h0.next, Writes(mid));
  }

  /** The slot of number `k` after `more` events have followed `old`. */
  lemma SlotHolds(ring: Ring, h: History, before: seq<InputEvent>, k: nat, more: seq<InputEvent>)
    requires Couples(ring, h) && h.written == before + more && k < |before| <= k + CAPACITY
    ensures var c, n := |before| - k, |more|;
      ring.slots[SlotOf(k)] == if n <= RING_SIZE - c then before[k] else more[LastReuse(c, n)]
  {
    var c, n := |before| - k, |more|;
    if n <= RING_SIZE - c {
      assert h.written[k] == before[k];
    } else {
      ReuseSlot(k, c, n);
      var j := LastReuse(c, n);
      assert h.written[|before| + j] == more[j];
    }
  }
}
