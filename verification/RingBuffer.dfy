/** The ring buffer between an interrupt handler that pushes and a main loop that pops. */
module RingBuffer {
  import opened Wrappers

  // ---------------------------------------------------------------- the queue it should be

  /** One completed call with its answer. */
  datatype Call = Pushed(x: int) | PushRefused(x: int) | Popped(x: int) | PopRefused

  /** A queue of at most `size - 1` samples: its contents after a call, or None when the call
      cannot be answered like that. */
  function QueueStep(size: nat, q: seq<int>, c: Call): Option<seq<int>> {
    match c
    case Pushed(x) => if |q| + 1 < size then Some(q + [x]) else None
    case PushRefused(_) => if |q| + 1 == size then Some(q) else None
    case Popped(x) => if q != [] && q[0] == x then Some(q[1..]) else None
    case PopRefused => if q == [] then Some(q) else None
  }

  function QueueRun(size: nat, calls: seq<Call>): Option<seq<int>> {
    if calls == [] then Some([])
    else
      match QueueRun(size, calls[..|calls| - 1])
      case None => None
      case Some(q) => QueueStep(size, q, calls[|calls| - 1])
  }

  function Pushes(calls: seq<Call>): seq<int> {
    if calls == [] then []
    else
      var c, before := calls[|calls| - 1], Pushes(calls[..|calls| - 1]);
      if c.Pushed? then before + [c.x] else before
  }

  function Pops(calls: seq<Call>): seq<int> {
    if calls == [] then []
    else
      var c, before := calls[|calls| - 1], Pops(calls[..|calls| - 1]);
      if c.Popped? then before + [c.x] else before
  }

  /** Of the two answers to a call exactly one is right, depending on how many samples are held. */
  lemma OneRightAnswer(size: nat, q: seq<int>, x: int)
    requires |q| < size
    ensures QueueStep(size, q, Pushed(x)) == (if |q| < size - 1 then Some(q + [x]) else None)
    ensures QueueStep(size, q, PushRefused(x)) == (if |q| < size - 1 then None else Some(q))
    ensures QueueStep(size, q, PopRefused) == (if |q| == 0 then Some([]) else None)
    ensures |q| > 0 ==> QueueStep(size, q, Popped(q[0])) == Some(q[1..])
    ensures QueueStep(size, q, Popped(x)).Some? ==> |q| > 0 && q[0] == x
  {
  }

  /** First in, first out, nothing lost: the accepted samples are the popped ones, then the queue. */
  lemma {:induction false} QueueConserves(size: nat, calls: seq<Call>)
    requires size > 0 && QueueRun(size, calls).Some?
    ensures var q := QueueRun(size, calls).value; Pushes(calls) == Pops(calls) + q && |q| < size
    decreases |calls|
  {
    if calls == [] {
    } else {
      var before, c := calls[..|calls| - 1], calls[|calls| - 1];
      QueueConserves(size, before);
      var q := QueueRun(size, before).value;
      if c.Popped? { assert q == [c.x] + q[1..]; }
    }
  }

  // ---------------------------------------------------------------- slots

  /** The index after `i`, with wrap-around. */
  function Next(size: nat, i: nat): (r: nat)
    requires i < size
    ensures r == if i + 1 == size then 0 else i + 1
  {
    (i + 1) % size
  }

  /** `cb_push` reduces the index a second time when it publishes it, which changes nothing. */
  function Reduced(size: nat, i: nat): (r: nat)
    requires i < size
    ensures r == i
  {
    i % size
  }

  /** The slot of the `k`-th sample ever pushed. */
  function Slot(size: nat, k: nat): (r: nat)
    requires size > 0
    ensures r < size
  {
    if k == 0 then 0 else Next(size, Slot(size, k - 1))
  }

  lemma SlotAfter(size: nat, k: nat)
    requires size > 0
    ensures Slot(size, k + 1) == Next(size, Slot(size, k))
  {
  }

  lemma {:induction false} SlotsAhead(size: nat, k: nat, d: nat)
    requires d <= size && size > 0
    ensures Slot(size, k + d) == if Slot(size, k) + d < size then Slot(size, k) + d else Slot(size, k) + d - size
    decreases d
  {
    if d == 0 {
    } else {
      SlotsAhead(size, k, d - 1);
    }
  }

  /** Samples less than `size` apart never share a slot. */
  lemma DistinctSlots(size: nat, i: nat, j: nat)
    requires size > 0 && i <= j < i + size && Slot(size, i) == Slot(size, j)
    ensures i == j
  {
    SlotsAhead(size, i, j - i);
  }

  // ---------------------------------------------------------------- single-threaded use

  /** What an undisturbed `cb_push` answers and leaves: the storage and the write index. */
  function PushEffect(data: seq<int>, w: nat, r: nat, x: int): (bool, seq<int>, nat)
    requires w < |data|
  {
    if Next(|data|, w) == r then (false, data, w) else (true, data[w := x], Next(|data|, w))
  }

  /** What an undisturbed `cb_pop` answers, and the read index it leaves. */
  function PopEffect(data: seq<int>, w: nat, r: nat): (Option<int>, nat)
    requires r < |data|
  {
    if r == w then (None, r) else (Some(data[r]), Next(|data|, r))
  }

  class CircularBuffer {
    const data: array<int>
    var writeIdx: nat
    var readIdx: nat
    ghost var contents: seq<int>

    ghost predicate Valid()
      reads this, data
    {
      && 2 <= data.Length && readIdx < data.Length && writeIdx < data.Length && |contents| < data.Length
      && writeIdx == Ahead(readIdx, |contents|)
      && (forall i :: 0 <= i < |contents| ==> data[Ahead(readIdx, i)] == contents[i])
    }

    function Ahead(i: nat, d: nat): (r: nat)
      requires i < data.Length && d <= data.Length
      ensures r < data.Length
    {
      if i + d < data.Length then i + d else i + d - data.Length
    }

    /** `cb_init`; the storage keeps whatever it held. */
    constructor (storage: array<int>)
      requires storage.Length >= 2
      ensures Valid() && data == storage && contents == []
    {
      data := storage;
      writeIdx, readIdx := 0, 0;
      contents := [];
    }

    method Push(sample: int) returns (ok: bool)
      requires Valid()
      modifies this, data
      ensures Valid()
      ensures QueueStep(data.Length, old(contents), if ok then Pushed(sample) else PushRefused(sample))
              == Some(contents)
      ensures ok <==> |old(contents)| < data.Length - 1
      ensures contents == if ok then old(contents) + [sample] else old(contents)
      ensures (ok, data[..], writeIdx) == PushEffect(old(data[..]), old(writeIdx), readIdx, sample)
      ensures readIdx == old(readIdx)
    {
      var nextWriteIdx := Next(data.Length, writeIdx);
      if nextWriteIdx != readIdx {
        data[writeIdx] := sample;
        writeIdx := Reduced(data.Length, nextWriteIdx);
        contents := contents + [sample];
        return true;
      } else {
        return false;
      }
    }

    /** Without a sample to pop, `out` stays what it was. */
    method Pop(out: int) returns (ok: bool, out': int)
      requires Valid()
      modifies this
      ensures Valid()
      ensures QueueStep(data.Length, old(contents), if ok then Popped(out') else PopRefused) == Some(contents)
      ensures ok <==> old(contents) != []
      ensures if ok then old(contents) == [out'] + contents else contents == old(contents)
      ensures (if ok then Some(out') else None, readIdx) == PopEffect(data[..], writeIdx, old(readIdx))
      ensures writeIdx == old(writeIdx) && (!ok ==> out' == out)
    {
      if readIdx != writeIdx {
        out' := data[readIdx];
        assert data[Ahead(readIdx, 0)] == contents[0];
        ghost var before, start := contents, readIdx;
        readIdx := Next(data.Length, readIdx);
        contents := contents[1..];
        assert forall i :: 0 <= i < |contents| ==> Ahead(readIdx, i) == Ahead(start, i + 1);
        return true, out';
      } else {
        return false, out;
      }
    }
  }
}

/** One producer and one consumer, interleaved at every access to shared memory. */
module RingBufferInterleaved {
  import opened Wrappers
  import opened RingBuffer

  /** Where the interrupt handler is inside `cb_push(x)`. */
  datatype Producer =
    | Outside
    | Full(x: int, next: nat)       // has computed the next index, is about to read read_idx
    | Index(x: int, next: nat)      // has seen room, is about to read write_idx again
    | Store(x: int, next: nat, at: nat)  // is about to write data[at]
    | Publish(x: int, next: nat)    // is about to write write_idx

  /** Where the main loop is inside `cb_pop`. */
  datatype Consumer =
    | Idle
    | Empty(at: nat)                // has read read_idx, is about to read write_idx
    | Locate                        // has seen a sample, is about to read read_idx again
    | Load(at: nat)                 // is about to read data[at]
    | Advance(x: int)               // is about to read read_idx once more
    | Release(x: int, next: nat)    // is about to write read_idx

  /** Shared memory, the two program positions, and the calls completed so far. */
  datatype State = State(data: seq<int>, w: nat, r: nat, p: Producer, c: Consumer,
                         accepted: seq<int>, popped: seq<int>, calls: seq<Call>)

  /** Who moves next; a producer outside `cb_push` starts a call with the given sample. */
  datatype Turn = Interrupt(sample: int) | MainLoop

  function Start(data: seq<int>): State {
    State(data, 0, 0, Outside, Idle, [], [], [])
  }

  predicate WellFormed(size: nat, s: State) {
    && 2 <= size == |s.data| && s.w < size && s.r < size
    && (!s.p.Outside? ==> s.p.next < size)
    && (s.p.Store? ==> s.p.at < size)
    && (s.c.Load? ==> s.c.at < size)
    && (s.c.Release? ==> s.c.next < size)
  }

  function Produce(size: nat, s: State, sample: int): (s': State)
    requires WellFormed(size, s)
    ensures WellFormed(size, s')
  {
    match s.p
    case Outside => s.(p := Full(sample, Next(size, s.w)))
    case Full(x, next) =>
      if next != s.r then s.(p := Index(x, next)) else s.(p := Outside, calls := s.calls + [PushRefused(x)])
    case Index(x, next) => s.(p := Store(x, next, s.w))
    case Store(x, next, at) => s.(data := s.data[at := x], p := Publish(x, next))
    case Publish(x, next) =>
      s.(w := Reduced(size, next), p := Outside, accepted := s.accepted + [x], calls := s.calls + [Pushed(x)])
  }

  function Consume(size: nat, s: State): (s': State)
    requires WellFormed(size, s)
    ensures WellFormed(size, s')
  {
    match s.c
    case Idle => s.(c := Empty(s.r))
    case Empty(at) => if at != s.w then s.(c := Locate) else s.(c := Idle, calls := s.calls + [PopRefused])
    case Locate => s.(c := Load(s.r))
    case Load(at) => s.(c := Advance(s.data[at]))
    case Advance(x) => s.(c := Release(x, Next(size, s.r)))
    case Release(x, next) =>
      s.(r := next, c := Idle, popped := s.popped + [x], calls := s.calls + [Popped(x)])
  }

  function Step(size: nat, s: State, t: Turn): State
    requires WellFormed(size, s)
  {
    match t
    case Interrupt(x) => Produce(size, s, x)
    case MainLoop => Consume(size, s)
  }

  // ---------------------------------------------------------------- one actor alone

  function ProduceTimes(size: nat, s: State, sample: int, n: nat): (s': State)
    requires WellFormed(size, s)
    ensures WellFormed(size, s')
  {
    if n == 0 then s else Produce(size, ProduceTimes(size, s, sample, n - 1), sample)
  }

  function ConsumeTimes(size: nat, s: State, n: nat): (s': State)
    requires WellFormed(size, s)
    ensures WellFormed(size, s')
  {
    if n == 0 then s else Consume(size, ConsumeTimes(size, s, n - 1))
  }

  /** Without interruption the accesses of `cb_push` add up to the call: five of them, or two when it is refused. */
  lemma PushAlone(size: nat, s: State, x: int)
    requires WellFormed(size, s) && s.p.Outside?
    ensures var (ok, data, w) := PushEffect(s.data, s.w, s.r, x);
            ProduceTimes(size, s, x, if ok then 5 else 2)
            == s.(data := data, w := w, accepted := s.accepted + if ok then [x] else [],
                  calls := s.calls + [if ok then Pushed(x) else PushRefused(x)])
  {
    hide ProduceTimes, Next, Reduced;
    ProducedOnce(size, s, x, 0);
    ProducedOnce(size, s, x, 1);
    if Next(size, s.w) != s.r {
      ProducedOnce(size, s, x, 2);
      ProducedOnce(size, s, x, 3);
      ProducedOnce(size, s, x, 4);
    }
  }

  lemma ProducedOnce(size: nat, s: State, x: int, n: nat)
    requires WellFormed(size, s)
    ensures ProduceTimes(size, s, x, n + 1) == Produce(size, ProduceTimes(size, s, x, n), x)
    ensures n == 0 ==> ProduceTimes(size, s, x, n) == s
  {
  }

  lemma PopLooks(size: nat, s: State)
    requires WellFormed(size, s) && s.c.Idle?
    ensures if s.r == s.w then ConsumeTimes(size, s, 2) == s.(c := Idle, calls := s.calls + [PopRefused])
            else ConsumeTimes(size, s, 3) == s.(c := Load(s.r))
  {
    hide ConsumeTimes, Next;
    ConsumedOnce(size, s, 0);
    ConsumedOnce(size, s, 1);
    if s.r != s.w { ConsumedOnce(size, s, 2); }
  }

  /** Without interference the accesses of `cb_pop` add up to the call: six of them, or two when it is refused. */
  lemma PopAlone(size: nat, s: State)
    requires WellFormed(size, s) && s.c.Idle?
    ensures var (out, r) := PopEffect(s.data, s.w, s.r);
            ConsumeTimes(size, s, if out.Some? then 6 else 2)
            == s.(r := r, popped := s.popped + if out.Some? then [out.value] else [],
                  calls := s.calls + [if out.Some? then Popped(out.value) else PopRefused])
  {
    hide ConsumeTimes, Next;
    PopLooks(size, s);
    if s.r != s.w {
      ConsumedOnce(size, s, 3);
      ConsumedOnce(size, s, 4);
      ConsumedOnce(size, s, 5);
    }
  }

  lemma ConsumedOnce(size: nat, s: State, n: nat)
    requires WellFormed(size, s)
    ensures ConsumeTimes(size, s, n + 1) == Consume(size, ConsumeTimes(size, s, n))
    ensures n == 0 ==> ConsumeTimes(size, s, n) == s
  {
  }

  // ---------------------------------------------------------------- the invariant

  /** The samples accepted and not yet popped. */
  function Queue(s: State): seq<int>
    requires |s.popped| <= |s.accepted|
  {
    s.accepted[|s.popped|..]
  }

  ghost predicate Counts(size: nat, s: State) {
    && WellFormed(size, s)
    && |s.popped| <= |s.accepted| < |s.popped| + size
    && s.w == Slot(size, |s.accepted|) && s.r == Slot(size, |s.popped|)
  }

  /** Every sample in the queue is in its slot, and what was popped is what was accepted. */
  ghost predicate Contents(size: nat, s: State)
    requires Counts(size, s)
  {
    && s.popped == s.accepted[..|s.popped|]
    && (forall k :: |s.popped| <= k < |s.accepted| ==> s.data[Slot(size, k)] == s.accepted[k])
  }

  ghost predicate ProducerOk(size: nat, s: State)
    requires Counts(size, s)
  {
    && (s.p.Outside? || s.p.next == Next(size, s.w))
    && (s.p.Index? || s.p.Store? || s.p.Publish? ==> |s.accepted| + 1 < |s.popped| + size)
    && (s.p.Store? ==> s.p.at == s.w)
    && (s.p.Publish? ==> s.data[s.w] == s.p.x)
  }

  ghost predicate ConsumerOk(size: nat, s: State)
    requires Counts(size, s)
  {
    && (s.c.Empty? || s.c.Load? ==> s.c.at == s.r)
    && (s.c.Locate? || s.c.Load? || s.c.Advance? || s.c.Release? ==> |s.popped| < |s.accepted|)
    && (s.c.Advance? || s.c.Release? ==> s.c.x == s.accepted[|s.popped|])
    && (s.c.Release? ==> s.c.next == Next(size, s.r))
  }

  ghost predicate Inv(size: nat, s: State) {
    && Counts(size, s) && Contents(size, s) && ProducerOk(size, s) && ConsumerOk(size, s)
    && QueueRun(size, s.calls) == Some(Queue(s))
    && Pushes(s.calls) == s.accepted && Pops(s.calls) == s.popped
  }

  lemma CallsGrow(size: nat, calls: seq<Call>, c: Call, q: seq<int>)
    requires QueueRun(size, calls) == Some(q)
    ensures QueueRun(size, calls + [c]) == QueueStep(size, q, c)
    ensures Pushes(calls + [c]) == Pushes(calls) + if c.Pushed? then [c.x] else []
    ensures Pops(calls + [c]) == Pops(calls) + if c.Popped? then [c.x] else []
  {
  }

  lemma QueueLength(s: State)
    requires |s.popped| <= |s.accepted|
    ensures |Queue(s)| == |s.accepted| - |s.popped|
  {
  }

  /** The slot being filled is not one the consumer may still read. */
  lemma FreeSlot(size: nat, s: State, k: nat)
    requires Counts(size, s) && |s.popped| <= k < |s.accepted|
    ensures Slot(size, k) != s.w
  {
    if Slot(size, k) == s.w { DistinctSlots(size, k, |s.accepted|); }
  }

  lemma RefusingPush(size: nat, s: State, x: int)
    requires Inv(size, s) && s.p.Full? && s.p.next == s.r
    ensures |s.accepted| + 1 == |s.popped| + size
    ensures Inv(size, Produce(size, s, x))
  {
    hide Slot, QueueRun, Pushes, Pops;
    SlotAfter(size, |s.accepted|);
    assert Slot(size, |s.accepted| + 1) == Slot(size, |s.popped|);
    if |s.accepted| + 1 < |s.popped| + size { DistinctSlots(size, |s.popped|, |s.accepted| + 1); }
    CallsGrow(size, s.calls, PushRefused(s.p.x), Queue(s));
  }

  lemma SeeingRoom(size: nat, s: State, x: int)
    requires Inv(size, s) && s.p.Full? && s.p.next != s.r
    ensures |s.accepted| + 1 < |s.popped| + size
    ensures Inv(size, Produce(size, s, x))
  {
    hide Slot, QueueRun, Pushes, Pops;
    SlotAfter(size, |s.accepted|);
    SlotsAhead(size, |s.popped|, size);
    assert Slot(size, |s.accepted| + 1) != Slot(size, |s.popped|);
    assert |s.accepted| + 1 != |s.popped| + size;
  }

  lemma Storing(size: nat, s: State, x: int)
    requires Inv(size, s) && s.p.Store?
    ensures Inv(size, Produce(size, s, x))
  {
    hide Slot, QueueRun, Pushes, Pops;
    var s' := Produce(size, s, x);
    forall k | |s.popped| <= k < |s.accepted| ensures s'.data[Slot(size, k)] == s.accepted[k] {
      FreeSlot(size, s, k);
    }
  }

  lemma PublishedSamples(size: nat, s: State, x: int)
    requires Inv(size, s) && s.p.Publish?
    ensures var s' := Produce(size, s, x);
            Counts(size, s') && Contents(size, s') && Queue(s') == Queue(s) + [s.p.x]
  {
    hide Slot, QueueRun, Next, Reduced, ConsumerOk;
    SlotAfter(size, |s.accepted|);
    var s' := Produce(size, s, x);
    assert s'.accepted[..|s.popped|] == s.accepted[..|s.popped|];
    forall k | |s.popped| <= k < |s'.accepted| ensures s'.data[Slot(size, k)] == s'.accepted[k] {
      if k == |s.accepted| { assert s'.accepted[k] == s.p.x; } else { assert s'.accepted[k] == s.accepted[k]; }
    }
  }

  lemma Publishing(size: nat, s: State, x: int)
    requires Inv(size, s) && s.p.Publish?
    ensures Inv(size, Produce(size, s, x))
  {
    hide Slot, QueueRun, Next, Reduced, Queue, Contents, Pushes, Pops;
    PublishedSamples(size, s, x);
    CallsGrow(size, s.calls, Pushed(s.p.x), Queue(s));
    assert |Queue(s)| == |s.accepted| - |s.popped| by { QueueLength(s); }
  }

  /** Each move of the producer keeps the invariant, whatever the consumer is doing. */
  lemma ProduceKeepsInv(size: nat, s: State, x: int)
    requires Inv(size, s)
    ensures Inv(size, Produce(size, s, x))
  {
    hide Slot, QueueRun, Pushes, Pops, QueueStep, Next, Reduced;
    if s.p.Full? && s.p.next == s.r { RefusingPush(size, s, x); }
    else if s.p.Full? { SeeingRoom(size, s, x); }
    else if s.p.Store? { Storing(size, s, x); }
    else if s.p.Publish? { Publishing(size, s, x); }
  }

  lemma Looking(size: nat, s: State)
    requires Inv(size, s) && s.c.Empty?
    ensures s.r == s.w <==> |s.popped| == |s.accepted|
    ensures Inv(size, Consume(size, s))
  {
    hide Slot, QueueRun, Pushes, Pops;
    if s.r == s.w {
      DistinctSlots(size, |s.popped|, |s.accepted|);
      CallsGrow(size, s.calls, PopRefused, Queue(s));
    } else {
      assert |s.popped| != |s.accepted|;
    }
  }

  lemma Releasing(size: nat, s: State)
    requires Inv(size, s) && s.c.Release?
    ensures Inv(size, Consume(size, s))
  {
    hide Slot, QueueRun, Pushes, Pops;
    SlotAfter(size, |s.popped|);
    var s' := Consume(size, s);
    var n := |s.popped|;
    assert s'.r == Slot(size, n + 1);
    assert s.accepted[..n + 1] == s.accepted[..n] + [s.accepted[n]];
    assert Queue(s') == Queue(s)[1..] && Queue(s)[0] == s.c.x;
    CallsGrow(size, s.calls, Popped(s.c.x), Queue(s));
    assert Contents(size, s');
  }

  /** Each move of the consumer keeps the invariant, whatever the producer is doing. */
  lemma ConsumeKeepsInv(size: nat, s: State)
    requires Inv(size, s)
    ensures Inv(size, Consume(size, s))
  {
    hide Slot, QueueRun, Pushes, Pops, QueueStep, Next;
    if s.c.Empty? { Looking(size, s); }
    else if s.c.Release? { Releasing(size, s); }
    else if s.c.Load? { assert s.data[Slot(size, |s.popped|)] == s.accepted[|s.popped|]; }
  }

  /** A push is refused exactly when the buffer is full, and a pop exactly when it is empty, at the instant of the
      answer. */
  lemma RefusedExactlyWhen(size: nat, s: State, x: int)
    requires Inv(size, s)
    ensures s.p.Full? ==> (Produce(size, s, x).calls == s.calls + [PushRefused(s.p.x)]
                           <==> |s.accepted| - |s.popped| == size - 1)
    ensures s.c.Empty? ==> (Consume(size, s).calls == s.calls + [PopRefused] <==> |s.accepted| == |s.popped|)
  {
    hide Slot, QueueRun, Pushes, Pops, Next, QueueStep;
    assert forall c: Call :: s.calls + [c] != s.calls;
    if s.p.Full? && s.p.next == s.r { RefusingPush(size, s, x); }
    if s.p.Full? && s.p.next != s.r { SeeingRoom(size, s, x); }
    if s.c.Empty? { Looking(size, s); }
  }

  // ---------------------------------------------------------------- every schedule

  ghost function Run(size: nat, s: State, schedule: seq<Turn>): State
    requires Inv(size, s)
    ensures Inv(size, Run(size, s, schedule))
    decreases |schedule|
  {
    if schedule == [] then s
    else
      ProduceKeepsInv(size, s, if schedule[0].Interrupt? then schedule[0].sample else 0);
      ConsumeKeepsInv(size, s);
      Run(size, Step(size, s, schedule[0]), schedule[1..])
  }

  lemma StartIsOk(size: nat, data: seq<int>)
    requires 2 <= size == |data|
    ensures Inv(size, Start(data))
  {
  }

  /** Under every interleaving the completed calls answer like a queue of `size - 1` samples that
      takes each of them at one instant; what was popped is a prefix of what was accepted. */
  lemma EveryScheduleIsAQueue(size: nat, data: seq<int>, schedule: seq<Turn>)
    requires 2 <= size == |data|
    ensures Inv(size, Start(data))
    ensures var s := Run(size, Start(data), schedule);
            && s.popped <= s.accepted && |s.accepted| - |s.popped| <= size - 1
            && QueueRun(size, s.calls) == Some(s.accepted[|s.popped|..])
            && Pushes(s.calls) == s.accepted && Pops(s.calls) == s.popped
  {
    StartIsOk(size, data);
  }

  /** A store never hits a slot that still holds an unpopped sample, nor the one being loaded. */
  lemma StoresSpareUnpopped(size: nat, s: State, x: int, k: nat)
    requires Inv(size, s) && s.p.Store? && |s.popped| <= k < |s.accepted|
    ensures Produce(size, s, x).data[Slot(size, k)] == s.accepted[k] && s.p.at != Slot(size, k)
    ensures s.c.Load? ==> s.c.at != s.p.at
  {
    FreeSlot(size, s, k);
    FreeSlot(size, s, |s.popped|);
  }

  // ---------------------------------------------------------------- calls end

  function PushesAnswered(calls: seq<Call>): nat {
    if calls == [] then 0
    else
      var c := calls[|calls| - 1];
      PushesAnswered(calls[..|calls| - 1]) + if c.Pushed? || c.PushRefused? then 1 else 0
  }

  function PopsAnswered(calls: seq<Call>): nat {
    if calls == [] then 0
    else
      var c := calls[|calls| - 1];
      PopsAnswered(calls[..|calls| - 1]) + if c.Popped? || c.PopRefused? then 1 else 0
  }

  lemma OneMoreAnswer(calls: seq<Call>, c: Call)
    ensures PushesAnswered(calls + [c]) == PushesAnswered(calls) + if c.Pushed? || c.PushRefused? then 1 else 0
    ensures PopsAnswered(calls + [c]) == PopsAnswered(calls) + if c.Popped? || c.PopRefused? then 1 else 0
  {
    assert (calls + [c])[..|calls|] == calls;
  }

  function InterruptTurns(schedule: seq<Turn>): nat {
    if schedule == [] then 0 else (if schedule[0].Interrupt? then 1 else 0) + InterruptTurns(schedule[1..])
  }

  function MainLoopTurns(schedule: seq<Turn>): nat {
    if schedule == [] then 0 else (if schedule[0].MainLoop? then 1 else 0) + MainLoopTurns(schedule[1..])
  }

  /** How many of its own accesses the producer makes at most until the next answer. */
  function ProducerLeft(p: Producer): nat {
    match p
    case Outside => 5
    case Full(_, _) => 4
    case Index(_, _) => 3
    case Store(_, _, _) => 2
    case Publish(_, _) => 1
  }

  function ConsumerLeft(c: Consumer): nat {
    match c
    case Idle => 6
    case Empty(_) => 5
    case Locate => 4
    case Load(_) => 3
    case Advance(_) => 2
    case Release(_, _) => 1
  }

  /** A turn answers a call of the actor that has it, or brings that actor closer to an answer. */
  lemma TurnProgress(size: nat, s: State, t: Turn)
    requires WellFormed(size, s)
    ensures var s' := Step(size, s, t);
            && PushesAnswered(s'.calls) >= PushesAnswered(s.calls)
            && PopsAnswered(s'.calls) >= PopsAnswered(s.calls)
            && (t.Interrupt? ==> PushesAnswered(s'.calls) > PushesAnswered(s.calls)
                                 || ProducerLeft(s'.p) < ProducerLeft(s.p))
            && (t.MainLoop? ==> PopsAnswered(s'.calls) > PopsAnswered(s.calls)
                                || ConsumerLeft(s'.c) < ConsumerLeft(s.c))
            && (t.Interrupt? ==> s'.c == s.c) && (t.MainLoop? ==> s'.p == s.p)
  {
    hide PushesAnswered, PopsAnswered, Next, Reduced;
    var s' := Step(size, s, t);
    if s'.calls != s.calls { OneMoreAnswer(s.calls, s'.calls[|s.calls|]); }
  }

  lemma StepKeepsInv(size: nat, s: State, t: Turn)
    requires Inv(size, s)
    ensures Inv(size, Step(size, s, t))
  {
    hide Inv, Produce, Consume;
    match t
    case Interrupt(x) => ProduceKeepsInv(size, s, x);
    case MainLoop => ConsumeKeepsInv(size, s);
  }

  /** Five accesses of the producer answer a push, and six of the consumer a pop, wherever in a call they begin
      and whatever the other actor does in between. */
  lemma {:induction false} CallsEnd(size: nat, s: State, schedule: seq<Turn>)
    requires Inv(size, s)
    ensures var s' := Run(size, s, schedule);
            && PushesAnswered(s'.calls) >= PushesAnswered(s.calls)
            && PopsAnswered(s'.calls) >= PopsAnswered(s.calls)
            && (InterruptTurns(schedule) >= ProducerLeft(s.p) ==> PushesAnswered(s'.calls) > PushesAnswered(s.calls))
            && (MainLoopTurns(schedule) >= ConsumerLeft(s.c) ==> PopsAnswered(s'.calls) > PopsAnswered(s.calls))
    decreases |schedule|
  {
    hide Inv, Step, PushesAnswered, PopsAnswered;
    if schedule == [] {
    } else {
      InvIsWellFormed(size, s);
      StepKeepsInv(size, s, schedule[0]);
      TurnProgress(size, s, schedule[0]);
      CallsEnd(size, Step(size, s, schedule[0]), schedule[1..]);
    }
  }

  lemma InvIsWellFormed(size: nat, s: State)
    requires Inv(size, s)
    ensures WellFormed(size, s)
  {
  }
}
