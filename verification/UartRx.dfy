/** Receiving over the UART bridge. The driver fills blocks from a slab; each event for received data points
    into a block; a counter in the block says how many users it has, and the last one gives it back. */
module UartRx {
  import opened Wrappers
  import opened Bits

  // ---------------------------------------------------------------------------------------------
  // Addresses
  // ---------------------------------------------------------------------------------------------

  /** The slab: blocks of `blockSize` bytes in a row. A block starts with its counter and length, and the
      bytes for received data follow. */
  datatype Slab = Slab(base: nat, blockSize: nat, header: nat, count: nat)

  predicate IsSlab(slab: Slab) {
    slab.header < slab.blockSize
  }

  function BlockStart(slab: Slab, b: nat): nat {
    slab.base + b * slab.blockSize
  }

  /** The address of byte `offset` of the data in block `b`. */
  function DataAt(slab: Slab, b: nat, offset: nat): nat {
    BlockStart(slab, b) + slab.header + offset
  }

  function BlockOf(slab: Slab, address: nat): nat
    requires IsSlab(slab) && slab.base <= address
  {
    (address - slab.base) / slab.blockSize
  }

  /** Rounding down finds the block of a pointer to any of its data. */
  lemma BlockFound(slab: Slab, b: nat, offset: nat)
    requires IsSlab(slab) && slab.header + offset < slab.blockSize
    ensures BlockOf(slab, DataAt(slab, b, offset)) == b
  {
    DivModUnique(b * slab.blockSize + (slab.header + offset), slab.blockSize, b, slab.header + offset);
  }

  // ---------------------------------------------------------------------------------------------
  // States and events
  // ---------------------------------------------------------------------------------------------

  /** An event for received data: where it is, and how much. */
  datatype Received = Received(buf: nat, len: nat)

  /** `free` are the blocks in the slab and `held` those that the driver may fill; `pending` are the
      events that have not been delivered; `ending` are blocks whose counter has come down to
      zero but that are not back in the slab yet. */
  datatype State = State(free: set<nat>, counter: map<nat, int>, held: set<nat>, pending: seq<Received>, ending: set<nat>)

  /** What can happen: the driver is given a block, reports data in one, refuses or gives back a block; an
      event is delivered; and whoever took the last reference frees the block. */
  datatype Event =
    | Granted(b: nat)
    | Refused(b: nat)
    | Ready(b: nat, offset: nat, len: nat)
    | Released(b: nat)
    | Delivered(k: nat)
    | Freed(b: nat)

  function Below(n: nat): (s: set<nat>)
    ensures forall b: nat :: b in s <==> b < n
  {
    if n == 0 then {} else Below(n - 1) + {n - 1}
  }

  function Init(slab: Slab): State {
    State(Below(slab.count), map[], {}, [], {})
  }

  /** How many events that have not been delivered point into a block. */
  function Pointing(slab: Slab, pending: seq<Received>, b: nat): nat
    requires IsSlab(slab) && forall k :: 0 <= k < |pending| ==> slab.base <= pending[k].buf
  {
    if pending == [] then 0
    else Pointing(slab, pending[..|pending| - 1], b) + if BlockOf(slab, pending[|pending| - 1].buf) == b then 1 else 0
  }

  /** One reference less: the block ends with the last. */
  function Dropped(s: State, b: nat): State
    requires b in s.counter
  {
    var t := s.(counter := s.counter[b := s.counter[b] - 1]);
    if s.counter[b] == 1 then t.(ending := s.ending + {b}) else t
  }

  function Without(pending: seq<Received>, k: nat): seq<Received>
    requires k < |pending|
  {
    pending[..k] + pending[k + 1..]
  }

  predicate Enabled(slab: Slab, s: State, e: Event)
    requires IsSlab(slab)
  {
    match e
    case Granted(b) => b in s.free
    case Refused(b) => b in s.free
    case Ready(b, offset, len) => b in s.held && b in s.counter && len > 0 && slab.header + offset + len <= slab.blockSize
    case Released(b) => b in s.held && b in s.counter
    case Delivered(k) => k < |s.pending| && slab.base <= s.pending[k].buf && BlockOf(slab, s.pending[k].buf) in s.counter
    case Freed(b) => b in s.ending && b in s.counter
  }

  function Next(slab: Slab, s: State, e: Event): State
    requires IsSlab(slab) && Enabled(slab, s, e)
  {
    match e
    case Granted(b) => s.(free := s.free - {b}, counter := s.counter[b := 1], held := s.held + {b})
    case Refused(b) => Dropped(s.(free := s.free - {b}, counter := s.counter[b := 1]), b)
    case Ready(b, offset, len) =>
      s.(counter := s.counter[b := s.counter[b] + 1], pending := s.pending + [Received(DataAt(slab, b, offset), len)])
    case Released(b) => Dropped(s.(held := s.held - {b}), b)
    case Delivered(k) => Dropped(s.(pending := Without(s.pending, k)), BlockOf(slab, s.pending[k].buf))
    case Freed(b) => s.(free := s.free + {b}, counter := s.counter - {b}, ending := s.ending - {b})
  }

  // ---------------------------------------------------------------------------------------------
  // The counters
  // ---------------------------------------------------------------------------------------------

  predicate Pointers(slab: Slab, pending: seq<Received>)
    requires IsSlab(slab)
  {
    forall k :: 0 <= k < |pending| ==> slab.base <= pending[k].buf
  }

  /** A block that is in use counts its users: the driver if it holds the block, and the events that point
      into it. A block that is not in use has none, and is in the slab or on its way back. */
  ghost predicate Counted(slab: Slab, s: State, b: nat)
    requires IsSlab(slab) && Pointers(slab, s.pending)
  {
    && (b in s.counter <==> b !in s.free)
    && (b in s.counter ==> s.counter[b] == (if b in s.held then 1 else 0) + Pointing(slab, s.pending, b))
    && (b in s.counter ==> (b in s.ending <==> s.counter[b] == 0))
    && (b in s.free ==> b !in s.held && Pointing(slab, s.pending, b) == 0 && b !in s.ending)
  }

  /** All blocks of the slab are counted right, and nothing points outside of it. */
  ghost predicate Inv(slab: Slab, s: State) {
    && IsSlab(slab) && Pointers(slab, s.pending)
    && (forall b: nat :: b < slab.count ==> Counted(slab, s, b))
    && (forall b: nat :: b in s.free || b in s.counter || b in s.held || b in s.ending ==> b < slab.count)
    && (forall k :: 0 <= k < |s.pending| ==> BlockOf(slab, s.pending[k].buf) < slab.count)
  }

  lemma WithoutLast(pending: seq<Received>, k: nat, m: nat)
    requires k < m == |pending| - 1
    ensures |Without(pending, k)| == m && Without(pending, k)[..m - 1] == Without(pending[..m], k) && Without(pending, k)[m - 1] == pending[m]
  {
  }

  lemma {:induction false} PointingWithout(slab: Slab, pending: seq<Received>, k: nat, b: nat)
    requires IsSlab(slab) && Pointers(slab, pending) && k < |pending|
    ensures Pointers(slab, Without(pending, k))
    ensures Pointing(slab, pending, b) == Pointing(slab, Without(pending, k), b) + if BlockOf(slab, pending[k].buf) == b then 1 else 0
  {
    hide BlockOf;
    var m := |pending| - 1;
    if k == m {
      assert Without(pending, k) == pending[..m];
    } else {
      WithoutLast(pending, k, m);
      PointingWithout(slab, pending[..m], k, b);
    }
  }

  /** An event that points into a block is one of its users. */
  lemma {:induction false} PointedAt(slab: Slab, pending: seq<Received>, k: nat)
    requires IsSlab(slab) && Pointers(slab, pending) && k < |pending|
    ensures Pointing(slab, pending, BlockOf(slab, pending[k].buf)) > 0
  {
    hide BlockOf;
    if k < |pending| - 1 {
      PointedAt(slab, pending[..|pending| - 1], k);
    }
  }

  lemma InitCounted(slab: Slab)
    requires IsSlab(slab)
    ensures Inv(slab, Init(slab))
  {
  }

  /** What happens to one block leaves the others as they are. */
  lemma OneBlock(slab: Slab, s: State, t: State, b: nat)
    requires Inv(slab, s) && b < slab.count && t.pending == s.pending && Counted(slab, t, b)
    requires forall c: nat :: c != b ==> (c in t.free <==> c in s.free) && (c in t.held <==> c in s.held) && (c in t.ending <==> c in s.ending)
    requires forall c: nat :: c != b ==> (c in t.counter <==> c in s.counter)
    requires forall c: nat :: c != b && c in s.counter ==> t.counter[c] == s.counter[c]
    ensures Inv(slab, t)
  {
    hide BlockOf;
    hide Pointing;
    forall c: nat | c < slab.count
      ensures Counted(slab, t, c)
    {
      assert Counted(slab, s, c);
    }
  }

  lemma StepCounted(slab: Slab, s: State, e: Event)
    requires IsSlab(slab) && Inv(slab, s) && Enabled(slab, s, e)
    ensures Inv(slab, Next(slab, s, e))
  {
    hide BlockOf;
    hide DataAt;
    hide Inv;
    match e {
      case Ready(b, offset, len) =>
        BlockFound(slab, b, offset);
        DataInSlab(slab, b, offset);
        ReadyCounted(slab, s, b, Received(DataAt(slab, b, offset), len));
      case Delivered(k) =>
        DeliveredCounted(slab, s, k);
      case Granted(b) =>
        EachCounted(slab, s, b);
        OneBlock(slab, s, Next(slab, s, e), b);
      case Refused(b) =>
        EachCounted(slab, s, b);
        OneBlock(slab, s, Next(slab, s, e), b);
      case Released(b) =>
        EachCounted(slab, s, b);
        OneBlock(slab, s, Next(slab, s, e), b);
      case Freed(b) =>
        EachCounted(slab, s, b);
        OneBlock(slab, s, Next(slab, s, e), b);
    }
  }

  lemma EachCounted(slab: Slab, s: State, b: nat)
    requires Inv(slab, s) && (b in s.free || b in s.counter || b in s.held || b in s.ending)
    ensures Pointers(slab, s.pending) && b < slab.count && Counted(slab, s, b)
  {
  }

  lemma DataInSlab(slab: Slab, b: nat, offset: nat)
    ensures slab.base <= DataAt(slab, b, offset)
  {
  }

  lemma ReadyCounted(slab: Slab, s: State, b: nat, r: Received)
    requires Inv(slab, s) && b in s.held && b in s.counter && slab.base <= r.buf && BlockOf(slab, r.buf) == b
    ensures Inv(slab, s.(counter := s.counter[b := s.counter[b] + 1], pending := s.pending + [r]))
  {
    hide BlockOf;
    var after := s.pending + [r];
    assert after[..|after| - 1] == s.pending;
    assert Counted(slab, s, b);
    var t := s.(counter := s.counter[b := s.counter[b] + 1], pending := after);
    forall c: nat | c < slab.count
      ensures Counted(slab, t, c)
    {
      assert Counted(slab, s, c);
    }
  }

  lemma InSlabWithout(slab: Slab, pending: seq<Received>, k: nat)
    requires IsSlab(slab) && Pointers(slab, pending) && k < |pending|
    requires forall j :: 0 <= j < |pending| ==> BlockOf(slab, pending[j].buf) < slab.count
    ensures Pointers(slab, Without(pending, k))
    ensures forall j :: 0 <= j < |Without(pending, k)| ==> BlockOf(slab, Without(pending, k)[j].buf) < slab.count
  {
    hide BlockOf;
  }

  lemma DeliveredCounted(slab: Slab, s: State, k: nat)
    requires Inv(slab, s) && k < |s.pending| && BlockOf(slab, s.pending[k].buf) in s.counter
    ensures Inv(slab, Dropped(s.(pending := Without(s.pending, k)), BlockOf(slab, s.pending[k].buf)))
  {
    hide BlockOf;
    hide Pointing;
    hide Without;
    var b := BlockOf(slab, s.pending[k].buf);
    PointedAt(slab, s.pending, k);
    assert Counted(slab, s, b);
    var u := s.(pending := Without(s.pending, k));
    var t := Dropped(u, b);
    InSlabWithout(slab, s.pending, k);
    forall c: nat | c < slab.count
      ensures Counted(slab, t, c)
    {
      assert Counted(slab, s, c);
      PointingWithout(slab, s.pending, k, c);
    }
  }

  // ---------------------------------------------------------------------------------------------
  // Runs
  // ---------------------------------------------------------------------------------------------

  ghost predicate IsRun(slab: Slab, events: seq<Event>, t: State)
    requires IsSlab(slab)
    decreases |events|
  {
    if events == [] then t == Init(slab)
    else
      var before, e := events[..|events| - 1], events[|events| - 1];
      exists u :: IsRun(slab, before, u) && Enabled(slab, u, e) && t == Next(slab, u, e)
  }

  /** How often a block was taken from the slab, and how often it came back. */
  function Taken(events: seq<Event>, b: nat): nat {
    if events == [] then 0
    else
      var e := events[|events| - 1];
      Taken(events[..|events| - 1], b) + if (e.Granted? || e.Refused?) && e.b == b then 1 else 0
  }

  function Returned(events: seq<Event>, b: nat): nat {
    if events == [] then 0
    else
      var e := events[|events| - 1];
      Returned(events[..|events| - 1], b) + if e.Freed? && e.b == b then 1 else 0
  }

  /** In every reachable state the counters are right; and a block has come back exactly as often as it was
      taken, less one while it is out. */
  lemma {:induction false} RunCounted(slab: Slab, events: seq<Event>, s: State)
    requires IsSlab(slab) && IsRun(slab, events, s)
    ensures Inv(slab, s)
    ensures forall b: nat :: b < slab.count ==> Taken(events, b) == Returned(events, b) + if b in s.free then 0 else 1
  {
    hide Inv;
    if events == [] {
      InitCounted(slab);
    } else {
      var before, e := events[..|events| - 1], events[|events| - 1];
      var u :| IsRun(slab, before, u) && Enabled(slab, u, e) && s == Next(slab, u, e);
      RunCounted(slab, before, u);
      StepCounted(slab, u, e);
      EndingIsOut(slab, u);
    }
  }

  lemma EndingIsOut(slab: Slab, s: State)
    requires Inv(slab, s)
    ensures forall b: nat :: b < slab.count && b in s.ending ==> b !in s.free
    ensures forall b: nat :: b in s.free ==> b < slab.count
  {
    forall b: nat | b < slab.count && b in s.ending
      ensures b !in s.free
    {
      assert Counted(slab, s, b);
    }
  }

  /** No event is left pointing into a block that is back in the slab or on its way, and the driver does
      not hold it. */
  lemma NoUseAfterFree(slab: Slab, events: seq<Event>, s: State, k: nat)
    requires IsSlab(slab) && IsRun(slab, events, s) && k < |s.pending|
    ensures slab.base <= s.pending[k].buf
    ensures var b := BlockOf(slab, s.pending[k].buf); b in s.counter && s.counter[b] > 0 && b !in s.free && b !in s.ending
  {
    RunCounted(slab, events, s);
    PointedAt(slab, s.pending, k);
    assert Counted(slab, s, BlockOf(slab, s.pending[k].buf));
  }

  // ---------------------------------------------------------------------------------------------
  // What is submitted and delivered
  // ---------------------------------------------------------------------------------------------

  /** The events for received data that a run has submitted: byte `offset` of the data of block `b`, and so
      many bytes from there. */
  function Submitted(slab: Slab, events: seq<Event>): seq<Received> {
    if events == [] then []
    else
      var before, e := Submitted(slab, events[..|events| - 1]), events[|events| - 1];
      if e.Ready? then before + [Received(slab.base + e.b * slab.blockSize + slab.header + e.offset, e.len)] else before
  }

  /** How many of them have been delivered. */
  function Deliveries(events: seq<Event>): nat {
    if events == [] then 0 else Deliveries(events[..|events| - 1]) + if events[|events| - 1].Delivered? then 1 else 0
  }

  /** `some` are the elements of `all` at the places `at`, in their order. */
  predicate Picked(at: seq<nat>, all: seq<Received>, some: seq<Received>) {
    && |at| == |some| && (forall j :: 0 <= j < |at| ==> at[j] < |all| && some[j] == all[at[j]])
    && forall i, j :: 0 <= i < j < |at| ==> at[i] < at[j]
  }

  /** Over every run: the events that have not been delivered are submitted ones, each with its address and
      length and in the order of submission; and all others have been delivered. */
  lemma {:induction false} RunSubmits(slab: Slab, events: seq<Event>, s: State) returns (at: seq<nat>)
    requires IsSlab(slab) && IsRun(slab, events, s)
    ensures Picked(at, Submitted(slab, events), s.pending)
    ensures |s.pending| + Deliveries(events) == |Submitted(slab, events)|
  {
    at := [];
    if events != [] {
      var before, e := events[..|events| - 1], events[|events| - 1];
      var u :| IsRun(slab, before, u) && Enabled(slab, u, e) && s == Next(slab, u, e);
      at := RunSubmits(slab, before, u);
      hide Picked;
      hide IsRun;
      var all := Submitted(slab, before);
      match e {
        case Ready(b, offset, len) =>
          at := PickedNext(at, all, u.pending, Received(DataAt(slab, b, offset), len));
        case Delivered(k) =>
          at := PickedWithout(at, all, u.pending, k);
        case _ =>
      }
    } else {
      assert Picked([], [], []);
    }
  }

  lemma PickedNext(at: seq<nat>, all: seq<Received>, some: seq<Received>, r: Received) returns (at': seq<nat>)
    requires Picked(at, all, some)
    ensures Picked(at', all + [r], some + [r])
  {
    at' := at + [|all|];
  }

  lemma PickedWithout(at: seq<nat>, all: seq<Received>, some: seq<Received>, k: nat) returns (at': seq<nat>)
    requires Picked(at, all, some) && k < |some|
    ensures Picked(at', all, Without(some, k)) && |Without(some, k)| == |some| - 1
  {
    at' := at[..k] + at[k + 1..];
  }

  /** An event queue delivers the oldest event first. */
  predicate OldestFirst(events: seq<Event>) {
    forall i :: 0 <= i < |events| && events[i].Delivered? ==> events[i].k == 0
  }

  /** Then the events are delivered in the order of submission, and what is left is the rest. */
  lemma {:induction false} DeliveredInOrder(slab: Slab, events: seq<Event>, s: State)
    requires IsSlab(slab) && IsRun(slab, events, s) && OldestFirst(events)
    ensures Deliveries(events) <= |Submitted(slab, events)| && s.pending == Submitted(slab, events)[Deliveries(events)..]
  {
    if events != [] {
      var before, e := events[..|events| - 1], events[|events| - 1];
      var u :| IsRun(slab, before, u) && Enabled(slab, u, e) && s == Next(slab, u, e);
      assert forall i :: 0 <= i < |before| ==> before[i] == events[i];
      DeliveredInOrder(slab, before, u);
    }
  }

  /** The bytes of an event are in the part for data of one block of the slab. */
  ghost predicate InsideBlock(slab: Slab, r: Received)
    requires IsSlab(slab)
  {
    && slab.base <= r.buf && 0 < r.len
    && var b := BlockOf(slab, r.buf);
      b < slab.count && BlockStart(slab, b) + slab.header <= r.buf && r.buf + r.len <= BlockStart(slab, b) + slab.blockSize
  }

  lemma {:induction false} RunStaysInside(slab: Slab, events: seq<Event>, s: State)
    requires IsSlab(slab) && IsRun(slab, events, s)
    ensures forall k :: 0 <= k < |s.pending| ==> InsideBlock(slab, s.pending[k])
  {
    if events != [] {
      var before, e := events[..|events| - 1], events[|events| - 1];
      var u :| IsRun(slab, before, u) && Enabled(slab, u, e) && s == Next(slab, u, e);
      RunStaysInside(slab, before, u);
      if e.Ready? {
        RunCounted(slab, before, u);
        BlockFound(slab, e.b, e.offset);
      }
      hide BlockOf;
      hide IsRun;
      hide Inv;
    }
  }

  // ---------------------------------------------------------------------------------------------
  // The handler's functions
  // ---------------------------------------------------------------------------------------------

  /** The state when whoever dropped the last reference has given the block back. */
  function Settled(slab: Slab, s: State, b: nat): State
    requires IsSlab(slab)
  {
    if b in s.ending && b in s.counter then Next(slab, s, Freed(b)) else s
  }

  /** The reception of one slab. The slab and the driver belong to the operating system: which block is
      allocated and what the driver answers are parameters. */
  class Handler {
    const slab: Slab
    var free: set<nat>
    var counter: map<nat, int>
    ghost var held: set<nat>
    ghost var pending: seq<Received>

    ghost function Now(): State
      reads this
    {
      State(free, counter, held, pending, {})
    }

    constructor (slab: Slab)
      requires IsSlab(slab)
      ensures this.slab == slab && Now() == Init(slab) && Inv(slab, Now())
    {
      this.slab := slab;
      free, counter, held, pending := Below(slab.count), map[], {}, [];
      new;
      InitCounted(slab);
    }

    /** The block that a pointer is in. */
    method BlockStartGet(buf: nat) returns (block_num: nat, start: nat)
      requires IsSlab(slab) && slab.base <= buf
      ensures block_num == BlockOf(slab, buf) && start == BlockStart(slab, block_num) && start <= buf < start + slab.blockSize
    {
      block_num := (buf - slab.base) / slab.blockSize;
      start := slab.base + block_num * slab.blockSize;
    }

    method BufAlloc(b: nat)
      requires b in free
      modifies this`free, this`counter
      ensures free == old(free) - {b} && counter == old(counter)[b := 1]
    {
      free := free - {b};
      counter := counter[b := 1];
    }

    method BufRef(buf: nat)
      requires IsSlab(slab) && slab.base <= buf && BlockOf(slab, buf) in counter
      modifies this`counter
      ensures var b := BlockOf(slab, buf); counter == old(counter)[b := old(counter)[b] + 1]
    {
      var b, start := BlockStartGet(buf);
      counter := counter[b := counter[b] + 1];
    }

    /** One reference less; the last gives the block back to the slab. */
    method BufUnref(buf: nat)
      requires IsSlab(slab) && slab.base <= buf && BlockOf(slab, buf) in counter
      modifies this`free, this`counter
      ensures Now() == Settled(slab, Dropped(old(Now()), BlockOf(slab, buf)), BlockOf(slab, buf))
    {
      hide BlockOf;
      var b, start := BlockStartGet(buf);
      var ref_counter := counter[b];
      counter := counter[b := ref_counter - 1];
      if ref_counter == 1 {
        free := free + {b};
        counter := counter - {b};
        assert {b} - {b} == {};
      }
    }

    /** The driver has received data: one more user, until the event is delivered. */
    method RxReady(b: nat, offset: nat, len: nat)
      requires IsSlab(slab) && Inv(slab, Now()) && Enabled(slab, Now(), Ready(b, offset, len))
      modifies this
      ensures pending == old(pending) + [Received(slab.base + b * slab.blockSize + slab.header + offset, len)]
      ensures counter == old(counter)[b := old(counter)[b] + 1] && free == old(free) && held == old(held)
      ensures Now() == Next(slab, old(Now()), Ready(b, offset, len)) && Inv(slab, Now())
    {
      StepCounted(slab, Now(), Ready(b, offset, len));
      BlockFound(slab, b, 0);
      DataInSlab(slab, b, 0);
      BufRef(DataAt(slab, b, 0));
      pending := pending + [Received(DataAt(slab, b, offset), len)];
    }

    method RxBufReleased(b: nat)
      requires IsSlab(slab) && Inv(slab, Now()) && Enabled(slab, Now(), Released(b))
      modifies this
      ensures Now() == Settled(slab, Next(slab, old(Now()), Released(b)), b) && Inv(slab, Now())
    {
      hide Inv;
      StepCounted(slab, Now(), Released(b));
      SettledCounted(slab, Next(slab, Now(), Released(b)), b);
      BlockFound(slab, b, 0);
      DataInSlab(slab, b, 0);
      held := held - {b};
      BufUnref(DataAt(slab, b, 0));
    }

    /** The driver wants a block, or reception is switched on: it takes the block, or the block goes back. With
        no block left nothing happens. */
    method RxBufRequest(block: Option<nat>, answer: int)
      requires IsSlab(slab) && Inv(slab, Now())
      requires if block.Some? then block.value in free else free == {}
      modifies this
      ensures block.None? ==> Now() == old(Now())
      ensures block.Some? && answer == 0 ==> Now() == Next(slab, old(Now()), Granted(block.value))
      ensures block.Some? && answer != 0 ==> Now() == Settled(slab, Next(slab, old(Now()), Refused(block.value)), block.value)
      ensures Inv(slab, Now())
    {
      hide Inv;
      if block.None? {
        return;
      }
      var b := block.value;
      if answer == 0 {
        StepCounted(slab, Now(), Granted(b));
      } else {
        StepCounted(slab, Now(), Refused(b));
        SettledCounted(slab, Next(slab, Now(), Refused(b)), b);
      }
      BufAlloc(b);
      if answer != 0 {
        BlockFound(slab, b, 0);
        DataInSlab(slab, b, 0);
        BufUnref(DataAt(slab, b, 0));
      } else {
        held := held + {b};
      }
    }

    /** An event has been seen by all that subscribe to it. */
    method DataEventDelivered(buf: nat, ghost k: nat)
      requires IsSlab(slab) && Inv(slab, Now()) && k < |pending| && pending[k].buf == buf
      modifies this
      ensures slab.base <= buf
      ensures var b := BlockOf(slab, buf);
        && Enabled(slab, old(Now()), Delivered(k))
        && Now() == Settled(slab, Next(slab, old(Now()), Delivered(k)), b)
      ensures Inv(slab, Now())
    {
      ghost var b := BlockOf(slab, buf);
      assert Counted(slab, Now(), b);
      PointedAt(slab, pending, k);
      StepCounted(slab, Now(), Delivered(k));
      SettledCounted(slab, Next(slab, Now(), Delivered(k)), b);
      pending := Without(pending, k);
      BufUnref(buf);
    }
  }

  lemma SettledCounted(slab: Slab, s: State, b: nat)
    requires IsSlab(slab) && Inv(slab, s)
    ensures Inv(slab, Settled(slab, s, b))
  {
    hide Inv;
    if b in s.ending && b in s.counter {
      StepCounted(slab, s, Freed(b));
    }
  }
}
