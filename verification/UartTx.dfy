/** Sending over the UART bridge. A thread puts bytes into a ring buffer and starts a transfer if none is
    under way; a callback of the driver ends a transfer and starts the next one. The callback may run
    between any two steps of the thread. */
module UartTx {
  import opened Bits
  import opened Wrappers

  /** Where the thread is in `uart_tx_enqueue`: outside, behind the put, or about to start a transfer
      because the flag was not set before. */
  datatype Phase = Outside | AfterPut | Starting

  /** `transfer` is the number of bytes at the start of the ring that the driver is sending. `sent` and
      `accepted` are what has left the device and what the ring has taken since the beginning. */
  datatype State = State(ring: seq<byte>, started: bool, transfer: Option<nat>, phase: Phase, sent: seq<byte>, accepted: seq<byte>)

  /** What can happen. `ok` is the answer of `uart_tx`; `claim` is the length of the contiguous part of the
      ring that can be sent at once. */
  datatype Event =
    | Put(data: seq<byte>)
    | SetFlag
    | Start(ok: bool, claim: nat)
    | Done(ok: bool, claim: nat)
    | Aborted(len: nat)

  const INIT := State([], false, None, Outside, [], [])

  function Written(capacity: nat, s: State, data: seq<byte>): nat
    requires |s.ring| <= capacity
  {
    if |data| <= capacity - |s.ring| then |data| else capacity - |s.ring|
  }

  /** A claim is a part of the ring, and not empty unless the ring is. */
  predicate IsClaim(ring: seq<byte>, claim: nat) {
    claim <= |ring| && (claim == 0 ==> ring == [])
  }

  predicate Enabled(capacity: nat, s: State, e: Event) {
    match e
    case Put(_) => s.phase.Outside? && |s.ring| <= capacity
    case SetFlag => s.phase.AfterPut?
    case Start(_, claim) => s.phase.Starting? && IsClaim(s.ring, claim)
    case Done(_, claim) => s.transfer.Some? && s.transfer.value <= |s.ring| && IsClaim(s.ring[s.transfer.value..], claim)
    case Aborted(len) => s.transfer.Some? && len <= s.transfer.value <= |s.ring|
  }

  function Next(capacity: nat, s: State, e: Event): State
    requires Enabled(capacity, s, e)
  {
    match e
    case Put(data) =>
      var n := Written(capacity, s, data);
      if n == 0 then s
      else s.(ring := s.ring + data[..n], accepted := s.accepted + data[..n], phase := AfterPut)
    case SetFlag => s.(started := true, phase := if s.started then Outside else Starting)
    case Start(ok, claim) =>
      if ok then s.(transfer := Some(claim), phase := Outside) else s.(started := false, phase := Outside)
    case Done(ok, claim) =>
      var n := s.transfer.value;
      var t := s.(ring := s.ring[n..], sent := s.sent + s.ring[..n]);
      if t.ring == [] then t.(started := false, transfer := None)
      else t.(transfer := if ok then Some(claim) else None)
    case Aborted(len) =>
      s.(ring := s.ring[len..], sent := s.sent + s.ring[..len], started := false, transfer := None)
  }

  /** Runs: events one after the other, each possible when it happens. */
  ghost predicate IsRun(capacity: nat, s: State, events: seq<Event>, t: State)
    decreases |events|
  {
    if events == [] then s == t
    else
      var before, e := events[..|events| - 1], events[|events| - 1];
      exists u :: IsRun(capacity, s, before, u) && Enabled(capacity, u, e) && t == Next(capacity, u, e)
  }

  // ---------------------------------------------------------------------------------------------
  // Safety
  // ---------------------------------------------------------------------------------------------

  /** Nothing is lost, doubled or reordered, the ring does not overflow, and no transfer is started while
      another is under way. */
  predicate Safe(capacity: nat, s: State) {
    && s.accepted == s.sent + s.ring && |s.ring| <= capacity
    && (s.transfer.Some? ==> s.started && s.transfer.value <= |s.ring|)
    && (s.phase.Starting? ==> s.started && s.transfer.None?)
  }

  lemma SafeStep(capacity: nat, s: State, e: Event)
    requires Safe(capacity, s) && Enabled(capacity, s, e)
    ensures Safe(capacity, Next(capacity, s, e))
    ensures s.sent <= Next(capacity, s, e).sent && s.accepted <= Next(capacity, s, e).accepted
  {
    match e {
      case Put(data) =>
        var n := Written(capacity, s, data);
        assert s.sent + (s.ring + data[..n]) == s.accepted + data[..n];
      case Done(_, _) =>
        var n := s.transfer.value;
        assert s.sent + s.ring == (s.sent + s.ring[..n]) + s.ring[n..];
      case Aborted(n) =>
        assert s.sent + s.ring == (s.sent + s.ring[..n]) + s.ring[n..];
      case _ =>
    }
  }

  /** The ring takes all of the data, or as much of them as makes it full. */
  lemma PutTakesAll(capacity: nat, s: State, data: seq<byte>)
    requires Safe(capacity, s) && Enabled(capacity, s, Put(data))
    ensures var t := Next(capacity, s, Put(data));
      && s.accepted <= t.accepted <= s.accepted + data && t.sent == s.sent
      && (t.accepted == s.accepted + data || |t.ring| == capacity)
  {
    var n := Written(capacity, s, data);
    if n == |data| {
      assert data[..n] == data;
    }
  }

  /** Over every run, whatever fails and is aborted, what has been sent is a prefix of what was accepted. */
  lemma {:induction false} RunIsSafe(capacity: nat, events: seq<Event>, s: State)
    requires IsRun(capacity, INIT, events, s)
    ensures Safe(capacity, s) && s.sent <= s.accepted
  {
    if events != [] {
      var m := |events| - 1;
      var u :| IsRun(capacity, INIT, events[..m], u) && Enabled(capacity, u, events[m]) && s == Next(capacity, u, events[m]);
      RunIsSafe(capacity, events[..m], u);
      SafeStep(capacity, u, events[m]);
    }
  }

  // ---------------------------------------------------------------------------------------------
  // Progress
  // ---------------------------------------------------------------------------------------------

  /** Nothing goes wrong: `uart_tx` takes the transfer, and it is not aborted. */
  predicate NoFault(e: Event) {
    match e
    case Start(ok, _) => ok
    case Done(ok, _) => ok
    case Aborted(_) => false
    case _ => true
  }

  predicate Faultless(events: seq<Event>) {
    forall i :: 0 <= i < |events| ==> NoFault(events[i])
  }

  /** Unless the thread is between its put and its start, bytes in the ring are being sent; and the flag
      says whether a transfer is under way or about to be. */
  predicate Live(s: State) {
    && (s.started <==> s.transfer.Some? || s.phase.Starting?)
    && (s.ring != [] ==> s.transfer.Some? || s.phase.AfterPut? || s.phase.Starting?)
  }

  lemma {:induction false} RunIsLive(capacity: nat, events: seq<Event>, s: State)
    requires IsRun(capacity, INIT, events, s) && Faultless(events)
    ensures Safe(capacity, s) && Live(s)
  {
    if events != [] {
      var m := |events| - 1;
      var u :| IsRun(capacity, INIT, events[..m], u) && Enabled(capacity, u, events[m]) && s == Next(capacity, u, events[m]);
      assert Faultless(events[..m]);
      RunIsLive(capacity, events[..m], u);
      SafeStep(capacity, u, events[m]);
      LiveStep(capacity, u, events[m], events, m);
    }
  }

  lemma LiveStep(capacity: nat, s: State, e: Event, events: seq<Event>, m: nat)
    requires Safe(capacity, s) && Live(s) && Enabled(capacity, s, e) && Faultless(events) && m < |events| && events[m] == e
    ensures Live(Next(capacity, s, e))
  {
  }

  /** The flag is set, but nothing is under way and the thread is not about to start anything. */
  predicate Stalled(s: State) {
    s.started && s.transfer.None? && !s.phase.Starting?
  }

  /** Whatever happens then, nothing is sent any more. */
  lemma {:induction false} StallIsFinal(capacity: nat, s: State, events: seq<Event>, t: State)
    requires Stalled(s) && IsRun(capacity, s, events, t)
    ensures Stalled(t) && t.sent == s.sent
  {
    if events != [] {
      var m := |events| - 1;
      var u :| IsRun(capacity, s, events[..m], u) && Enabled(capacity, u, events[m]) && t == Next(capacity, u, events[m]);
      StallIsFinal(capacity, s, events[..m], u);
    }
  }

  /** At event `i` the callback ends a transfer that leaves bytes in the ring, and the driver refuses the
      next one. */
  ghost predicate RefusedAt(capacity: nat, events: seq<Event>, i: nat)
    requires i < |events|
  {
    exists u :: IsRun(capacity, INIT, events[..i], u)
      && events[i].Done? && !events[i].ok && u.transfer.Some? && u.transfer.value < |u.ring|
  }

  /** Runs stall exactly by such a refusal. */
  lemma {:induction false} StallsByRefusal(capacity: nat, events: seq<Event>, s: State)
    requires IsRun(capacity, INIT, events, s)
    ensures Stalled(s) <==> exists i :: 0 <= i < |events| && RefusedAt(capacity, events, i)
  {
    if events != [] {
      var m := |events| - 1;
      var u :| IsRun(capacity, INIT, events[..m], u) && Enabled(capacity, u, events[m]) && s == Next(capacity, u, events[m]);
      RunIsSafe(capacity, events[..m], u);
      StallsByRefusal(capacity, events[..m], u);
      StallStep(capacity, events, m, u);
      forall i | 0 <= i < m
        ensures RefusedAt(capacity, events[..m], i) <==> RefusedAt(capacity, events, i)
      {
        assert events[..m][..i] == events[..i];
      }
    }
  }

  lemma StallStep(capacity: nat, events: seq<Event>, m: nat, u: State)
    requires m < |events| && IsRun(capacity, INIT, events[..m], u) && Safe(capacity, u) && Enabled(capacity, u, events[m])
    ensures Stalled(Next(capacity, u, events[m])) <==> Stalled(u) || RefusedAt(capacity, events, m)
  {
    if RefusedAt(capacity, events, m) {
      var u' :| IsRun(capacity, INIT, events[..m], u')
        && events[m].Done? && !events[m].ok && u'.transfer.Some? && u'.transfer.value < |u'.ring|;
      RunIsUnique(capacity, INIT, events[..m], u, u');
    }
  }

  lemma {:induction false} RunIsUnique(capacity: nat, s: State, events: seq<Event>, t: State, t': State)
    requires IsRun(capacity, s, events, t) && IsRun(capacity, s, events, t')
    ensures t == t'
  {
    if events != [] {
      var m := |events| - 1;
      var u :| IsRun(capacity, s, events[..m], u) && Enabled(capacity, u, events[m]) && t == Next(capacity, u, events[m]);
      var u' :| IsRun(capacity, s, events[..m], u') && Enabled(capacity, u', events[m]) && t' == Next(capacity, u', events[m]);
      RunIsUnique(capacity, s, events[..m], u, u');
    }
  }

  /** A run that stalls with a byte in the ring: it was put while another one was being sent. */
  lemma StallIsPossible()
    ensures exists events, s :: IsRun(8, INIT, events, s) && Stalled(s) && s.phase.AfterPut? && s.ring == [2] && s.sent == [1]
  {
    NoRun();
    hide IsRun;
    hide Faultless;
    var s, events := Then(INIT, [], Put([1]));
    s, events := Then(s, events, SetFlag);
    s, events := Then(s, events, Start(true, 1));
    s, events := Then(s, events, Put([2]));
    s, events := Then(s, events, Done(false, 1));
  }

  // ---------------------------------------------------------------------------------------------
  // Transfers of no bytes
  // ---------------------------------------------------------------------------------------------

  /** Event `i` aborts a transfer, after which the ring is left. */
  ghost predicate AbortedAt(capacity: nat, events: seq<Event>, i: nat, ring: seq<byte>)
    requires i < |events|
  {
    events[i].Aborted?
    && exists w :: IsRun(capacity, INIT, events[..i], w) && events[i].len <= |w.ring| && ring == w.ring[events[i].len..]
  }

  /** What the last event of a run says when the thread is behind its put and the flag is clear: bytes were
      put, or the callback ended the last transfer, or one was aborted. */
  ghost predicate PutThen(capacity: nat, events: seq<Event>, i: nat, ring: seq<byte>)
    requires i < |events|
  {
    || (events[i].Put? && ring != [])
    || (events[i].Done? && ring == [])
    || AbortedAt(capacity, events, i, ring)
  }

  lemma AfterPutWithClearFlag(capacity: nat, events: seq<Event>, s: State)
    requires IsRun(capacity, INIT, events, s) && s.phase.AfterPut? && !s.started
    ensures events != [] && PutThen(capacity, events, |events| - 1, s.ring)
  {
    var m := |events| - 1;
    var u :| IsRun(capacity, INIT, events[..m], u) && Enabled(capacity, u, events[m]) && s == Next(capacity, u, events[m]);
    RunIsSafe(capacity, events[..m], u);
  }

  lemma StartingAfterFlag(capacity: nat, events: seq<Event>, s: State)
    requires IsRun(capacity, INIT, events, s) && s.phase.Starting?
    ensures |events| >= 2 && events[|events| - 1].SetFlag?
    ensures exists u :: IsRun(capacity, INIT, events[..|events| - 1], u) && u.phase.AfterPut? && !u.started && u.ring == s.ring
  {
    var m := |events| - 1;
    var u :| IsRun(capacity, INIT, events[..m], u) && Enabled(capacity, u, events[m]) && s == Next(capacity, u, events[m]);
    RunIsSafe(capacity, events[..m], u);
    assert events[m].SetFlag?;
    assert events[..m] != [];
  }

  /** Over all runs: the thread starts a transfer right behind its look at the flag, and before that comes its
      put, the end of a transfer or an abort. The transfer is empty exactly if the callback ended one between
      the put and the flag, or if what was aborted there was all of the ring. */
  lemma EmptyTransferExactly(capacity: nat, events: seq<Event>, i: nat, u: State)
    requires i < |events| && IsRun(capacity, INIT, events[..i], u) && events[i].Start? && Enabled(capacity, u, events[i])
    ensures i >= 2 && events[i - 1].SetFlag? && PutThen(capacity, events, i - 2, u.ring)
    ensures u.ring == [] <==> events[i].claim == 0
  {
    var run := events[..i];
    StartingAfterFlag(capacity, run, u);
    var m := i - 1;
    var v :| IsRun(capacity, INIT, run[..m], v) && v.phase.AfterPut? && !v.started && v.ring == u.ring;
    assert run[..m] == events[..m] && run[m] == events[m];
    AfterPutWithClearFlag(capacity, events[..m], v);
    SamePutThen(capacity, events, m, m - 1, v.ring);
  }

  lemma SamePutThen(capacity: nat, events: seq<Event>, m: nat, j: nat, ring: seq<byte>)
    requires j < m <= |events| && PutThen(capacity, events[..m], j, ring)
    ensures PutThen(capacity, events, j, ring)
  {
    assert events[..m][..j] == events[..j];
  }

  /** Without failures: exactly if the callback ended a transfer between the put and the flag. */
  lemma EmptyTransferWithoutFault(capacity: nat, events: seq<Event>, i: nat, u: State)
    requires i < |events| && IsRun(capacity, INIT, events[..i], u) && events[i].Start? && Enabled(capacity, u, events[i]) && Faultless(events)
    ensures i >= 2 && (u.ring == [] <==> events[i - 2].Done?) && (u.ring == [] <==> events[i].claim == 0)
  {
    EmptyTransferExactly(capacity, events, i, u);
    assert NoFault(events[i - 2]);
  }

  /** A run in which the callback sends what the thread has put before the thread looks at the flag: the
      thread then starts a transfer of no bytes. */
  lemma EmptyTransferIsPossible()
    ensures exists events, s :: IsRun(8, INIT, events, s) && Faultless(events) && s.transfer == Some(0)
  {
    NoRun();
    hide IsRun;
    hide Faultless;
    var s, events := Then(INIT, [], Put([1]));
    s, events := Then(s, events, SetFlag);
    s, events := Then(s, events, Start(true, 1));
    assert s == State([1], true, Some(1), Outside, [], [1]);
    s, events := Then(s, events, Put([2]));
    s, events := Then(s, events, Done(true, 1));
    assert s == State([2], true, Some(1), AfterPut, [1], [1, 2]);
    s, events := Then(s, events, Done(true, 0));
    s, events := Then(s, events, SetFlag);
    s, events := Then(s, events, Start(true, 0));
  }

  lemma NoRun()
    ensures IsRun(8, INIT, [], INIT) && Faultless([])
  {
  }

  lemma Then(s: State, events: seq<Event>, e: Event) returns (t: State, after: seq<Event>)
    requires IsRun(8, INIT, events, s) && Enabled(8, s, e)
    ensures t == Next(8, s, e) && after == events + [e] && IsRun(8, INIT, after, t)
    ensures Faultless(events) && NoFault(e) ==> Faultless(after)
  {
    t, after := Next(8, s, e), events + [e];
    RunStep(8, INIT, events, s, e);
  }

  lemma RunStep(capacity: nat, s: State, events: seq<Event>, u: State, e: Event)
    requires IsRun(capacity, s, events, u) && Enabled(capacity, u, e)
    ensures IsRun(capacity, s, events + [e], Next(capacity, u, e))
  {
    var after := events + [e];
    assert after[..|after| - 1] == events;
  }

  // ---------------------------------------------------------------------------------------------
  // The handler's functions
  // ---------------------------------------------------------------------------------------------

  const ENOMEM: int := 12

  /** One UART. The ring buffer and the driver belong to the operating system: the ring is its contents, and
      what the driver answers is a parameter. `uart_tx_enqueue` is cut where the callback may run. */
  class Channel {
    const capacity: nat
    var ring: seq<byte>
    var started: bool
    ghost var transfer: Option<nat>
    ghost var phase: Phase
    ghost var sent: seq<byte>
    ghost var accepted: seq<byte>

    ghost function Now(): State
      reads this
    {
      State(ring, started, transfer, phase, sent, accepted)
    }

    constructor (capacity: nat)
      ensures Now() == INIT && this.capacity == capacity
    {
      this.capacity := capacity;
      ring, started, transfer, phase, sent, accepted := [], false, None, Outside, [], [];
    }

    /** Releases what has been sent. */
    method UartTxFinish(len: nat)
      requires len <= |ring|
      modifies this`ring, this`transfer, this`sent
      ensures transfer == None && ring == old(ring)[len..] && sent == old(sent) + old(ring)[..len]
    {
      sent := sent + ring[..len];
      ring := ring[len..];
      transfer := None;
    }

    method UartTxStart(answer: int, len: nat) returns (err: int)
      requires IsClaim(ring, len) && transfer.None?
      modifies this`ring, this`transfer, this`sent
      ensures err == answer && ring == old(ring) && sent == old(sent)
      ensures transfer == if answer == 0 then Some(len) else None
    {
      if answer != 0 {
        UartTxFinish(0);
        assert ring == old(ring) && sent == old(sent) + [];
        return answer;
      }
      transfer := Some(len);
      err := 0;
    }

    /** The callback at the end of a transfer. */
    method TxDone(len: nat, answer: int, claim: nat)
      requires Enabled(capacity, Now(), Event.Done(answer == 0, claim)) && transfer == Some(len)
      modifies this`ring, this`transfer, this`sent, this`started
      ensures Now() == Next(capacity, old(Now()), Event.Done(answer == 0, claim))
    {
      UartTxFinish(len);
      if ring == [] {
        started := false;
      } else {
        var err := UartTxStart(answer, claim);
      }
    }

    /** The callback when a transfer is aborted after `len` bytes. */
    method TxAborted(len: nat)
      requires Enabled(capacity, Now(), Aborted(len))
      modifies this`ring, this`transfer, this`sent, this`started
      ensures Now() == Next(capacity, old(Now()), Aborted(len))
    {
      UartTxFinish(len);
      started := false;
    }

    method EnqueuePut(data: seq<byte>) returns (written: nat)
      requires Enabled(capacity, Now(), Put(data))
      modifies this`ring, this`accepted, this`phase
      ensures written == Written(capacity, old(Now()), data)
      ensures Now() == Next(capacity, old(Now()), Put(data))
    {
      written := if |data| <= capacity - |ring| then |data| else capacity - |ring|;
      ring := ring + data[..written];
      if written == 0 {
        assert ring == old(ring);
        return;
      }
      accepted := accepted + data[..written];
      phase := AfterPut;
    }

    method EnqueueSetFlag() returns (was: bool)
      requires Enabled(capacity, Now(), SetFlag)
      modifies this`started, this`phase
      ensures was == old(started) && (phase.Starting? <==> !was)
      ensures Now() == Next(capacity, old(Now()), SetFlag)
    {
      was, started := started, true;
      phase := if was then Outside else Starting;
    }

    method EnqueueStart(answer: int, claim: nat)
      requires Enabled(capacity, Now(), Start(answer == 0, claim)) && Safe(capacity, Now())
      modifies this`ring, this`transfer, this`sent, this`started, this`phase
      ensures Now() == Next(capacity, old(Now()), Start(answer == 0, claim))
    {
      var err := UartTxStart(answer, claim);
      if err != 0 {
        started := false;
      }
      phase := Outside;
    }

    /** An enqueue that the callback does not interrupt: it reports whether the ring took all of the data,
        and keeps what holds between events. */
    method UartTxEnqueue(data: seq<byte>, answer: int, claim: nat) returns (result: int)
      requires Safe(capacity, Now()) && phase.Outside? && IsClaim(ring + data[..Written(capacity, Now(), data)], claim)
      modifies this
      ensures Safe(capacity, Now()) && phase.Outside?
      ensures accepted == old(accepted) + data[..Written(capacity, old(Now()), data)] && sent == old(sent)
      ensures result == if data != [] && Written(capacity, old(Now()), data) == |data| then 0 else -ENOMEM
      ensures answer == 0 && old(Live(Now())) ==> Live(Now())
    {
      var written := EnqueuePut(data);
      SafeStep(capacity, old(Now()), Put(data));
      if written == 0 {
        assert accepted == old(accepted) + data[..0];
        return -ENOMEM;
      }
      ghost var afterPut := Now();
      var was := EnqueueSetFlag();
      SafeStep(capacity, afterPut, SetFlag);
      if !was {
        ghost var afterFlag := Now();
        EnqueueStart(answer, claim);
        SafeStep(capacity, afterFlag, Start(answer == 0, claim));
      }
      result := if written == |data| then 0 else -ENOMEM;
    }
  }
}
