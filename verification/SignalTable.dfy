/**
 The table of inter-thread signals: per index a count of signals sent and a count received, both
 64-bit and wrapping.  The class is the table used by one thread at a time; module SignalRuns
 below interleaves a sender and a receiver load by load.
 */
module SignalTable {

  const U64 := 0x1_0000_0000_0000_0000

  newtype uint64 = x: int | 0 <= x < 0x1_0000_0000_0000_0000

  function Increment(x: uint64): (y: uint64)
    ensures y as int == (x as int + 1) % U64
  {
    if x == 0xFFFF_FFFF_FFFF_FFFF then 0 else x + 1
  }

  function Difference(x: uint64, y: uint64): (d: uint64)
    ensures d as int == (x as int - y as int) % U64
  {
    ((x as int - y as int) % U64) as uint64
  }

  function Count(indices: seq<nat>, i: nat): nat {
    multiset(indices)[i]
  }

  class Table {
    const maxSignals: nat
    const signal: array<uint64>
    const tracker: array<uint64>
    ghost var sent: seq<nat>     // signals sent since the last reset, per index
    ghost var received: seq<nat> // signals acknowledged since the last reset, per index

    ghost predicate Valid()
      reads this, signal, tracker
    {
      && signal != tracker && signal.Length == tracker.Length == |sent| == |received| == maxSignals
      && (forall i :: 0 <= i < maxSignals ==> signal[i] as int == sent[i] % U64)
      && (forall i :: 0 <= i < maxSignals ==> tracker[i] as int == received[i] % U64)
      && (forall i :: 0 <= i < maxSignals ==> received[i] <= sent[i])
    }

    /** Signals sent and not yet acknowledged. */
    ghost function Pending(i: nat): nat
      requires Valid() && i < maxSignals
      reads this, signal, tracker
    {
      sent[i] - received[i]
    }

    constructor (maxSignals: nat)
      ensures Valid() && this.maxSignals == maxSignals && fresh(signal) && fresh(tracker)
      ensures forall i :: 0 <= i < maxSignals ==> sent[i] == received[i] == 0
    {
      this.maxSignals := maxSignals;
      signal := new uint64[maxSignals](i => 0);
      tracker := new uint64[maxSignals](i => 0);
      sent := seq(maxSignals, i => 0);
      received := seq(maxSignals, i => 0);
    }

    method SignalSend(index: nat)
      requires Valid() && index < maxSignals
      modifies this`sent, signal
      ensures Valid() && sent == old(sent)[index := old(sent[index]) + 1]
    {
      SumModulo(sent[index]);
      signal[index] := Increment(signal[index]);
      sent := sent[index := sent[index] + 1];
    }

    method SignalSendRange(indexStart: nat, nSignals: nat)
      requires Valid() && indexStart + nSignals <= maxSignals
      modifies this`sent, signal
      ensures Valid()
      ensures forall i :: 0 <= i < maxSignals ==>
                sent[i] == old(sent[i]) + if indexStart <= i < indexStart + nSignals then 1 else 0
    {
      for k := 0 to nSignals
        invariant Valid()
        invariant forall i :: 0 <= i < maxSignals ==>
                    sent[i] == old(sent[i]) + if indexStart <= i < indexStart + k then 1 else 0
      {
        SignalSend(indexStart + k);
      }
    }

    /** Repeats in the array send repeatedly. */
    method SignalSendArray(indices: seq<nat>)
      requires Valid() && forall k :: 0 <= k < |indices| ==> indices[k] < maxSignals
      modifies this`sent, signal
      ensures Valid()
      ensures forall i :: 0 <= i < maxSignals ==> sent[i] == old(sent[i]) + Count(indices, i)
    {
      for k := 0 to |indices|
        invariant Valid()
        invariant forall i :: 0 <= i < maxSignals ==> sent[i] == old(sent[i]) + Count(indices[..k], i)
      {
        assert indices[..k + 1] == indices[..k] + [indices[k]];
        SignalSend(indices[k]);
      }
      assert indices[..|indices|] == indices;
    }

    /** The 64-bit difference is the true number pending, as long as that is below 2^64. */
    method SignalsPending(index: nat) returns (n: uint64)
      requires Valid() && index < maxSignals
      ensures n as int == Pending(index) % U64
    {
      DifferenceModulo(sent[index], received[index]);
      n := Difference(signal[index], tracker[index]);
    }

    /** Acknowledges one signal if any is seen; one is missed only if exactly k * 2^64 are pending. */
    method SignalReceive(index: nat) returns (got: bool)
      requires Valid() && index < maxSignals
      modifies this`received, tracker
      ensures Valid()
      ensures got <==> old(Pending(index)) % U64 != 0
      ensures received == if got then old(received)[index := old(received[index]) + 1] else old(received)
    {
      var pending := SignalsPending(index);
      got := pending > 0;
      if got {
        Acknowledge(index);
      }
    }

    method Acknowledge(index: nat)
      requires Valid() && index < maxSignals && received[index] < sent[index]
      modifies this`received, tracker
      ensures Valid() && received == old(received)[index := old(received[index]) + 1]
    {
      SumModulo(received[index]);
      tracker[index] := Increment(tracker[index]);
      received := received[index := received[index] + 1];
    }

    /** The spin's test: with nobody else running it would never come out once this holds. */
    predicate WouldSpin(index: nat)
      requires index < signal.Length && index < tracker.Length
      reads signal, tracker
    {
      tracker[index] >= signal[index]
    }

    /** `SignalReceiveSpin` when a signal is there: it acknowledges one without spinning. */
    method SignalReceiveSpin(index: nat)
      requires Valid() && index < maxSignals && !WouldSpin(index)
      modifies this`received, tracker
      ensures Valid() && received == old(received)[index := old(received[index]) + 1]
    {
      SpinIffNone(index);
      Acknowledge(index);
    }

    /** Before 2^64 signals the spin test is exact. */
    lemma SpinIffNone(index: nat)
      requires Valid() && index < maxSignals
      ensures sent[index] < U64 ==> (WouldSpin(index) <==> Pending(index) == 0)
      ensures Pending(index) == 0 ==> WouldSpin(index)
    {
      if sent[index] < U64 {
        assert sent[index] % U64 == sent[index] && received[index] % U64 == received[index];
      }
    }

    /**
     With signals pending, the spin holds its receiver back exactly while the sent count has
     wrapped past 2^64 and the received count has not: the test compares wrapped counts.
     */
    lemma SpinWrongIff(index: nat)
      requires Valid() && index < maxSignals && 0 < Pending(index) < U64
      ensures WouldSpin(index) <==> sent[index] / U64 != received[index] / U64
    {}

    /** Receives every index of an array in which each is sent often enough; it never spins. */
    method SignalReceiveSpinArray(indices: seq<nat>)
      requires Valid() && forall k :: 0 <= k < |indices| ==> indices[k] < maxSignals
      requires forall i :: 0 <= i < maxSignals ==> sent[i] < U64 && Count(indices, i) <= Pending(i)
      modifies this`received, tracker
      ensures Valid()
      ensures forall i :: 0 <= i < maxSignals ==> received[i] == old(received[i]) + Count(indices, i)
    {
      for k := 0 to |indices|
        invariant Valid() && sent == old(sent)
        invariant forall i :: 0 <= i < maxSignals ==> received[i] == old(received[i]) + Count(indices[..k], i)
      {
        assert indices[..k + 1] == indices[..k] + [indices[k]];
        CountPrefix(indices, k + 1, indices[k]);
        SpinIffNone(indices[k]);
        SignalReceiveSpin(indices[k]);
      }
      assert indices[..|indices|] == indices;
    }

    method SignalReceiveSpinRange(indexStart: nat, nSignals: nat)
      requires Valid() && indexStart + nSignals <= maxSignals
      requires forall i :: 0 <= i < maxSignals ==> sent[i] < U64
      requires forall i :: indexStart <= i < indexStart + nSignals ==> Pending(i) > 0
      modifies this`received, tracker
      ensures Valid()
      ensures forall i :: 0 <= i < maxSignals ==>
                received[i] == old(received[i]) + if indexStart <= i < indexStart + nSignals then 1 else 0
    {
      forall i | indexStart <= i < indexStart + nSignals ensures received[i] < sent[i] {
        assert Pending(i) > 0;
      }
      for k := 0 to nSignals
        invariant Valid() && sent == old(sent)
        invariant forall i :: indexStart + k <= i < indexStart + nSignals ==> received[i] < sent[i]
        invariant forall i :: 0 <= i < maxSignals ==>
                    received[i] == old(received[i]) + if indexStart <= i < indexStart + k then 1 else 0
      {
        SpinIffNone(indexStart + k);
        SignalReceiveSpin(indexStart + k);
      }
    }

    /** Sending an array and receiving any permutation of it never spins and changes nothing pending. */
    method SendThenReceive(sends: seq<nat>, receives: seq<nat>)
      requires Valid() && multiset(receives) == multiset(sends)
      requires forall k :: 0 <= k < |sends| ==> sends[k] < maxSignals
      requires forall i :: 0 <= i < maxSignals ==> sent[i] + Count(sends, i) < U64
      modifies this, signal, tracker
      ensures Valid() && forall i :: 0 <= i < maxSignals ==> Pending(i) == old(Pending(i))
    {
      forall k | 0 <= k < |receives| ensures receives[k] < maxSignals {
        assert receives[k] in multiset(sends);
      }
      SignalSendArray(sends);
      SignalReceiveSpinArray(receives);
    }

    method SignalReset(index: nat)
      requires Valid() && index < maxSignals
      modifies this, signal, tracker
      ensures Valid() && sent == old(sent)[index := 0] && received == old(received)[index := 0]
    {
      tracker[index] := 0;
      signal[index] := 0;
      sent, received := sent[index := 0], received[index := 0];
    }

    method SignalTableReset()
      requires Valid()
      modifies this, signal, tracker
      ensures Valid() && forall i :: 0 <= i < maxSignals ==> Pending(i) == 0
    {
      for i := 0 to maxSignals
        invariant Valid() && forall k :: 0 <= k < i ==> sent[k] == received[k] == 0
      {
        SignalReset(i);
      }
    }
  }

  lemma CountPrefix(indices: seq<nat>, k: nat, i: nat)
    requires k <= |indices|
    ensures Count(indices[..k], i) <= Count(indices, i)
  {
    assert indices == indices[..k] + indices[k..];
  }

  lemma SumModulo(x: nat)
    ensures (x % U64 + 1) % U64 == (x + 1) % U64
  {}

  lemma DifferenceModulo(x: nat, y: nat)
    requires y <= x
    ensures (x % U64 - y % U64) % U64 == (x - y) % U64
  {}
}

/** Any number of senders and one receiver on one index, each volatile load and store a step. */
module SignalRuns {

  /**
   `signal[index]++` is a load and a store; a receive loads tracker and signal, then increments
   tracker.  `seen` is the number of sends completed when the sender loaded.
   */
  datatype Sender = SenderIdle | SenderLoaded(value: nat, seen: nat)

  datatype Receiver = ReceiverIdle | SawTracker(tracker: nat) | SawPending | ReceiverLoaded(value: nat)

  datatype State = State(signal: nat, tracker: nat, senders: seq<Sender>, receiver: Receiver, sends: nat, receives: nat)

  datatype Step = LoadSignal(i: nat) | StoreSignal(i: nat) | LoadTracker | CompareSignal | ReloadTracker | StoreTracker

  predicate CanStep(s: State, step: Step) {
    match step
    case LoadSignal(i) => i < |s.senders| && s.senders[i].SenderIdle?
    case StoreSignal(i) => i < |s.senders| && s.senders[i].SenderLoaded?
    case LoadTracker => s.receiver.ReceiverIdle?
    case CompareSignal => s.receiver.SawTracker?
    case ReloadTracker => s.receiver.SawPending?
    case StoreTracker => s.receiver.ReceiverLoaded?
  }

  /** `sends` and `receives` count completed increments; a failed compare starts over (the spin). */
  function After(s: State, step: Step): State
    requires CanStep(s, step)
  {
    match step
    case LoadSignal(i) => s.(senders := s.senders[i := SenderLoaded(s.signal, s.sends)])
    case StoreSignal(i) =>
      s.(senders := s.senders[i := SenderIdle], signal := s.senders[i].value + 1, sends := s.sends + 1)
    case LoadTracker => s.(receiver := SawTracker(s.tracker))
    case CompareSignal => s.(receiver := if s.receiver.tracker >= s.signal then ReceiverIdle else SawPending)
    case ReloadTracker => s.(receiver := ReceiverLoaded(s.tracker))
    case StoreTracker => s.(receiver := ReceiverIdle, tracker := s.receiver.value + 1, receives := s.receives + 1)
  }

  ghost predicate CanRun(s: State, steps: seq<Step>)
    decreases |steps|
  {
    steps != [] ==> CanStep(s, steps[0]) && CanRun(After(s, steps[0]), steps[1..])
  }

  ghost function RunOf(s: State, steps: seq<Step>): State
    requires CanRun(s, steps)
    decreases |steps|
  {
    if steps == [] then s else RunOf(After(s, steps[0]), steps[1..])
  }

  function Reset(nsenders: nat): State {
    State(0, 0, seq(nsenders, i => SenderIdle), ReceiverIdle, 0, 0)
  }

  /** The store completes an increment during which nobody else's was completed. */
  predicate Undisturbed(s: State, step: Step)
    requires CanStep(s, step)
  {
    step.StoreSignal? ==> s.senders[step.i].seen == s.sends
  }

  ghost predicate AllUndisturbed(s: State, steps: seq<Step>)
    requires CanRun(s, steps)
    decreases |steps|
  {
    steps != [] ==> Undisturbed(s, steps[0]) && AllUndisturbed(After(s, steps[0]), steps[1..])
  }

  /** A sender that nobody overtook since its load holds the current count. */
  predicate SendersOk(s: State) {
    && s.signal <= s.sends
    && (forall i :: 0 <= i < |s.senders| && s.senders[i].SenderLoaded? ==>
          && s.senders[i].value <= s.senders[i].seen <= s.sends
          && (s.senders[i].seen == s.sends ==> s.senders[i].value == s.signal))
  }

  predicate ReceiverOk(s: State) {
    && s.tracker == s.receives && s.tracker <= s.signal
    && match s.receiver
       case ReceiverIdle => true
       case SawTracker(t) => t == s.tracker
       case SawPending => s.tracker < s.signal
       case ReceiverLoaded(t) => t == s.tracker < s.signal
  }

  /** An undisturbed store keeps the number of signals lost; a disturbed one leaves some lost. */
  lemma StepLoses(s: State, step: Step)
    requires SendersOk(s) && CanStep(s, step)
    ensures SendersOk(After(s, step))
    ensures var lost, lost' := s.sends - s.signal, After(s, step).sends - After(s, step).signal;
            if Undisturbed(s, step) then lost' == lost else lost' > 0
  {}

  lemma {:induction false} LostSoFar(s: State, steps: seq<Step>)
    requires SendersOk(s) && CanRun(s, steps)
    ensures SendersOk(RunOf(s, steps))
    ensures RunOf(s, steps).signal == RunOf(s, steps).sends <==> s.signal == s.sends && AllUndisturbed(s, steps)
    decreases |steps|
  {
    if steps != [] {
      StepLoses(s, steps[0]);
      LostSoFar(After(s, steps[0]), steps[1..]);
      if s.signal < s.sends { LossStays(s, steps); }
    }
  }

  /** A signal lost is never made up for. */
  lemma {:induction false} LossStays(s: State, steps: seq<Step>)
    requires SendersOk(s) && CanRun(s, steps) && s.signal < s.sends
    ensures RunOf(s, steps).signal < RunOf(s, steps).sends
    decreases |steps|
  {
    if steps != [] {
      StepLoses(s, steps[0]);
      LossStays(After(s, steps[0]), steps[1..]);
    }
  }

  /**
   However many senders share an index, no signal is lost exactly when every store completes an
   increment during which no other was completed.
   */
  lemma LostIffDisturbed(nsenders: nat, steps: seq<Step>)
    requires CanRun(Reset(nsenders), steps)
    ensures RunOf(Reset(nsenders), steps).signal <= RunOf(Reset(nsenders), steps).sends
    ensures RunOf(Reset(nsenders), steps).signal == RunOf(Reset(nsenders), steps).sends
            <==> AllUndisturbed(Reset(nsenders), steps)
  {
    LostSoFar(Reset(nsenders), steps);
  }

  lemma {:induction false} ReceiverKept(s: State, steps: seq<Step>)
    requires SendersOk(s) && ReceiverOk(s) && s.signal == s.sends && CanRun(s, steps) && AllUndisturbed(s, steps)
    ensures ReceiverOk(RunOf(s, steps)) && RunOf(s, steps).signal == RunOf(s, steps).sends
    decreases |steps|
  {
    if steps != [] {
      StepLoses(s, steps[0]);
      ReceiverKept(After(s, steps[0]), steps[1..]);
    }
  }

  /** Undisturbed sends and the receiver conserve signals: none lost, none invented. */
  lemma UndisturbedConserves(nsenders: nat, steps: seq<Step>)
    requires CanRun(Reset(nsenders), steps) && AllUndisturbed(Reset(nsenders), steps)
    ensures var s := RunOf(Reset(nsenders), steps);
            s.signal - s.tracker == s.sends - s.receives && s.receives <= s.sends && s.tracker <= s.signal
  {
    ReceiverKept(Reset(nsenders), steps);
  }

  lemma {:induction false} OneSenderUndisturbed(s: State, steps: seq<Step>)
    requires |s.senders| <= 1 && CanRun(s, steps)
    requires forall i :: 0 <= i < |s.senders| && s.senders[i].SenderLoaded? ==> s.senders[i].seen == s.sends
    ensures AllUndisturbed(s, steps)
    decreases |steps|
  {
    if steps != [] { OneSenderUndisturbed(After(s, steps[0]), steps[1..]); }
  }

  /** With one sender and one receiver that is every schedule. */
  lemma SignalsConserved(steps: seq<Step>)
    requires CanRun(Reset(1), steps)
    ensures var s := RunOf(Reset(1), steps);
            s.signal - s.tracker == s.sends - s.receives && s.receives <= s.sends && s.tracker <= s.signal
  {
    OneSenderUndisturbed(Reset(1), steps);
    UndisturbedConserves(1, steps);
  }

  /** Two senders can be disturbed: two sends, one of them counted. */
  lemma TwoSendersLose()
    ensures var steps := [LoadSignal(0), LoadSignal(1), StoreSignal(0), StoreSignal(1)];
            CanRun(Reset(2), steps) && RunOf(Reset(2), steps).sends == 2 && RunOf(Reset(2), steps).signal == 1
  {
    var s0 := Reset(2);
    var s1 := After(s0, LoadSignal(0));
    var s2 := After(s1, LoadSignal(1));
    var s3 := After(s2, StoreSignal(0));
    var s4 := After(s3, StoreSignal(1));
    var steps := [LoadSignal(0), LoadSignal(1), StoreSignal(0), StoreSignal(1)];
    assert steps[1..] == [LoadSignal(1), StoreSignal(0), StoreSignal(1)];
    assert steps[1..][1..] == [StoreSignal(0), StoreSignal(1)];
    assert steps[1..][1..][1..] == [StoreSignal(1)];
    assert steps[1..][1..][1..][1..] == [];
    assert RunOf(s4, []) == s4;
    assert CanRun(s3, [StoreSignal(1)]) && RunOf(s3, [StoreSignal(1)]) == s4;
    assert CanRun(s2, [StoreSignal(0), StoreSignal(1)]) && RunOf(s2, [StoreSignal(0), StoreSignal(1)]) == s4;
  }

  lemma RunStep(s: State, step: Step, rest: seq<Step>)
    requires CanStep(s, step) && CanRun(After(s, step), rest)
    ensures CanRun(s, [step] + rest) && RunOf(s, [step] + rest) == RunOf(After(s, step), rest)
  {
    assert ([step] + rest)[1..] == rest;
  }

  /** Increments of the senders between the receiver's two loads. */
  predicate SendersOnly(steps: seq<Step>) {
    forall k :: 0 <= k < |steps| ==> steps[k].LoadSignal? || steps[k].StoreSignal?
  }

  lemma {:induction false} SendersRun(s: State, sends: seq<Step>, rest: seq<Step>)
    requires SendersOk(s) && s.signal == s.sends && SendersOnly(sends) && CanRun(s, sends) && AllUndisturbed(s, sends)
    requires CanRun(RunOf(s, sends), rest)
    ensures CanRun(s, sends + rest) && RunOf(s, sends + rest) == RunOf(RunOf(s, sends), rest)
    ensures var s' := RunOf(s, sends);
            s'.receiver == s.receiver && s'.tracker == s.tracker && s'.receives == s.receives && s'.signal >= s.signal
    decreases |sends|
  {
    if sends == [] {
      assert sends + rest == rest;
    } else {
      StepLoses(s, sends[0]);
      SendersRun(After(s, sends[0]), sends[1..], rest);
      RunStep(s, sends[0], sends[1..] + rest);
      assert sends + rest == [sends[0]] + (sends[1..] + rest);
    }
  }

  /**
   A receive that looks when something is pending acknowledges exactly one signal, whatever is sent
   between its loads; with nothing pending and nothing sent meanwhile it acknowledges none.
   */
  lemma {:induction false} ReceiveAcknowledges(s: State, sends: seq<Step>)
    requires SendersOk(s) && ReceiverOk(s) && s.signal == s.sends && s.receiver.ReceiverIdle?
    requires var s1 := After(s, LoadTracker); SendersOnly(sends) && CanRun(s1, sends) && AllUndisturbed(s1, sends)
    ensures var s2 := RunOf(After(s, LoadTracker), sends);
            var acts := [LoadTracker] + (sends + (if s.tracker < s2.signal
                                                  then [CompareSignal] + ([ReloadTracker] + [StoreTracker])
                                                  else [CompareSignal]));
            && CanRun(s, acts) && RunOf(s, acts).receiver.ReceiverIdle?
            && RunOf(s, acts).signal == s2.signal >= s.signal
            && RunOf(s, acts).tracker == s.tracker + (if s.tracker < s2.signal then 1 else 0)
            && RunOf(s, acts).receives == s.receives + (if s.tracker < s2.signal then 1 else 0)
  {
    var s1 := After(s, LoadTracker);
    var s2 := RunOf(s1, sends);
    SendersRun(s1, sends, []);
    RunOne(s2, CompareSignal);
    var s3 := After(s2, CompareSignal);
    if s.tracker < s2.signal {
      RunOne(After(s3, ReloadTracker), StoreTracker);
      RunStep(s3, ReloadTracker, [StoreTracker]);
      RunStep(s2, CompareSignal, [ReloadTracker] + [StoreTracker]);
      SendersRun(s1, sends, [CompareSignal] + ([ReloadTracker] + [StoreTracker]));
      RunStep(s, LoadTracker, sends + ([CompareSignal] + ([ReloadTracker] + [StoreTracker])));
    } else {
      SendersRun(s1, sends, [CompareSignal]);
      RunStep(s, LoadTracker, sends + [CompareSignal]);
    }
  }

  lemma RunOne(s: State, step: Step)
    requires CanStep(s, step)
    ensures CanRun(s, [step]) && RunOf(s, [step]) == After(s, step)
  {
    RunStep(s, step, []);
    assert [step] + [] == [step];
  }

  /** A send that nothing interrupts counts one signal. */
  lemma UninterruptedSend(s: State, i: nat)
    requires i < |s.senders| && s.senders[i].SenderIdle?
    ensures var acts := [LoadSignal(i)] + [StoreSignal(i)];
            && CanRun(s, acts) && RunOf(s, acts).signal == s.signal + 1 && RunOf(s, acts).sends == s.sends + 1
            && RunOf(s, acts).senders == s.senders && RunOf(s, acts).tracker == s.tracker
  {
    RunOne(After(s, LoadSignal(i)), StoreSignal(i));
    RunStep(s, LoadSignal(i), [StoreSignal(i)]);
    assert After(After(s, LoadSignal(i)), StoreSignal(i)).senders == s.senders;
  }
}
