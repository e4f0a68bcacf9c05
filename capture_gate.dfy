/** The packet-count gate that the capture callback `device_OnPacketArrival`
    runs on every arriving frame before the frame is decoded.

    The gate is first described on values (GateState, Step, Run) and its
    behaviour over any number of arrivals is proved there; the class Gate
    then holds the source's mutable fields and is proved to follow Step. */
module CaptureGate {
  import opened Int32

  /** The value of `maxPacketCount` that means "no limit" (its initial value). */
  const NoLimit: int32 := -1

  /** The gate's fields: the frames counted so far, the limit, and whether a
      stop and close of the capture device has been asked for. */
  datatype GateState = GateState(packetCount: int32, maxPacketCount: int32, stopRequested: bool)

  /** The state before the first frame: nothing counted, no stop asked for. */
  function Initial(maxPacketCount: int32): GateState {
    GateState(0, maxPacketCount, false)
  }

  /** The condition under which an arriving frame is refused: a limit is set
      and the count has reached it. */
  predicate Refuses(s: GateState) {
    s.maxPacketCount != NoLimit && s.packetCount >= s.maxPacketCount
  }

  /** One arrival: whether the frame goes on to decoding, and the state after.
      A refused frame asks for the stop and leaves the count alone; an
      accepted frame increments the count as a C# `int`. */
  function Step(s: GateState): (r: (bool, GateState))
    ensures r.0 == !Refuses(s)
    ensures r.1.maxPacketCount == s.maxPacketCount
    // a processed frame always moves the count by one, a refused one never does
    ensures r.0 <==> r.1.packetCount != s.packetCount
    ensures r.0 ==> r.1 == s.(packetCount := Wrap(s.packetCount as int + 1))
    ensures s.maxPacketCount != NoLimit && r.0 ==> r.1.packetCount as int == s.packetCount as int + 1
    // a refused frame changes nothing but the stop request
    ensures !r.0 ==> r.1 == s.(stopRequested := true)
  {
    if Refuses(s) then (false, s.(stopRequested := true))
    else (true, s.(packetCount := Increment(s.packetCount)))
  }

  /** k arrivals in a row from s: the verdict on each (true = processed),
      oldest first, and the state after the last. The count has advanced by
      exactly the number of processed frames. */
  function Run(s: GateState, k: nat): (r: (seq<bool>, GateState))
    ensures |r.0| == k
    ensures r.1.maxPacketCount == s.maxPacketCount
    ensures r.1.packetCount == Advance(s.packetCount, CountProcessed(r.0))
    decreases k
  {
    if k == 0 then ([], s)
    else
      var (first, next) := Step(s);
      var (rest, final) := Run(next, k - 1);
      assert ([first] + rest)[1..] == rest;
      ([first] + rest, final)
  }

  /** The number of processed frames among the verdicts. */
  function CountProcessed(verdicts: seq<bool>): nat {
    if verdicts == [] then 0
    else (if verdicts[0] then 1 else 0) + CountProcessed(verdicts[1..])
  }

  function MinOf(a: int, b: int): int {
    if a <= b then a else b
  }

  /** Running k + 1 arrivals is running k and then one more. */
  lemma {:induction false} RunSnoc(s: GateState, k: nat)
    ensures |Run(s, k).0| == k
    ensures Run(s, k + 1).0 == Run(s, k).0 + [Step(Run(s, k).1).0]
    ensures Run(s, k + 1).1 == Step(Run(s, k).1).1
    decreases k
  {
    if k > 0 {
      RunSnoc(Step(s).1, k - 1);
    }
  }

  /** With no limit every arrival is processed, the count advances by one
      per frame (as a C# `int`) and no stop is ever asked for. */
  lemma {:induction false} UnlimitedRun(s: GateState, k: nat)
    requires s.maxPacketCount == NoLimit
    ensures Run(s, k).0 == seq(k, i => true)
    ensures Run(s, k).1 == s.(packetCount := Advance(s.packetCount, k))
    decreases k
  {
    if k > 0 {
      var next := s.(packetCount := Increment(s.packetCount));
      UnlimitedRun(next, k - 1);
      assert Run(s, k).0 == [true] + seq(k - 1, i => true);
    }
  }

  /** With a limit set, the i-th of k arrivals is processed exactly when the
      count it meets is still below the limit; the count climbs to the limit
      and stops there, and a stop is asked for exactly when some frame was
      refused. The count never wraps. */
  lemma {:induction false} LimitedRun(s: GateState, k: nat)
    requires s.maxPacketCount != NoLimit
    ensures |Run(s, k).0| == k
    ensures forall i :: 0 <= i < k ==>
              Run(s, k).0[i] == (s.packetCount as int + i < s.maxPacketCount as int)
    ensures Run(s, k).1.packetCount as int ==
              if s.packetCount >= s.maxPacketCount then s.packetCount as int
              else MinOf(s.packetCount as int + k, s.maxPacketCount as int)
    ensures Run(s, k).1.maxPacketCount == s.maxPacketCount
    ensures Run(s, k).1.stopRequested ==
              (s.stopRequested || (k > 0 && s.packetCount as int + k > s.maxPacketCount as int))
    decreases k
  {
    if k > 0 {
      var next := Step(s).1;
      LimitedRun(next, k - 1);
      var (rest, final) := Run(next, k - 1);
      assert Run(s, k).0 == [Step(s).0] + rest;
      forall i | 0 <= i < k
        ensures Run(s, k).0[i] == (s.packetCount as int + i < s.maxPacketCount as int)
      {
        if i > 0 {
          assert Run(s, k).0[i] == rest[i - 1];
        }
      }
    }
  }

  /** A gate that refuses once refuses every later frame, leaving the count
      unchanged; its state after any arrival is the refusing state with the
      stop asked for. */
  lemma {:induction false} RefusedForever(s: GateState, k: nat)
    requires Refuses(s)
    ensures Run(s, k).0 == seq(k, i => false)
    ensures Run(s, k).1 == if k == 0 then s else s.(stopRequested := true)
    decreases k
  {
    if k > 0 {
      RefusedForever(s.(stopRequested := true), k - 1);
      assert Run(s, k).0 == [false] + seq(k - 1, i => false);
    }
  }

  /** Over any run, a stop is asked for exactly when it already was or some
      frame was refused; and after a refused frame every later one is refused
      too, so the final state still refuses. */
  lemma {:induction false} RefusalIsFinal(s: GateState, k: nat)
    ensures Run(s, k).1.stopRequested == (s.stopRequested || false in Run(s, k).0)
    ensures false in Run(s, k).0 ==> Refuses(Run(s, k).1)
    ensures forall i, j :: 0 <= i < j < |Run(s, k).0| && !Run(s, k).0[i] ==> !Run(s, k).0[j]
    decreases k
  {
    RunSnoc(s, k);
    if k > 0 {
      var (first, next) := Step(s);
      var (rest, final) := Run(next, k - 1);
      RefusalIsFinal(next, k - 1);
      assert Run(s, k).0 == [first] + rest;
      if !first {
        RefusedForever(s, k);
      } else {
        assert false in Run(s, k).0 <==> false in rest;
        RunSnoc(next, k - 1);
        forall i, j | 0 <= i < j < k && !Run(s, k).0[i]
          ensures !Run(s, k).0[j]
        {
          if i > 0 {
            assert rest[i - 1] == Run(s, k).0[i];
            assert rest[j - 1] == Run(s, k).0[j];
          }
        }
      }
    }
  }

  /** Verdicts that say "processed" for exactly the first n positions count
      min(length, n) processed frames. */
  lemma {:induction false} CountProcessedPrefix(verdicts: seq<bool>, n: int)
    requires forall i :: 0 <= i < |verdicts| ==> verdicts[i] == (i < n)
    ensures CountProcessed(verdicts) == if n <= 0 then 0 else MinOf(|verdicts|, n)
  {
    if verdicts != [] {
      CountProcessedPrefix(verdicts[1..], n - 1);
    }
  }

  /** The count-limit property: starting a capture with limit n >= 0, the
      first n arrivals are processed and every later one is refused, so after
      k arrivals exactly min(k, n) frames were processed, the count equals
      that number, and a stop was asked for exactly when k > n. With n == 0
      nothing is processed. */
  lemma CountLimit(n: int32, k: nat)
    requires n >= 0
    ensures |Run(Initial(n), k).0| == k
    ensures forall i :: 0 <= i < k ==> Run(Initial(n), k).0[i] == (i < n as int)
    ensures CountProcessed(Run(Initial(n), k).0) == MinOf(k, n as int)
    ensures Run(Initial(n), k).1.packetCount as int == MinOf(k, n as int)
    ensures Run(Initial(n), k).1.stopRequested == (k > n as int)
  {
    LimitedRun(Initial(n), k);
    CountProcessedPrefix(Run(Initial(n), k).0, n as int);
  }

  /** The default: with no limit all k arrivals are processed, none refused,
      and no stop is asked for. */
  lemma NoLimitProcessesAll(k: nat)
    ensures Run(Initial(NoLimit), k).0 == seq(k, i => true)
    ensures CountProcessed(Run(Initial(NoLimit), k).0) == k
    ensures !Run(Initial(NoLimit), k).1.stopRequested
    ensures Run(Initial(NoLimit), k).1.packetCount == Wrap(k)
    ensures k <= Max ==> Run(Initial(NoLimit), k).1.packetCount as int == k
  {
    UnlimitedRun(Initial(NoLimit), k);
    AdvanceIsWrap(0, k);
    CountProcessedPrefix(Run(Initial(NoLimit), k).0, k);
  }

  /** The static fields `packetCount` and `maxPacketCount` and the stop/close
      of the capture device, owned by one capture session. */
  class Gate {
    var packetCount: int32
    var maxPacketCount: int32
    /** Stands for `device.StopCapture(); device.Close();` having been called. */
    var stopRequested: bool
    /** The verdict on every frame that has arrived so far, oldest first. */
    ghost var verdicts: seq<bool>

    function State(): GateState
      reads this
    {
      GateState(packetCount, maxPacketCount, stopRequested)
    }

    /** The fields are those reached from the initial state by the arrivals
        recorded so far. */
    ghost predicate Valid()
      reads this
    {
      Run(Initial(maxPacketCount), |verdicts|) == (verdicts, State())
    }

    /** A session whose limit is maxPacketCount (NoLimit when none was given). */
    constructor (maxPacketCount: int32)
      ensures Valid()
      ensures State() == Initial(maxPacketCount) && verdicts == []
    {
      this.packetCount := 0;
      this.maxPacketCount := maxPacketCount;
      this.stopRequested := false;
      this.verdicts := [];
    }

    /** A frame arrives; returns whether it goes on to decoding. */
    method OnArrival() returns (processed: bool)
      requires Valid()
      modifies this
      ensures Valid()
      ensures (processed, State()) == Step(old(State()))
      ensures verdicts == old(verdicts) + [processed]
      ensures maxPacketCount == old(maxPacketCount)
      // refused exactly when a limit is set and reached; refusal asks for the stop
      ensures processed == !(maxPacketCount != NoLimit && old(packetCount) >= maxPacketCount)
      ensures processed ==> packetCount == Wrap(old(packetCount) as int + 1)
                            && stopRequested == old(stopRequested)
      ensures !processed ==> packetCount == old(packetCount) && stopRequested
      // the stop has been asked for exactly when some frame was refused
      ensures stopRequested == (false in verdicts)
      // once a frame is refused, every later one is
      ensures false in old(verdicts) ==> !processed
      // with no limit every frame is processed
      ensures maxPacketCount == NoLimit ==> processed && !stopRequested
      // with a limit the count never decreases, and only the first n frames are processed
      ensures maxPacketCount != NoLimit ==> old(packetCount) <= packetCount
      ensures maxPacketCount >= 0 ==>
                processed == (|old(verdicts)| < maxPacketCount as int)
                && CountProcessed(verdicts) == MinOf(|verdicts|, maxPacketCount as int)
                && packetCount as int == CountProcessed(verdicts)
                && packetCount <= maxPacketCount
    {
      ghost var k := |verdicts|;
      ghost var start := Initial(maxPacketCount);
      RunSnoc(start, k);
      if maxPacketCount != NoLimit && packetCount >= maxPacketCount {
        stopRequested := true;
        processed := false;
      } else {
        packetCount := Increment(packetCount);
        processed := true;
      }
      verdicts := verdicts + [processed];
      RefusalIsFinal(start, k);
      RefusalIsFinal(start, k + 1);
      if maxPacketCount >= 0 {
        CountLimit(maxPacketCount, k + 1);
      } else if maxPacketCount == NoLimit {
        UnlimitedRun(start, k);
      }
    }
  }
}
