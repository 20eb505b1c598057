/** One tick of the ping loop: the packet counters, the drop flags, the pending
    outage start, the outage counter and the outage list, updated from one probe
    outcome. The probe, the clock, the GPIO pin and the screen are outside the
    model: the outcome and the current time are parameters of a tick, and the
    alert bit and the dropped ratio are its results. */
module PingLoop {
  import opened OutageList
  import opened OutageRows

  // ---------------------------------------------------------------------------
  // Reference definitions over the sequence of probe outcomes so far
  // (true = the host answered, false = the packet was dropped)
  // ---------------------------------------------------------------------------

  /** The number of dropped packets in `h`. */
  function Drops(h: seq<bool>): nat
  {
    if h == [] then 0 else Drops(h[..|h| - 1]) + (if h[|h| - 1] then 0 else 1)
  }

  /** The length of the run of drops at the end of `h`. */
  function TrailingDrops(h: seq<bool>): nat
  {
    if h == [] || h[|h| - 1] then 0 else TrailingDrops(h[..|h| - 1]) + 1
  }

  /** The number of ticks of `h` at which the run of drops reached `threshold`
      exactly: the outages the loop has opened, whatever it later evicted. */
  function OutagesOpened(h: seq<bool>, threshold: nat): nat
  {
    if h == [] then 0
    else OutagesOpened(h[..|h| - 1], threshold) +
         (if !h[|h| - 1] && TrailingDrops(h) == threshold then 1 else 0)
  }

  /** `k` drops in a row. */
  function Failures(k: nat): (f: seq<bool>)
    ensures |f| == k && forall i :: 0 <= i < k ==> !f[i]
  {
    seq(k, _ => false)
  }

  /** How one more outcome changes the three counts. */
  lemma AppendOne(h: seq<bool>, ok: bool, threshold: nat)
    ensures Drops(h + [ok]) == Drops(h) + (if ok then 0 else 1)
    ensures TrailingDrops(h + [ok]) == if ok then 0 else TrailingDrops(h) + 1
    ensures OutagesOpened(h + [ok], threshold) == OutagesOpened(h, threshold) +
      (if !ok && TrailingDrops(h) + 1 == threshold then 1 else 0)
  {
  }

  lemma {:induction false} DropsAtMostTotal(h: seq<bool>)
    ensures Drops(h) <= |h|
  {
    if h != [] {
      DropsAtMostTotal(h[..|h| - 1]);
    }
  }

  lemma {:induction false} TrailingAtMostDrops(h: seq<bool>)
    ensures TrailingDrops(h) <= Drops(h)
  {
    if h != [] {
      TrailingAtMostDrops(h[..|h| - 1]);
    }
  }

  /** After a success (or at the start), `k` drops in a row leave a run of `k`. */
  lemma {:induction false} RunLength(h: seq<bool>, k: nat)
    requires h == [] || h[|h| - 1]
    ensures TrailingDrops(h + Failures(k)) == k
  {
    if k > 0 {
      RunLength(h, k - 1);
      assert (h + Failures(k))[..|h| + k - 1] == h + Failures(k - 1);
    } else {
      assert h + Failures(0) == h;
    }
  }

  /** A run of `k` drops opens exactly one outage when it reaches the threshold
      (1 <= threshold <= k) and none otherwise: never one per tick of the run. */
  lemma {:induction false} RunOpensOnce(h: seq<bool>, k: nat, threshold: nat)
    requires h == [] || h[|h| - 1]
    ensures OutagesOpened(h + Failures(k), threshold) ==
            OutagesOpened(h, threshold) + (if 1 <= threshold <= k then 1 else 0)
  {
    if k > 0 {
      RunOpensOnce(h, k - 1, threshold);
      RunLength(h, k);
      assert (h + Failures(k))[..|h| + k - 1] == h + Failures(k - 1);
    } else {
      assert h + Failures(0) == h;
    }
  }

  /** The outage counter never goes down as ticks are appended. */
  lemma {:induction false} OpenedMonotone(h: seq<bool>, more: seq<bool>, threshold: nat)
    ensures OutagesOpened(h, threshold) <= OutagesOpened(h + more, threshold)
  {
    if more != [] {
      var shorter := more[..|more| - 1];
      OpenedMonotone(h, shorter, threshold);
      assert (h + more)[..|h + more| - 1] == h + shorter;
    } else {
      assert h + more == h;
    }
  }

  // ---------------------------------------------------------------------------
  // The dropped ratio
  // ---------------------------------------------------------------------------

  /** `bcdiv` keeps 5 decimal places: ratios are counted in units of 1/RatioScale. */
  const RatioScale: nat := 100000

  /** `bcdiv(dropped, total, 5)`: dropped/total truncated to 5 decimal places,
      in units of 1/RatioScale. The loop only divides after counting the current
      packet, so `total` is never 0. */
  function DroppedRatio(dropped: nat, total: nat): (r: nat)
    requires total > 0
    ensures dropped <= total ==> r <= RatioScale
    ensures dropped == 0 ==> r == 0
    ensures dropped == total ==> r == RatioScale
  {
    var q := dropped * RatioScale / total;
    QuotientBounds(dropped * RatioScale, total);
    RatioLimits(dropped, total, q);
    q
  }

  /** The ratio is the truncated quotient: the largest count of 1/RatioScale
      units that fits in dropped/total. */
  lemma RatioMeaning(dropped: nat, total: nat)
    requires total > 0
    ensures DroppedRatio(dropped, total) * total <= dropped * RatioScale
    ensures dropped * RatioScale < (DroppedRatio(dropped, total) + 1) * total
  {
    QuotientBounds(dropped * RatioScale, total);
  }

  /** Truncating division brackets the dividend between two multiples. */
  lemma QuotientBounds(x: nat, d: nat)
    requires d > 0
    ensures (x / d) * d <= x < (x / d + 1) * d
  {
  }

  /** Multiplying both sides by the same positive factor keeps the order. */
  lemma CancelFactor(a: nat, b: nat, c: nat)
    requires c > 0 && a * c <= b * c
    ensures a <= b
  {
  }

  /** The bracketing pins the quotient to [0, RatioScale], with both ends reached. */
  lemma RatioLimits(dropped: nat, total: nat, r: nat)
    requires total > 0 && r * total <= dropped * RatioScale < (r + 1) * total
    ensures dropped <= total ==> r <= RatioScale
    ensures dropped == 0 ==> r == 0
    ensures dropped == total ==> r == RatioScale
  {
    if dropped <= total {
      assert dropped * RatioScale <= RatioScale * total;
      CancelFactor(r, RatioScale, total);
    }
    if dropped == 0 {
      CancelFactor(r, 0, total);
    }
    if dropped == total {
      assert RatioScale * total < (r + 1) * total;
      CancelFactor(RatioScale + 1, r + 1, total);
    }
  }

  // ---------------------------------------------------------------------------
  // The shape of the outage list between ticks
  // ---------------------------------------------------------------------------

  /** The list stays within its bound, only its head can be open, and the head is
      open exactly while the current run of `run` drops is at or past the
      threshold (when the capacity lets an entry stay). */
  ghost predicate ListShape(os: seq<Outage>, threshold: nat, cap: nat, run: nat)
  {
    |os| <= Bound(cap) &&
    (forall i :: 1 <= i < |os| ==> os[i].ended.Some?) &&
    (|os| > 0 && os[0].ended.None? ==> 1 <= threshold <= run) &&
    (1 <= cap && 1 <= threshold <= run ==> |os| > 0 && os[0].ended.None?)
  }

  /** A success closes the head after a drop and leaves the list alone otherwise. */
  lemma ShapeAfterSuccess(os: seq<Outage>, threshold: nat, cap: nat, run: nat, now: int)
    requires ListShape(os, threshold, cap, run)
    ensures ListShape(if run > 0 then Close(os, now) else os, threshold, cap, 0)
  {
  }

  /** A drop that brings the run to the threshold opens a new head entry. */
  lemma ShapeAfterOpen(os: seq<Outage>, threshold: nat, cap: nat, run: nat, start: Option<int>)
    requires ListShape(os, threshold, cap, run) && run + 1 == threshold
    ensures ListShape(Admit(os, Outage(start, None), cap), threshold, cap, run + 1)
  {
  }

  /** Any other drop leaves the list as it is. */
  lemma ShapeAfterDrop(os: seq<Outage>, threshold: nat, cap: nat, run: nat)
    requires ListShape(os, threshold, cap, run) && run + 1 != threshold
    ensures ListShape(os, threshold, cap, run + 1)
  {
  }

  // ---------------------------------------------------------------------------
  // The loop state
  // ---------------------------------------------------------------------------

  /** The local variables `ping_loop` keeps across ticks. `threshold` is
      `failed_packets_in_outage` and `capacity` is `max_outages`; `history` is
      the ghost record of the outcomes seen so far. */
  class Monitor {
    const threshold: nat
    const capacity: nat
    var totalPackets: nat
    var droppedPackets: nat
    var consecutiveDrops: nat
    var lastDropped: bool
    var outageStart: Option<int>
    var outageCount: nat
    var outages: seq<Outage>
    ghost var history: seq<bool>

    /** The counters are the reference counts over the history, the pending
        start is set only during a run of two drops or more, and the outage list
        keeps its shape. */
    ghost predicate Valid()
      reads this
    {
      totalPackets == |history| &&
      droppedPackets == Drops(history) &&
      consecutiveDrops == TrailingDrops(history) &&
      lastDropped == (consecutiveDrops > 0) &&
      outageCount == OutagesOpened(history, threshold) &&
      (outageStart.Some? <==> consecutiveDrops >= 2) &&
      ListShape(outages, threshold, capacity, consecutiveDrops)
    }

    constructor (threshold: nat, capacity: nat)
      ensures Valid()
      ensures this.threshold == threshold && this.capacity == capacity
      ensures totalPackets == 0 && droppedPackets == 0 && consecutiveDrops == 0
      ensures !lastDropped && outageStart == None && outageCount == 0 && outages == []
      ensures history == []
    {
      this.threshold := threshold;
      this.capacity := capacity;
      totalPackets, droppedPackets, consecutiveDrops := 0, 0, 0;
      lastDropped := false;
      outageStart := None;
      outageCount := 0;
      outages := [];
      history := [];
    }

    /** One pass of the loop body for probe outcome `ok` at time `now`. Returns
        the alert bit written to the GPIO pin and the dropped ratio shown. */
    method Tick(ok: bool, now: int) returns (ratio: nat, alert: bool)
      requires Valid()
      modifies this
      ensures Valid()
      ensures history == old(history) + [ok]
      ensures alert == !ok
      ensures totalPackets == old(totalPackets) + 1
      ensures droppedPackets == old(droppedPackets) + (if ok then 0 else 1)
      ensures consecutiveDrops == if ok then 0 else old(consecutiveDrops) + 1
      ensures lastDropped == !ok
      ensures ratio == DroppedRatio(droppedPackets, totalPackets) && ratio <= RatioScale
      ensures outageStart == if !ok && old(lastDropped) then Some(now) else None
      ensures outageCount == old(outageCount) + (if !ok && consecutiveDrops == threshold then 1 else 0)
      ensures outages ==
        if ok then
          (if old(lastDropped) then Close(old(outages), now) else old(outages))
        else if consecutiveDrops == threshold then
          Admit(old(outages), Outage(outageStart, None), capacity)
        else old(outages)
      ensures !ok && consecutiveDrops == threshold && capacity >= 1 ==>
        outages[0] == Outage(if threshold >= 2 then Some(now) else None, None)
    {
      if ok {
        Reply(now);
      } else {
        Drop(now);
      }
      // both branches of the loop compute the ratio after updating the counters
      alert := !ok;
      CountersOrdered(this);
      RatioMeaning(droppedPackets, totalPackets);
      ratio := DroppedRatio(droppedPackets, totalPackets);
    }

    /** The success branch: close the head entry if the previous tick dropped,
        and reset the run. */
    method Reply(now: int)
      requires Valid()
      modifies this
      ensures Valid()
      ensures history == old(history) + [true]
      ensures totalPackets == old(totalPackets) + 1
      ensures droppedPackets == old(droppedPackets)
      ensures consecutiveDrops == 0 && !lastDropped && outageStart == None
      ensures outageCount == old(outageCount)
      ensures outages == if old(lastDropped) then Close(old(outages), now) else old(outages)
    {
      AppendOne(history, true, threshold);
      ShapeAfterSuccess(outages, threshold, capacity, consecutiveDrops, now);
      var list := if lastDropped then Close(outages, now) else outages;
      totalPackets, consecutiveDrops, lastDropped, outageStart, outages, history :=
        totalPackets + 1, 0, false, None, list, history + [true];
    }

    /** The failure branch: extend the run, and open an outage when the run
        reaches the threshold exactly. The new entry starts at `now` when the
        previous tick also dropped, and has no start otherwise. */
    method Drop(now: int)
      requires Valid()
      modifies this
      ensures Valid()
      ensures history == old(history) + [false]
      ensures totalPackets == old(totalPackets) + 1
      ensures droppedPackets == old(droppedPackets) + 1
      ensures consecutiveDrops == old(consecutiveDrops) + 1 && lastDropped
      ensures outageStart == if old(lastDropped) then Some(now) else None
      ensures outageCount == old(outageCount) + (if consecutiveDrops == threshold then 1 else 0)
      ensures outages ==
        if consecutiveDrops == threshold then Admit(old(outages), Outage(outageStart, None), capacity)
        else old(outages)
      ensures consecutiveDrops == threshold && capacity >= 1 ==>
        outages[0] == Outage(if threshold >= 2 then Some(now) else None, None)
    {
      AppendOne(history, false, threshold);
      var start := if lastDropped then Some(now) else None;
      var run := consecutiveDrops + 1;
      var count, list := outageCount, outages;
      if run == threshold {
        ShapeAfterOpen(outages, threshold, capacity, consecutiveDrops, start);
        count := count + 1;
        list := Admit(list, Outage(start, None), capacity);
      } else {
        ShapeAfterDrop(outages, threshold, capacity, consecutiveDrops);
      }
      totalPackets, droppedPackets, consecutiveDrops, lastDropped, outageStart, outageCount, outages, history :=
        totalPackets + 1, droppedPackets + 1, run, true, start, count, list, history + [false];
    }
  }

  /** The counters are ordered in every reachable state. */
  lemma CountersOrdered(m: Monitor)
    requires m.Valid()
    ensures m.consecutiveDrops <= m.droppedPackets <= m.totalPackets
  {
    TrailingAtMostDrops(m.history);
    DropsAtMostTotal(m.history);
  }

  /** The list never holds more than `max_outages` entries, or one entry when
      `max_outages` is 0. */
  lemma OutagesWithinBound(m: Monitor)
    requires m.Valid()
    ensures |m.outages| <= Bound(m.capacity)
    ensures m.capacity >= 1 ==> |m.outages| <= m.capacity
    ensures m.capacity == 0 ==> |m.outages| <= 1
  {
  }

  /** On screen, at most one outage is "[in progress]": the one on the first
      line, for the head of the list, and only while the current run of drops is
      at or past the threshold. */
  lemma InProgressOnlyAtHead(m: Monitor)
    requires m.Valid()
    ensures forall k :: 0 <= k < |Rows(m.outages)| && Rows(m.outages)[k].status.InProgress? ==>
      Rows(m.outages)[k].slot == 0 && 1 <= m.threshold <= m.consecutiveDrops
  {
    RowsSound(m.outages);
  }

  // ---------------------------------------------------------------------------
  // Scenarios: what a caller can conclude from the contracts alone
  // ---------------------------------------------------------------------------

  /** Threshold 3, capacity 2, first six ticks: ok, four drops, ok. The third
      drop opens the outage, the fourth continues it, the reply closes it. */
  method FirstOutage(m: Monitor)
    requires m.Valid() && m.threshold == 3 && m.capacity == 2 && m.history == [] && m.outages == []
    modifies m
    ensures m.Valid() && m.threshold == 3 && m.capacity == 2
    ensures m.totalPackets == 6 && m.droppedPackets == 4 && !m.lastDropped
    ensures m.outageCount == 1 && m.outages == [Outage(Some(4), Some(6))]
  {
    var r, a := m.Tick(true, 1);
    r, a := m.Tick(false, 2);
    r, a := m.Tick(false, 3);
    assert m.consecutiveDrops == 2 && m.outageCount == 0 && m.outages == [];
    r, a := m.Tick(false, 4);
    assert m.outageCount == 1 && m.outages == [Outage(Some(4), None)];
    r, a := m.Tick(false, 5);
    assert m.outageCount == 1 && m.outages == [Outage(Some(4), None)];
    r, a := m.Tick(true, 6);
  }

  /** The same monitor, four more ticks: three drops and a reply open and close
      a second outage; both stay in the list, most recent first. */
  method ScenarioTwoOutages()
  {
    var m := new Monitor(3, 2);
    FirstOutage(m);
    var r, a := m.Tick(false, 7);
    r, a := m.Tick(false, 8);
    assert m.consecutiveDrops == 2 && m.outageCount == 1;
    r, a := m.Tick(false, 9);
    assert m.outageCount == 2 && m.outages == [Outage(Some(9), None), Outage(Some(4), Some(6))];
    r, a := m.Tick(true, 10);
    assert m.outages == [Outage(Some(9), Some(10)), Outage(Some(4), Some(6))];
    assert m.totalPackets == 10 && m.droppedPackets == 7;
    assert r == DroppedRatio(7, 10) == 70000;
  }

  /** Threshold 2, capacity 1: two drops and a reply at times t, t + 1, t + 2
      count one more outage and leave it as the only entry. */
  method ShortOutage(m: Monitor, t: int)
    requires m.Valid() && m.threshold == 2 && m.capacity == 1 && !m.lastDropped
    modifies m
    ensures m.Valid() && m.threshold == 2 && m.capacity == 1 && !m.lastDropped
    ensures m.outageCount == old(m.outageCount) + 1
    ensures m.outages == [Outage(Some(t + 1), Some(t + 2))]
  {
    var r, a := m.Tick(false, t);
    r, a := m.Tick(false, t + 1);
    assert m.outages == [Outage(Some(t + 1), None)];
    r, a := m.Tick(true, t + 2);
  }

  /** Capacity 1: three outages, only the latest is retained, all are counted. */
  method ScenarioCapacityOne()
  {
    var m := new Monitor(2, 1);
    ShortOutage(m, 1);
    ShortOutage(m, 4);
    ShortOutage(m, 7);
    assert m.outageCount == 3 && m.outages == [Outage(Some(8), Some(9))];
  }

  /** A recovery after a short run on an empty list creates an entry that has
      an end and no start; no outage is counted. */
  method ScenarioShortRunFirst()
  {
    var m := new Monitor(3, 30);
    var r, a := m.Tick(false, 1);
    r, a := m.Tick(true, 2);
    assert m.outageCount == 0 && m.outages == [Outage(None, Some(2))];
  }

  /** A recovery after a short run rewrites the end of the last closed outage. */
  method ScenarioShortRunRewritesEnd()
  {
    var m := new Monitor(2, 30);
    var r, a := m.Tick(false, 1);
    r, a := m.Tick(false, 2);
    r, a := m.Tick(true, 3);
    assert m.outages == [Outage(Some(2), Some(3))];
    r, a := m.Tick(false, 4);
    r, a := m.Tick(true, 5);
    assert m.outageCount == 1 && m.outages == [Outage(Some(2), Some(5))];
  }

  /** Capacity 0: a recovery on the empty list still creates an entry, and an
      outage opened later replaces it, so the list keeps one entry. */
  method ScenarioCapacityZero()
  {
    var m := new Monitor(2, 0);
    var r, a := m.Tick(false, 1);
    r, a := m.Tick(true, 2);
    assert m.outages == [Outage(None, Some(2))];
    r, a := m.Tick(false, 3);
    r, a := m.Tick(false, 4);
    assert m.outageCount == 1 && m.outages == [Outage(Some(4), None)];
  }

  /** Capacity 0 on an empty list: the outage opened is popped at once, so no
      entry is open although the run has reached the threshold. */
  method ScenarioCapacityZeroEmpty()
  {
    var m := new Monitor(1, 0);
    var r, a := m.Tick(false, 1);
    assert m.consecutiveDrops == 1 && m.outageCount == 1 && m.outages == [];
  }

  /** With a threshold of 1 the outage is opened without a start. */
  method ScenarioThresholdOne()
  {
    var m := new Monitor(1, 30);
    var r, a := m.Tick(false, 1);
    assert m.outageCount == 1 && m.outages == [Outage(None, None)];
  }
}
