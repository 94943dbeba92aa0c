/** What the four statistics counters count, over every run. */
module Counters {
  import opened BitVectors
  import opened HashIndex
  import opened HashTable
  import opened Kernel
  import opened Runs

  predicate EndsPacket(es: seq<Event>, k: int) {
    IsPhit(es, k) && es[k].p.last
  }

  /** Packets completed among the first `n` events. */
  function PacketsIn(es: seq<Event>, n: nat): nat
    requires n <= |es|
  {
    if n == 0 then 0 else PacketsIn(es, n - 1) + if EndsPacket(es, n - 1) then 1 else 0
  }

  /** Completed packets whose last phit was emitted. */
  function PacketsForwarded(s: State, es: seq<Event>, n: nat): nat
    requires n <= |es|
  {
    if n == 0 then 0
    else PacketsForwarded(s, es, n - 1) + if EndsPacket(es, n - 1) && Emitted(s, es, n - 1) then 1 else 0
  }

  function PacketsDropped(s: State, es: seq<Event>, n: nat): nat
    requires n <= |es|
  {
    if n == 0 then 0
    else PacketsDropped(s, es, n - 1) + if EndsPacket(es, n - 1) && !Emitted(s, es, n - 1) then 1 else 0
  }

  /** Packet ends in an output stream. */
  function LastPhits(out: seq<Phit>): nat {
    if out == [] then 0 else LastPhits(out[..|out| - 1]) + if out[|out| - 1].last then 1 else 0
  }

  /** The counters a run should show: each packet counted once, modulo 2^64. As coded, the phit
      counter moves by one per packet as well. */
  function CountersAfter(s: State, es: seq<Event>, n: nat): Statistics
    requires n <= |es|
  {
    Statistics(PacketsIn(es, n) % WORD64, PacketsIn(es, n) % WORD64,
               PacketsForwarded(s, es, n) % WORD64, PacketsDropped(s, es, n) % WORD64)
  }

  lemma NextCount(x: nat)
    ensures Add64(x % 0x1_0000_0000_0000_0000, 1) == (x + 1) % 0x1_0000_0000_0000_0000
  {
  }

  lemma LocalStep(s: State, e: Event)
    ensures Step(s, e).core.local
            == if e.Consume? && e.p.last then CountedPacket(s.core.local, 0, Forwards(s.core, e.p)) else s.core.local
  {
  }

  lemma CountersStep(s: State, es: seq<Event>, n: nat)
    requires n < |es|
    ensures CountersAfter(s, es, n + 1)
            == if EndsPacket(es, n) then CountedPacket(CountersAfter(s, es, n), 0, Emitted(s, es, n))
               else CountersAfter(s, es, n)
  {
    NextCount(PacketsIn(es, n));
    NextCount(PacketsForwarded(s, es, n));
    NextCount(PacketsDropped(s, es, n));
  }

  lemma {:induction false} CountersCountPackets(size: TableSize, es: seq<Event>, n: nat)
    requires n <= |es|
    ensures At(Reset(size), es, n).core.local == CountersAfter(Reset(size), es, n)
  {
    AtEnds(Reset(size), es);
    if n > 0 {
      CountersCountPackets(size, es, n - 1);
      AtStep(Reset(size), es, n - 1);
      LocalStep(At(Reset(size), es, n - 1), es[n - 1]);
      CountersStep(Reset(size), es, n - 1);
    }
  }

  lemma {:induction false} EveryPacketHasOneFate(s: State, es: seq<Event>, n: nat)
    requires n <= |es|
    ensures PacketsIn(es, n) == PacketsForwarded(s, es, n) + PacketsDropped(s, es, n)
  {
    if n > 0 {
      EveryPacketHasOneFate(s, es, n - 1);
    }
  }

  lemma LastPhitsMore(out: seq<Phit>, p: Phit)
    ensures LastPhits(out + [p]) == LastPhits(out) + if p.last then 1 else 0
  {
    assert (out + [p])[..|out|] == out;
  }

  lemma LastPhitsStep(s: State, es: seq<Event>, n: nat)
    requires n < |es|
    ensures LastPhits(At(s, es, n + 1).out)
            == LastPhits(At(s, es, n).out) + if EndsPacket(es, n) && Emitted(s, es, n) then 1 else 0
  {
    OutAt(s, es, n);
    var out := At(s, es, n).out;
    if Emitted(s, es, n) {
      LastPhitsMore(out, es[n].p);
    } else {
      assert out + [] == out;
    }
  }

  lemma {:induction false} OutputEndsForwardedPackets(s: State, es: seq<Event>, n: nat)
    requires n <= |es|
    ensures LastPhits(At(s, es, n).out) == LastPhits(s.out) + PacketsForwarded(s, es, n)
  {
    if n == 0 {
      AtEnds(s, es);
    } else {
      OutputEndsForwardedPackets(s, es, n - 1);
      LastPhitsStep(s, es, n - 1);
    }
  }

  lemma SumModulo(x: nat, y: nat)
    ensures (x + y) % WORD64 == Add64(x % WORD64, y % WORD64)
  {
    var u, v := x % WORD64, y % WORD64;
    assert x + y == (u + v) + WORD64 * (x / WORD64 + y / WORD64);
  }

  lemma FinalCounters(size: TableSize, es: seq<Event>)
    ensures Run(Reset(size), es).core.local == CountersAfter(Reset(size), es, |es|)
    ensures LastPhits(Run(Reset(size), es).out) == PacketsForwarded(Reset(size), es, |es|)
  {
    AtEnds(Reset(size), es);
    CountersCountPackets(size, es, |es|);
    OutputEndsForwardedPackets(Reset(size), es, |es|);
  }

  /** In every reachable state, modulo 2^64: packets in = packets forwarded + packets dropped, in
      the live counters, and packets forwarded = packet ends at the output. */
  lemma CountersAreConserved(size: TableSize, es: seq<Event>)
    ensures var c := Run(Reset(size), es).core.local;
      c.pktIn == Add64(c.pktForward, c.pktDrop)
    ensures Run(Reset(size), es).core.local.pktForward == LastPhits(Run(Reset(size), es).out) % WORD64
  {
    var f, d := PacketsForwarded(Reset(size), es, |es|), PacketsDropped(Reset(size), es, |es|);
    FinalCounters(size, es);
    assert PacketsIn(es, |es|) == f + d by {
      EveryPacketHasOneFate(Reset(size), es, |es|);
    }
    SumModulo(f, d);
  }

  // ---------- The published copy ----------

  /** How many events had happened when the statistics visible after `n` events were published. */
  function PublishedAt(es: seq<Event>, n: nat): (m: nat)
    requires n <= |es|
    ensures m <= n
  {
    if n == 0 then 0 else if es[n - 1].Idle? then n - 1 else PublishedAt(es, n - 1)
  }

  lemma PublishedStep(s: State, e: Event)
    ensures Step(s, e).core.published == if e.Idle? then s.core.local else s.core.published
  {
  }

  /** The visible statistics are the live counters as they were at the latest idle cycle. */
  lemma {:induction false} PublishedIsEarlierLocal(size: TableSize, es: seq<Event>, n: nat)
    requires n <= |es|
    ensures At(Reset(size), es, n).core.published == At(Reset(size), es, PublishedAt(es, n)).core.local
  {
    AtEnds(Reset(size), es);
    if n > 0 {
      PublishedIsEarlierLocal(size, es, n - 1);
      AtStep(Reset(size), es, n - 1);
      PublishedStep(At(Reset(size), es, n - 1), es[n - 1]);
    }
  }

  lemma {:induction false} PublishedAtGrows(es: seq<Event>, m: nat, n: nat)
    requires m <= n <= |es|
    ensures PublishedAt(es, m) <= PublishedAt(es, n)
  {
    if m < n {
      PublishedAtGrows(es, m, n - 1);
    }
  }

  // ---------- The phit counter ----------

  /** Phits consumed among the first `n` events. */
  function PhitsIn(es: seq<Event>, n: nat): nat
    requires n <= |es|
  {
    if n == 0 then 0 else PhitsIn(es, n - 1) + if IsPhit(es, n - 1) then 1 else 0
  }

  /** Phits of the packets completed among the first `n` events. */
  function CompletedPhits(es: seq<Event>, n: nat): nat
    requires n <= |es|
  {
    if n == 0 then 0 else if EndsPacket(es, n - 1) then PhitsIn(es, n) else CompletedPhits(es, n - 1)
  }

  /** Every packet completed among the first `n` events consists of one phit. */
  predicate SinglePhitPackets(es: seq<Event>, n: nat)
    requires n <= |es|
  {
    forall k :: 0 <= k < n && EndsPacket(es, k) ==> FirstPhit(es, k) == k
  }

  lemma {:induction false} PhitsBehindPacketEnd(es: seq<Event>, n: nat)
    requires n <= |es|
    ensures PhitsIn(es, n) >= CompletedPhits(es, n)
    ensures AtPacketStart(es, n) <==> PhitsIn(es, n) == CompletedPhits(es, n)
  {
    if n > 0 {
      PhitsBehindPacketEnd(es, n - 1);
    }
  }

  lemma {:induction false} PhitsPerPacket(es: seq<Event>, n: nat)
    requires n <= |es|
    ensures PacketsIn(es, n) <= CompletedPhits(es, n) <= n
    ensures PacketsIn(es, n) == CompletedPhits(es, n) <==> SinglePhitPackets(es, n)
  {
    PhitsAtMost(es, n);
    if n > 0 {
      PhitsPerPacket(es, n - 1);
      PhitsBehindPacketEnd(es, n - 1);
      if EndsPacket(es, n - 1) {
        assert FirstPhit(es, n - 1) == n - 1 <==> AtPacketStart(es, n - 1);
        assert SinglePhitPackets(es, n) <==> SinglePhitPackets(es, n - 1) && FirstPhit(es, n - 1) == n - 1;
      } else {
        assert SinglePhitPackets(es, n) <==> SinglePhitPackets(es, n - 1);
      }
    }
  }

  lemma {:induction false} PhitsAtMost(es: seq<Event>, n: nat)
    requires n <= |es|
    ensures CompletedPhits(es, n) <= PhitsIn(es, n) <= n
  {
    if n > 0 {
      PhitsAtMost(es, n - 1);
    }
  }

  lemma SameModulo(x: nat, y: nat)
    requires x <= y
    ensures x % WORD64 == y % WORD64 <==> (y - x) % WORD64 == 0
  {
    assert x == x / WORD64 * WORD64 + x % WORD64;
    assert y == y / WORD64 * WORD64 + y % WORD64;
  }

  lemma CompareModulo(counter: nat, x: nat, y: nat, n: nat)
    requires counter == x % WORD64 && x <= y <= n
    ensures counter == y % WORD64 <==> (y - x) % WORD64 == 0
    ensures n < WORD64 ==> (counter == y <==> x == y)
  {
    SameModulo(x, y);
    if n < WORD64 {
      SmallModulo(x);
    }
  }

  lemma PhitCounterValue(size: TableSize, es: seq<Event>)
    ensures Run(Reset(size), es).core.local.phitIn == PacketsIn(es, |es|) % WORD64
  {
    AtEnds(Reset(size), es);
    CountersCountPackets(size, es, |es|);
  }

  /** The counter named "phits in" shows the phits of the completed packets, modulo 2^64, if and only
      if the phits behind the first ones of their packets are a multiple of 2^64: `phit_idx` is reset
      before it is added, so that the counter shows the packets. */
  lemma PhitCounterCompared(size: TableSize, es: seq<Event>, packets: nat, phits: nat)
    requires packets == PacketsIn(es, |es|) && phits == CompletedPhits(es, |es|)
    ensures var counter := Run(Reset(size), es).core.local.phitIn;
      && packets <= phits
      && (counter == phits % WORD64 <==> (phits - packets) % WORD64 == 0)
      && (|es| < WORD64 ==> (counter == phits <==> packets == phits))
  {
    PhitCounterValue(size, es);
    PhitsPerPacket(es, |es|);
    CompareModulo(Run(Reset(size), es).core.local.phitIn, packets, phits, |es|);
  }

  /** As long as no counter wraps, it counts the phits of the completed packets if and only if all of
      them had just one phit. */
  lemma PhitCounterIffSinglePhitPackets(size: TableSize, es: seq<Event>)
    ensures |es| < WORD64 ==>
      (Run(Reset(size), es).core.local.phitIn == CompletedPhits(es, |es|) <==> SinglePhitPackets(es, |es|))
  {
    var packets, phits := PacketsIn(es, |es|), CompletedPhits(es, |es|);
    PhitCounterCompared(size, es, packets, phits);
    assert packets == phits <==> SinglePhitPackets(es, |es|) by {
      PhitsPerPacket(es, |es|);
    }
  }

  // ---------- Adding the index before it is reset ----------

  /** What the packet ends among the first `n` events would add, if each added `phit_idx + 1` with the
      index from before its reset. */
  function SumBeforeReset(s: State, es: seq<Event>, n: nat): nat
    requires n <= |es|
  {
    if n == 0 then 0
    else SumBeforeReset(s, es, n - 1) + if EndsPacket(es, n - 1) then At(s, es, n - 1).core.phitIdx + 1 else 0
  }

  /** In every run the index is the number of phits consumed since the last packet end. */
  lemma {:induction false} IndexCountsPendingPhits(size: TableSize, es: seq<Event>, n: nat)
    requires n <= |es|
    ensures At(Reset(size), es, n).core.phitIdx == PhitsIn(es, n) - CompletedPhits(es, n)
  {
    AtEnds(Reset(size), es);
    if n > 0 {
      IndexCountsPendingPhits(size, es, n - 1);
      AtStep(Reset(size), es, n - 1);
    }
  }

  /** Had the index been added before its reset, the counter would count all phits of the completed
      packets, in every run. */
  lemma {:induction false} SumBeforeResetCountsPhits(size: TableSize, es: seq<Event>, n: nat)
    requires n <= |es|
    ensures SumBeforeReset(Reset(size), es, n) == CompletedPhits(es, n)
  {
    if n > 0 {
      SumBeforeResetCountsPhits(size, es, n - 1);
      IndexCountsPendingPhits(size, es, n - 1);
    }
  }

  lemma SmallModulo(x: nat)
    requires x < WORD64
    ensures x % WORD64 == x
  {
  }

  /** A packet of two phits is counted as one. */
  lemma TwoPhitsCountedOnce(size: TableSize, p: Phit, q: Phit)
    requires !p.last && q.last
    ensures var es := [Consume(p), Consume(q)];
      Run(Reset(size), es).core.local.phitIn == 1 && CompletedPhits(es, |es|) == 2
  {
    var es := [Consume(p), Consume(q)];
    AtEnds(Reset(size), es);
    CountersCountPackets(size, es, 2);
    assert PacketsIn(es, 1) == 0 && PhitsIn(es, 1) == 1;
  }
}
