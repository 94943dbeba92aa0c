/** Runs of the whole system: hardware cycles interleaved, in any order, with the single-register
    writes of the configuring software. There is no handshake between the two. */
module Runs {
  import opened BitVectors
  import opened HashIndex
  import opened HashTable
  import opened Network
  import opened Kernel

  datatype Event =
    | Idle
    | Consume(p: Phit)
    | WriteIp(ip: U32)
    | WritePort(port: U16)
    | WriteAction(action: byte)
  {
    predicate IsWrite() {
      WriteIp? || WritePort? || WriteAction?
    }
  }

  datatype Registers = Registers(addr: NetAddr, action: byte)

  datatype State = State(core: Core, regs: Registers, out: seq<Phit>)

  const ZERO_ADDR := NetAddr(Zeros(32), Zeros(16))

  function Reset(size: TableSize): State {
    State(ResetCore(size), Registers(ZERO_ADDR, DROP), [])
  }

  /** One register access of the software; every other event leaves the registers alone. */
  function Written(r: Registers, e: Event): Registers {
    match e
    case WriteIp(ip) => r.(addr := r.addr.(ip := ip))
    case WritePort(port) => r.(addr := r.addr.(port := port))
    case WriteAction(action) => r.(action := action)
    case _ => r
  }

  function Step(s: State, e: Event): State {
    match e
    case Idle => s.(core := IdleCycle(s.core, s.regs.addr, s.regs.action))
    case Consume(p) => s.(core := PhitCycle(s.core, p), out := if Forwards(s.core, p) then s.out + [p] else s.out)
    case _ => s.(regs := Written(s.regs, e))
  }

  function Run(s: State, es: seq<Event>): State {
    if es == [] then s else Step(Run(s, es[..|es| - 1]), es[|es| - 1])
  }

  /** The state after the first `n` events. */
  function At(s: State, es: seq<Event>, n: nat): State
    requires n <= |es|
  {
    Run(s, es[..n])
  }

  lemma AtStep(s: State, es: seq<Event>, n: nat)
    requires n < |es|
    ensures At(s, es, n + 1) == Step(At(s, es, n), es[n])
  {
    assert es[..n + 1][..n] == es[..n];
  }

  lemma AtEnds(s: State, es: seq<Event>)
    ensures At(s, es, 0) == s && At(s, es, |es|) == Run(s, es)
  {
    assert es[..|es|] == es;
  }

  lemma {:induction false} RunAppend(s: State, a: seq<Event>, b: seq<Event>)
    ensures Run(s, a + b) == Run(Run(s, a), b)
  {
    if b != [] {
      RunAppend(s, a, b[..|b| - 1]);
      assert (a + b)[..|a + b| - 1] == a + b[..|b| - 1];
    } else {
      assert a + b == a;
    }
  }

  lemma RunCons(s: State, e: Event, es: seq<Event>)
    ensures Run(s, [e] + es) == Run(Step(s, e), es)
  {
    assert [e][..0] == [];
    assert Run(s, [e]) == Step(s, e);
    RunAppend(s, [e], es);
  }

  lemma {:induction false} TableSizeIsFixed(s: State, es: seq<Event>)
    ensures |Run(s, es).core.table| == |s.core.table|
  {
    if es != [] {
      TableSizeIsFixed(s, es[..|es| - 1]);
    }
  }

  /** What the idle cycles of a run insert: the registers of that moment. */
  function Insertions(s: State, es: seq<Event>): seq<Insertion> {
    if es == [] then []
    else
      var init := es[..|es| - 1];
      var regs := Run(s, init).regs;
      Insertions(s, init) + if es[|es| - 1].Idle? then [Insertion(regs.addr, regs.action)] else []
  }

  lemma TableStep(s: State, e: Event)
    ensures Step(s, e).core.table
            == if e.Idle? then Insert(s.core.table, s.regs.addr, s.regs.action) else s.core.table
  {
  }

  /** Traffic never changes the table; it is the history of the idle cycles alone. */
  lemma {:induction false} TableIsIdleHistory(s: State, es: seq<Event>)
    ensures Run(s, es).core.table == InsertAll(s.core.table, Insertions(s, es))
  {
    if es != [] {
      var init, e := es[..|es| - 1], es[|es| - 1];
      var before := Run(s, init);
      TableIsIdleHistory(s, init);
      TableStep(before, e);
      if e.Idle? {
        InsertOneMore(s.core.table, Insertions(s, init), Insertion(before.regs.addr, before.regs.action));
      } else {
        assert Insertions(s, es) == Insertions(s, init);
      }
    }
  }

  // ---------- Packets inside a run ----------

  predicate IsPhit(es: seq<Event>, k: int) {
    0 <= k < |es| && es[k].Consume?
  }

  /** The last phit consumed before event `n`, or -1. Idle cycles and register writes may lie between. */
  function PreviousPhit(es: seq<Event>, n: nat): (j: int)
    requires n <= |es|
    ensures -1 <= j < n && (j >= 0 ==> IsPhit(es, j))
  {
    if n == 0 then -1 else if es[n - 1].Consume? then n - 1 else PreviousPhit(es, n - 1)
  }

  predicate AtPacketStart(es: seq<Event>, n: nat)
    requires n <= |es|
  {
    var j := PreviousPhit(es, n);
    j == -1 || es[j].p.last
  }

  /** The first phit of the packet that phit `k` belongs to. */
  function FirstPhit(es: seq<Event>, k: nat): (f: nat)
    requires IsPhit(es, k)
    ensures f <= k && IsPhit(es, f)
    decreases k
  {
    if AtPacketStart(es, k) then k else FirstPhit(es, PreviousPhit(es, k))
  }

  predicate SamePacket(es: seq<Event>, j: int, k: int) {
    IsPhit(es, j) && IsPhit(es, k) && FirstPhit(es, j) == FirstPhit(es, k)
  }

  /** The headers in the first phit of the packet of phit `k`. */
  function PacketHeaders(es: seq<Event>, k: nat): Headers
    requires IsPhit(es, k)
  {
    Decode(es[FirstPhit(es, k)].p.data)
  }

  /** At every point of a run the kernel knows whether it is between packets, and inside a packet
      it holds the headers of that packet's first phit. */
  lemma {:induction false} HeadersStayLatched(s: State, es: seq<Event>, n: nat)
    requires n <= |es| && s.core.phitIdx == 0
    ensures At(s, es, n).core.phitIdx == 0 <==> AtPacketStart(es, n)
    ensures PreviousPhit(es, n) >= 0 ==> At(s, es, n).core.headers == PacketHeaders(es, PreviousPhit(es, n))
  {
    AtEnds(s, es);
    if n > 0 {
      HeadersStayLatched(s, es, n - 1);
      AtStep(s, es, n - 1);
    }
  }

  /** Phit `k` is copied to the output. */
  predicate Emitted(s: State, es: seq<Event>, k: int) {
    IsPhit(es, k) && Forwards(At(s, es, k).core, es[k].p)
  }

  /** The cell that decides about the packet of phit `k` says "forward" when that phit arrives. */
  predicate CellForwards(s: State, es: seq<Event>, k: nat)
    requires IsPhit(es, k)
  {
    Lookup(At(s, es, k).core.table, Target(PacketHeaders(es, k))) == FORWARD
  }

  /** In every interleaving, a phit is forwarded exactly when its packet's first phit is IPv4/UDP
      and the cell of that packet's target holds 1 at the very moment the phit arrives. */
  lemma VerdictPerPhit(s: State, es: seq<Event>, k: nat)
    requires s.core.phitIdx == 0 && IsPhit(es, k)
    ensures Emitted(s, es, k) <==> IsUDPOverIPv4(PacketHeaders(es, k)) && CellForwards(s, es, k)
    ensures CellForwards(s, es, k) <==> Lookup(At(s, es, k).core.table, Target(PacketHeaders(es, k))) == 1
  {
    HeadersStayLatched(s, es, k);
    var c := At(s, es, k).core;
    assert LatchedHeaders(c, es[k].p) == PacketHeaders(es, k);
  }

  /** The phits among the first `n` events that the packet-level rule lets through. */
  function ForwardedPhits(s: State, es: seq<Event>, n: nat): seq<Phit>
    requires n <= |es|
  {
    if n == 0 then []
    else
      var rest := ForwardedPhits(s, es, n - 1);
      if es[n - 1].Consume? && IsUDPOverIPv4(PacketHeaders(es, n - 1)) && CellForwards(s, es, n - 1)
      then rest + [es[n - 1].p]
      else rest
  }

  lemma OutAt(s: State, es: seq<Event>, n: nat)
    requires n < |es|
    ensures At(s, es, n + 1).out == At(s, es, n).out + if Emitted(s, es, n) then [es[n].p] else []
  {
    AtStep(s, es, n);
  }

  lemma ForwardedPhitsStep(s: State, es: seq<Event>, n: nat)
    requires n < |es| && s.core.phitIdx == 0
    ensures ForwardedPhits(s, es, n + 1) == ForwardedPhits(s, es, n) + if Emitted(s, es, n) then [es[n].p] else []
  {
    if es[n].Consume? {
      VerdictPerPhit(s, es, n);
    }
  }

  /** The output of a run is exactly the forwarded phits, unchanged and in arrival order. */
  lemma {:induction false} OutputIsForwardedPhits(s: State, es: seq<Event>, n: nat)
    requires n <= |es| && s.core.phitIdx == 0
    ensures At(s, es, n).out == s.out + ForwardedPhits(s, es, n)
  {
    if n == 0 {
      AtEnds(s, es);
    } else {
      OutputIsForwardedPhits(s, es, n - 1);
      OutAt(s, es, n - 1);
      ForwardedPhitsStep(s, es, n - 1);
    }
  }

  /** All phits of the packet of phit `k` share the fate of its first phit. */
  ghost predicate WholeOrNothing(s: State, es: seq<Event>, k: nat)
    requires IsPhit(es, k)
  {
    forall j :: SamePacket(es, j, k) ==> (Emitted(s, es, j) <==> Emitted(s, es, FirstPhit(es, k)))
  }

  /** The packet's cell does not switch between "forward" and "drop" while the packet is in flight. */
  ghost predicate CellStable(s: State, es: seq<Event>, k: nat)
    requires IsPhit(es, k)
  {
    forall j :: SamePacket(es, j, k) ==> (CellForwards(s, es, j) <==> CellForwards(s, es, FirstPhit(es, k)))
  }

  lemma {:induction false} FirstPhitIsFixed(es: seq<Event>, k: nat)
    requires IsPhit(es, k)
    ensures FirstPhit(es, FirstPhit(es, k)) == FirstPhit(es, k)
    decreases k
  {
    if !AtPacketStart(es, k) {
      FirstPhitIsFixed(es, PreviousPhit(es, k));
    }
  }

  /** A packet passes as a whole or not at all if and only if it is not IPv4/UDP or its cell is
      stable while it is in flight. */
  lemma WholeOrNothingIffCellStable(s: State, es: seq<Event>, k: nat)
    requires s.core.phitIdx == 0 && IsPhit(es, k)
    ensures WholeOrNothing(s, es, k) <==> (!IsUDPOverIPv4(PacketHeaders(es, k)) || CellStable(s, es, k))
  {
    var f := FirstPhit(es, k);
    FirstPhitIsFixed(es, k);
    assert SamePacket(es, f, k);
    forall j | SamePacket(es, j, k)
      ensures Emitted(s, es, j) <==> IsUDPOverIPv4(PacketHeaders(es, k)) && CellForwards(s, es, j)
    {
      VerdictPerPhit(s, es, j);
    }
  }
}
