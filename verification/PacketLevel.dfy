/** The stream of phits and cycles refines a filter on whole packets. */
module PacketLevel {
  import opened BitVectors
  import opened HashIndex
  import opened HashTable
  import opened Network
  import opened Kernel
  import opened Runs

  // ---------- The packet-level filter ----------

  predicate Accepts(t: Table, h: Headers) {
    IsUDPOverIPv4(h) && Lookup(t, Target(h)) == FORWARD
  }

  /** The length of the first packet of a phit stream, or of what there is of it. */
  function PacketLength(phits: seq<Phit>): (n: nat)
    ensures n <= |phits| && (phits != [] ==> n > 0)
  {
    if phits == [] then 0 else if phits[0].last then 1 else 1 + PacketLength(phits[1..])
  }

  /** Whole packets pass or vanish, in order, by the table entry of the target in their first phit. */
  function FilterPackets(t: Table, phits: seq<Phit>): seq<Phit> {
    if phits == [] then []
    else
      var n := PacketLength(phits);
      (if Accepts(t, Decode(phits[0].data)) then phits[..n] else []) + FilterPackets(t, phits[n..])
  }

  // ---------- Runs without register writes ----------

  function Phits(es: seq<Event>): seq<Phit> {
    if es == [] then [] else (if es[0].Consume? then [es[0].p] else []) + Phits(es[1..])
  }

  predicate HardwareOnly(es: seq<Event>) {
    forall i :: 0 <= i < |es| ==> !es[i].IsWrite()
  }

  /** Both tables say "forward" in the same cells. */
  predicate SameVerdicts(t: Table, u: Table) {
    |t| == |u| && forall c :: 0 <= c < |t| ==> (t[c] == FORWARD <==> u[c] == FORWARD)
  }

  /** Inserting the rule in the registers changes no verdict. */
  predicate Settled(s: State) {
    Lookup(s.core.table, s.regs.addr) == FORWARD <==> s.regs.action == FORWARD
  }

  /** What the filter for table `t` lets through when it starts in core state `c`, possibly in the
      middle of a packet. */
  function FilterFrom(t: Table, c: Core, phits: seq<Phit>): seq<Phit> {
    if c.phitIdx == 0 then FilterPackets(t, phits)
    else
      var n := PacketLength(phits);
      (if Accepts(t, c.headers) then phits[..n] else []) + FilterPackets(t, phits[n..])
  }

  /** The filter with the headers of the packet in flight, or of the one that begins, at hand. */
  function FilterWith(t: Table, h: Headers, phits: seq<Phit>): seq<Phit> {
    var n := PacketLength(phits);
    (if Accepts(t, h) then phits[..n] else []) + FilterPackets(t, phits[n..])
  }

  lemma FilterFromIs(t: Table, c: Core, p: Phit, rest: seq<Phit>)
    ensures FilterFrom(t, c, [p] + rest) == FilterWith(t, LatchedHeaders(c, p), [p] + rest)
  {
  }

  lemma PacketLengthCons(p: Phit, rest: seq<Phit>)
    ensures PacketLength([p] + rest) == if p.last then 1 else 1 + PacketLength(rest)
  {
    assert ([p] + rest)[1..] == rest;
  }

  lemma FirstOf(p: Phit, rest: seq<Phit>, n: nat)
    requires n <= |rest|
    ensures ([p] + rest)[..n + 1] == [p] + rest[..n] && ([p] + rest)[n + 1..] == rest[n..]
  {
  }

  lemma FilterWithCons(t: Table, h: Headers, p: Phit, rest: seq<Phit>)
    ensures FilterWith(t, h, [p] + rest)
            == (if Accepts(t, h) then [p] else []) + if p.last then FilterPackets(t, rest) else FilterWith(t, h, rest)
  {
    PacketLengthCons(p, rest);
    FirstOf(p, rest, if p.last then 0 else PacketLength(rest));
    if p.last {
      assert rest[..0] == [] && rest[0..] == rest;
    } else {
      Regroup(if Accepts(t, h) then [p] else [], if Accepts(t, h) then rest[..PacketLength(rest)] else [],
              FilterPackets(t, rest[PacketLength(rest)..]));
    }
  }

  lemma Regroup(a: seq<Phit>, b: seq<Phit>, c: seq<Phit>)
    ensures (a + b) + c == a + (b + c)
  {
  }

  lemma FilterFromNext(t: Table, c: Core, p: Phit, rest: seq<Phit>)
    ensures FilterFrom(t, PhitCycle(c, p), rest)
            == if p.last then FilterPackets(t, rest) else FilterWith(t, LatchedHeaders(c, p), rest)
  {
  }

  lemma FilterFromCons(t: Table, c: Core, p: Phit, rest: seq<Phit>)
    requires SameVerdicts(t, c.table)
    ensures FilterFrom(t, c, [p] + rest)
            == (if Forwards(c, p) then [p] else []) + FilterFrom(t, PhitCycle(c, p), rest)
  {
    FilterFromIs(t, c, p, rest);
    FilterWithCons(t, LatchedHeaders(c, p), p, rest);
    FilterFromNext(t, c, p, rest);
    assert Forwards(c, p) <==> Accepts(t, LatchedHeaders(c, p));
  }

  lemma SettledStep(s: State, e: Event, t: Table)
    requires !e.IsWrite() && SameVerdicts(t, s.core.table) && Settled(s)
    ensures SameVerdicts(t, Step(s, e).core.table) && Settled(Step(s, e))
  {
  }

  lemma IdleKeepsFilter(c: Core, a: NetAddr, action: byte, t: Table, phits: seq<Phit>)
    ensures FilterFrom(t, IdleCycle(c, a, action), phits) == FilterFrom(t, c, phits)
  {
  }

  lemma SettledStepOutput(s: State, e: Event, t: Table, rest: seq<Phit>)
    requires !e.IsWrite() && SameVerdicts(t, s.core.table)
    ensures Step(s, e).out + FilterFrom(t, Step(s, e).core, rest)
            == s.out + FilterFrom(t, s.core, (if e.Consume? then [e.p] else []) + rest)
  {
    if e.Consume? {
      FilterFromCons(t, s.core, e.p, rest);
      EmitInFront(s.out, Forwards(s.core, e.p), e.p, FilterFrom(t, PhitCycle(s.core, e.p), rest));
    } else {
      IdleKeepsFilter(s.core, s.regs.addr, s.regs.action, t, rest);
      assert [] + rest == rest;
    }
  }

  lemma EmitInFront(out: seq<Phit>, emit: bool, p: Phit, tail: seq<Phit>)
    ensures (if emit then out + [p] else out) + tail == out + ((if emit then [p] else []) + tail)
  {
  }

  lemma {:induction false} SettledRunFilters(s: State, es: seq<Event>, t: Table)
    requires HardwareOnly(es) && SameVerdicts(t, s.core.table) && Settled(s)
    ensures Run(s, es).out == s.out + FilterFrom(t, s.core, Phits(es))
    decreases |es|
  {
    if es != [] {
      assert es == [es[0]] + es[1..];
      RunCons(s, es[0], es[1..]);
      SettledStep(s, es[0], t);
      SettledRunFilters(Step(s, es[0]), es[1..], t);
      SettledStepOutput(s, es[0], t, Phits(es[1..]));
    } else {
      assert FilterFrom(t, s.core, []) == [];
    }
  }

  // ---------- A phit for any target ----------

  function ProbeHeaders(a: NetAddr): Headers {
    ZERO_HEADERS.(
      eth := ZERO_HEADERS.eth.(ethType := FromNat(Bswap16(IPV4), 16)),
      ip := ZERO_HEADERS.ip.(protocol := FromNat(UDP, 8), destIp := a.ip),
      udp := ZERO_HEADERS.udp.(destPort := a.port))
  }

  function ProbePhit(a: NetAddr, last: bool): Phit {
    Phit(Encode(ProbeHeaders(a), Zeros(512)), Zeros(64), Zeros(48), last)
  }

  lemma ProbeIsAddressed(a: NetAddr, last: bool)
    ensures IsUDPOverIPv4(Decode(ProbePhit(a, last).data)) && Target(Decode(ProbePhit(a, last).data)) == a
  {
    var h := ProbeHeaders(a);
    DecodeAfterEncode(h, Zeros(512));
    WordPowers();
    ToFromNat(Bswap16(IPV4), 16);
    ToFromNat(UDP, 8);
  }

  // ---------- The refinement ----------

  /** For every phit stream and every placement of idle cycles, the output is that of the
      packet-level filter for the present table. */
  ghost predicate ActsAsPacketFilter(s: State) {
    forall es :: HardwareOnly(es) ==> Run(s, es).out == s.out + FilterPackets(s.core.table, Phits(es))
  }

  lemma TwoEvents(s: State, d: Event, e: Event)
    ensures Run(s, [d, e]) == Step(Step(s, d), e)
  {
    assert [d, e][..1] == [d] && [d][..0] == [];
    assert Run(s, [d]) == Step(Run(s, []), d);
  }

  /** One idle cycle, then a one-phit packet for the address in the registers. */
  function ProbeRun(s: State): seq<Event> {
    [Idle, Consume(ProbePhit(s.regs.addr, true))]
  }

  lemma ProbeRunOutput(s: State)
    requires s.core.phitIdx == 0
    ensures Run(s, ProbeRun(s)).out == s.out + if s.regs.action == FORWARD then [ProbePhit(s.regs.addr, true)] else []
  {
    ProbeIsAddressed(s.regs.addr, true);
    TwoEvents(s, Idle, Consume(ProbePhit(s.regs.addr, true)));
  }

  lemma OnePhitFiltered(t: Table, p: Phit)
    requires p.last
    ensures FilterPackets(t, [p]) == if Accepts(t, Decode(p.data)) then [p] else []
  {
    assert [p][..1] == [p] && [p][1..] == [];
  }

  lemma PhitsOfIdleAndPhit(p: Phit)
    ensures Phits([Idle, Consume(p)]) == [p]
  {
    var es := [Idle, Consume(p)];
    assert es[1..] == [Consume(p)] && es[1..][1..] == [];
    assert Phits(es[1..]) == [p] + Phits(es[1..][1..]);
  }

  lemma ProbeRunFiltered(s: State)
    ensures HardwareOnly(ProbeRun(s))
    ensures FilterPackets(s.core.table, Phits(ProbeRun(s)))
            == if Lookup(s.core.table, s.regs.addr) == FORWARD then [ProbePhit(s.regs.addr, true)] else []
  {
    ProbeIsAddressed(s.regs.addr, true);
    PhitsOfIdleAndPhit(ProbePhit(s.regs.addr, true));
    OnePhitFiltered(s.core.table, ProbePhit(s.regs.addr, true));
  }

  /** Between packets and without register writes, the kernel is a packet filter for its present
      table if and only if the rule standing in the registers already is in the table, as far as
      verdicts go. Otherwise the first idle cycle changes what is forwarded. */
  lemma PacketFilterIffSettled(s: State)
    requires s.core.phitIdx == 0
    ensures ActsAsPacketFilter(s) <==> Settled(s)
  {
    if Settled(s) {
      forall es | HardwareOnly(es)
        ensures Run(s, es).out == s.out + FilterPackets(s.core.table, Phits(es))
      {
        SettledRunFilters(s, es, s.core.table);
      }
    }
    if ActsAsPacketFilter(s) {
      ProbeRunOutput(s);
      ProbeRunFiltered(s);
      assert Run(s, ProbeRun(s)).out == s.out + FilterPackets(s.core.table, Phits(ProbeRun(s)));
    }
  }
}
