/** The software side: register accesses through PCIe while the hardware keeps running, the
    configuration of the rules and the statistics display. */
module Mmio {
  import opened BitVectors
  import opened HashIndex
  import opened HashTable
  import opened Kernel
  import opened Runs
  import opened PacketLevel
  import opened FilterText
  import opened Frames

  // Register map
  const OPENNIC_USER_250_BASE_ADDR := 0x100000
  const PACKET_FILTER_OFFSET := 0x2000
  const PACKET_FILTER_BASE := OPENNIC_USER_250_BASE_ADDR + PACKET_FILTER_OFFSET
  const IPV4_ADDR_REG := 0x10
  const UDP_PORT_REG := 0x18
  const RULE_ACTION_REG := 0x20
  const STATS_PKT_IN_REG := 0x28
  const STATS_PHIT_IN_REG := 0x40
  const STATS_PKT_FORWD_REG := 0x58
  const STATS_PKT_DROP_REG := 0x70

  const WORD32: nat := 0x1_0000_0000

  // ---------- The device ----------

  /** The effect of a 32-bit write; each port of the kernel takes as many low bits as it has. */
  function WriteEvents(address: nat, value: nat): seq<Event> {
    if address == PACKET_FILTER_BASE + IPV4_ADDR_REG then [WriteIp(FromNat(value, 32))]
    else if address == PACKET_FILTER_BASE + UDP_PORT_REG then [WritePort(FromNat(value, 16))]
    else if address == PACKET_FILTER_BASE + RULE_ACTION_REG then [WriteAction(value % 0x100)]
    else []
  }

  /** The 64-bit counter whose low half is at `offset`. */
  function Counter(s: Statistics, offset: nat): nat {
    if offset == STATS_PKT_IN_REG then s.pktIn
    else if offset == STATS_PHIT_IN_REG then s.phitIn
    else if offset == STATS_PKT_FORWD_REG then s.pktForward
    else s.pktDrop
  }

  predicate IsCounter(offset: nat) {
    offset in {STATS_PKT_IN_REG, STATS_PHIT_IN_REG, STATS_PKT_FORWD_REG, STATS_PKT_DROP_REG}
  }

  /** The effect of a 32-bit read of the published statistics. */
  function ReadRegister(s: Statistics, address: nat): nat {
    if address >= PACKET_FILTER_BASE && IsCounter(address - PACKET_FILTER_BASE) then
      Counter(s, address - PACKET_FILTER_BASE) % WORD32
    else if address >= PACKET_FILTER_BASE + 4 && IsCounter(address - PACKET_FILTER_BASE - 4) then
      Counter(s, address - PACKET_FILTER_BASE - 4) / WORD32
    else 0
  }

  /** A write reaches the rule registers at three addresses; each has as many low bits as its port. */
  lemma RegisterWrites(value: nat)
    ensures WriteEvents(0x10_2010, value) == [WriteIp(FromNat(value, 32))]
    ensures WriteEvents(0x10_2018, value) == [WritePort(FromNat(value, 16))]
    ensures WriteEvents(0x10_2020, value) == [WriteAction(value % 256)]
    ensures forall a: nat :: a != 0x10_2010 && a != 0x10_2018 && a != 0x10_2020 ==> WriteEvents(a, value) == []
  {
  }

  // ---------- Schedules ----------

  /** The batch of hardware cycles before the next access, and the batches behind it. */
  function FirstBatch(schedule: seq<seq<Event>>): seq<Event> {
    if schedule == [] then [] else schedule[0]
  }

  function LaterBatches(schedule: seq<seq<Event>>, n: nat): seq<seq<Event>> {
    if n <= |schedule| then schedule[n..] else []
  }

  /** The writes, each with the next batch of the schedule in front of it. */
  function Interleaved(schedule: seq<seq<Event>>, writes: seq<Event>): seq<Event> {
    if writes == [] then []
    else FirstBatch(schedule) + [writes[0]] + Interleaved(LaterBatches(schedule, 1), writes[1..])
  }

  lemma LaterBatchesAdd(schedule: seq<seq<Event>>, m: nat, n: nat)
    ensures LaterBatches(LaterBatches(schedule, m), n) == LaterBatches(schedule, m + n)
  {
  }

  lemma {:induction false} InterleavedAppend(schedule: seq<seq<Event>>, a: seq<Event>, b: seq<Event>)
    ensures Interleaved(schedule, a + b) == Interleaved(schedule, a) + Interleaved(LaterBatches(schedule, |a|), b)
    decreases |a|
  {
    if a == [] {
      assert a + b == b;
    } else {
      assert (a + b)[1..] == a[1..] + b;
      InterleavedAppend(LaterBatches(schedule, 1), a[1..], b);
      LaterBatchesAdd(schedule, 1, |a| - 1);
    }
  }

  lemma OneInterleaved(schedule: seq<seq<Event>>, e: Event)
    ensures Interleaved(schedule, [e]) == FirstBatch(schedule) + [e]
  {
    assert [e][1..] == [];
  }

  /** The batches of a history: what lies before each of its writes, and behind the last one. */
  function Batches(es: seq<Event>): (batches: seq<seq<Event>>)
    ensures batches != []
  {
    if es == [] then [[]]
    else
      var batches, n := Batches(es[..|es| - 1]), |Batches(es[..|es| - 1])| - 1;
      if es[|es| - 1].IsWrite() then batches + [[]] else batches[..n] + [batches[n] + [es[|es| - 1]]]
  }

  lemma {:induction false} InterleavedNeeds(s: seq<seq<Event>>, t: seq<seq<Event>>, writes: seq<Event>)
    requires |writes| <= |s| && |writes| <= |t| && s[..|writes|] == t[..|writes|]
    ensures Interleaved(s, writes) == Interleaved(t, writes)
    decreases |writes|
  {
    if writes != [] {
      assert s[0] == s[..|writes|][0] && t[0] == t[..|writes|][0];
      assert s[1..][..|writes| - 1] == s[..|writes|][1..] && t[1..][..|writes| - 1] == t[..|writes|][1..];
      InterleavedNeeds(s[1..], t[1..], writes[1..]);
    }
  }

  lemma WriteClosesBatch(init: seq<Event>, e: Event, batches: seq<seq<Event>>, writes: seq<Event>)
    requires |batches| == |writes| + 1 && init == Interleaved(batches, writes) + batches[|writes|]
    ensures Interleaved(batches + [[]], writes + [e]) == init + [e]
  {
    var longer := batches + [[]];
    InterleavedAppend(longer, writes, [e]);
    InterleavedNeeds(longer, batches, writes);
    OneInterleaved(LaterBatches(longer, |writes|), e);
    assert FirstBatch(LaterBatches(longer, |writes|)) == batches[|writes|];
  }

  lemma JoinLast(a: seq<Event>, b: seq<Event>, e: Event)
    ensures a + (b + [e]) == a + b + [e]
  {
  }

  lemma CycleExtendsBatch(init: seq<Event>, e: Event, batches: seq<seq<Event>>, writes: seq<Event>)
    requires |batches| == |writes| + 1 && init == Interleaved(batches, writes) + batches[|writes|]
    ensures var n := |writes|;
      Interleaved(batches[..n] + [batches[n] + [e]], writes) + (batches[n] + [e]) == init + [e]
  {
    var n := |writes|;
    var longer := batches[..n] + [batches[n] + [e]];
    assert longer[..n] == batches[..n];
    InterleavedNeeds(longer, batches, writes);
    JoinLast(Interleaved(batches, writes), batches[n], e);
  }

  /** Every history arises from a schedule: its writes with its batches between them. */
  lemma {:induction false} EveryHistoryIsScheduled(es: seq<Event>)
    ensures |Batches(es)| == |WritesOf(es)| + 1
    ensures AllHardware(Batches(es))
    ensures Interleaved(Batches(es), WritesOf(es)) + Batches(es)[|WritesOf(es)|] == es
  {
    if es != [] {
      var init, e := es[..|es| - 1], es[|es| - 1];
      EveryHistoryIsScheduled(init);
      assert es == init + [e];
      if e.IsWrite() {
        WriteClosesBatch(init, e, Batches(init), WritesOf(init));
      } else {
        CycleExtendsBatch(init, e, Batches(init), WritesOf(init));
        assert WritesOf(es) == WritesOf(init);
      }
    }
  }

  /** The card. Between two register accesses it performs the next batch of hardware cycles of an
      arbitrary schedule, so that all schedules together are all interleavings. */
  class Device {
    var state: State
    var schedule: seq<seq<Event>>
    ghost const start: State
    ghost var history: seq<Event>

    ghost predicate Valid()
      reads this
    {
      && state == Run(start, history)
      && AllHardware(schedule)
    }

    constructor (size: TableSize, schedule: seq<seq<Event>>)
      requires AllHardware(schedule)
      ensures Valid() && start == Reset(size) && history == [] && this.schedule == schedule
    {
      state := Reset(size);
      this.schedule := schedule;
      start := Reset(size);
      history := [];
    }

    /** The hardware runs on. */
    method Advance() returns (ghost batch: seq<Event>)
      requires Valid()
      modifies this
      ensures Valid() && HardwareOnly(batch) && history == old(history) + batch
      ensures batch == FirstBatch(old(schedule)) && schedule == LaterBatches(old(schedule), 1)
    {
      batch := [];
      if schedule != [] {
        batch := schedule[0];
        RunAppend(start, history, schedule[0]);
        state := Run(state, schedule[0]);
        history := history + schedule[0];
        schedule := schedule[1..];
      } else {
        assert history + [] == history;
      }
    }

    method Write32(address: nat, value: nat) returns (ghost batch: seq<Event>)
      requires Valid()
      modifies this
      ensures Valid() && HardwareOnly(batch) && history == old(history) + (batch + WriteEvents(address, value))
      ensures batch == FirstBatch(old(schedule)) && schedule == LaterBatches(old(schedule), 1)
    {
      batch := Advance();
      var events := WriteEvents(address, value);
      RunAppend(start, history, events);
      assert history + events == old(history) + (batch + events);
      history := history + events;
      state := Run(state, events);
    }

    method Read32(address: nat) returns (value: nat)
      requires Valid()
      modifies this
      ensures Valid() && history == old(history) + FirstBatch(old(schedule))
      ensures schedule == LaterBatches(old(schedule), 1)
      ensures value == ReadRegister(Run(start, history).core.published, address)
    {
      ghost var batch := Advance();
      value := ReadRegister(state.core.published, address);
    }
  }

  // ---------- Register writes in a history ----------

  /** The register writes of a history, in order. */
  function WritesOf(es: seq<Event>): seq<Event> {
    if es == [] then []
    else WritesOf(es[..|es| - 1]) + if es[|es| - 1].IsWrite() then [es[|es| - 1]] else []
  }

  lemma {:induction false} WritesOfAppend(a: seq<Event>, b: seq<Event>)
    ensures WritesOf(a + b) == WritesOf(a) + WritesOf(b)
  {
    if b != [] {
      WritesOfAppend(a, b[..|b| - 1]);
      assert (a + b)[..|a + b| - 1] == a + b[..|b| - 1];
    } else {
      assert a + b == a;
    }
  }

  lemma {:induction false} HardwareWritesNothing(es: seq<Event>)
    requires HardwareOnly(es)
    ensures WritesOf(es) == []
  {
    if es != [] {
      HardwareWritesNothing(es[..|es| - 1]);
    }
  }

  lemma OneWrite(batch: seq<Event>, e: Event)
    requires HardwareOnly(batch) && e.IsWrite()
    ensures WritesOf(batch + [e]) == [e]
  {
    HardwareWritesNothing(batch);
    assert (batch + [e])[..|batch|] == batch;
  }

  /** From history `h0` and schedule `s0` on, exactly these writes have been performed. */
  ghost predicate Wrote(h0: seq<Event>, s0: seq<seq<Event>>, h: seq<Event>, s: seq<seq<Event>>, writes: seq<Event>) {
    h == h0 + Interleaved(s0, writes) && s == LaterBatches(s0, |writes|)
  }

  lemma WroteNothing(h: seq<Event>, s: seq<seq<Event>>)
    ensures Wrote(h, s, h, s, [])
  {
    assert h + [] == h;
  }

  lemma WroteMore(h0: seq<Event>, s0: seq<seq<Event>>, h1: seq<Event>, s1: seq<seq<Event>>,
                  h2: seq<Event>, s2: seq<seq<Event>>, a: seq<Event>, b: seq<Event>)
    requires Wrote(h0, s0, h1, s1, a) && Wrote(h1, s1, h2, s2, b)
    ensures Wrote(h0, s0, h2, s2, a + b)
  {
    InterleavedAppend(s0, a, b);
    LaterBatchesAdd(s0, |a|, |b|);
    assert h0 + Interleaved(s0, a) + Interleaved(s1, b) == h0 + (Interleaved(s0, a) + Interleaved(s1, b));
  }

  ghost predicate AllHardware(schedule: seq<seq<Event>>) {
    forall i :: 0 <= i < |schedule| ==> HardwareOnly(schedule[i])
  }

  predicate AllWrites(es: seq<Event>) {
    forall i :: 0 <= i < |es| ==> es[i].IsWrite()
  }

  lemma {:induction false} WritesOfInterleaved(schedule: seq<seq<Event>>, writes: seq<Event>)
    requires AllHardware(schedule) && AllWrites(writes)
    ensures WritesOf(Interleaved(schedule, writes)) == writes
    decreases |writes|
  {
    if writes != [] {
      WritesOfInterleaved(LaterBatches(schedule, 1), writes[1..]);
      OneWrite(FirstBatch(schedule), writes[0]);
      WritesOfAppend(FirstBatch(schedule) + [writes[0]], Interleaved(LaterBatches(schedule, 1), writes[1..]));
    }
  }

  lemma WroteWrites(h0: seq<Event>, s0: seq<seq<Event>>, h: seq<Event>, s: seq<seq<Event>>, writes: seq<Event>)
    requires Wrote(h0, s0, h, s, writes) && AllHardware(s0) && AllWrites(writes)
    ensures WritesOf(h) == WritesOf(h0) + writes
  {
    WritesOfInterleaved(s0, writes);
    WritesOfAppend(h0, Interleaved(s0, writes));
  }

  /** The three writes for one rule. */
  function ThreeWrites(a: NetAddr, action: byte): seq<Event> {
    [WriteIp(a.ip), WritePort(a.port), WriteAction(action)]
  }

  /** The key that one filter text puts into the registers. */
  function RuleAddr(text: string): Outcome<NetAddr> {
    match ParseRule(text)
    case Ok(v) => Ok(RegisterAddr(v))
    case Fatal => Fatal
  }

  function RuleAddrs(filterList: seq<string>): (parsed: seq<Outcome<NetAddr>>)
    ensures |parsed| == |filterList|
  {
    seq(|filterList|, i requires 0 <= i < |filterList| => RuleAddr(filterList[i]))
  }

  /** The rules among the first `n` filters, up to the first filter that ends the process. */
  function LeadingRules(parsed: seq<Outcome<NetAddr>>, n: nat): (rules: seq<NetAddr>)
    requires n <= |parsed|
    ensures |rules| <= n
  {
    if n == 0 then []
    else
      var rules := LeadingRules(parsed, n - 1);
      if |rules| == n - 1 && parsed[n - 1].Ok? then rules + [parsed[n - 1].value] else rules
  }

  lemma {:induction false} LeadingRulesStop(parsed: seq<Outcome<NetAddr>>, i: nat)
    requires i <= |parsed| && (i < |parsed| ==> |LeadingRules(parsed, i)| < i)
    ensures LeadingRules(parsed, |parsed|) == LeadingRules(parsed, i)
    decreases |parsed| - i
  {
    if i < |parsed| {
      LeadingRulesStop(parsed, i + 1);
    }
  }

  /** The rules are those in front of the first filter that is not usable, in order. */
  lemma {:induction false} AllRulesLead(parsed: seq<Outcome<NetAddr>>, n: nat)
    requires n <= |parsed|
    ensures |LeadingRules(parsed, n)| == n <==> forall i :: 0 <= i < n ==> parsed[i].Ok?
    ensures forall i :: 0 <= i < |LeadingRules(parsed, n)| ==> parsed[i] == Ok(LeadingRules(parsed, n)[i])
    ensures |LeadingRules(parsed, n)| < n ==> parsed[|LeadingRules(parsed, n)|].Fatal?
  {
    if n > 0 {
      AllRulesLead(parsed, n - 1);
    }
  }

  function ForwardWrites(rules: seq<NetAddr>): seq<Event> {
    if rules == [] then []
    else ForwardWrites(rules[..|rules| - 1]) + ThreeWrites(rules[|rules| - 1], FORWARD)
  }

  lemma {:induction false} ForwardWritesAreWrites(rules: seq<NetAddr>)
    ensures AllWrites(ForwardWrites(rules))
  {
    if rules != [] {
      ForwardWritesAreWrites(rules[..|rules| - 1]);
    }
  }

  lemma ForwardWritesStep(parsed: seq<Outcome<NetAddr>>, i: nat)
    requires i < |parsed| && |LeadingRules(parsed, i)| == i
    ensures ForwardWrites(LeadingRules(parsed, i + 1))
            == ForwardWrites(LeadingRules(parsed, i))
               + if parsed[i].Ok? then ThreeWrites(parsed[i].value, FORWARD) else []
  {
    var rules := LeadingRules(parsed, i);
    if parsed[i].Ok? {
      assert (rules + [parsed[i].value])[..|rules|] == rules;
    }
  }

  // ---------- The driver ----------

  /** A 64-bit value put together from the low half of `x` and the high half of `y`. */
  function SplitValue(x: nat, y: nat): nat {
    y / WORD32 * WORD32 + x % WORD32
  }

  /** The lines of the statistics display. */
  datatype Line =
    | Title
    | PacketsInLine(packets: nat)
    | PhitsInLine(phits: nat)
    | ForwardedLine(packets: nat)
    | DroppedLine(packets: nat)

  /** Zero and the all-ones value are not printed. */
  function PrintStat(line: Line, value: nat): seq<Line> {
    if value > 0 && value != WORD64 - 1 then [line] else []
  }

  function StatLines(pktIn: nat, phitIn: nat, pktForwd: nat, pktDrop: nat): seq<Line> {
    if pktIn == 0 && pktForwd == 0 && pktDrop == 0 then []
    else
      [Title] + PrintStat(PacketsInLine(pktIn), pktIn) + PrintStat(PhitsInLine(phitIn), phitIn)
      + PrintStat(ForwardedLine(pktForwd), pktForwd) + PrintStat(DroppedLine(pktDrop), pktDrop)
  }

  predicate Printable(value: nat) {
    0 < value && value != 0xFFFF_FFFF_FFFF_FFFF
  }

  /** The value that the display puts on a line. */
  predicate Carries(line: Line, pktIn: nat, phitIn: nat, pktForwd: nat, pktDrop: nat) {
    match line
    case Title => true
    case PacketsInLine(v) => v == pktIn && Printable(v)
    case PhitsInLine(v) => v == phitIn && Printable(v)
    case ForwardedLine(v) => v == pktForwd && Printable(v)
    case DroppedLine(v) => v == pktDrop && Printable(v)
  }

  /** Nothing is shown if all packet counters are zero. Otherwise each counter stands on its own line,
      unless it is zero or all ones. */
  lemma LinesShown(pktIn: nat, phitIn: nat, pktForwd: nat, pktDrop: nat, line: Line)
    ensures line in StatLines(pktIn, phitIn, pktForwd, pktDrop)
            <==> pktIn + pktForwd + pktDrop > 0 && Carries(line, pktIn, phitIn, pktForwd, pktDrop)
  {
  }

  /** The order of the lines. */
  lemma LinesInOrder(pktIn: nat, phitIn: nat, pktForwd: nat, pktDrop: nat)
    requires Printable(pktIn) && Printable(phitIn) && Printable(pktForwd) && Printable(pktDrop)
    ensures StatLines(pktIn, phitIn, pktForwd, pktDrop)
            == [Title, PacketsInLine(pktIn), PhitsInLine(phitIn), ForwardedLine(pktForwd), DroppedLine(pktDrop)]
  {
  }

  class PacketFilter {
    const device: Device
    var baseAddr: nat

    /** Attaches to the card without touching a rule. */
    constructor (device: Device)
      ensures this.device == device && baseAddr == PACKET_FILTER_BASE
    {
      this.device := device;
      baseAddr := PACKET_FILTER_BASE;
    }

    /** The constructor that installs forwarding rules. If a filter is unusable the process ends
        after the rules before it have been written. */
    constructor WithFilters(device: Device, filterList: seq<string>)
      requires device.Valid()
      modifies device
      ensures this.device == device && baseAddr == PACKET_FILTER_BASE && device.Valid()
      ensures Wrote(old(device.history), old(device.schedule), device.history, device.schedule,
                    ForwardWrites(LeadingRules(RuleAddrs(filterList), |filterList|)))
    {
      this.device := device;
      baseAddr := PACKET_FILTER_BASE;
      new;
      var ok := InstallAll(filterList);
    }

    method MmioRegWrite(offset: nat, value: nat) returns (ghost batch: seq<Event>)
      requires device.Valid() && baseAddr != 0
      modifies device
      ensures device.Valid() && HardwareOnly(batch)
      ensures device.history == old(device.history) + (batch + WriteEvents(baseAddr + offset, value))
      ensures batch == FirstBatch(old(device.schedule)) && device.schedule == LaterBatches(old(device.schedule), 1)
    {
      batch := device.Write32(baseAddr + offset, value);
    }

    method MmioRegRead(offset: nat) returns (value: nat)
      requires device.Valid() && baseAddr != 0
      modifies device
      ensures device.Valid() && device.history == old(device.history) + FirstBatch(old(device.schedule))
      ensures device.schedule == LaterBatches(old(device.schedule), 1)
      ensures value == ReadRegister(Run(device.start, device.history).core.published, baseAddr + offset)
    {
      value := device.Read32(baseAddr + offset);
    }

    /** `write<T>` of a register of the rule interface; the one write that reaches the device. */
    method WriteRule(offset: nat, value: nat, ghost e: Event)
      requires device.Valid() && baseAddr == PACKET_FILTER_BASE
      requires WriteEvents(PACKET_FILTER_BASE + offset, value) == [e]
      modifies device
      ensures device.Valid()
      ensures Wrote(old(device.history), old(device.schedule), device.history, device.schedule, [e])
    {
      ghost var batch := MmioRegWrite(offset, value);
      OneInterleaved(old(device.schedule), e);
    }

    /** The three register writes for one parsed rule. */
    method WriteThree(values: RuleValues, action: byte)
      requires device.Valid() && baseAddr == PACKET_FILTER_BASE
      modifies device
      ensures device.Valid()
      ensures Wrote(old(device.history), old(device.schedule), device.history, device.schedule,
                    ThreeWrites(RegisterAddr(values), action))
    {
      ghost var a, h0, s0 := RegisterAddr(values), device.history, device.schedule;
      WriteRule(IPV4_ADDR_REG, values.ip, WriteIp(a.ip));
      ghost var h1, s1 := device.history, device.schedule;
      WriteRule(UDP_PORT_REG, values.port, WritePort(a.port));
      ghost var h2, s2 := device.history, device.schedule;
      WroteMore(h0, s0, h1, s1, h2, s2, [WriteIp(a.ip)], [WritePort(a.port)]);
      WriteRule(RULE_ACTION_REG, action, WriteAction(action));
      ghost var first := [WriteIp(a.ip)] + [WritePort(a.port)];
      WroteMore(h0, s0, h2, s2, device.history, device.schedule, first, [WriteAction(action)]);
      assert first + [WriteAction(action)] == ThreeWrites(a, action);
    }

    /** One rule: nothing is written for a text that ends the process; otherwise exactly the
        address, the port and the action, in this order, each behind the next batch of hardware cycles. */
    method UpdateRule(netAddr: string, action: byte) returns (ok: bool)
      requires device.Valid() && baseAddr == PACKET_FILTER_BASE
      modifies device
      ensures device.Valid()
      ensures ok == RuleAddr(netAddr).Ok?
      ensures Wrote(old(device.history), old(device.schedule), device.history, device.schedule,
                    if ok then ThreeWrites(RuleAddr(netAddr).value, action) else [])
    {
      WroteNothing(device.history, device.schedule);
      var values := ParseRule(netAddr);
      ok := values.Ok?;
      if ok {
        WriteThree(values.value, action);
      }
    }

    /** The constructor's loop over the filter list: the rules before the first unusable text are
        written, and that text ends the process. */
    method InstallAll(filterList: seq<string>) returns (ok: bool)
      requires device.Valid() && baseAddr == PACKET_FILTER_BASE
      modifies device
      ensures device.Valid()
      ensures ok <==> |LeadingRules(RuleAddrs(filterList), |filterList|)| == |filterList|
      ensures Wrote(old(device.history), old(device.schedule), device.history, device.schedule,
                    ForwardWrites(LeadingRules(RuleAddrs(filterList), |filterList|)))
    {
      ghost var h0, s0, parsed := device.history, device.schedule, RuleAddrs(filterList);
      WroteNothing(h0, s0);
      var i := 0;
      ok := true;
      while i < |filterList| && ok
        invariant i <= |filterList| && device.Valid()
        invariant Wrote(h0, s0, device.history, device.schedule, ForwardWrites(LeadingRules(parsed, i)))
        invariant ok <==> |LeadingRules(parsed, i)| == i
        decreases |filterList| - i, ok
      {
        ok := InstallOne(filterList[i], h0, s0, parsed, i);
        i := i + 1;
      }
      LeadingRulesStop(parsed, i);
    }

    method InstallOne(filter: string, ghost h0: seq<Event>, ghost s0: seq<seq<Event>>,
                      ghost parsed: seq<Outcome<NetAddr>>, ghost i: nat)
      returns (ok: bool)
      requires device.Valid() && baseAddr == PACKET_FILTER_BASE
      requires i < |parsed| && parsed[i] == RuleAddr(filter) && |LeadingRules(parsed, i)| == i
      requires Wrote(h0, s0, device.history, device.schedule, ForwardWrites(LeadingRules(parsed, i)))
      modifies device
      ensures device.Valid()
      ensures ok <==> |LeadingRules(parsed, i + 1)| == i + 1
      ensures Wrote(h0, s0, device.history, device.schedule, ForwardWrites(LeadingRules(parsed, i + 1)))
    {
      ghost var h1, s1 := device.history, device.schedule;
      ok := UpdateRule(filter, FORWARD);
      ForwardWritesStep(parsed, i);
      WroteMore(h0, s0, h1, s1, device.history, device.schedule, ForwardWrites(LeadingRules(parsed, i)),
                if parsed[i].Ok? then ThreeWrites(parsed[i].value, FORWARD) else []);
    }

    /** `read<uint64_t>`: two 32-bit reads, between which the hardware may publish new statistics.
        `first` and `second` are the lengths of the history at the two reads. */
    method Read64(offset: nat) returns (value: nat, ghost first: nat, ghost second: nat)
      requires device.Valid() && baseAddr == PACKET_FILTER_BASE && IsCounter(offset)
      modifies device
      ensures device.Valid() && old(device.history) <= device.history
      ensures |old(device.history)| <= first <= second == |device.history|
      ensures IsRead(device.start, device.history, offset, value, first, second)
    {
      var low := MmioRegRead(offset);
      ghost var middle := device.history;
      var high := MmioRegRead(offset + 4);
      first, second := |middle|, |device.history|;
      assert device.history[..first] == middle && device.history[..second] == device.history;
      value := high * WORD32 + low;
    }

    /** The statistics display: the four counters, read one after the other while the hardware runs on,
        and the lines that are printed for them. */
    method ShowStats() returns (pktIn: nat, phitIn: nat, pktForwd: nat, pktDrop: nat,
                                lines: seq<Line>, ghost t: ReadTimes)
      requires device.Valid() && baseAddr == PACKET_FILTER_BASE
      modifies device
      ensures device.Valid() && old(device.history) <= device.history
      ensures t.Ordered(device.history)
      ensures IsRead(device.start, device.history, STATS_PKT_IN_REG, pktIn, t.in0, t.in1)
      ensures IsRead(device.start, device.history, STATS_PHIT_IN_REG, phitIn, t.phit0, t.phit1)
      ensures IsRead(device.start, device.history, STATS_PKT_FORWD_REG, pktForwd, t.forwd0, t.forwd1)
      ensures IsRead(device.start, device.history, STATS_PKT_DROP_REG, pktDrop, t.drop0, t.drop1)
      ensures lines == StatLines(pktIn, phitIn, pktForwd, pktDrop)
    {
      ghost var t0, t1, t2, t3, t4, t5, t6, t7;
      pktIn, t0, t1 := Read64(STATS_PKT_IN_REG);
      ghost var h1 := device.history;
      phitIn, t2, t3 := Read64(STATS_PHIT_IN_REG);
      ghost var h2 := device.history;
      pktForwd, t4, t5 := Read64(STATS_PKT_FORWD_REG);
      ghost var h3 := device.history;
      pktDrop, t6, t7 := Read64(STATS_PKT_DROP_REG);
      t := ReadTimes(t0, t1, t2, t3, t4, t5, t6, t7);
      ReadStays(device.start, h1, device.history, STATS_PKT_IN_REG, pktIn, t0, t1);
      ReadStays(device.start, h2, device.history, STATS_PHIT_IN_REG, phitIn, t2, t3);
      ReadStays(device.start, h3, device.history, STATS_PKT_FORWD_REG, pktForwd, t4, t5);
      lines := PrintLines(pktIn, phitIn, pktForwd, pktDrop);
    }

    method PrintLines(pktIn: nat, phitIn: nat, pktForwd: nat, pktDrop: nat) returns (lines: seq<Line>)
      ensures lines == StatLines(pktIn, phitIn, pktForwd, pktDrop)
    {
      if pktIn == 0 && pktForwd == 0 && pktDrop == 0 {
        return [];
      }
      lines := [Title];
      lines := lines + PrintStat(PacketsInLine(pktIn), pktIn);
      lines := lines + PrintStat(PhitsInLine(phitIn), phitIn);
      lines := lines + PrintStat(ForwardedLine(pktForwd), pktForwd);
      lines := lines + PrintStat(DroppedLine(pktDrop), pktDrop);
    }
  }

  // ---------- What the display shows ----------

  /** The lengths of the history at the eight 32-bit reads, in program order. */
  datatype ReadTimes = ReadTimes(
    in0: nat, in1: nat, phit0: nat, phit1: nat, forwd0: nat, forwd1: nat, drop0: nat, drop1: nat)
  {
    predicate Ordered(history: seq<Event>) {
      in0 <= in1 <= phit0 <= phit1 <= forwd0 <= forwd1 <= drop0 <= drop1 <= |history|
    }
  }

  /** A counter of the published statistics after `n` events. */
  function CounterAt(s: State, es: seq<Event>, offset: nat, n: nat): nat
    requires n <= |es|
  {
    Counter(At(s, es, n).core.published, offset)
  }

  /** `value` is what two 32-bit reads at times `m` and `n` yield. */
  predicate IsRead(s: State, es: seq<Event>, offset: nat, value: nat, m: nat, n: nat) {
    m <= n <= |es| && value == SplitValue(CounterAt(s, es, offset, m), CounterAt(s, es, offset, n))
  }

  lemma ReadStays(s: State, h: seq<Event>, longer: seq<Event>, offset: nat, value: nat, m: nat, n: nat)
    requires h <= longer && IsRead(s, h, offset, value, m, n)
    ensures IsRead(s, longer, offset, value, m, n)
  {
    assert h[..m] == longer[..m] && h[..n] == longer[..n];
  }
}
