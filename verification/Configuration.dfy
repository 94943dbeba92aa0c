/** From the command line to forwarded frames, and what the statistics display is worth. */
module Configuration {
  import opened BitVectors
  import opened HashIndex
  import opened HashTable
  import opened Network
  import opened Kernel
  import opened Runs
  import opened PacketLevel
  import opened RuleInstall
  import opened Counters
  import opened FilterText
  import opened Frames
  import opened KnownHashes
  import opened Mmio

  // ---------- The driver's writes are those of the protocol ----------

  lemma {:induction false} ForwardWritesAt(rules: seq<NetAddr>, m: nat)
    requires m < 3 * |rules|
    ensures |ForwardWrites(rules)| == 3 * |rules| && ForwardWrites(rules)[m] == RuleWrite(rules, m)
  {
    var n := |rules| - 1;
    var init := rules[..n];
    ForwardWritesLength(init);
    if m < 3 * n {
      ForwardWritesAt(init, m);
    }
  }

  lemma {:induction false} ForwardWritesLength(rules: seq<NetAddr>)
    ensures |ForwardWrites(rules)| == 3 * |rules|
  {
    if rules != [] {
      ForwardWritesLength(rules[..|rules| - 1]);
    }
  }

  lemma {:induction false} WritesOfCount(es: seq<Event>, n: nat)
    requires n <= |es|
    ensures |WritesOf(es[..n])| == WriteCount(es, n)
    ensures WritesOf(es[..n]) <= WritesOf(es)
    decreases n
  {
    assert es == es[..n] + es[n..];
    WritesOfAppend(es[..n], es[n..]);
    if n > 0 {
      WritesOfCount(es, n - 1);
      assert es[..n][..n - 1] == es[..n - 1];
    }
  }

  lemma WriteAtItsPlace(es: seq<Event>, j: nat)
    requires j < |es| && es[j].IsWrite()
    ensures WriteCount(es, j) < |WritesOf(es)| && WritesOf(es)[WriteCount(es, j)] == es[j]
  {
    WritesOfCount(es, j);
    WritesOfCount(es, j + 1);
    assert es[..j + 1][..j] == es[..j];
    assert WritesOf(es[..j + 1]) == WritesOf(es[..j]) + [es[j]];
  }

  /** Every interleaving that the driver can produce for a list of rules is one in which those rules
      are installed as the run theorems require. */
  lemma DriverFollowsProtocol(rules: seq<NetAddr>, es: seq<Event>)
    requires WritesOf(es) == ForwardWrites(rules)
    ensures Follows(rules, es) && WriteCount(es, |es|) == 3 * |rules|
  {
    ForwardWritesLength(rules);
    forall j | 0 <= j < |es| && es[j].IsWrite()
      ensures WriteCount(es, j) < 3 * |rules| && es[j] == RuleWrite(rules, WriteCount(es, j))
    {
      WriteAtItsPlace(es, j);
      ForwardWritesAt(rules, WriteCount(es, j));
    }
    WritesOfCount(es, |es|);
    assert es[..|es|] == es;
  }

  // ---------- From the filter argument to the rules ----------

  function Wires(es: seq<Endpoint>): (rules: seq<NetAddr>)
    requires forall i :: 0 <= i < |es| ==> Configurable(es[i])
    ensures |rules| == |es|
  {
    seq(|es|, i requires 0 <= i < |es| && Configurable(es[i]) => Wire(es[i]))
  }

  lemma ConfigurableRuleAddr(e: Endpoint)
    requires Configurable(e)
    ensures RuleAddr(RuleText(e)) == Ok(Wire(e))
  {
    RuleRoundTrip(e);
    RegistersHoldWireBytes(e);
  }

  lemma LeadingRulesOfTexts(es: seq<Endpoint>)
    requires forall i :: 0 <= i < |es| ==> Configurable(es[i])
    ensures LeadingRules(RuleAddrs(RuleTexts(es)), |es|) == Wires(es)
  {
    var parsed := RuleAddrs(RuleTexts(es));
    forall i | 0 <= i < |es| ensures parsed[i] == Ok(Wire(es[i])) {
      ConfigurableRuleAddr(es[i]);
    }
    AllRulesLead(parsed, |es|);
  }

  /** The program's start-up on a fresh card: the filter argument is split and its rules are written
      while the hardware runs on any schedule. */
  method Configure(device: Device, filterStr: string)
    requires device.Valid() && device.history == []
    modifies device
    ensures device.Valid()
    ensures var filterList := Tokens(filterStr, ',');
      var writes := ForwardWrites(LeadingRules(RuleAddrs(filterList), |filterList|));
      device.history == Interleaved(old(device.schedule), writes) && WritesOf(device.history) == writes
  {
    var filterList := ParseFilterArgument(filterStr);
    var filter := new PacketFilter.WithFilters(device, filterList);
    ghost var rules := LeadingRules(RuleAddrs(filterList), |filterList|);
    ForwardWritesAreWrites(rules);
    WroteWrites(old(device.history), old(device.schedule), device.history, device.schedule, ForwardWrites(rules));
  }

  /** Endpoints as a filter argument, with or without a comma at the end. */
  function FilterArgument(endpoints: seq<Endpoint>, trailingComma: bool): string {
    if trailingComma then Terminated(RuleTexts(endpoints), ',') else Joined(RuleTexts(endpoints), ',')
  }

  /** For configurable endpoints, whatever history start-up leaves behind is the protocol run for
      their wire addresses, complete and in order. */
  lemma PrintedListConfigures(endpoints: seq<Endpoint>, trailingComma: bool, es: seq<Event>)
    requires forall i :: 0 <= i < |endpoints| ==> Configurable(endpoints[i])
    ensures var filterList := Tokens(FilterArgument(endpoints, trailingComma), ',');
      WritesOf(es) == ForwardWrites(LeadingRules(RuleAddrs(filterList), |filterList|))
      ==> Follows(Wires(endpoints), es) && WriteCount(es, |es|) == 3 * |endpoints|
  {
    FilterListRoundTrip(endpoints);
    LeadingRulesOfTexts(endpoints);
    if WritesOf(es) == ForwardWrites(Wires(endpoints)) {
      DriverFollowsProtocol(Wires(endpoints), es);
    }
  }

  lemma DocumentedTexts()
    ensures RuleText(FIRST_EXAMPLE) == "192.168.2.1:8500" && RuleText(SECOND_EXAMPLE) == "192.168.2.95:8501"
  {
    DocumentedNumbers();
  }

  lemma DocumentedArgument()
    ensures RuleText(FIRST_EXAMPLE) + "," + RuleText(SECOND_EXAMPLE) == "192.168.2.1:8500,192.168.2.95:8501"
  {
    DocumentedTexts();
  }

  lemma JoinedTwo(x: string, y: string)
    ensures Joined([x, y], ',') == x + "," + y
  {
    assert [x, y][1..] == [y];
    assert Joined([y], ',') == y;
  }

  lemma TwoTexts(e: Endpoint, f: Endpoint)
    ensures Tokens(RuleText(e) + "," + RuleText(f), ',') == [RuleText(e), RuleText(f)]
  {
    assert RuleTexts([e, f]) == [RuleText(e), RuleText(f)];
    JoinedTwo(RuleText(e), RuleText(f));
    FilterListRoundTrip([e, f]);
  }

  lemma TwoRules(e: Endpoint, f: Endpoint, x: string, y: string)
    requires Configurable(e) && Configurable(f) && x == RuleText(e) && y == RuleText(f)
    ensures RuleAddrs([x, y]) == [Ok(Wire(e)), Ok(Wire(f))]
  {
    ConfigurableRuleAddr(e);
    ConfigurableRuleAddr(f);
  }

  /** The documented filter argument: what is written into the registers for it, and into which slots
      its rules go. */
  lemma DocumentedListConfigures(argument: string)
    requires argument == "192.168.2.1:8500,192.168.2.95:8501"
    ensures RuleAddrs(Tokens(argument, ','))
            == [Ok(Wire(Endpoint(192, 168, 2, 1, 8500))), Ok(Wire(Endpoint(192, 168, 2, 95, 8501)))]
    ensures Bucket(HASH_TABLE_SIZE, Wire(Endpoint(192, 168, 2, 1, 8500))) == 6
    ensures Bucket(HASH_TABLE_SIZE, Wire(Endpoint(192, 168, 2, 95, 8501))) == 28
  {
    DocumentedArgument();
    TwoTexts(FIRST_EXAMPLE, SECOND_EXAMPLE);
    TwoRules(FIRST_EXAMPLE, SECOND_EXAMPLE, RuleText(FIRST_EXAMPLE), RuleText(SECOND_EXAMPLE));
    DocumentedSlots();
  }

  /** End to end: in every interleaving, if an idle cycle fell into the window of rule `i` before
      phit `k` arrived, and the packet of phit `k` begins with an IPv4/UDP frame sent to endpoint
      `i`, then phit `k` is forwarded. */
  lemma FrameToConfiguredEndpointPasses(size: TableSize, endpoints: seq<Endpoint>, es: seq<Event>,
                                        i: nat, j: nat, k: nat, frame: FrameHead)
    requires forall e :: 0 <= e < |endpoints| ==> Configurable(endpoints[e])
    requires Follows(Wires(endpoints), es)
    requires i < |endpoints| && j < k && IsPhit(es, k) && es[j].Idle? && WriteCount(es, j) == 3 * i + 3
    requires es[FirstPhit(es, k)].p.data == PhitData(frame) && HandlerGates(frame) && SentTo(frame, endpoints[i])
    ensures Emitted(Reset(size), es, k)
  {
    IdleWindowInstallsRule(size, Wires(endpoints), es, i, j, k);
    VerdictPerPhit(Reset(size), es, k);
    HardwareGatesAreHandlerGates(frame);
    TargetIsDestination(frame, endpoints[i]);
  }

  /** A packet that was cut by a late rule counts as forwarded. */
  lemma CutPacketCountsAsForwarded(size: TableSize, rules: seq<NetAddr>, es: seq<Event>, j: nat, k: nat)
    requires Follows(rules, es) && j <= k && SamePacket(es, j, k) && Emitted(Reset(size), es, j) && EndsPacket(es, k)
    ensures PacketsForwarded(Reset(size), es, k + 1) == PacketsForwarded(Reset(size), es, k) + 1
    ensures PacketsDropped(Reset(size), es, k + 1) == PacketsDropped(Reset(size), es, k)
  {
    EmittedPhitsFormSuffix(size, rules, es, j, k);
  }

  /** The writes of the run in which a packet loses its tail are those of two calls of `update_rule`. */
  lemma WithdrawalIsTwoUpdates(r: NetAddr, q: Phit)
    ensures WritesOf(WithdrawnRule(r, q)) == ThreeWrites(r, FORWARD) + ThreeWrites(r, DROP)
  {
    WritesOfAppend(RuleThenPhit(r, FORWARD, ProbePhit(r, false)), RuleThenPhit(r, DROP, q));
    OneUpdate(r, FORWARD, ProbePhit(r, false));
    OneUpdate(r, DROP, q);
  }

  lemma OneUpdate(r: NetAddr, action: byte, p: Phit)
    ensures WritesOf(RuleThenPhit(r, action, p)) == ThreeWrites(r, action)
  {
    var w := ThreeWrites(r, action);
    WritesOfAppend(w, [Idle, Consume(p)]);
    HardwareWritesNothing([Idle, Consume(p)]);
    assert w[..2][..1] == w[..1] && w[..1][..0] == [];
    assert WritesOf(w[..1]) == w[..1];
    assert WritesOf(w[..2]) == w[..2];
  }

  // ---------- Split reads of running counters ----------

  /** Two reads of a counter that went from `x` to `y` give at least `x` and less than `y` + 2^32, and
      exactly `x` if and only if the high half did not change in between. */
  lemma SplitReadBounds(x: nat, y: nat)
    requires x <= y
    ensures x <= SplitValue(x, y) < y + WORD32
    ensures SplitValue(x, y) == x <==> x / WORD32 == y / WORD32
  {
    assert x == x / WORD32 * WORD32 + x % WORD32;
    assert y == y / WORD32 * WORD32 + y % WORD32;
    assert x / WORD32 <= y / WORD32;
  }

  lemma {:induction false} CountsGrow(s: State, es: seq<Event>, m: nat, n: nat)
    requires m <= n <= |es|
    ensures PacketsIn(es, m) <= PacketsIn(es, n)
    ensures PacketsForwarded(s, es, m) <= PacketsForwarded(s, es, n)
    ensures PacketsDropped(s, es, m) <= PacketsDropped(s, es, n)
  {
    if m < n {
      CountsGrow(s, es, m, n - 1);
    }
  }

  lemma {:induction false} CountsBounded(s: State, es: seq<Event>, n: nat)
    requires n <= |es|
    ensures PacketsIn(es, n) <= n && PacketsForwarded(s, es, n) <= n && PacketsDropped(s, es, n) <= n
  {
    if n > 0 {
      CountsBounded(s, es, n - 1);
    }
  }

  /** Before any counter wraps, the published statistics are true counts of an earlier moment. */
  lemma PublishedCounts(size: TableSize, es: seq<Event>, n: nat)
    requires n <= |es| < WORD64
    ensures var m := PublishedAt(es, n);
      At(Reset(size), es, n).core.published == Statistics(
        PacketsIn(es, m), PacketsIn(es, m), PacketsForwarded(Reset(size), es, m), PacketsDropped(Reset(size), es, m))
  {
    var m := PublishedAt(es, n);
    PublishedIsEarlierLocal(size, es, n);
    CountersCountPackets(size, es, m);
    CountsBounded(Reset(size), es, m);
    SmallModulo(PacketsIn(es, m));
    SmallModulo(PacketsForwarded(Reset(size), es, m));
    SmallModulo(PacketsDropped(Reset(size), es, m));
  }

  lemma PublishedGrow(size: TableSize, es: seq<Event>, m: nat, n: nat)
    requires m <= n <= |es| < WORD64
    ensures var a, b := At(Reset(size), es, m).core.published, At(Reset(size), es, n).core.published;
      a.pktIn <= b.pktIn && a.phitIn <= b.phitIn && a.pktForward <= b.pktForward && a.pktDrop <= b.pktDrop
  {
    PublishedCounts(size, es, m);
    PublishedCounts(size, es, n);
    PublishedAtGrows(es, m, n);
    CountsGrow(Reset(size), es, PublishedAt(es, m), PublishedAt(es, n));
  }

  lemma PublishedConserved(size: TableSize, es: seq<Event>, n: nat)
    requires n <= |es| < WORD64
    ensures var a := At(Reset(size), es, n).core.published;
      a.pktIn == a.pktForward + a.pktDrop
  {
    PublishedCounts(size, es, n);
    EveryPacketHasOneFate(Reset(size), es, PublishedAt(es, n));
  }

  lemma ReadAtLeast(size: TableSize, es: seq<Event>, offset: nat, value: nat, m: nat, n: nat)
    requires |es| < WORD64 && IsCounter(offset) && IsRead(Reset(size), es, offset, value, m, n)
    ensures CounterAt(Reset(size), es, offset, m) <= value
    ensures value == CounterAt(Reset(size), es, offset, m)
      <==> CounterAt(Reset(size), es, offset, m) / WORD32 == CounterAt(Reset(size), es, offset, n) / WORD32
  {
    PublishedGrow(size, es, m, n);
    SplitReadBounds(CounterAt(Reset(size), es, offset, m), CounterAt(Reset(size), es, offset, n));
  }

  // ---------- Which counter a register shows ----------

  /** Before any wrap, the registers at offsets 0x28, 0x40, 0x58 and 0x70 hold the packets in (twice),
      the forwarded and the dropped packets of the moment of the latest publication. */
  lemma RegistersShowCounts(size: TableSize, es: seq<Event>, n: nat)
    requires n <= |es| < 0x1_0000_0000_0000_0000
    ensures var m := PublishedAt(es, n);
      && CounterAt(Reset(size), es, 0x28, n) == PacketsIn(es, m)
      && CounterAt(Reset(size), es, 0x40, n) == PacketsIn(es, m)
      && CounterAt(Reset(size), es, 0x58, n) == PacketsForwarded(Reset(size), es, m)
      && CounterAt(Reset(size), es, 0x70, n) == PacketsDropped(Reset(size), es, m)
  {
    PublishedCounts(size, es, n);
  }

  /** The true count behind the register at an offset, after `n` events. */
  function CountBehind(size: TableSize, es: seq<Event>, offset: nat, n: nat): nat
    requires n <= |es|
  {
    if offset == 0x58 then PacketsForwarded(Reset(size), es, n)
    else if offset == 0x70 then PacketsDropped(Reset(size), es, n)
    else PacketsIn(es, n)
  }

  /** What a 64-bit read shows: the count at the publication before its first access, if and only if
      the high half was the same at both accesses. */
  lemma ReadShowsCountIff(size: TableSize, es: seq<Event>, offset: nat, value: nat, m: nat, n: nat)
    requires |es| < 0x1_0000_0000_0000_0000 && offset in {0x28, 0x40, 0x58, 0x70}
    requires IsRead(Reset(size), es, offset, value, m, n)
    ensures var first := CountBehind(size, es, offset, PublishedAt(es, m));
      var second := CountBehind(size, es, offset, PublishedAt(es, n));
      value == first <==> first / 0x1_0000_0000 == second / 0x1_0000_0000
  {
    ReadAtLeast(size, es, offset, value, m, n);
    RegistersShowCounts(size, es, m);
    RegistersShowCounts(size, es, n);
  }

  /** The two 32-bit accesses to a counter: at the address of its low half and four bytes behind it. */
  lemma CounterHalves(size: TableSize, es: seq<Event>, n: nat, offset: nat)
    requires n <= |es| && offset in {0x28, 0x40, 0x58, 0x70}
    ensures var published, count := At(Reset(size), es, n).core.published, CounterAt(Reset(size), es, offset, n);
      && ReadRegister(published, 0x10_2000 + offset) == count % 0x1_0000_0000
      && ReadRegister(published, 0x10_2004 + offset) == count / 0x1_0000_0000
  {
  }

  // ---------- A carry between the two reads ----------

  /** `n` one-phit packets, an idle cycle, one more packet and another idle cycle. */
  function CarryRun(n: nat, p: Phit): seq<Event> {
    seq(n, _ => Consume(p)) + [Idle, Consume(p), Idle]
  }

  lemma {:induction false} PacketsBeforeCarry(n: nat, p: Phit, j: nat)
    requires p.last && j <= n
    ensures PacketsIn(CarryRun(n, p), j) == j
  {
    if j > 0 {
      PacketsBeforeCarry(n, p, j - 1);
    }
  }

  lemma CarryRunEvents(n: nat, p: Phit)
    ensures var es := CarryRun(n, p);
      |es| == n + 3 && es[n] == Idle && es[n + 1] == Consume(p) && es[n + 2] == Idle
  {
  }

  lemma PacketsAtCarry(n: nat, p: Phit)
    requires p.last
    ensures var es := CarryRun(n, p);
      && PublishedAt(es, n + 1) == n && PacketsIn(es, n) == n
      && PublishedAt(es, n + 3) == n + 2 && PacketsIn(es, n + 2) == n + 1
  {
    CarryRunEvents(n, p);
    PacketsBeforeCarry(n, p, n);
    assert PacketsIn(CarryRun(n, p), n + 1) == n;
  }

  lemma CountersOfCarryRun(size: TableSize, n: nat, p: Phit)
    requires p.last && n + 3 < WORD64
    ensures var es := CarryRun(n, p);
      && CounterAt(Reset(size), es, STATS_PKT_IN_REG, n + 1) == n
      && CounterAt(Reset(size), es, STATS_PKT_IN_REG, n + 3) == n + 1
  {
    CarryRunEvents(n, p);
    PacketsAtCarry(n, p);
    PublishedCounts(size, CarryRun(n, p), n + 1);
    PublishedCounts(size, CarryRun(n, p), n + 3);
  }

  lemma CarryValue(n: nat)
    requires (n + 1) % WORD32 == 0
    ensures SplitValue(n, n + 1) == n + WORD32
  {
    assert n % WORD32 == WORD32 - 1;
  }

  /** For every carry into the high half there is a run with a read across it: `n + 1` packets have
      arrived, and the display shows 2^32 - 1 packets more than that. */
  lemma SplitReadCanTear(size: TableSize, n: nat, p: Phit)
    requires p.last && (n + 1) % WORD32 == 0 && n + 3 < WORD64
    ensures var es := CarryRun(n, p);
      && CounterAt(Reset(size), es, STATS_PKT_IN_REG, n + 3) == n + 1
      && IsRead(Reset(size), es, STATS_PKT_IN_REG, n + WORD32, n + 1, n + 3)
  {
    CarryRunEvents(n, p);
    CountersOfCarryRun(size, n, p);
    CarryValue(n);
  }

  // ---------- Packets in against forwarded and dropped ----------

  /** The display shows these packet counts when its reads fall on the times `t`. */
  predicate Shows(s: State, es: seq<Event>, t: ReadTimes, pktIn: nat, pktForwd: nat, pktDrop: nat) {
    && t.Ordered(es)
    && IsRead(s, es, STATS_PKT_IN_REG, pktIn, t.in0, t.in1)
    && IsRead(s, es, STATS_PKT_FORWD_REG, pktForwd, t.forwd0, t.forwd1)
    && IsRead(s, es, STATS_PKT_DROP_REG, pktDrop, t.drop0, t.drop1)
  }

  /** The low half of the packet counter did not wrap between its two reads. */
  predicate LowHalfGrew(size: TableSize, es: seq<Event>, m: nat, n: nat)
    requires m <= n <= |es|
  {
    CounterAt(Reset(size), es, STATS_PKT_IN_REG, m) % WORD32 <= CounterAt(Reset(size), es, STATS_PKT_IN_REG, n) % WORD32
  }

  lemma SplitAtMostSecond(x: nat, y: nat)
    ensures SplitValue(x, y) <= y <==> x % WORD32 <= y % WORD32
  {
    assert y == y / WORD32 * WORD32 + y % WORD32;
  }

  /** Whenever the low half of the packet counter grew between its two reads, the display does not
      show fewer packets forwarded and dropped than packets in. */
  lemma DisplayCoversPacketsIn(size: TableSize, es: seq<Event>, t: ReadTimes, pktIn: nat, pktForwd: nat, pktDrop: nat)
    requires |es| < WORD64 && Shows(Reset(size), es, t, pktIn, pktForwd, pktDrop)
    requires LowHalfGrew(size, es, t.in0, t.in1)
    ensures pktForwd + pktDrop >= pktIn
  {
    SplitAtMostSecond(CounterAt(Reset(size), es, STATS_PKT_IN_REG, t.in0),
                      CounterAt(Reset(size), es, STATS_PKT_IN_REG, t.in1));
    ReadAtLeast(size, es, STATS_PKT_FORWD_REG, pktForwd, t.forwd0, t.forwd1);
    ReadAtLeast(size, es, STATS_PKT_DROP_REG, pktDrop, t.drop0, t.drop1);
    PublishedConserved(size, es, t.in1);
    PublishedGrow(size, es, t.in1, t.forwd0);
    PublishedGrow(size, es, t.in1, t.drop0);
  }

  /** All reads behind the first one happen at once. */
  function PromptReads(m: nat, n: nat): ReadTimes {
    ReadTimes(m, n, n, n, n, n, n, n)
  }

  lemma PromptDisplay(size: TableSize, es: seq<Event>, m: nat, n: nat, x: nat, y: nat)
    requires m <= n <= |es| < WORD64
    requires x == CounterAt(Reset(size), es, STATS_PKT_IN_REG, m)
    requires y == CounterAt(Reset(size), es, STATS_PKT_IN_REG, n)
    ensures exists forwd: nat, drop: nat ::
      forwd + drop == y && Shows(Reset(size), es, PromptReads(m, n), SplitValue(x, y), forwd, drop)
  {
    var forwd := CounterAt(Reset(size), es, STATS_PKT_FORWD_REG, n);
    var drop := CounterAt(Reset(size), es, STATS_PKT_DROP_REG, n);
    PublishedConserved(size, es, n);
    PublishedGrow(size, es, n, n);
    SplitReadBounds(forwd, forwd);
    SplitReadBounds(drop, drop);
    assert Shows(Reset(size), es, PromptReads(m, n), SplitValue(x, y), forwd, drop);
  }

  ghost predicate AlwaysCovers(size: TableSize, es: seq<Event>, m: nat, n: nat) {
    forall t: ReadTimes, pktIn: nat, pktForwd: nat, pktDrop: nat ::
      t.in0 == m && t.in1 == n && Shows(Reset(size), es, t, pktIn, pktForwd, pktDrop) ==> pktForwd + pktDrop >= pktIn
  }

  /** Given the two reads of the packet counter, the display covers the packets in at all times of the
      later reads if and only if the low half of that counter grew. */
  lemma DisplayCoversIffLowHalfGrew(size: TableSize, es: seq<Event>, m: nat, n: nat)
    requires m <= n <= |es| < WORD64
    ensures AlwaysCovers(size, es, m, n) <==> LowHalfGrew(size, es, m, n)
  {
    if LowHalfGrew(size, es, m, n) {
      forall t: ReadTimes, pktIn: nat, pktForwd: nat, pktDrop: nat
        | t.in0 == m && t.in1 == n && Shows(Reset(size), es, t, pktIn, pktForwd, pktDrop)
        ensures pktForwd + pktDrop >= pktIn
      {
        DisplayCoversPacketsIn(size, es, t, pktIn, pktForwd, pktDrop);
      }
    } else {
      var x := CounterAt(Reset(size), es, STATS_PKT_IN_REG, m);
      var y := CounterAt(Reset(size), es, STATS_PKT_IN_REG, n);
      SplitAtMostSecond(x, y);
      PromptDisplay(size, es, m, n, x, y);
      var forwd: nat, drop: nat :|
        forwd + drop == y && Shows(Reset(size), es, PromptReads(m, n), SplitValue(x, y), forwd, drop);
      assert PromptReads(m, n).in0 == m && PromptReads(m, n).in1 == n;
    }
  }

  // ---------- Which lines appear ----------

  /** A packet that was published before the first read makes the display appear; without any packet
      until the last read it stays silent. */
  lemma DisplayAppears(size: TableSize, es: seq<Event>, t: ReadTimes,
                       pktIn: nat, phitIn: nat, pktForwd: nat, pktDrop: nat)
    requires |es| < WORD64 && Shows(Reset(size), es, t, pktIn, pktForwd, pktDrop)
    ensures CounterAt(Reset(size), es, STATS_PKT_IN_REG, t.in0) > 0 ==>
      Title in StatLines(pktIn, phitIn, pktForwd, pktDrop)
    ensures CounterAt(Reset(size), es, STATS_PKT_IN_REG, t.drop1) == 0 ==>
      StatLines(pktIn, phitIn, pktForwd, pktDrop) == []
  {
    ReadAtLeast(size, es, STATS_PKT_IN_REG, pktIn, t.in0, t.in1);
    PublishedGrow(size, es, t.in0, t.drop1);
    PublishedGrow(size, es, t.in1, t.drop1);
    PublishedGrow(size, es, t.forwd0, t.drop1);
    PublishedGrow(size, es, t.forwd1, t.drop1);
    PublishedGrow(size, es, t.drop0, t.drop1);
    PublishedConserved(size, es, t.drop1);
  }
}
