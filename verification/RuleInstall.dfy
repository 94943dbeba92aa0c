/** What the three-write protocol of the constructor installs, in every interleaving with the
    hardware: each idle cycle inserts the registers, finished or half-written. */
module RuleInstall {
  import opened BitVectors
  import opened HashIndex
  import opened HashTable
  import opened Network
  import opened Kernel
  import opened Runs
  import opened PacketLevel

  // ---------- The writes of the constructor ----------

  /** The `m`-th register write: address, port and action of each rule in turn. */
  function RuleWrite(rules: seq<NetAddr>, m: nat): Event
    requires m < 3 * |rules|
  {
    var r := rules[m / 3];
    if m % 3 == 0 then WriteIp(r.ip) else if m % 3 == 1 then WritePort(r.port) else WriteAction(FORWARD)
  }

  /** The number of register writes among the first `n` events. */
  function WriteCount(es: seq<Event>, n: nat): (c: nat)
    requires n <= |es|
    ensures c <= n
  {
    if n == 0 then 0 else WriteCount(es, n - 1) + if es[n - 1].IsWrite() then 1 else 0
  }

  /** The register writes in `es` are the first ones of the constructor for `rules`, in order. */
  predicate Follows(rules: seq<NetAddr>, es: seq<Event>) {
    forall j :: 0 <= j < |es| && es[j].IsWrite() ==>
      WriteCount(es, j) < 3 * |rules| && es[j] == RuleWrite(rules, WriteCount(es, j))
  }

  /** The address in the registers after `c` writes: the port lags one write behind. */
  function AddrAfter(rules: seq<NetAddr>, c: nat): NetAddr
    requires c <= 3 * |rules|
  {
    NetAddr(if c < 1 then Zeros(32) else rules[(c - 1) / 3].ip,
            if c < 2 then Zeros(16) else rules[(c - 2) / 3].port)
  }

  function ActionAfter(c: nat): byte {
    if c < 3 then DROP else FORWARD
  }

  lemma {:induction false} WritesStayInOrder(rules: seq<NetAddr>, es: seq<Event>, n: nat)
    requires n <= |es| && Follows(rules, es)
    ensures WriteCount(es, n) <= 3 * |rules|
  {
    if n > 0 {
      WritesStayInOrder(rules, es, n - 1);
    }
  }

  lemma {:induction false} WriteCountGrows(es: seq<Event>, m: nat, n: nat)
    requires m <= n <= |es|
    ensures WriteCount(es, m) <= WriteCount(es, n)
  {
    if m < n {
      WriteCountGrows(es, m, n - 1);
    }
  }

  lemma RegistersStep(rules: seq<NetAddr>, c: nat)
    requires c < 3 * |rules|
    ensures Written(Registers(AddrAfter(rules, c), ActionAfter(c)), RuleWrite(rules, c))
            == Registers(AddrAfter(rules, c + 1), ActionAfter(c + 1))
  {
    assert c % 3 != 0 ==> c / 3 == (c - 1) / 3;
    assert c % 3 == 2 ==> c / 3 == (c - 2) / 3;
    assert c % 3 == 0 && c > 0 ==> (c - 2) / 3 == (c - 1) / 3;
  }

  lemma RegistersOf(s: State, e: Event)
    ensures Step(s, e).regs == Written(s.regs, e)
    ensures !e.IsWrite() ==> Written(s.regs, e) == s.regs
  {
  }

  lemma {:induction false} RegistersAfter(size: TableSize, rules: seq<NetAddr>, es: seq<Event>, n: nat)
    requires n <= |es| && Follows(rules, es)
    ensures WriteCount(es, n) <= 3 * |rules|
    ensures At(Reset(size), es, n).regs
            == Registers(AddrAfter(rules, WriteCount(es, n)), ActionAfter(WriteCount(es, n)))
  {
    WritesStayInOrder(rules, es, n);
    if n == 0 {
      AtEnds(Reset(size), es);
    } else {
      RegistersAfter(size, rules, es, n - 1);
      AtStep(Reset(size), es, n - 1);
      RegistersOf(At(Reset(size), es, n - 1), es[n - 1]);
      if es[n - 1].IsWrite() {
        RegistersStep(rules, WriteCount(es, n - 1));
      }
    }
  }

  // ---------- Which cells hold 1 ----------

  /** Among the first `n` events an idle cycle `j` fell on a moment when the action register was
      already set and the address registers pointed to bucket `b`. */
  ghost predicate Lit(size: TableSize, rules: seq<NetAddr>, es: seq<Event>, n: nat, b: nat)
    requires n <= |es| && Follows(rules, es)
  {
    exists j :: 0 <= j < n && LitBy(size, rules, es, j, b)
  }

  predicate LitBy(size: TableSize, rules: seq<NetAddr>, es: seq<Event>, j: nat, b: nat)
    requires j < |es| && Follows(rules, es)
  {
    WritesStayInOrder(rules, es, j);
    es[j].Idle? && WriteCount(es, j) >= 3 && Bucket(size, AddrAfter(rules, WriteCount(es, j))) == b
  }

  lemma LitGrows(size: TableSize, rules: seq<NetAddr>, es: seq<Event>, n: nat, b: nat)
    requires 0 < n <= |es| && Follows(rules, es)
    ensures Lit(size, rules, es, n, b) <==> Lit(size, rules, es, n - 1, b) || LitBy(size, rules, es, n - 1, b)
  {
  }

  lemma DarkBeforeFirstAction(size: TableSize, rules: seq<NetAddr>, es: seq<Event>, n: nat, b: nat)
    requires n <= |es| && Follows(rules, es) && WriteCount(es, n) < 3
    ensures !Lit(size, rules, es, n, b)
  {
    if j :| 0 <= j < n && LitBy(size, rules, es, j, b) {
      WriteCountGrows(es, j, n);
    }
  }

  lemma TableSizeAt(size: TableSize, es: seq<Event>, n: nat)
    requires n <= |es|
    ensures |At(Reset(size), es, n).core.table| == size
  {
    TableSizeIsFixed(Reset(size), es[..n]);
  }

  lemma CellStep(s: State, e: Event, b: nat)
    requires b < |s.core.table|
    ensures |Step(s, e).core.table| == |s.core.table|
    ensures Step(s, e).core.table[b]
            == if e.Idle? && Bucket(|s.core.table|, s.regs.addr) == b then s.regs.action else s.core.table[b]
  {
  }

  /** The exact content of the table in every reachable state of the configuration run: a cell holds
      1 if some idle cycle has found its bucket in the registers with the action set, and 0 if not. */
  lemma {:induction false} CellsAfter(size: TableSize, rules: seq<NetAddr>, es: seq<Event>, n: nat, b: nat)
    requires n <= |es| && Follows(rules, es) && b < size
    ensures |At(Reset(size), es, n).core.table| == size
    ensures At(Reset(size), es, n).core.table[b] == if Lit(size, rules, es, n, b) then 1 else 0
  {
    AtEnds(Reset(size), es);
    TableSizeAt(size, es, n);
    if n > 0 {
      CellsAfter(size, rules, es, n - 1, b);
      AtStep(Reset(size), es, n - 1);
      RegistersAfter(size, rules, es, n - 1);
      LitGrows(size, rules, es, n, b);
      CellStep(At(Reset(size), es, n - 1), es[n - 1], b);
      if WriteCount(es, n - 1) < 3 {
        DarkBeforeFirstAction(size, rules, es, n - 1, b);
      }
    }
  }

  /** While only forwarding rules are installed, a cell never goes back from 1 to 0. */
  lemma CellsOnlySwitchOn(size: TableSize, rules: seq<NetAddr>, es: seq<Event>, m: nat, n: nat, b: nat)
    requires m <= n <= |es| && Follows(rules, es) && b < size
    ensures |At(Reset(size), es, m).core.table| == |At(Reset(size), es, n).core.table| == size
    ensures At(Reset(size), es, m).core.table[b] == FORWARD ==> At(Reset(size), es, n).core.table[b] == FORWARD
  {
    CellsAfter(size, rules, es, m, b);
    CellsAfter(size, rules, es, n, b);
  }

  /** A rule for which an idle cycle `j` falls between its action write and the next address write
      is looked up as "forward" in every later state. From the second rule on, an idle cycle right
      after its port write is enough, because the action register is never cleared. */
  lemma IdleWindowInstallsRule(size: TableSize, rules: seq<NetAddr>, es: seq<Event>, i: nat, j: nat, n: nat)
    requires i < |rules| && j < n <= |es| && Follows(rules, es) && es[j].Idle?
    requires WriteCount(es, j) == 3 * i + 3 || (i > 0 && WriteCount(es, j) == 3 * i + 2)
    ensures Lookup(At(Reset(size), es, n).core.table, rules[i]) == FORWARD
  {
    FinishedAddr(rules, i, WriteCount(es, j));
    InsertedMomentForwards(size, rules, es, j, n);
  }

  lemma FinishedAddr(rules: seq<NetAddr>, i: nat, c: nat)
    requires i < |rules| && (c == 3 * i + 3 || c == 3 * i + 2)
    ensures AddrAfter(rules, c) == rules[i]
  {
  }

  lemma InsertedMomentForwards(size: TableSize, rules: seq<NetAddr>, es: seq<Event>, j: nat, n: nat)
    requires j < n <= |es| && Follows(rules, es) && es[j].Idle? && 3 <= WriteCount(es, j) <= 3 * |rules|
    ensures Lookup(At(Reset(size), es, n).core.table, AddrAfter(rules, WriteCount(es, j))) == FORWARD
  {
    var b := Bucket(size, AddrAfter(rules, WriteCount(es, j)));
    assert LitBy(size, rules, es, j, b);
    CellsAfter(size, rules, es, n, b);
  }

  // ---------- Where a 1 can come from ----------

  /** The bucket of a rule. */
  ghost predicate Requested(size: TableSize, rules: seq<NetAddr>, b: nat) {
    exists i :: 0 <= i < |rules| && Bucket(size, rules[i]) == b
  }

  /** The address of rule `i` with the port of the rule before it. */
  function HalfWritten(rules: seq<NetAddr>, i: nat): NetAddr
    requires 0 < i < |rules|
  {
    NetAddr(rules[i].ip, rules[i - 1].port)
  }

  ghost predicate HalfRequested(size: TableSize, rules: seq<NetAddr>, b: nat) {
    exists i: nat :: 0 < i < |rules| && Bucket(size, HalfWritten(rules, i)) == b
  }

  ghost predicate Reachable(size: TableSize, rules: seq<NetAddr>, b: nat) {
    exists es :: Follows(rules, es) && TurnsOn(size, es, b)
  }

  predicate TurnsOn(size: TableSize, es: seq<Event>, b: nat) {
    var t := Run(Reset(size), es).core.table;
    b < |t| && t[b] == FORWARD
  }

  /** The first `c` writes of the constructor without any cycle between them, then one idle cycle. */
  function WritesThenIdle(rules: seq<NetAddr>, c: nat): seq<Event>
    requires c <= 3 * |rules|
  {
    seq(c, m requires 0 <= m < c => RuleWrite(rules, m)) + [Idle]
  }

  lemma {:induction false} WritesThenIdleCount(rules: seq<NetAddr>, c: nat, n: nat)
    requires c <= 3 * |rules| && n <= c
    ensures WriteCount(WritesThenIdle(rules, c), n) == n
  {
    if n > 0 {
      WritesThenIdleCount(rules, c, n - 1);
    }
  }

  lemma WritesThenIdleFollows(rules: seq<NetAddr>, c: nat)
    requires c <= 3 * |rules|
    ensures Follows(rules, WritesThenIdle(rules, c))
  {
    var es := WritesThenIdle(rules, c);
    forall j | 0 <= j < |es| && es[j].IsWrite()
      ensures WriteCount(es, j) < 3 * |rules| && es[j] == RuleWrite(rules, WriteCount(es, j))
    {
      WritesThenIdleCount(rules, c, j);
    }
  }

  lemma MomentIsReachable(size: TableSize, rules: seq<NetAddr>, c: nat)
    requires 3 <= c <= 3 * |rules|
    ensures Reachable(size, rules, Bucket(size, AddrAfter(rules, c)))
  {
    var es, b := WritesThenIdle(rules, c), Bucket(size, AddrAfter(rules, c));
    WritesThenIdleFollows(rules, c);
    WritesThenIdleCount(rules, c, c);
    assert LitBy(size, rules, es, c, b);
    CellsAfter(size, rules, es, c + 1, b);
    AtEnds(Reset(size), es);
    assert TurnsOn(size, es, b);
  }

  lemma MomentIsRequestedOrHalf(size: TableSize, rules: seq<NetAddr>, c: nat)
    requires 3 <= c <= 3 * |rules|
    ensures var b := Bucket(size, AddrAfter(rules, c));
      Requested(size, rules, b) || HalfRequested(size, rules, b)
  {
    var i := (c - 1) / 3;
    if c % 3 == 1 {
      assert (c - 2) / 3 == i - 1;
      assert AddrAfter(rules, c) == HalfWritten(rules, i);
    } else {
      assert (c - 2) / 3 == i;
      assert AddrAfter(rules, c) == rules[i];
    }
  }

  lemma ReachableIsRequestedOrHalf(size: TableSize, rules: seq<NetAddr>, es: seq<Event>, b: nat)
    requires Follows(rules, es) && TurnsOn(size, es, b)
    ensures Requested(size, rules, b) || HalfRequested(size, rules, b)
  {
    AtEnds(Reset(size), es);
    TableSizeAt(size, es, |es|);
    CellsAfter(size, rules, es, |es|, b);
    var j :| 0 <= j < |es| && LitBy(size, rules, es, j, b);
    WritesStayInOrder(rules, es, j);
    MomentIsRequestedOrHalf(size, rules, WriteCount(es, j));
  }

  lemma RequestedIsReachable(size: TableSize, rules: seq<NetAddr>, i: nat)
    requires i < |rules|
    ensures Reachable(size, rules, Bucket(size, rules[i]))
  {
    FinishedAddr(rules, i, 3 * i + 3);
    MomentIsReachable(size, rules, 3 * i + 3);
  }

  lemma HalfWrittenAddr(rules: seq<NetAddr>, i: nat, c: nat)
    requires 0 < i < |rules| && c == 3 * i + 1
    ensures AddrAfter(rules, c) == HalfWritten(rules, i)
  {
    assert (c - 1) / 3 == i && (c - 2) / 3 == i - 1;
  }

  lemma HalfRequestedIsReachable(size: TableSize, rules: seq<NetAddr>, i: nat)
    requires 0 < i < |rules|
    ensures Reachable(size, rules, Bucket(size, HalfWritten(rules, i)))
  {
    HalfWrittenAddr(rules, i, 3 * i + 1);
    MomentIsReachable(size, rules, 3 * i + 1);
  }

  /** The cells that some interleaving turns on are exactly the buckets of the rules and of the
      half-written rules. */
  lemma ReachableCells(size: TableSize, rules: seq<NetAddr>, b: nat)
    ensures Reachable(size, rules, b) <==> Requested(size, rules, b) || HalfRequested(size, rules, b)
  {
    if Reachable(size, rules, b) {
      var es :| Follows(rules, es) && TurnsOn(size, es, b);
      ReachableIsRequestedOrHalf(size, rules, es, b);
    }
    if i: nat :| i < |rules| && Bucket(size, rules[i]) == b {
      RequestedIsReachable(size, rules, i);
    }
    if i: nat :| 0 < i < |rules| && Bucket(size, HalfWritten(rules, i)) == b {
      HalfRequestedIsReachable(size, rules, i);
    }
  }

  ghost predicate HalvesRequested(size: TableSize, rules: seq<NetAddr>) {
    forall i: nat :: 0 < i < |rules| ==> Requested(size, rules, Bucket(size, HalfWritten(rules, i)))
  }

  /** No interleaving opens a bucket that was not asked for if and only if every address paired with
      the port of the rule before it falls into a bucket that was. */
  lemma OnlyRequestedIffHalvesRequested(size: TableSize, rules: seq<NetAddr>)
    ensures (forall b: nat :: Reachable(size, rules, b) ==> Requested(size, rules, b))
            <==> HalvesRequested(size, rules)
  {
    forall b: nat
      ensures Reachable(size, rules, b) <==> Requested(size, rules, b) || HalfRequested(size, rules, b)
    {
      ReachableCells(size, rules, b);
    }
    forall i: nat | 0 < i < |rules|
      ensures HalfRequested(size, rules, Bucket(size, HalfWritten(rules, i)))
    {
    }
  }

  /** Rules that share one port never open anything else. */
  lemma SharedPortOpensOnlyRequested(size: TableSize, rules: seq<NetAddr>, port: U16, b: nat)
    requires forall i :: 0 <= i < |rules| ==> rules[i].port == port
    requires Reachable(size, rules, b)
    ensures Requested(size, rules, b)
  {
    ReachableCells(size, rules, b);
    if i: nat :| 0 < i < |rules| && Bucket(size, HalfWritten(rules, i)) == b {
      assert HalfWritten(rules, i) == rules[i];
    }
  }

  // ---------- The configured filter ----------

  /** Idle cycle `j` falls between the action write of rule `i` and the next address write. */
  predicate InWindow(es: seq<Event>, i: nat, j: nat) {
    j < |es| && es[j].Idle? && WriteCount(es, j) == 3 * i + 3
  }

  ghost predicate Installed(es: seq<Event>, i: nat) {
    exists j :: InWindow(es, i, j)
  }

  ghost predicate AllInstalled(rules: seq<NetAddr>, es: seq<Event>) {
    forall i: nat :: i < |rules| ==> Installed(es, i)
  }

  lemma InstalledCell(size: TableSize, rules: seq<NetAddr>, es: seq<Event>, i: nat)
    requires Follows(rules, es) && AllInstalled(rules, es) && i < |rules|
    ensures Lookup(Run(Reset(size), es).core.table, rules[i]) == FORWARD
  {
    assert Installed(es, i);
    var j :| InWindow(es, i, j);
    IdleWindowInstallsRule(size, rules, es, i, j, |es|);
    AtEnds(Reset(size), es);
  }

  /** After a complete configuration the open cells are exactly the requested ones. */
  lemma ConfiguredCells(size: TableSize, rules: seq<NetAddr>, es: seq<Event>, b: nat)
    requires Follows(rules, es) && AllInstalled(rules, es) && HalvesRequested(size, rules) && b < size
    ensures |Run(Reset(size), es).core.table| == size
    ensures Run(Reset(size), es).core.table[b] == FORWARD <==> Requested(size, rules, b)
  {
    TableSizeIsFixed(Reset(size), es);
    if TurnsOn(size, es, b) {
      ReachableIsRequestedOrHalf(size, rules, es, b);
    }
    if i: nat :| i < |rules| && Bucket(size, rules[i]) == b {
      InstalledCell(size, rules, es, i);
    }
  }

  lemma AllWritten(rules: seq<NetAddr>, es: seq<Event>)
    requires rules != [] && Follows(rules, es) && AllInstalled(rules, es)
    ensures WriteCount(es, |es|) == 3 * |rules|
  {
    var last := |rules| - 1;
    assert Installed(es, last);
    var j :| InWindow(es, last, j);
    WriteCountGrows(es, j, |es|);
    WritesStayInOrder(rules, es, |es|);
  }

  lemma ConfiguredRegisters(size: TableSize, rules: seq<NetAddr>, es: seq<Event>, last: nat)
    requires |rules| == last + 1 && Follows(rules, es) && AllInstalled(rules, es)
    ensures Run(Reset(size), es).regs == Registers(rules[last], FORWARD)
  {
    AllWritten(rules, es);
    RegistersAfter(size, rules, es, |es|);
    AtEnds(Reset(size), es);
    FinishedAddr(rules, last, 3 * last + 3);
  }

  lemma SettledByRegisters(s: State, a: NetAddr)
    requires s.regs == Registers(a, FORWARD) && Lookup(s.core.table, a) == FORWARD
    ensures Settled(s)
  {
  }

  lemma ConfiguredAccepts(size: TableSize, rules: seq<NetAddr>, es: seq<Event>, h: Headers)
    requires Follows(rules, es) && AllInstalled(rules, es) && HalvesRequested(size, rules)
    ensures Accepts(Run(Reset(size), es).core.table, h)
            <==> IsUDPOverIPv4(h) && Requested(size, rules, Bucket(size, Target(h)))
  {
    ConfiguredCells(size, rules, es, Bucket(size, Target(h)));
  }

  /** Without rules nothing is written, and every idle cycle inserts "drop" where "drop" is already. */
  lemma NoRulesIsSettled(size: TableSize, es: seq<Event>)
    requires Follows([], es)
    ensures Settled(Run(Reset(size), es))
  {
    AtEnds(Reset(size), es);
    RegistersAfter(size, [], es, |es|);
    var b := Bucket(size, AddrAfter([], 0));
    DarkBeforeFirstAction(size, [], es, |es|, b);
    CellsAfter(size, [], es, |es|, b);
  }

  lemma ConfiguredIsSettled(size: TableSize, rules: seq<NetAddr>, es: seq<Event>)
    requires Follows(rules, es) && AllInstalled(rules, es)
    ensures Settled(Run(Reset(size), es))
  {
    if rules == [] {
      NoRulesIsSettled(size, es);
    } else {
      var last := |rules| - 1;
      ConfiguredRegisters(size, rules, es, last);
      InstalledCell(size, rules, es, last);
      SettledByRegisters(Run(Reset(size), es), rules[last]);
    }
  }

  /** Once every rule has had an idle cycle in its window, and as long as no register is written
      again, the card forwards exactly the packets sent to a requested bucket: whole, unchanged and
      in order, for every later phit stream and every placement of idle cycles. Of a packet that was
      in flight at that moment the rest passes or vanishes by the same rule. */
  lemma ConfiguredCardFiltersPackets(size: TableSize, rules: seq<NetAddr>, es: seq<Event>, later: seq<Event>)
    requires Follows(rules, es) && AllInstalled(rules, es) && HalvesRequested(size, rules) && HardwareOnly(later)
    ensures var s := Run(Reset(size), es);
      Run(s, later).out == s.out + FilterFrom(s.core.table, s.core, Phits(later))
    ensures forall h :: Accepts(Run(Reset(size), es).core.table, h)
              <==> IsUDPOverIPv4(h) && Requested(size, rules, Bucket(size, Target(h)))
  {
    var s := Run(Reset(size), es);
    ConfiguredIsSettled(size, rules, es);
    SettledRunFilters(s, later, s.core.table);
    forall h
      ensures Accepts(s.core.table, h) <==> IsUDPOverIPv4(h) && Requested(size, rules, Bucket(size, Target(h)))
    {
      ConfiguredAccepts(size, rules, es, h);
    }
  }

  // ---------- Packets in flight while rules arrive ----------

  /** In every interleaving, once one phit of a packet has been emitted, so are all later phits of
      the same packet: what leaves the filter of any packet is a suffix of it. */
  lemma EmittedPhitsFormSuffix(size: TableSize, rules: seq<NetAddr>, es: seq<Event>, j: nat, k: nat)
    requires Follows(rules, es) && j <= k && SamePacket(es, j, k)
    requires Emitted(Reset(size), es, j)
    ensures Emitted(Reset(size), es, k)
  {
    VerdictPerPhit(Reset(size), es, j);
    VerdictPerPhit(Reset(size), es, k);
    CellsOnlySwitchOn(size, rules, es, j, k, Bucket(size, Target(PacketHeaders(es, j))));
  }

  lemma ProbeWithoutRule(s: State, r: NetAddr)
    requires s.core.phitIdx == 0 && Lookup(s.core.table, r) != FORWARD
    ensures var s' := Step(s, Consume(ProbePhit(r, false)));
      && s'.out == s.out && s'.regs == s.regs && s'.core.table == s.core.table
      && s'.core.phitIdx == 1 && s'.core.headers == Decode(ProbePhit(r, false).data)
  {
    ProbeIsAddressed(r, false);
  }

  lemma InsertMidPacket(s: State, r: NetAddr, q: Phit)
    requires s.core.phitIdx != 0 && s.core.headers == Decode(ProbePhit(r, false).data)
    requires s.regs == Registers(r, FORWARD)
    ensures Step(Step(s, Idle), Consume(q)).out == s.out + [q]
  {
    ProbeIsAddressed(r, false);
  }

  lemma ThreeEvents(s: State, a: Event, b: Event, c: Event)
    ensures Run(s, [a, b, c]) == Step(Step(Step(s, a), b), c)
  {
    TwoEvents(s, a, b);
    assert [a, b, c][..2] == [a, b];
  }

  lemma SixEvents(s: State, a: Event, b: Event, c: Event, d: Event, e: Event, f: Event)
    ensures Run(s, [a, b, c, d, e, f]) == Step(Step(Step(Step(Step(Step(s, a), b), c), d), e), f)
  {
    assert [a, b, c, d, e, f] == [a, b, c] + [d, e, f];
    RunAppend(s, [a, b, c], [d, e, f]);
    ThreeEvents(s, a, b, c);
    ThreeEvents(Run(s, [a, b, c]), d, e, f);
  }

  /** A rule is installed while a packet for it is in flight. */
  function LateRule(r: NetAddr, q: Phit): seq<Event> {
    [Consume(ProbePhit(r, false)), WriteIp(r.ip), WritePort(r.port), WriteAction(FORWARD), Idle, Consume(q)]
  }

  lemma CountStep(es: seq<Event>, n: nat)
    requires n < |es|
    ensures WriteCount(es, n + 1) == WriteCount(es, n) + if es[n].IsWrite() then 1 else 0
  {
  }

  lemma LateRuleFollows(r: NetAddr, q: Phit)
    ensures Follows([r], LateRule(r, q))
  {
    var es := LateRule(r, q);
    assert RuleWrite([r], 0) == es[1] && RuleWrite([r], 1) == es[2] && RuleWrite([r], 2) == es[3];
    CountStep(es, 0);
    CountStep(es, 1);
    CountStep(es, 2);
    forall j | 0 <= j < |es| && es[j].IsWrite()
      ensures WriteCount(es, j) < 3 && es[j] == RuleWrite([r], WriteCount(es, j))
    {
      assert j == 1 || j == 2 || j == 3;
    }
  }

  /** The suffix can be a proper one: the first phit of the packet is dropped, the rest passes. */
  lemma PacketCanLoseItsHead(size: TableSize, r: NetAddr, q: Phit)
    ensures Follows([r], LateRule(r, q)) && Run(Reset(size), LateRule(r, q)).out == [q]
  {
    LateRuleFollows(r, q);
    var p := ProbePhit(r, false);
    SixEvents(Reset(size), Consume(p), WriteIp(r.ip), WritePort(r.port), WriteAction(FORWARD), Idle, Consume(q));
    ProbeWithoutRule(Reset(size), r);
    var s1 := Step(Reset(size), Consume(p));
    var s4 := s1.(regs := Registers(r, FORWARD));
    assert Step(Step(Step(s1, WriteIp(r.ip)), WritePort(r.port)), WriteAction(FORWARD)) == s4;
    InsertMidPacket(s4, r, q);
  }

  /** The three writes for a rule, an idle cycle and a phit. */
  function RuleThenPhit(r: NetAddr, action: byte, p: Phit): seq<Event> {
    [WriteIp(r.ip), WritePort(r.port), WriteAction(action)] + [Idle, Consume(p)]
  }

  lemma RuleThenPhitRun(s: State, r: NetAddr, action: byte, p: Phit)
    ensures Run(s, RuleThenPhit(r, action, p))
            == Step(State(IdleCycle(s.core, r, action), Registers(r, action), s.out), Consume(p))
  {
    var writes := [WriteIp(r.ip), WritePort(r.port), WriteAction(action)];
    RunAppend(s, writes, [Idle, Consume(p)]);
    ThreeEvents(s, writes[0], writes[1], writes[2]);
    assert Run(s, writes) == s.(regs := Registers(r, action));
    TwoEvents(Run(s, writes), Idle, Consume(p));
  }

  /** A rule is installed, and withdrawn again while a packet for it is in flight. */
  function WithdrawnRule(r: NetAddr, q: Phit): seq<Event> {
    RuleThenPhit(r, FORWARD, ProbePhit(r, false)) + RuleThenPhit(r, DROP, q)
  }

  lemma FirstPhitPasses(s: State, r: NetAddr)
    requires s.core.phitIdx == 0
    ensures var s' := Run(s, RuleThenPhit(r, FORWARD, ProbePhit(r, false)));
      && s'.out == s.out + [ProbePhit(r, false)]
      && s'.core.phitIdx == 1 && s'.core.headers == Decode(ProbePhit(r, false).data)
  {
    ProbeIsAddressed(r, false);
    RuleThenPhitRun(s, r, FORWARD, ProbePhit(r, false));
  }

  lemma LaterPhitIsDropped(s: State, r: NetAddr, q: Phit)
    requires s.core.phitIdx != 0 && s.core.headers == Decode(ProbePhit(r, false).data)
    ensures Run(s, RuleThenPhit(r, DROP, q)).out == s.out
  {
    ProbeIsAddressed(r, false);
    RuleThenPhitRun(s, r, DROP, q);
  }

  /** A rule that is withdrawn while its packet is in flight cuts the packet short instead. */
  lemma PacketCanLoseItsTail(size: TableSize, r: NetAddr, q: Phit)
    ensures Run(Reset(size), WithdrawnRule(r, q)).out == [ProbePhit(r, false)]
  {
    var s := Run(Reset(size), RuleThenPhit(r, FORWARD, ProbePhit(r, false)));
    RunAppend(Reset(size), RuleThenPhit(r, FORWARD, ProbePhit(r, false)), RuleThenPhit(r, DROP, q));
    FirstPhitPasses(Reset(size), r);
    LaterPhitIsDropped(s, r, q);
  }
}
