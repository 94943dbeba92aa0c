/** The DPDK receive side: numbering of receive threads and queues, and the burst loop. */
module Dpdk {
  const UINT16: nat := 0x1_0000
  const DPDK_BURST_SIZE: nat := 32
  const DPDK_PREFETCH_NUM: nat := 4

  // ---------- Threads and queues ----------

  /** The thread count rounded up so that every port gets the same number of queues. */
  function AdjustedThreads(numThreads: nat, portNum: nat): nat
    requires portNum > 0
  {
    if numThreads % portNum != 0 then (numThreads / portNum + 1) * portNum else numThreads
  }

  lemma MultipleGrows(k: int, m: int, n: nat)
    requires k <= m
    ensures k * n <= m * n
  {
    assert (m - k) * n == m * n - k * n;
    assert (m - k) * n >= 0;
  }

  /** The adjusted count is the least multiple of the number of ports that is not below the request. */
  lemma AdjustedIsLeastMultiple(numThreads: nat, portNum: nat, k: nat)
    requires portNum > 0
    ensures exists q: nat :: AdjustedThreads(numThreads, portNum) == q * portNum
    ensures numThreads <= AdjustedThreads(numThreads, portNum)
    ensures k * portNum >= numThreads ==> k * portNum >= AdjustedThreads(numThreads, portNum)
  {
    var q := numThreads / portNum;
    assert numThreads == q * portNum + numThreads % portNum;
    var m := if numThreads % portNum != 0 then q + 1 else q;
    assert AdjustedThreads(numThreads, portNum) == m * portNum;
    assert (q + 1) * portNum == q * portNum + portNum;
    if k < m {
      MultipleGrows(k, m - 1, portNum);
      assert (m - 1) * portNum == m * portNum - portNum;
    } else {
      MultipleGrows(m, k, portNum);
    }
  }

  lemma SmallMultiple(k: int, n: int)
    requires -n < k * n < n
    ensures k == 0
  {
    assert k >= 1 ==> k * n >= n;
    assert k <= -1 ==> k * n <= -n;
  }

  lemma SlotNumber(portId: nat, q: nat, queueNum: nat)
    requires q < queueNum
    ensures (portId * queueNum + q) / queueNum == portId && (portId * queueNum + q) % queueNum == q
  {
    var n := portId * queueNum + q;
    var d, m := n / queueNum, n % queueNum;
    assert n == d * queueNum + m;
    assert (d - portId) * queueNum == d * queueNum - portId * queueNum == q - m;
    SmallMultiple(d - portId, queueNum);
  }

  lemma PortRange(portId: nat, portNum: nat, queueNum: nat)
    requires portId < portNum
    ensures (portId + 1) * queueNum <= queueNum * portNum
  {
  }

  /** The number of queues of each port; the ports share the adjusted threads evenly. */
  function QueueNum(numThreads: nat, portNum: nat): (q: nat)
    requires numThreads > 0 && portNum > 0
    ensures q > 0 && AdjustedThreads(numThreads, portNum) == q * portNum
  {
    AdjustedIsLeastMultiple(numThreads, portNum, 0);
    var q: nat :| AdjustedThreads(numThreads, portNum) == q * portNum;
    SlotNumber(q, 0, portNum);
    AdjustedThreads(numThreads, portNum) / portNum
  }

  /** Rounding up adds threads, fewer than there are ports, exactly if the request is not a multiple. */
  lemma AdjustedExceeds(numThreads: nat, portNum: nat)
    requires portNum > 0
    ensures numThreads <= AdjustedThreads(numThreads, portNum) < numThreads + portNum
    ensures numThreads < AdjustedThreads(numThreads, portNum) <==> numThreads % portNum != 0
  {
    assert numThreads == numThreads / portNum * portNum + numThreads % portNum;
    assert (numThreads / portNum + 1) * portNum == numThreads / portNum * portNum + portNum;
  }

  /** A thread's record: its numbers and whether it has a callback. */
  datatype ThreadInfo = Unset | ThreadInfo(portId: nat, queueId: nat, threadId: nat, hasCallback: bool)

  /** One receive queue and the memory pool it was given. */
  datatype QueueSetup = QueueSetup(portId: nat, queueId: nat, pool: nat)

  /** The device calls of `port_init` that concern a port as a whole, in program order. */
  datatype PortCall = CheckPort | GetInfo | ConfigurePort | AdjustDescriptors | StartPort | ResetStats

  /** Which calls into the DPDK succeed. */
  datatype Calls = Calls(pool: nat -> bool, port: (nat, PortCall) -> bool, queue: (nat, nat) -> bool)

  predicate PortWorks(calls: Calls, portId: nat, queueNum: nat) {
    && calls.port(portId, CheckPort) && calls.port(portId, GetInfo) && calls.port(portId, ConfigurePort)
    && calls.port(portId, AdjustDescriptors) && calls.port(portId, StartPort) && calls.port(portId, ResetStats)
    && forall q: nat :: q < queueNum ==> calls.queue(portId, q)
  }

  /** A port needs every one of these calls, and every one of its queues. */
  lemma PortNeedsEveryCall(calls: Calls, portId: nat, queueNum: nat)
    ensures PortWorks(calls, portId, queueNum)
            <==> (forall op: PortCall :: calls.port(portId, op))
                 && (forall q: nat :: q < queueNum ==> calls.queue(portId, q))
  {
    if PortWorks(calls, portId, queueNum) {
      forall op: PortCall ensures calls.port(portId, op) {
        match op
        case CheckPort =>
        case GetInfo =>
        case ConfigurePort =>
        case AdjustDescriptors =>
        case StartPort =>
        case ResetStats =>
      }
    }
  }

  // ---------- Programs of device calls ----------

  datatype DeviceCall =
    | CreatePool(thread: nat)
    | PortOp(portId: nat, op: PortCall)
    | SetUpQueue(portId: nat, queueId: nat, pool: nat)

  predicate Succeeds(calls: Calls, c: DeviceCall) {
    match c
    case CreatePool(i) => calls.pool(i)
    case PortOp(portId, op) => calls.port(portId, op)
    case SetUpQueue(portId, q, _) => calls.queue(portId, q)
  }

  predicate AllSucceed(calls: Calls, program: seq<DeviceCall>) {
    forall i :: 0 <= i < |program| ==> Succeeds(calls, program[i])
  }

  /** The calls of a program up to and including the first one that fails. */
  function Attempted(calls: Calls, program: seq<DeviceCall>): seq<DeviceCall> {
    if program == [] then []
    else if !Succeeds(calls, program[0]) then [program[0]]
    else [program[0]] + Attempted(calls, program[1..])
  }

  lemma {:induction false} AttemptedBehind(calls: Calls, a: seq<DeviceCall>, b: seq<DeviceCall>)
    requires AllSucceed(calls, a)
    ensures Attempted(calls, a + b) == a + Attempted(calls, b)
  {
    if a == [] {
      assert a + b == b;
    } else {
      assert (a + b)[1..] == a[1..] + b;
      AttemptedBehind(calls, a[1..], b);
    }
  }

  lemma {:induction false} AttemptedStops(calls: Calls, a: seq<DeviceCall>, b: seq<DeviceCall>)
    requires !AllSucceed(calls, a)
    ensures Attempted(calls, a + b) == Attempted(calls, a)
  {
    assert (a + b)[1..] == a[1..] + b;
    if Succeeds(calls, a[0]) {
      AttemptedStops(calls, a[1..], b);
    }
  }

  lemma AttemptedAll(calls: Calls, program: seq<DeviceCall>)
    requires AllSucceed(calls, program)
    ensures Attempted(calls, program) == program
  {
    AttemptedBehind(calls, program, []);
    assert program + [] == program;
  }

  lemma AttemptedUpTo(calls: Calls, program: seq<DeviceCall>, n: nat)
    requires n < |program| && AllSucceed(calls, program[..n]) && !Succeeds(calls, program[n])
    ensures Attempted(calls, program) == program[..n + 1] && !AllSucceed(calls, program)
  {
    AttemptedBehind(calls, program[..n], program[n..]);
    assert program == program[..n] + program[n..];
    assert program[n..][0] == program[n];
  }

  /** The pools of all threads. */
  function PoolsProgram(n: nat): (program: seq<DeviceCall>)
    ensures |program| == n
  {
    seq(n, i requires 0 <= i => CreatePool(i))
  }

  /** `port_init`: the port is configured, then each of its queues gets the pool of its thread number,
      then the port is started. */
  function PortProgram(portId: nat, queueNum: nat): seq<DeviceCall>
  {
    [PortOp(portId, CheckPort), PortOp(portId, GetInfo)]
    + [PortOp(portId, ConfigurePort), PortOp(portId, AdjustDescriptors)]
    + seq(queueNum, q requires 0 <= q => SetUpQueue(portId, q, portId * queueNum + q))
    + [PortOp(portId, StartPort), PortOp(portId, ResetStats)]
  }

  lemma PortProgramIs(portId: nat, queueNum: nat)
    ensures var program := PortProgram(portId, queueNum);
      && |program| == queueNum + 6
      && program[0] == PortOp(portId, CheckPort) && program[1] == PortOp(portId, GetInfo)
      && program[2] == PortOp(portId, ConfigurePort) && program[3] == PortOp(portId, AdjustDescriptors)
      && program[queueNum + 4] == PortOp(portId, StartPort) && program[queueNum + 5] == PortOp(portId, ResetStats)
    ensures forall i :: 4 <= i < queueNum + 4 ==>
      PortProgram(portId, queueNum)[i] == SetUpQueue(portId, i - 4, portId * queueNum + (i - 4))
  {
  }

  /** The ports below `n`, one after the other. */
  function PortsProgram(queueNum: nat, n: nat): seq<DeviceCall> {
    if n == 0 then [] else PortsProgram(queueNum, n - 1) + PortProgram(n - 1, queueNum)
  }

  lemma PortProgramSucceeds(calls: Calls, portId: nat, queueNum: nat)
    ensures AllSucceed(calls, PortProgram(portId, queueNum)) <==> PortWorks(calls, portId, queueNum)
  {
    var program := PortProgram(portId, queueNum);
    PortProgramIs(portId, queueNum);
    if AllSucceed(calls, program) {
      forall q: nat | q < queueNum ensures calls.queue(portId, q) {
        assert Succeeds(calls, program[4 + q]);
      }
    }
    if PortWorks(calls, portId, queueNum) {
      forall i | 0 <= i < |program| ensures Succeeds(calls, program[i]) {
        assert 4 <= i < queueNum + 4 ==> program[i] == SetUpQueue(portId, i - 4, portId * queueNum + (i - 4));
      }
    }
  }

  lemma NextPort(before: seq<DeviceCall>, queueNum: nat, p: nat)
    ensures before + PortsProgram(queueNum, p) + PortProgram(p, queueNum) == before + PortsProgram(queueNum, p + 1)
  {
  }

  lemma PortProgramRuns(calls: Calls, portId: nat, queueNum: nat)
    requires PortWorks(calls, portId, queueNum)
    ensures Attempted(calls, PortProgram(portId, queueNum)) == PortProgram(portId, queueNum)
  {
    PortProgramSucceeds(calls, portId, queueNum);
    AttemptedAll(calls, PortProgram(portId, queueNum));
  }

  lemma {:induction false} PortsProgramSucceeds(calls: Calls, queueNum: nat, n: nat)
    requires forall p: nat :: p < n ==> PortWorks(calls, p, queueNum)
    ensures AllSucceed(calls, PortsProgram(queueNum, n))
  {
    if n > 0 {
      PortsProgramSucceeds(calls, queueNum, n - 1);
      PortProgramSucceeds(calls, n - 1, queueNum);
    }
  }

  /** If port `p` is the first that fails, no call for a later port is attempted. */
  lemma {:induction false} PortsProgramStops(calls: Calls, queueNum: nat, p: nat, n: nat)
    requires p < n && !PortWorks(calls, p, queueNum)
    requires forall r: nat :: r < p ==> PortWorks(calls, r, queueNum)
    ensures !AllSucceed(calls, PortsProgram(queueNum, n))
    ensures Attempted(calls, PortsProgram(queueNum, n))
            == PortsProgram(queueNum, p) + Attempted(calls, PortProgram(p, queueNum))
    decreases n
  {
    var init, last := PortsProgram(queueNum, n - 1), PortProgram(n - 1, queueNum);
    if p == n - 1 {
      PortsProgramSucceeds(calls, queueNum, p);
      PortProgramSucceeds(calls, p, queueNum);
      AttemptedBehind(calls, init, last);
      var i :| 0 <= i < |last| && !Succeeds(calls, last[i]);
      assert (init + last)[|init| + i] == last[i];
    } else {
      PortsProgramStops(calls, queueNum, p, n - 1);
      AttemptedStops(calls, init, last);
      var i :| 0 <= i < |init| && !Succeeds(calls, init[i]);
      assert (init + last)[i] == init[i];
    }
  }

  /** How many of the first `n` ports can be initialized before the first one that cannot. */
  function LeadingPorts(calls: Calls, queueNum: nat, n: nat): (k: nat)
    ensures k <= n && (k < n ==> !PortWorks(calls, k, queueNum))
    ensures forall p: nat :: p < k ==> PortWorks(calls, p, queueNum)
  {
    if n == 0 then 0
    else
      var k := LeadingPorts(calls, queueNum, n - 1);
      if k == n - 1 && PortWorks(calls, n - 1, queueNum) then n else k
  }

  lemma LeadingPortsAre(calls: Calls, queueNum: nat, n: nat, k: nat)
    requires k <= n && (k < n ==> !PortWorks(calls, k, queueNum))
    requires forall p: nat :: p < k ==> PortWorks(calls, p, queueNum)
    ensures LeadingPorts(calls, queueNum, n) == k
  {
  }

  predicate IsSlot(t: ThreadInfo, queueNum: nat, id: nat)
    requires queueNum > 0
  {
    t.ThreadInfo? && t.portId == id / queueNum && t.queueId == id % queueNum && t.threadId == id
  }

  /** The numbers below `n` in ascending order. */
  function Ascending(n: nat): (s: seq<nat>)
    ensures |s| == n
  {
    seq(n, i => i)
  }

  class DPDK {
    const portNum: nat
    var threadInfos: array<ThreadInfo>
    var mbufPools: array<nat>
    /** The successful queue set-up calls in the order in which they were made. */
    var queues: seq<QueueSetup>
    /** The slots that have been given a new record, in the order in which that happened. */
    ghost var fillOrder: seq<nat>
    /** The device calls that have been made, successful or not, in their order. */
    ghost var made: seq<DeviceCall>

    constructor (portNum: nat)
      ensures this.portNum == portNum && queues == [] && fillOrder == [] && made == []
      ensures fresh(threadInfos) && fresh(mbufPools)
    {
      this.portNum := portNum;
      threadInfos := new ThreadInfo[0];
      mbufPools := new nat[0];
      queues := [];
      fillOrder := [];
      made := [];
    }

    ghost predicate FirstSlots(queueNum: nat, n: nat)
      requires queueNum > 0
      reads this`threadInfos, this`fillOrder, threadInfos
    {
      && n <= threadInfos.Length && fillOrder == Ascending(n)
      && forall id :: 0 <= id < n ==> IsSlot(threadInfos[id], queueNum, id) && !threadInfos[id].hasCallback
    }

    ghost predicate FirstQueues(queueNum: nat, n: nat)
      requires queueNum > 0
      reads this`queues
    {
      n == |queues| && forall id :: 0 <= id < n ==> queues[id] == QueueSetup(id / queueNum, id % queueNum, id)
    }

    /** The numbering: thread, queue and pool `id` belong together, and every port has its share. */
    ghost predicate Numbered(queueNum: nat)
      requires queueNum > 0
      reads this, threadInfos
    {
      && threadInfos.Length == |queues| == queueNum * portNum && FirstQueues(queueNum, |queues|)
      && forall id :: 0 <= id < threadInfos.Length ==> IsSlot(threadInfos[id], queueNum, id)
    }

    /** `init_dpdk` up to the launch of the receive loops. It succeeds exactly if there is a port and all
        device calls succeed; then every slot has been filled once, in ascending order. Otherwise the
        slots of the ports before the first failing one have been. */
    method InitDpdk(numThreads: nat, calls: Calls) returns (ok: bool)
      requires numThreads > 0 && portNum < UINT16
      requires portNum > 0 ==> AdjustedThreads(numThreads, portNum) < UINT16
      requires queues == [] && fillOrder == [] && made == []
      modifies this
      ensures made == if portNum == 0 then [] else Attempted(calls,
        PoolsProgram(AdjustedThreads(numThreads, portNum)) + PortsProgram(QueueNum(numThreads, portNum), portNum))
      ensures ok <==>
        && portNum > 0
        && (forall i: nat :: i < AdjustedThreads(numThreads, portNum) ==> calls.pool(i))
        && forall p: nat :: p < portNum ==> PortWorks(calls, p, QueueNum(numThreads, portNum))
      ensures ok ==> threadInfos.Length == AdjustedThreads(numThreads, portNum)
      ensures ok ==> Numbered(QueueNum(numThreads, portNum))
      ensures ok ==> FirstSlots(QueueNum(numThreads, portNum), threadInfos.Length)
      ensures !ok && fillOrder != [] ==> portNum > 0
      ensures !ok && fillOrder != [] ==>
        FirstSlots(QueueNum(numThreads, portNum),
                   LeadingPorts(calls, QueueNum(numThreads, portNum), portNum) * QueueNum(numThreads, portNum))
    {
      if portNum == 0 {
        return false;
      }
      var adjusted := numThreads;
      if numThreads % portNum != 0 {
        adjusted := (numThreads / portNum + 1) * portNum;
      }
      mbufPools := new nat[adjusted];
      threadInfos := new ThreadInfo[adjusted](_ => Unset);
      ok := InitDevices(adjusted, QueueNum(numThreads, portNum), calls);
    }

    method InitDevices(adjusted: nat, queueNum: nat, calls: Calls) returns (ok: bool)
      requires queueNum > 0 && mbufPools.Length == threadInfos.Length == adjusted == queueNum * portNum
      requires queues == [] && fillOrder == [] && made == []
      modifies this`queues, this`fillOrder, this`made, threadInfos, mbufPools
      ensures made == Attempted(calls, PoolsProgram(adjusted) + PortsProgram(queueNum, portNum))
      ensures ok <==>
        && (forall i: nat :: i < adjusted ==> calls.pool(i))
        && forall p: nat :: p < portNum ==> PortWorks(calls, p, queueNum)
      ensures ok ==> Numbered(queueNum) && FirstSlots(queueNum, threadInfos.Length)
      ensures !ok && fillOrder != [] ==> FirstSlots(queueNum, LeadingPorts(calls, queueNum, portNum) * queueNum)
    {
      ghost var pools, ports := PoolsProgram(adjusted), PortsProgram(queueNum, portNum);
      ok := CreatePools(calls);
      if ok {
        AttemptedAll(calls, pools);
        AttemptedBehind(calls, pools, ports);
        ok := InitPorts(queueNum, calls);
      } else {
        AttemptedStops(calls, pools, ports);
      }
    }

    /** Pool `i` is the one created for thread number `i`. */
    ghost predicate OnePoolEach()
      reads this`mbufPools, mbufPools
    {
      forall j :: 0 <= j < mbufPools.Length ==> mbufPools[j] == j
    }

    /** The next device call of a program, of which the calls before have succeeded. */
    ghost predicate Underway(calls: Calls, before: seq<DeviceCall>, program: seq<DeviceCall>, n: nat)
      reads this`made
    {
      n <= |program| && made == before + program[..n] && AllSucceed(calls, program[..n])
    }

    method Try(c: DeviceCall, calls: Calls, ghost before: seq<DeviceCall>, ghost program: seq<DeviceCall>, ghost n: nat)
      returns (ok: bool)
      requires n < |program| && program[n] == c && Underway(calls, before, program, n)
      modifies this`made
      ensures ok <==> Succeeds(calls, c)
      ensures ok ==> Underway(calls, before, program, n + 1)
      ensures !ok ==> made == before + Attempted(calls, program) && !AllSucceed(calls, program)
    {
      ok := Succeeds(calls, c);
      made := made + [c];
      assert before + program[..n] + [c] == before + program[..n + 1];
      if !ok {
        AttemptedUpTo(calls, program, n);
      }
    }

    method CreatePools(calls: Calls) returns (ok: bool)
      modifies mbufPools, this`made
      ensures ok <==> forall i: nat :: i < mbufPools.Length ==> calls.pool(i)
      ensures ok <==> AllSucceed(calls, PoolsProgram(mbufPools.Length))
      ensures made == old(made) + Attempted(calls, PoolsProgram(mbufPools.Length))
      ensures ok ==> OnePoolEach()
    {
      ghost var before, program := made, PoolsProgram(mbufPools.Length);
      assert made == before + program[..0];
      for i := 0 to mbufPools.Length
        invariant forall j: nat :: j < i ==> mbufPools[j] == j && calls.pool(j)
        invariant Underway(calls, before, program, i)
      {
        mbufPools[i] := i;
        ok := Try(CreatePool(i), calls, before, program, i);
        if !ok {
          return;
        }
      }
      assert program[..mbufPools.Length] == program;
      AttemptedAll(calls, program);
      ok := true;
    }

    /** The loop over the ports, up to the first one that fails. */
    method InitPorts(queueNum: nat, calls: Calls) returns (ok: bool)
      requires queueNum > 0 && mbufPools.Length == threadInfos.Length == queueNum * portNum
      requires OnePoolEach() && FirstQueues(queueNum, 0) && FirstSlots(queueNum, 0)
      modifies this`queues, this`fillOrder, this`made, threadInfos
      ensures made == old(made) + Attempted(calls, PortsProgram(queueNum, portNum))
      ensures ok <==> forall p: nat :: p < portNum ==> PortWorks(calls, p, queueNum)
      ensures FirstSlots(queueNum, LeadingPorts(calls, queueNum, portNum) * queueNum)
      ensures ok ==> Numbered(queueNum) && FirstSlots(queueNum, threadInfos.Length)
    {
      ghost var before := made;
      ghost var k;
      ok, k := RunPorts(queueNum, calls);
      LeadingPortsAre(calls, queueNum, portNum, k);
      if ok {
        PortsProgramSucceeds(calls, queueNum, portNum);
        AttemptedAll(calls, PortsProgram(queueNum, portNum));
      } else {
        PortsProgramStops(calls, queueNum, k, portNum);
      }
    }

    /** `k` is the number of ports that have been initialized. */
    method RunPorts(queueNum: nat, calls: Calls) returns (ok: bool, ghost k: nat)
      requires queueNum > 0 && mbufPools.Length == threadInfos.Length == queueNum * portNum
      requires OnePoolEach() && FirstQueues(queueNum, 0) && FirstSlots(queueNum, 0)
      modifies this`queues, this`fillOrder, this`made, threadInfos
      ensures k <= portNum && (ok <==> k == portNum) && (k < portNum ==> !PortWorks(calls, k, queueNum))
      ensures forall p: nat :: p < k ==> PortWorks(calls, p, queueNum)
      ensures FirstSlots(queueNum, k * queueNum) && (ok ==> FirstQueues(queueNum, k * queueNum))
      ensures made == old(made) + (PortsProgram(queueNum, k)
                                   + if ok then [] else Attempted(calls, PortProgram(k, queueNum)))
    {
      ghost var before := made;
      for portId := 0 to portNum
        invariant FirstQueues(queueNum, portId * queueNum) && FirstSlots(queueNum, portId * queueNum)
        invariant forall p: nat :: p < portId ==> PortWorks(calls, p, queueNum)
        invariant made == before + PortsProgram(queueNum, portId)
      {
        PortRange(portId, portNum, queueNum);
        ok := InitOnePort(portId, queueNum, calls);
        if !ok {
          k := portId;
          return;
        }
        PortProgramRuns(calls, portId, queueNum);
        NextPort(before, queueNum, portId);
      }
      ok, k := true, portNum;
    }

    /** One port: its set-up, and its threads if that succeeds. */
    method InitOnePort(portId: nat, queueNum: nat, calls: Calls) returns (ok: bool)
      requires queueNum > 0 && (portId + 1) * queueNum <= mbufPools.Length == threadInfos.Length
      requires OnePoolEach()
      requires FirstQueues(queueNum, portId * queueNum) && FirstSlots(queueNum, portId * queueNum)
      modifies this`queues, this`fillOrder, this`made, threadInfos
      ensures ok <==> PortWorks(calls, portId, queueNum)
      ensures made == old(made) + Attempted(calls, PortProgram(portId, queueNum))
      ensures ok ==> FirstQueues(queueNum, (portId + 1) * queueNum) && FirstSlots(queueNum, (portId + 1) * queueNum)
      ensures !ok ==> FirstSlots(queueNum, portId * queueNum)
    {
      ok := PortInit(portId, queueNum, calls);
      if ok {
        AssignThreads(portId, queueNum);
      }
    }

    /** The inner loop over the queues of one port. */
    method AssignThreads(portId: nat, queueNum: nat)
      requires queueNum > 0 && (portId + 1) * queueNum <= threadInfos.Length
      requires FirstSlots(queueNum, portId * queueNum)
      modifies threadInfos, this`fillOrder
      ensures FirstSlots(queueNum, (portId + 1) * queueNum)
    {
      assert (portId + 1) * queueNum == portId * queueNum + queueNum;
      for q := 0 to queueNum
        invariant FirstSlots(queueNum, portId * queueNum + q)
      {
        var threadId := portId * queueNum + q;
        SlotNumber(portId, q, queueNum);
        threadInfos[threadId] := ThreadInfo(portId, q, threadId, false);
        fillOrder := fillOrder + [threadId];
      }
    }

    /** `port_init`: the first device call that fails ends the set-up of the port. */
    method PortInit(portId: nat, queueNum: nat, calls: Calls) returns (ok: bool)
      requires queueNum > 0 && (portId + 1) * queueNum <= mbufPools.Length
      requires OnePoolEach() && FirstQueues(queueNum, portId * queueNum)
      modifies this`queues, this`made
      ensures ok <==> PortWorks(calls, portId, queueNum)
      ensures made == old(made) + Attempted(calls, PortProgram(portId, queueNum))
      ensures FirstQueues(queueNum, |queues|) && portId * queueNum <= |queues| <= (portId + 1) * queueNum
      ensures ok ==> |queues| == (portId + 1) * queueNum
    {
      assert (portId + 1) * queueNum == portId * queueNum + queueNum;
      ghost var before, program := made, PortProgram(portId, queueNum);
      PortProgramSucceeds(calls, portId, queueNum);
      PortProgramIs(portId, queueNum);
      assert made == before + program[..0];
      ok := Try(PortOp(portId, CheckPort), calls, before, program, 0);
      if !ok {
        return;
      }
      ok := Try(PortOp(portId, GetInfo), calls, before, program, 1);
      if !ok {
        return;
      }
      ok := Try(PortOp(portId, ConfigurePort), calls, before, program, 2);
      if !ok {
        return;
      }
      ok := Try(PortOp(portId, AdjustDescriptors), calls, before, program, 3);
      if !ok {
        return;
      }
      ok := SetUpQueues(portId, queueNum, calls, before);
      if !ok {
        return;
      }
      ok := Try(PortOp(portId, StartPort), calls, before, program, queueNum + 4);
      if !ok {
        return;
      }
      ok := Try(PortOp(portId, ResetStats), calls, before, program, queueNum + 5);
      if ok {
        assert program[..queueNum + 6] == program;
        AttemptedAll(calls, program);
      }
    }

    /** The receive queues of one port, each with the pool of its own thread number. */
    method SetUpQueues(portId: nat, queueNum: nat, calls: Calls, ghost before: seq<DeviceCall>) returns (ok: bool)
      requires queueNum > 0 && (portId + 1) * queueNum <= mbufPools.Length
      requires OnePoolEach() && FirstQueues(queueNum, portId * queueNum)
      requires Underway(calls, before, PortProgram(portId, queueNum), 4)
      modifies this`queues, this`made
      ensures FirstQueues(queueNum, |queues|) && portId * queueNum <= |queues| <= (portId + 1) * queueNum
      ensures ok ==> |queues| == (portId + 1) * queueNum
      ensures ok ==> Underway(calls, before, PortProgram(portId, queueNum), queueNum + 4)
      ensures !ok ==> made == before + Attempted(calls, PortProgram(portId, queueNum))
      ensures !ok ==> !AllSucceed(calls, PortProgram(portId, queueNum))
    {
      assert (portId + 1) * queueNum == portId * queueNum + queueNum;
      ghost var program := PortProgram(portId, queueNum);
      PortProgramIs(portId, queueNum);
      for q := 0 to queueNum
        invariant FirstQueues(queueNum, portId * queueNum + q)
        invariant Underway(calls, before, program, 4 + q)
      {
        var threadId := portId * queueNum + q;
        SlotNumber(portId, q, queueNum);
        ok := Try(SetUpQueue(portId, q, mbufPools[threadId]), calls, before, program, 4 + q);
        if !ok {
          return;
        }
        queues := queues + [QueueSetup(portId, q, mbufPools[threadId])];
      }
      ok := true;
    }

    /** Which slot and which queue belong to queue `q` of a port. */
    lemma SlotOfQueue(queueNum: nat, portId: nat, q: nat)
      requires queueNum > 0 && Numbered(queueNum) && portId < portNum && q < queueNum
      ensures var id := portId * queueNum + q;
        && id < threadInfos.Length == |queues|
        && threadInfos[id].ThreadInfo? && threadInfos[id].portId == portId && threadInfos[id].queueId == q
        && threadInfos[id].threadId == id && queues[id] == QueueSetup(portId, q, id)
    {
      PortRange(portId, portNum, queueNum);
      assert (portId + 1) * queueNum == portId * queueNum + queueNum;
      SlotNumber(portId, q, queueNum);
    }

    /** No two threads share a port and a queue, or a memory pool. */
    lemma SlotsAreDistinct(queueNum: nat, id: nat, other: nat)
      requires queueNum > 0 && Numbered(queueNum) && id < threadInfos.Length && other < threadInfos.Length
      ensures id != other ==>
        threadInfos[id].portId != threadInfos[other].portId || threadInfos[id].queueId != threadInfos[other].queueId
      ensures id != other ==> queues[id].pool != queues[other].pool
    {
      assert id == id / queueNum * queueNum + id % queueNum;
      assert other == other / queueNum * queueNum + other % queueNum;
    }

    /** The launch of the receive loops: thread `i` on core `i`, and thread 0 last, on the calling core.
        The first core that cannot be used ends the launch. */
    method LaunchLoops(launch: nat -> bool) returns (ok: bool, started: seq<nat>)
      requires threadInfos.Length > 0
      ensures ok <==> forall i: nat :: 0 < i < threadInfos.Length ==> launch(i)
      ensures ok ==> started == Ascending(threadInfos.Length)[1..] + [0]
      ensures !ok ==>
        && |started| + 1 < threadInfos.Length && !launch(|started| + 1)
        && started == Ascending(|started| + 1)[1..]
    {
      started := [];
      for i := 1 to threadInfos.Length
        invariant started == Ascending(i)[1..]
        invariant forall j: nat :: 0 < j < i ==> launch(j)
      {
        if !launch(i) {
          return false, started;
        }
        started := started + [i];
      }
      return true, started + [0];
    }

    // ---------- Callbacks ----------

    /** `register_callback`: an id without a slot ends the process. */
    method RegisterCallback(threadId: nat) returns (ok: bool)
      requires forall id :: 0 <= id < threadInfos.Length ==> threadInfos[id].ThreadInfo?
      modifies threadInfos
      ensures ok <==> threadId < threadInfos.Length
      ensures threadInfos[..] == old(
        if ok then threadInfos[..][threadId := threadInfos[threadId].(hasCallback := true)] else threadInfos[..])
    {
      ok := threadId < threadInfos.Length;
      if ok {
        threadInfos[threadId] := threadInfos[threadId].(hasCallback := true);
      }
    }

    /** The loop of `main` over the requested number of threads never ends the process. Exactly the
        threads below that number have a callback afterwards, and these are all threads if and only if
        the number of ports divides it. */
    method RegisterAll(numThreads: nat)
      requires numThreads > 0 && portNum > 0
      requires threadInfos.Length == AdjustedThreads(numThreads, portNum)
      requires Numbered(QueueNum(numThreads, portNum))
      requires forall id :: 0 <= id < threadInfos.Length ==> !threadInfos[id].hasCallback
      modifies threadInfos
      ensures Numbered(QueueNum(numThreads, portNum))
      ensures forall id :: 0 <= id < threadInfos.Length ==> (threadInfos[id].hasCallback <==> id < numThreads)
      ensures (forall id :: 0 <= id < threadInfos.Length ==> threadInfos[id].hasCallback) <==> numThreads % portNum == 0
    {
      var queueNum := QueueNum(numThreads, portNum);
      AdjustedExceeds(numThreads, portNum);
      for i := 0 to numThreads
        invariant Numbered(queueNum)
        invariant forall id :: 0 <= id < threadInfos.Length ==> (threadInfos[id].hasCallback <==> id < i)
      {
        var ok := RegisterCallback(i);
        assert ok;
      }
      if numThreads % portNum != 0 {
        assert !threadInfos[numThreads].hasCallback;
      }
    }
  }

  // ---------- The burst loop ----------

  datatype Kind = Prefetch | Callback | Free
  datatype Use = Use(kind: Kind, buf: nat)

  /** The buffers of all uses of one kind, in order. */
  function Project(log: seq<Use>, kind: Kind): seq<nat> {
    if log == [] then []
    else Project(log[..|log| - 1], kind) + if log[|log| - 1].kind == kind then [log[|log| - 1].buf] else []
  }

  /** The `j`-th free comes after the `j`-th callback, and that after the `j`-th prefetch. */
  ghost predicate InStep(log: seq<Use>) {
    forall n :: 0 <= n <= |log| ==>
      |Project(log[..n], Free)| <= |Project(log[..n], Callback)| <= |Project(log[..n], Prefetch)|
  }

  lemma ProjectMore(log: seq<Use>, u: Use, kind: Kind)
    ensures Project(log + [u], kind) == Project(log, kind) + if u.kind == kind then [u.buf] else []
  {
    assert (log + [u])[..|log|] == log;
  }

  lemma InStepMore(log: seq<Use>, u: Use)
    requires InStep(log)
    requires u.kind == Callback ==> |Project(log, Callback)| < |Project(log, Prefetch)|
    requires u.kind == Free ==> |Project(log, Free)| < |Project(log, Callback)|
    ensures InStep(log + [u])
  {
    var longer := log + [u];
    forall n | 0 <= n <= |longer|
      ensures |Project(longer[..n], Free)| <= |Project(longer[..n], Callback)| <= |Project(longer[..n], Prefetch)|
    {
      if n <= |log| {
        assert longer[..n] == log[..n];
      } else {
        assert longer[..n] == longer && log[..|log|] == log;
        ProjectMore(log, u, Prefetch);
        ProjectMore(log, u, Callback);
        ProjectMore(log, u, Free);
      }
    }
  }

  /** Of the buffers of a burst, the first `ahead` have been prefetched, the first `called` handed to
      the callback and the first `freed` freed. */
  ghost predicate Progress(log: seq<Use>, bufs: seq<nat>, ahead: nat, called: nat, freed: nat) {
    && freed <= called <= ahead <= |bufs| && InStep(log)
    && Project(log, Prefetch) == bufs[..ahead]
    && Project(log, Callback) == bufs[..called]
    && Project(log, Free) == bufs[..freed]
  }

  lemma Prefetched(log: seq<Use>, bufs: seq<nat>, ahead: nat, called: nat, freed: nat)
    requires Progress(log, bufs, ahead, called, freed) && ahead < |bufs|
    ensures Progress(log + [Use(Prefetch, bufs[ahead])], bufs, ahead + 1, called, freed)
  {
    var u := Use(Prefetch, bufs[ahead]);
    InStepMore(log, u);
    ProjectMore(log, u, Prefetch);
    ProjectMore(log, u, Callback);
    ProjectMore(log, u, Free);
  }

  lemma Called(log: seq<Use>, bufs: seq<nat>, ahead: nat, called: nat, freed: nat)
    requires Progress(log, bufs, ahead, called, freed) && called < ahead
    ensures Progress(log + [Use(Callback, bufs[called])], bufs, ahead, called + 1, freed)
  {
    var u := Use(Callback, bufs[called]);
    InStepMore(log, u);
    ProjectMore(log, u, Prefetch);
    ProjectMore(log, u, Callback);
    ProjectMore(log, u, Free);
  }

  lemma Freed(log: seq<Use>, bufs: seq<nat>, ahead: nat, called: nat, freed: nat)
    requires Progress(log, bufs, ahead, called, freed) && freed < called
    ensures Progress(log + [Use(Free, bufs[freed])], bufs, ahead, called, freed + 1)
  {
    var u := Use(Free, bufs[freed]);
    InStepMore(log, u);
    ProjectMore(log, u, Prefetch);
    ProjectMore(log, u, Callback);
    ProjectMore(log, u, Free);
  }

  /** How far the prefetching has come when buffer `i` is about to be processed. */
  function Ahead(i: nat, nbRx: nat): nat {
    if i + DPDK_PREFETCH_NUM < nbRx then i + DPDK_PREFETCH_NUM else nbRx
  }

  /** What happens to buffer `i`: callback, free, and the prefetch of a later buffer. */
  function UsesOf(bufs: seq<nat>, i: nat): seq<Use>
    requires i < |bufs|
  {
    [Use(Callback, bufs[i])] + [Use(Free, bufs[i])]
    + if i + DPDK_PREFETCH_NUM < |bufs| then [Use(Prefetch, bufs[i + DPDK_PREFETCH_NUM])] else []
  }

  lemma OneBufferProcessed(log: seq<Use>, bufs: seq<nat>, i: nat)
    requires i < |bufs| && Progress(log, bufs, Ahead(i, |bufs|), i, i)
    ensures Progress(log + UsesOf(bufs, i), bufs, Ahead(i + 1, |bufs|), i + 1, i + 1)
  {
    var ahead := Ahead(i, |bufs|);
    Called(log, bufs, ahead, i, i);
    var log1 := log + [Use(Callback, bufs[i])];
    Freed(log1, bufs, ahead, i + 1, i);
    var log2 := log1 + [Use(Free, bufs[i])];
    if i + DPDK_PREFETCH_NUM < |bufs| {
      Prefetched(log2, bufs, ahead, i + 1, i + 1);
      assert log + UsesOf(bufs, i) == log2 + [Use(Prefetch, bufs[ahead])];
    } else {
      assert log + UsesOf(bufs, i) == log2;
    }
  }

  function FirstPrefetches(bufs: seq<nat>, n: nat): seq<Use>
    requires n <= |bufs|
  {
    if n == 0 then [] else FirstPrefetches(bufs, n - 1) + [Use(Prefetch, bufs[n - 1])]
  }

  /** The log when buffer `i` is about to be processed. */
  function LogUpTo(bufs: seq<nat>, i: nat): seq<Use>
    requires i <= |bufs|
  {
    if i == 0 then FirstPrefetches(bufs, Ahead(0, |bufs|)) else LogUpTo(bufs, i - 1) + UsesOf(bufs, i - 1)
  }

  lemma {:induction false} FirstPrefetchesProgress(bufs: seq<nat>, n: nat)
    requires n <= |bufs|
    ensures Progress(FirstPrefetches(bufs, n), bufs, n, 0, 0)
  {
    if n > 0 {
      FirstPrefetchesProgress(bufs, n - 1);
      Prefetched(FirstPrefetches(bufs, n - 1), bufs, n - 1, 0, 0);
    }
  }

  lemma {:induction false} LogProgress(bufs: seq<nat>, i: nat)
    requires i <= |bufs|
    ensures Progress(LogUpTo(bufs, i), bufs, Ahead(i, |bufs|), i, i)
  {
    if i == 0 {
      FirstPrefetchesProgress(bufs, Ahead(0, |bufs|));
    } else {
      LogProgress(bufs, i - 1);
      OneBufferProcessed(LogUpTo(bufs, i - 1), bufs, i - 1);
    }
  }

  lemma {:induction false} LogGrows(bufs: seq<nat>, i: nat, n: nat)
    requires i <= n <= |bufs|
    ensures LogUpTo(bufs, i) <= LogUpTo(bufs, n)
    decreases n
  {
    if i < n {
      LogGrows(bufs, i, n - 1);
    }
  }

  lemma PrefixOfLog(a: seq<Use>, b: seq<Use>, log: seq<Use>)
    requires a + b <= log && |b| >= 2
    ensures |a| + 1 < |log| && log[..|a|] == a && log[|a|] == b[0] && log[|a| + 1] == b[1]
  {
    assert log[|a|] == (a + b)[|a|] && log[|a| + 1] == (a + b)[|a| + 1];
    assert log[..|a|] == (a + b)[..|a|];
  }

  /** Buffer by buffer: at the moment of the callback for buffer `i`, exactly the buffers before it have
      been handed over and freed, and the prefetching is four buffers ahead or at the end of the burst.
      The buffer is freed right after its callback. */
  lemma EachBufferInTurn(bufs: seq<nat>, i: nat)
    requires i < |bufs|
    ensures var log, x := LogUpTo(bufs, |bufs|), |LogUpTo(bufs, i)|;
      && x + 1 < |log| && log[x] == Use(Callback, bufs[i]) && log[x + 1] == Use(Free, bufs[i])
      && Project(log[..x], Callback) == bufs[..i] && Project(log[..x], Free) == bufs[..i]
      && Project(log[..x], Prefetch) == bufs[..if i + 4 < |bufs| then i + 4 else |bufs|]
  {
    LogGrows(bufs, i + 1, |bufs|);
    LogProgress(bufs, i);
    assert UsesOf(bufs, i)[0] == Use(Callback, bufs[i]) && UsesOf(bufs, i)[1] == Use(Free, bufs[i]);
    PrefixOfLog(LogUpTo(bufs, i), UsesOf(bufs, i), LogUpTo(bufs, |bufs|));
  }

  /** The prefetches ahead of the processing loop. */
  method PrefetchFirst(bufs: array<nat>, nbRx: nat) returns (log: seq<Use>)
    requires bufs.Length == DPDK_BURST_SIZE && nbRx <= DPDK_BURST_SIZE
    ensures log == FirstPrefetches(bufs[..nbRx], Ahead(0, nbRx))
  {
    log := [];
    var i := 0;
    while i < nbRx && i < DPDK_PREFETCH_NUM
      invariant i <= Ahead(0, nbRx) && log == FirstPrefetches(bufs[..nbRx], i)
    {
      log := log + [Use(Prefetch, bufs[i])];
      i := i + 1;
    }
  }

  /** One received burst, of which the driver has filled the first `nbRx` entries of `bufs`: every
      buffer is prefetched once, handed over once and freed once, in arrival order. */
  method ProcessBurst(bufs: array<nat>, nbRx: nat) returns (log: seq<Use>)
    requires bufs.Length == DPDK_BURST_SIZE && nbRx <= DPDK_BURST_SIZE
    ensures log == LogUpTo(bufs[..nbRx], nbRx)
    ensures Progress(log, bufs[..nbRx], nbRx, nbRx, nbRx)
  {
    ghost var received := bufs[..nbRx];
    log := PrefetchFirst(bufs, nbRx);
    var i := 0;
    while i < nbRx
      invariant i <= nbRx && log == LogUpTo(received, i)
    {
      ghost var before := log;
      log := log + [Use(Callback, bufs[i])];
      log := log + [Use(Free, bufs[i])];
      if i + DPDK_PREFETCH_NUM < nbRx {
        log := log + [Use(Prefetch, bufs[i + DPDK_PREFETCH_NUM])];
      }
      assert log == before + UsesOf(received, i);
      i := i + 1;
    }
    LogProgress(received, nbRx);
  }

  // ---------- What the log means for each buffer ----------

  lemma {:induction false} ProjectPrefix(log: seq<Use>, kind: Kind, x: nat)
    requires x < |log| && log[x].kind == kind
    ensures |Project(log[..x], kind)| < |Project(log, kind)|
    ensures Project(log, kind)[|Project(log[..x], kind)|] == log[x].buf
  {
    var n := |log| - 1;
    if x < n {
      ProjectPrefix(log[..n], kind, x);
      assert log[..n][..x] == log[..x];
    }
  }

  lemma {:induction false} ProjectGrows(log: seq<Use>, kind: Kind, x: nat, y: nat)
    requires x <= y <= |log|
    ensures |Project(log[..x], kind)| <= |Project(log[..y], kind)|
  {
    if x < y {
      ProjectGrows(log, kind, x, y - 1);
      assert log[..y][..y - 1] == log[..y - 1];
    }
  }

  predicate Distinct(bufs: seq<nat>) {
    forall i, j :: 0 <= i < j < |bufs| ==> bufs[i] != bufs[j]
  }

  lemma PositionInLog(log: seq<Use>, bufs: seq<nat>, x: nat, j: nat)
    requires x < |log| && Project(log, log[x].kind) == bufs && Distinct(bufs)
    requires j < |bufs| && log[x].buf == bufs[j]
    ensures |Project(log[..x], log[x].kind)| == j
    ensures |Project(log[..x + 1], log[x].kind)| == j + 1
  {
    ProjectPrefix(log, log[x].kind, x);
    assert log[..x + 1] == log[..x] + [log[x]];
    ProjectMore(log[..x], log[x], log[x].kind);
  }

  /** After its free, a buffer is not prefetched, handed to the callback or freed again. */
  lemma NoUseAfterFree(log: seq<Use>, bufs: seq<nat>, x: nat, y: nat)
    requires Progress(log, bufs, |bufs|, |bufs|, |bufs|) && Distinct(bufs)
    requires x < |log| && y < |log| && log[y].kind == Free && log[x].buf == log[y].buf && x != y
    ensures x < y
  {
    assert bufs[..|bufs|] == bufs;
    var kind := log[x].kind;
    assert Project(log, kind) == bufs;
    ProjectPrefix(log, Free, y);
    var j := |Project(log[..y], Free)|;
    PositionInLog(log, bufs, y, j);
    PositionInLog(log, bufs, x, j);
    assert |Project(log[..y + 1], Free)| <= |Project(log[..y + 1], kind)|;
    if y < x {
      ProjectGrows(log, kind, y + 1, x);
    }
  }
}
