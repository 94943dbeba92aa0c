/** The streaming kernel: one call of ProcessPacket per clock cycle. */
module Kernel {
  import opened BitVectors
  import opened HashIndex
  import opened HashTable
  import opened Network

  /** The part of a packet that fits the 512-bit data bus, as the kernel copies it. */
  datatype Phit = Phit(data: U512, keep: U64, user: U48, last: bool)

  datatype Statistics = Statistics(pktIn: nat, phitIn: nat, pktForward: nat, pktDrop: nat)

  const WORD64: nat := 0x1_0000_0000_0000_0000
  const ZERO_STATS := Statistics(0, 0, 0, 0)

  const DROP: byte := 0
  const FORWARD: byte := 1

  /** Everything the kernel remembers between calls, and the statistics it publishes. */
  datatype Core = Core(table: Table, headers: Headers, phitIdx: nat, local: Statistics, published: Statistics)

  function ResetCore(size: TableSize): Core {
    Core(EmptyTable(size), ZERO_HEADERS, 0, ZERO_STATS, ZERO_STATS)
  }

  /** A 64-bit counter incremented by `n`. */
  function Add64(x: nat, n: nat): nat {
    (x + n) % WORD64
  }

  function Target(h: Headers): NetAddr {
    NetAddr(h.ip.destIp, h.udp.destPort)
  }

  predicate IsUDPOverIPv4(h: Headers) {
    IsIPv4(h.eth) && IsUDP(h.ip)
  }

  function TableAction(t: Table, h: Headers): nat {
    if IsUDPOverIPv4(h) then Lookup(t, Target(h)) else 0
  }

  /** The headers that are latched once phit `p` has been read. */
  function LatchedHeaders(c: Core, p: Phit): Headers {
    if c.phitIdx == 0 then Decode(p.data) else c.headers
  }

  predicate Forwards(c: Core, p: Phit) {
    TableAction(c.table, LatchedHeaders(c, p)) == FORWARD
  }

  /** A cycle without input: the rule registers are inserted, whatever they hold, and the
      statistics are published. */
  function IdleCycle(c: Core, a: NetAddr, action: byte): Core {
    c.(table := Insert(c.table, a, action), published := c.local)
  }

  function CountedPacket(s: Statistics, phitIdx: nat, forwarded: bool): Statistics {
    Statistics(
      Add64(s.pktIn, 1),
      Add64(s.phitIn, phitIdx + 1),
      if forwarded then Add64(s.pktForward, 1) else s.pktForward,
      if forwarded then s.pktDrop else Add64(s.pktDrop, 1))
  }

  /** A cycle that consumes a phit. `phitIdx` has already been reset when it enters the phit count. */
  function PhitCycle(c: Core, p: Phit): Core {
    var idx := if p.last then 0 else c.phitIdx + 1;
    c.(headers := LatchedHeaders(c, p),
       phitIdx := idx,
       local := if p.last then CountedPacket(c.local, idx, Forwards(c, p)) else c.local)
  }

  class PacketFilterKernel {
    var sAxis: seq<Phit>
    var mAxis: seq<Phit>
    var stats: Statistics
    const hashTable: ToeplitzHash
    var localStats: Statistics
    var phitIdx: nat
    const network: NetworkPacket

    ghost predicate Valid()
      reads this, hashTable.toeplitzKey, hashTable.table
    {
      hashTable.Valid()
    }

    ghost function State(): Core
      requires Valid()
      reads this, hashTable.toeplitzKey, hashTable.table, network.ethHdr, network.ipHdr, network.udpHdr
    {
      Core(hashTable.Cells(), network.Fields(), phitIdx, localStats, stats)
    }

    constructor (size: TableSize)
      ensures Valid() && State() == ResetCore(size) && sAxis == mAxis == []
      ensures fresh(hashTable.toeplitzKey) && fresh(hashTable.table)
      ensures fresh(network.ethHdr) && fresh(network.ipHdr) && fresh(network.udpHdr)
    {
      sAxis, mAxis, phitIdx := [], [], 0;
      localStats, stats := ZERO_STATS, ZERO_STATS;
      hashTable := new ToeplitzHash(size);
      network := new NetworkPacket();
    }

    method ProcessPacket(ipv4Addr: U32, udpPort: U16, action: byte)
      requires Valid()
      modifies this, hashTable.table, network.ethHdr, network.ipHdr, network.udpHdr
      ensures Valid()
      ensures old(sAxis) == [] ==>
        && State() == IdleCycle(old(State()), NetAddr(ipv4Addr, udpPort), action)
        && sAxis == [] && mAxis == old(mAxis)
      ensures old(sAxis) != [] ==>
        && State() == PhitCycle(old(State()), old(sAxis[0]))
        && sAxis == old(sAxis[1..])
        && mAxis == old(mAxis) + if Forwards(old(State()), old(sAxis[0])) then [old(sAxis[0])] else []
    {
      if sAxis == [] {
        hashTable.InsertAddr(NetAddr(ipv4Addr, udpPort), action);
        stats := localStats;
        return;
      }
      var incomingPhit := sAxis[0];
      sAxis := sAxis[1..];
      FilterPhit(incomingPhit);
    }

    method FilterPhit(incomingPhit: Phit)
      requires Valid()
      modifies this`mAxis, this`phitIdx, this`localStats, network.ethHdr, network.ipHdr, network.udpHdr
      ensures Valid()
      ensures State() == PhitCycle(old(State()), incomingPhit)
      ensures mAxis == old(mAxis) + if Forwards(old(State()), incomingPhit) then [incomingPhit] else []
    {
      network.Deserialize(incomingPhit.data, phitIdx);
      var tableAction := Decide();
      if tableAction == 1 {
        var outgoingPhit := Phit(incomingPhit.data, incomingPhit.keep, incomingPhit.user, incomingPhit.last);
        mAxis := mAxis + [outgoingPhit];
      }

      phitIdx := if incomingPhit.last then 0 else phitIdx + 1;
      if incomingPhit.last {
        CountPacket(tableAction);
      }
    }

    /** The filtering decision, taken anew for every phit from the latched headers. */
    method Decide() returns (tableAction: nat)
      requires Valid()
      ensures tableAction == TableAction(hashTable.Cells(), network.Fields())
    {
      tableAction := 0;
      if IsIPv4(network.ethHdr.Fields()) && IsUDP(network.ipHdr.Fields()) {
        tableAction := hashTable.LookupAddr(NetAddr(network.ipHdr.destIp, network.udpHdr.destPort));
      }
    }

    method CountPacket(tableAction: nat)
      modifies this`localStats
      ensures localStats == CountedPacket(old(localStats), phitIdx, tableAction == 1)
    {
      localStats := localStats.(pktIn := Add64(localStats.pktIn, 1));
      localStats := localStats.(phitIn := Add64(localStats.phitIn, phitIdx + 1));
      if tableAction == 1 {
        localStats := localStats.(pktForward := Add64(localStats.pktForward, 1));
      } else {
        localStats := localStats.(pktDrop := Add64(localStats.pktDrop, 1));
      }
    }
  }
}
