/** The kernel object and the rule registers together perform the runs. */
module Card {
  import opened BitVectors
  import opened HashIndex
  import opened HashTable
  import opened Kernel
  import opened Runs

  class FilterCard {
    const kernel: PacketFilterKernel
    var regs: Registers

    ghost predicate Valid()
      reads this, kernel, kernel.hashTable.toeplitzKey, kernel.hashTable.table
    {
      kernel.Valid() && kernel.sAxis == []
    }

    ghost function Value(): State
      requires Valid()
      reads this, kernel, kernel.hashTable.toeplitzKey, kernel.hashTable.table
      reads kernel.network.ethHdr, kernel.network.ipHdr, kernel.network.udpHdr
    {
      State(kernel.State(), regs, kernel.mAxis)
    }

    constructor (size: TableSize)
      ensures Valid() && Value() == Reset(size)
    {
      kernel := new PacketFilterKernel(size);
      regs := Registers(ZERO_ADDR, DROP);
    }

    /** One clock cycle of the kernel, or one register write of the software. */
    method Perform(e: Event)
      requires Valid()
      modifies this, kernel, kernel.hashTable.table
      modifies kernel.network.ethHdr, kernel.network.ipHdr, kernel.network.udpHdr
      ensures Valid() && Value() == Step(old(Value()), e)
    {
      match e
      case Idle =>
        kernel.ProcessPacket(regs.addr.ip, regs.addr.port, regs.action);
      case Consume(p) =>
        kernel.sAxis := [p];
        kernel.ProcessPacket(regs.addr.ip, regs.addr.port, regs.action);
      case _ =>
        regs := Written(regs, e);
    }

    /** Calling the kernel object cycle by cycle yields the run. */
    method PerformAll(es: seq<Event>)
      requires Valid()
      modifies this, kernel, kernel.hashTable.table
      modifies kernel.network.ethHdr, kernel.network.ipHdr, kernel.network.udpHdr
      ensures Valid() && Value() == Run(old(Value()), es)
    {
      for i := 0 to |es|
        invariant Valid() && Value() == Run(old(Value()), es[..i])
      {
        Perform(es[i]);
        AtStep(old(Value()), es, i);
      }
      assert es[..|es|] == es;
    }
  }
}
