/** The frames that leave the kernel: where they begin, and whether they begin with the headers of
    the packet that they come from. */
module OutputFrames {
  import opened BitVectors
  import opened HashIndex
  import opened HashTable
  import opened Network
  import opened Kernel
  import opened Runs
  import opened PacketLevel
  import opened RuleInstall
  import opened Frames

  /** A receiver of the stream `out` takes phit `i` for the first one of a frame. */
  predicate StartsFrame(out: seq<Phit>, i: int) {
    0 <= i < |out| && (i == 0 || out[i - 1].last)
  }

  // ---------- A rule that arrives too late ----------

  /** The last phit of a packet, with a frame's first 64 bytes as its data. */
  function FramePhit(frame: FrameHead): Phit {
    Phit(PhitData(frame), Zeros(64), Zeros(48), true)
  }

  /** Any bytes at all can leave the kernel as a frame of their own, and so the filter forwards frames
      that the packet handler skips: they are the second phit of a packet whose rule came late. */
  lemma SkippedFrameCanLeave(size: TableSize, r: NetAddr, frame: FrameHead)
    requires !HandlerGates(frame)
    ensures Follows([r], LateRule(r, FramePhit(frame)))
    ensures var out := Run(Reset(size), LateRule(r, FramePhit(frame))).out;
      StartsFrame(out, 0) && out[0].data == PhitData(frame) && !IsUDPOverIPv4(Decode(out[0].data))
  {
    PacketCanLoseItsHead(size, r, FramePhit(frame));
    HardwareGatesAreHandlerGates(frame);
  }

  /** A frame of zeros is one of them. */
  lemma ZeroFrameIsSkipped()
    ensures !HandlerGates(seq(64, _ => 0))
  {
    GatesOfBytes(seq(64, _ => 0));
  }

  // ---------- Settled runs ----------

  lemma {:induction false} NoLastPhitInside(phits: seq<Phit>, j: nat)
    requires j + 1 < PacketLength(phits)
    ensures !phits[j].last
  {
    if j > 0 {
      NoLastPhitInside(phits[1..], j - 1);
    }
  }

  lemma NoStartInside(phits: seq<Phit>, n: nat, rest: seq<Phit>, i: nat)
    requires n == PacketLength(phits) && 0 < i < n
    ensures !StartsFrame(phits[..n] + rest, i)
  {
    NoLastPhitInside(phits, i - 1);
    assert (phits[..n] + rest)[i - 1] == phits[i - 1];
  }

  ghost predicate AllStarts(out: seq<Phit>, ok: Phit -> bool) {
    forall i :: StartsFrame(out, i) ==> ok(out[i])
  }

  lemma PacketInFront(phits: seq<Phit>, n: nat, rest: seq<Phit>, ok: Phit -> bool)
    requires phits != [] && n == PacketLength(phits) && ok(phits[0]) && AllStarts(rest, ok)
    ensures AllStarts(phits[..n] + rest, ok)
  {
    var out := phits[..n] + rest;
    forall i | StartsFrame(out, i) ensures ok(out[i]) {
      if 0 < i < n {
        NoStartInside(phits, n, rest, i);
      } else if i >= n {
        assert StartsFrame(rest, i - n) && out[i] == rest[i - n];
      }
    }
  }

  function AcceptsPhit(t: Table): Phit -> bool {
    (p: Phit) => Accepts(t, Decode(p.data))
  }

  /** Every frame that the packet-level filter lets out begins with the headers of an accepted packet. */
  lemma {:induction false} FilteredFramesAreAccepted(t: Table, phits: seq<Phit>)
    ensures AllStarts(FilterPackets(t, phits), AcceptsPhit(t))
    decreases |phits|
  {
    if phits != [] {
      var n := PacketLength(phits);
      var rest := FilterPackets(t, phits[n..]);
      FilteredFramesAreAccepted(t, phits[n..]);
      if AcceptsPhit(t)(phits[0]) {
        PacketInFront(phits, n, rest, AcceptsPhit(t));
      } else {
        assert [] + rest == rest;
      }
    }
  }

  /** From a packet boundary on, and as long as the rule in the registers is settled, the handler
      skips none of the frames that leave the kernel. */
  lemma SettledFramesPass(s: State, es: seq<Event>, i: nat, frame: FrameHead)
    requires HardwareOnly(es) && Settled(s) && s.core.phitIdx == 0
    ensures s.out <= Run(s, es).out
    ensures var out := Run(s, es).out[|s.out|..];
      StartsFrame(out, i) && out[i].data == PhitData(frame)
      ==> Accepts(s.core.table, Decode(PhitData(frame))) && HandlerGates(frame)
  {
    SettledRunFilters(s, es, s.core.table);
    var out := Run(s, es).out[|s.out|..];
    assert out == FilterPackets(s.core.table, Phits(es));
    if StartsFrame(out, i) && out[i].data == PhitData(frame) {
      FilteredFramesAreAccepted(s.core.table, Phits(es));
      HardwareGatesAreHandlerGates(frame);
    }
  }

  // ---------- Runs of the constructor ----------

  /** The output of an emitted phit goes to this place. */
  function Place(s: State, es: seq<Event>, k: nat): nat
    requires k <= |es|
  {
    |At(s, es, k).out|
  }

  lemma {:induction false} OutputGrows(s: State, es: seq<Event>, m: nat, n: nat)
    requires m <= n <= |es|
    ensures At(s, es, m).out <= At(s, es, n).out
  {
    if m < n {
      OutputGrows(s, es, m, n - 1);
      OutAt(s, es, n - 1);
    }
  }

  /** Every phit of the output is an emitted phit at its place. */
  lemma {:induction false} OutputHasOrigin(size: TableSize, es: seq<Event>, n: nat, i: nat)
    requires n <= |es| && i < |At(Reset(size), es, n).out|
    ensures exists k: nat :: k < n && Emitted(Reset(size), es, k) && Place(Reset(size), es, k) == i
  {
    AtEnds(Reset(size), es);
    OutAt(Reset(size), es, n - 1);
    if i < |At(Reset(size), es, n - 1).out| {
      OutputHasOrigin(size, es, n - 1, i);
    } else {
      assert Emitted(Reset(size), es, n - 1) && Place(Reset(size), es, n - 1) == i;
    }
  }

  predicate BetweenFrames(out: seq<Phit>) {
    out == [] || out[|out| - 1].last
  }

  /** There is no packet in flight whose latest phit was emitted. */
  predicate NothingPending(s: State, es: seq<Event>, n: nat)
    requires n <= |es|
  {
    AtPacketStart(es, n) || !Emitted(s, es, PreviousPhit(es, n))
  }

  lemma DroppedAfterDropped(size: TableSize, rules: seq<NetAddr>, es: seq<Event>, n: nat)
    requires n < |es| && Follows(rules, es) && IsPhit(es, n) && !Emitted(Reset(size), es, n)
    ensures NothingPending(Reset(size), es, n)
  {
    if !AtPacketStart(es, n) && Emitted(Reset(size), es, PreviousPhit(es, n)) {
      EmittedPhitsFormSuffix(size, rules, es, PreviousPhit(es, n), n);
    }
  }

  lemma PendingStep(s: State, es: seq<Event>, n: nat)
    requires n < |es|
    ensures NothingPending(s, es, n + 1)
            <==> if IsPhit(es, n) then es[n].p.last || !Emitted(s, es, n) else NothingPending(s, es, n)
  {
  }

  lemma BetweenFramesStep(out: seq<Phit>, p: Phit)
    ensures BetweenFrames(out + [p]) <==> p.last
    ensures BetweenFrames(out + []) <==> BetweenFrames(out)
  {
    assert out + [] == out;
  }

  /** In every state of a constructor run the output stands between two frames exactly if there is no
      packet in flight whose latest phit was emitted: packets may lose their head, never their end. */
  lemma {:induction false} OutputBetweenFrames(size: TableSize, rules: seq<NetAddr>, es: seq<Event>, n: nat)
    requires n <= |es| && Follows(rules, es)
    ensures BetweenFrames(At(Reset(size), es, n).out) <==> NothingPending(Reset(size), es, n)
  {
    if n == 0 {
      AtEnds(Reset(size), es);
    } else {
      OutputBetweenFrames(size, rules, es, n - 1);
      OutAt(Reset(size), es, n - 1);
      PendingStep(Reset(size), es, n - 1);
      if IsPhit(es, n - 1) {
        BetweenFramesStep(At(Reset(size), es, n - 1).out, es[n - 1].p);
        if !Emitted(Reset(size), es, n - 1) {
          DroppedAfterDropped(size, rules, es, n - 1);
        }
      }
    }
  }

  lemma StartBehind(a: seq<Phit>, p: Phit, out: seq<Phit>)
    requires a + [p] <= out
    ensures |a| < |out| && out[|a|] == p && (StartsFrame(out, |a|) <==> BetweenFrames(a))
  {
    assert out[|a|] == (a + [p])[|a|];
    if a != [] {
      assert out[|a| - 1] == (a + [p])[|a| - 1];
    }
  }

  /** Where the output of an emitted phit lies, and whether it begins a frame there. */
  lemma EmittedPhitAtItsPlace(size: TableSize, rules: seq<NetAddr>, es: seq<Event>, k: nat)
    requires Follows(rules, es) && Emitted(Reset(size), es, k)
    ensures var out, i := Run(Reset(size), es).out, Place(Reset(size), es, k);
      && i < |out| && out[i] == es[k].p
      && (StartsFrame(out, i) <==> NothingPending(Reset(size), es, k))
  {
    AtEnds(Reset(size), es);
    OutAt(Reset(size), es, k);
    OutputGrows(Reset(size), es, k + 1, |es|);
    OutputBetweenFrames(size, rules, es, k);
    StartBehind(At(Reset(size), es, k).out, es[k].p, Run(Reset(size), es).out);
  }

  /** The bucket of the packet of phit `k` was open before the first phit of the packet arrived. */
  ghost predicate LitInTime(size: TableSize, rules: seq<NetAddr>, es: seq<Event>, k: nat)
    requires Follows(rules, es) && IsPhit(es, k)
  {
    Lit(size, rules, es, FirstPhit(es, k), Bucket(size, Target(PacketHeaders(es, k))))
  }

  lemma FirstPhitEmittedIffLit(size: TableSize, rules: seq<NetAddr>, es: seq<Event>, k: nat)
    requires Follows(rules, es) && Emitted(Reset(size), es, k)
    ensures Emitted(Reset(size), es, FirstPhit(es, k)) <==> LitInTime(size, rules, es, k)
  {
    var f := FirstPhit(es, k);
    FirstPhitIsFixed(es, k);
    VerdictPerPhit(Reset(size), es, k);
    VerdictPerPhit(Reset(size), es, f);
    CellsAfter(size, rules, es, f, Bucket(size, Target(PacketHeaders(es, k))));
  }

  /** In every interleaving of the constructor, a frame that leaves the kernel begins with the
      header phit of its packet if and only if the packet's bucket was open before that phit arrived. */
  lemma FrameBeginsWithHeadersIffLit(size: TableSize, rules: seq<NetAddr>, es: seq<Event>, k: nat)
    requires Follows(rules, es) && Emitted(Reset(size), es, k)
    requires StartsFrame(Run(Reset(size), es).out, Place(Reset(size), es, k))
    ensures k == FirstPhit(es, k) <==> LitInTime(size, rules, es, k)
  {
    FirstPhitEmittedIffLit(size, rules, es, k);
    EmittedPhitAtItsPlace(size, rules, es, k);
    if LitInTime(size, rules, es, k) && !AtPacketStart(es, k) {
      FirstPhitIsFixed(es, k);
      EmittedPhitsFormSuffix(size, rules, es, FirstPhit(es, k), PreviousPhit(es, k));
    }
  }

  /** All frames of the output, which `OutputHasOrigin` traces back to emitted phits, begin with the
      header phit of their packet. */
  ghost predicate FramesBeginWithHeaders(size: TableSize, es: seq<Event>) {
    forall k: nat :: Emitted(Reset(size), es, k) && StartsFrame(Run(Reset(size), es).out, Place(Reset(size), es, k))
      ==> k == FirstPhit(es, k)
  }

  ghost predicate AllLitInTime(size: TableSize, rules: seq<NetAddr>, es: seq<Event>)
    requires Follows(rules, es)
  {
    forall k: nat :: Emitted(Reset(size), es, k) ==> LitInTime(size, rules, es, k)
  }

  /** The first phit of a packet that is emitted at all begins a frame. */
  lemma {:induction false} FirstEmittedOfPacket(size: TableSize, rules: seq<NetAddr>, es: seq<Event>, k: nat)
    returns (j: nat)
    requires Follows(rules, es) && Emitted(Reset(size), es, k)
    ensures Emitted(Reset(size), es, j) && SamePacket(es, j, k) && NothingPending(Reset(size), es, j)
    decreases k
  {
    j := k;
    if !NothingPending(Reset(size), es, k) {
      j := FirstEmittedOfPacket(size, rules, es, PreviousPhit(es, k));
    }
  }

  /** For whole runs: all frames begin with the headers of their packet if and only if every packet
      of which anything was forwarded found its bucket open. */
  lemma FramesBeginWithHeadersIffLit(size: TableSize, rules: seq<NetAddr>, es: seq<Event>)
    requires Follows(rules, es)
    ensures FramesBeginWithHeaders(size, es) <==> AllLitInTime(size, rules, es)
  {
    if AllLitInTime(size, rules, es) {
      forall k: nat | Emitted(Reset(size), es, k) && StartsFrame(Run(Reset(size), es).out, Place(Reset(size), es, k))
        ensures k == FirstPhit(es, k)
      {
        FrameBeginsWithHeadersIffLit(size, rules, es, k);
      }
    }
    if FramesBeginWithHeaders(size, es) {
      forall k: nat | Emitted(Reset(size), es, k) ensures LitInTime(size, rules, es, k) {
        var j := FirstEmittedOfPacket(size, rules, es, k);
        EmittedPhitAtItsPlace(size, rules, es, j);
        FrameBeginsWithHeadersIffLit(size, rules, es, j);
      }
    }
  }

  /** If every packet found its bucket open in time, the handler skips no frame of the output. */
  lemma FramesInTimePass(size: TableSize, rules: seq<NetAddr>, es: seq<Event>, i: nat, frame: FrameHead)
    requires Follows(rules, es) && AllLitInTime(size, rules, es)
    requires StartsFrame(Run(Reset(size), es).out, i) && Run(Reset(size), es).out[i].data == PhitData(frame)
    ensures HandlerGates(frame)
  {
    AtEnds(Reset(size), es);
    OutputHasOrigin(size, es, |es|, i);
    var k: nat :| k < |es| && Emitted(Reset(size), es, k) && Place(Reset(size), es, k) == i;
    EmittedPhitAtItsPlace(size, rules, es, k);
    FrameBeginsWithHeadersIffLit(size, rules, es, k);
    VerdictPerPhit(Reset(size), es, k);
    HardwareGatesAreHandlerGates(frame);
  }
}
