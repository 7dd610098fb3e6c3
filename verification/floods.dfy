/**
 * Flood detectors.
 *
 * The SYN-flood detector reads the connection table: a connection that saw a
 * SYN but never latched its handshake is incomplete, and a destination whose
 * incomplete connections add up to at least the threshold in SYNs is a
 * potential target.  The ICMP-flood detector counts, per source address, the
 * packets carrying both ICMP and IP, and reports the sources with at least the
 * threshold.  Both compare with `>=`.
 */
module Floods {
  import opened Collections
  import opened Packets
  import opened Connections

  /** One entry of the incomplete-connection list. */
  datatype Incomplete = Incomplete(srcIp: string, srcPort: int, dstIp: string, dstPort: int, synCount: nat)

  predicate IsIncomplete(c: Conn)
  {
    c.synCount > 0 && !c.completeHandshake
  }

  function EntryOf(k: ConnKey, c: Conn): Incomplete
  {
    Incomplete(k.srcIp, k.srcPort, k.dstIp, k.dstPort, c.synCount)
  }

  /** The incomplete connections, in table order. */
  function IncompleteOf(connections: Dict<ConnKey, Conn>): seq<Incomplete>
  {
    if connections == [] then []
    else
      var (k, c) := connections[|connections| - 1];
      IncompleteOf(connections[..|connections| - 1]) + (if IsIncomplete(c) then [EntryOf(k, c)] else [])
  }

  /** Each incomplete connection's destination, weighted by its SYN count. */
  function Targets(incomplete: seq<Incomplete>): seq<(string, int)>
  {
    seq(|incomplete|, i requires 0 <= i < |incomplete| => (incomplete[i].dstIp, incomplete[i].synCount as int))
  }

  /** The threshold the SYN-flood detector uses when the caller gives none. */
  const DefaultSynThreshold: int := 50

  /**
   * Lists the incomplete connections, sums their SYN counts per destination,
   * and keeps the destinations whose sum is at least the threshold.
   */
  method DetectSynFlood(connections: Dict<ConnKey, Conn>, threshold: int := DefaultSynThreshold)
    returns (potentialTargets: Dict<string, int>, incompleteConnections: seq<Incomplete>)
    ensures incompleteConnections == IncompleteOf(connections)
    ensures potentialTargets == AtLeast(Accumulate(Targets(incompleteConnections)), threshold)
  {
    incompleteConnections := [];
    for i := 0 to |connections|
      invariant incompleteConnections == IncompleteOf(connections[..i])
    {
      var (connKey, connData) := connections[i];
      assert connections[..i + 1][..i] == connections[..i];
      if connData.synCount > 0 && !connData.completeHandshake {
        incompleteConnections := incompleteConnections + [Incomplete(
          connKey.srcIp, connKey.srcPort, connKey.dstIp, connKey.dstPort, connData.synCount)];
      }
    }
    assert connections[..|connections|] == connections;

    var targetSynCounts: Dict<string, int> := [];
    for i := 0 to |incompleteConnections|
      invariant targetSynCounts == Accumulate(Targets(incompleteConnections[..i]))
    {
      var conn := incompleteConnections[i];
      assert Targets(incompleteConnections[..i + 1])[..i] == Targets(incompleteConnections[..i]);
      targetSynCounts := Bump(targetSynCounts, conn.dstIp, conn.synCount);
    }
    assert incompleteConnections[..|incompleteConnections|] == incompleteConnections;

    potentialTargets := AtLeast(targetSynCounts, threshold);
  }

  /** Every listed entry is a connection of the table that saw a SYN and is not complete, with its SYN count. */
  lemma {:induction false} IncompleteSound(connections: Dict<ConnKey, Conn>, x: Incomplete)
    requires x in IncompleteOf(connections)
    ensures exists c :: (ConnKey(x.srcIp, x.srcPort, x.dstIp, x.dstPort), c) in connections &&
                        IsIncomplete(c) && c.synCount == x.synCount
  {
    var prev := connections[..|connections| - 1];
    var (k, c) := connections[|connections| - 1];
    if x in IncompleteOf(prev) {
      IncompleteSound(prev, x);
      var c' :| (ConnKey(x.srcIp, x.srcPort, x.dstIp, x.dstPort), c') in prev &&
                IsIncomplete(c') && c'.synCount == x.synCount;
      assert (ConnKey(x.srcIp, x.srcPort, x.dstIp, x.dstPort), c') in connections;
    } else {
      assert x == EntryOf(k, c);
      assert (k, c) in connections;
    }
  }

  /** Every connection of the table that saw a SYN and is not complete is listed. */
  lemma {:induction false} IncompleteComplete(connections: Dict<ConnKey, Conn>, k: ConnKey, c: Conn)
    requires (k, c) in connections && IsIncomplete(c)
    ensures EntryOf(k, c) in IncompleteOf(connections)
  {
    var prev := connections[..|connections| - 1];
    if (k, c) != connections[|connections| - 1] {
      assert connections == prev + [connections[|connections| - 1]];
      IncompleteComplete(prev, k, c);
    }
  }

  /** Sum of the SYN counts of the listed connections towards `ip`. */
  function SynsTowards(incomplete: seq<Incomplete>, ip: string): int
  {
    if incomplete == [] then 0
    else
      var x := incomplete[|incomplete| - 1];
      SynsTowards(incomplete[..|incomplete| - 1], ip) + (if x.dstIp == ip then x.synCount else 0)
  }

  lemma {:induction false} WeightOfTargets(incomplete: seq<Incomplete>, ip: string)
    ensures Weight(Targets(incomplete), ip) == SynsTowards(incomplete, ip)
    ensures ip in Keys(Targets(incomplete)) <==> exists i :: 0 <= i < |incomplete| && incomplete[i].dstIp == ip
  {
    if incomplete != [] {
      var prev := incomplete[..|incomplete| - 1];
      var x := incomplete[|prev|];
      var ts := Targets(incomplete);
      assert ts[..|prev|] == Targets(prev);
      assert ts[|prev|] == (x.dstIp, x.synCount as int);
      WeightOfTargets(prev, ip);
      assert Keys(ts) == Keys(Targets(prev)) + [x.dstIp];
      if exists i :: 0 <= i < |incomplete| && incomplete[i].dstIp == ip {
        var i :| 0 <= i < |incomplete| && incomplete[i].dstIp == ip;
        if i < |prev| {
          assert prev[i].dstIp == ip;
        }
      }
    }
  }

  /**
   * A destination is a potential target exactly when some incomplete
   * connection goes to it and the SYN counts of those connections sum to at
   * least the threshold; it is reported with that sum, and each target once.
   */
  lemma SynFloodTargets(incomplete: seq<Incomplete>, threshold: int, ip: string)
    ensures Distinct(Keys(AtLeast(Accumulate(Targets(incomplete)), threshold)))
    ensures Find(AtLeast(Accumulate(Targets(incomplete)), threshold), ip) ==
      if (exists i :: 0 <= i < |incomplete| && incomplete[i].dstIp == ip) && SynsTowards(incomplete, ip) >= threshold
      then Some(SynsTowards(incomplete, ip)) else None
  {
    var totals := Accumulate(Targets(incomplete));
    AccumulateSums(Targets(incomplete));
    WeightOfTargets(incomplete, ip);
    AtLeastFind(totals, threshold, ip);
  }

  /** Raising the threshold keeps a subset of the targets. */
  lemma SynFloodAntitone(incomplete: seq<Incomplete>, t1: int, t2: int, ip: string)
    requires t1 <= t2
    ensures ip in Keys(AtLeast(Accumulate(Targets(incomplete)), t2)) ==>
            ip in Keys(AtLeast(Accumulate(Targets(incomplete)), t1))
  {
    SynFloodTargets(incomplete, t1, ip);
    SynFloodTargets(incomplete, t2, ip);
  }

  // ---------------------------------------------------------------------------
  // ICMP flood.

  /** The sources of the packets that carry both ICMP and IP, in capture order. */
  function IcmpSources(ps: seq<Packet>): seq<string>
  {
    if ps == [] then []
    else
      var p := ps[|ps| - 1];
      IcmpSources(ps[..|ps| - 1]) + (if p.icmp && p.ip.Some? then [p.ip.value.src] else [])
  }

  lemma IcmpSourcesStep(ps: seq<Packet>, i: int)
    requires 0 <= i < |ps|
    ensures Tally(IcmpSources(ps[..i + 1])) ==
      if ps[i].icmp && ps[i].ip.Some? then Bump(Tally(IcmpSources(ps[..i])), ps[i].ip.value.src, 1)
      else Tally(IcmpSources(ps[..i]))
  {
    var before := IcmpSources(ps[..i]);
    assert ps[..i + 1][..i] == ps[..i];
    if ps[i].icmp && ps[i].ip.Some? {
      assert (before + [ps[i].ip.value.src])[..|before|] == before;
    } else {
      assert before + [] == before;
    }
  }

  /** The threshold the ICMP-flood detector uses when the caller gives none. */
  const DefaultIcmpThreshold: int := 100

  /** Counts ICMP packets per source and keeps the sources with at least the threshold. */
  method DetectIcmpFlood(packets: seq<Packet>, threshold: int := DefaultIcmpThreshold) returns (icmpFlooders: Dict<string, int>)
    ensures icmpFlooders == AtLeast(Tally(IcmpSources(packets)), threshold)
  {
    var icmpCounter: Dict<string, int> := [];
    for i := 0 to |packets|
      invariant icmpCounter == Tally(IcmpSources(packets[..i]))
    {
      var pkt := packets[i];
      IcmpSourcesStep(packets, i);
      if pkt.icmp && pkt.ip.Some? {
        var src := pkt.ip.value.src;
        icmpCounter := Bump(icmpCounter, src, 1);
      }
    }
    assert packets[..|packets|] == packets;
    icmpFlooders := AtLeast(icmpCounter, threshold);
  }

  /**
   * A source is reported exactly when it sent at least the threshold of
   * ICMP-over-IP packets (and at least one), together with that number; each
   * source once.
   */
  lemma IcmpFlooders(ps: seq<Packet>, threshold: int, ip: string)
    ensures Distinct(Keys(AtLeast(Tally(IcmpSources(ps)), threshold)))
    ensures Find(AtLeast(Tally(IcmpSources(ps)), threshold), ip) ==
      if Count(IcmpSources(ps), ip) > 0 && Count(IcmpSources(ps), ip) >= threshold
      then Some(Count(IcmpSources(ps), ip) as int) else None
  {
    var srcs := IcmpSources(ps);
    TallyCounts(srcs);
    CountPositive(srcs, ip);
    AtLeastFind(Tally(srcs), threshold, ip);
  }
}
