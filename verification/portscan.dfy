/**
 * Port-scan detection.
 *
 * For every source address of an IP packet, the detector collects the set of
 * distinct (protocol, destination port) pairs it contacted: the TCP port when
 * the packet has a TCP layer, otherwise the UDP port, otherwise nothing.  A
 * source with at least the threshold of distinct pairs is a scanner, reported
 * with the size of its set and the set sorted by port, cut to the first 20.
 *
 * The sort key is the port alone and the set iterates in hash order, so where
 * a TCP and a UDP pair share a port their relative order is not determined;
 * the sample is therefore specified by the properties every such order has.
 */
module PortScan {
  import opened Collections
  import opened Packets

  datatype Proto = TCP | UDP

  type PortPair = (Proto, int)

  /** The number of pairs a scanner's report lists. */
  const SampleSize: nat := 20

  /** A packet contributes a pair when it has IP and TCP or UDP. */
  predicate Scanned(p: Packet)
  {
    p.ip.Some? && (p.tcp.Some? || p.udp.Some?)
  }

  function PairOf(p: Packet): PortPair
    requires Scanned(p)
  {
    if p.tcp.Some? then (TCP, p.tcp.value.dport) else (UDP, p.udp.value.dport)
  }

  /** `ip_ports[ip]` on the `defaultdict(set)`. */
  function PortsIn(m: Dict<string, set<PortPair>>, ip: string): set<PortPair>
  {
    if Find(m, ip).Some? then Find(m, ip).value else {}
  }

  /** The pair sets after the packets `ps`, keyed in first-appearance order. */
  function IpPorts(ps: seq<Packet>): Dict<string, set<PortPair>>
  {
    if ps == [] then []
    else
      var m := IpPorts(ps[..|ps| - 1]);
      var p := ps[|ps| - 1];
      if Scanned(p) then Put(m, p.ip.value.src, PortsIn(m, p.ip.value.src) + {PairOf(p)}) else m
  }

  /** The pairs contacted from `ip`, as a set comprehension over the capture. */
  function PortsOf(ps: seq<Packet>, ip: string): set<PortPair>
  {
    set i | 0 <= i < |ps| && Scanned(ps[i]) && ps[i].ip.value.src == ip :: PairOf(ps[i])
  }

  /**
   * The sample a scanner report lists: `min(|s|, 20)` distinct pairs of `s`,
   * in non-decreasing port order, no omitted pair having a smaller port than
   * a listed one.  This is what `sorted(list(s), key=port)[:20]` yields
   * whatever order the set iterates in.
   */
  predicate IsSample(sample: seq<PortPair>, s: set<PortPair>)
  {
    && |sample| == (if |s| < SampleSize then |s| else SampleSize)
    && (forall i, j :: 0 <= i < j < |sample| ==> sample[i] != sample[j])
    && (forall i :: 0 <= i < |sample| ==> sample[i] in s)
    && (forall i, j :: 0 <= i < j < |sample| ==> sample[i].1 <= sample[j].1)
    && (forall x, i :: x in s && x !in sample && 0 <= i < |sample| ==> sample[i].1 <= x.1)
  }

  datatype ScanReport = ScanReport(portCount: nat, ports: seq<PortPair>)

  /** A report describes the pair set it was made from. */
  predicate Describes(r: ScanReport, s: set<PortPair>)
  {
    r.portCount == |s| && IsSample(r.ports, s)
  }

  /** The sources whose pair set has at least `threshold` elements, in table order. */
  function Heavy(m: Dict<string, set<PortPair>>, threshold: int): seq<string>
  {
    if m == [] then []
    else Heavy(m[..|m| - 1], threshold) + (if |m[|m| - 1].1| >= threshold then [m[|m| - 1].0] else [])
  }

  /** A non-empty set has a pair with the smallest port. */
  lemma {:induction false} LowestPortExists(s: set<PortPair>)
    requires s != {}
    ensures exists m :: m in s && forall x :: x in s ==> m.1 <= x.1
    decreases |s|
  {
    var y :| y in s;
    if s != {y} {
      var rest := s - {y};
      assert |rest| < |s|;
      LowestPortExists(rest);
      var m :| m in rest && forall x :: x in rest ==> m.1 <= x.1;
      var low := if y.1 < m.1 then y else m;
      forall x | x in s ensures low.1 <= x.1 {
        if x != y {
          assert x in rest;
        }
      }
    } else {
      assert forall x :: x in s ==> x == y;
    }
  }

  /**
   * Midway through sampling `s`: `sample` holds the pairs taken so far, in
   * non-decreasing port order and none twice, and `rest` the pairs not yet
   * taken, none with a smaller port than a taken one.
   */
  predicate Sampling(sample: seq<PortPair>, rest: set<PortPair>, s: set<PortPair>)
  {
    && rest <= s
    && |rest| + |sample| == |s|
    && (forall x :: x in s ==> x in rest || x in sample)
    && (forall i :: 0 <= i < |sample| ==> sample[i] in s && sample[i] !in rest)
    && (forall i, j :: 0 <= i < j < |sample| ==> sample[i] != sample[j])
    && (forall i, j :: 0 <= i < j < |sample| ==> sample[i].1 <= sample[j].1)
    && (forall x, i :: x in rest && 0 <= i < |sample| ==> sample[i].1 <= x.1)
  }

  /** Taking a pair with the lowest remaining port keeps the sampling state. */
  lemma SamplingStep(sample: seq<PortPair>, rest: set<PortPair>, s: set<PortPair>, lowest: PortPair)
    requires Sampling(sample, rest, s)
    requires lowest in rest && forall x :: x in rest ==> lowest.1 <= x.1
    ensures Sampling(sample + [lowest], rest - {lowest}, s)
  {
    var sample', rest' := sample + [lowest], rest - {lowest};
    assert forall i :: 0 <= i < |sample| ==> sample'[i] == sample[i];
    assert forall x :: x in sample ==> x in sample';
  }

  /** Sampling stops with a full sample or an exhausted set, and then has a sample. */
  lemma SamplingDone(sample: seq<PortPair>, rest: set<PortPair>, s: set<PortPair>)
    requires Sampling(sample, rest, s) && |sample| <= SampleSize
    requires |sample| == SampleSize || rest == {}
    ensures IsSample(sample, s)
  {
    forall x, i | x in s && x !in sample && 0 <= i < |sample|
      ensures sample[i].1 <= x.1
    {
      assert x in rest;
    }
  }

  /** `sorted(list(s), key=port)[:20]`, taking a pair with the lowest remaining port each time. */
  method SamplePorts(s: set<PortPair>) returns (sample: seq<PortPair>)
    ensures IsSample(sample, s)
  {
    sample := [];
    var rest := s;
    while |sample| < SampleSize && rest != {}
      invariant Sampling(sample, rest, s) && |sample| <= SampleSize
      decreases |rest|
    {
      LowestPortExists(rest);
      var lowest :| lowest in rest && forall x :: x in rest ==> lowest.1 <= x.1;
      SamplingStep(sample, rest, s, lowest);
      sample := sample + [lowest];
      rest := rest - {lowest};
    }
    SamplingDone(sample, rest, s);
  }

  /** The threshold the detector uses when the caller gives none. */
  const DefaultScanThreshold: int := 10

  /**
   * Collects the pair set of every source, then reports each source whose set
   * has at least the threshold of pairs, with the set's size and sorted sample.
   */
  method DetectPortScanning(packets: seq<Packet>, threshold: int := DefaultScanThreshold) returns (scanners: Dict<string, ScanReport>)
    ensures Keys(scanners) == Heavy(IpPorts(packets), threshold)
    ensures forall ip :: Find(scanners, ip).Some? ==>
              Find(IpPorts(packets), ip).Some? && Describes(Find(scanners, ip).value, Find(IpPorts(packets), ip).value)
  {
    var ipPorts: Dict<string, set<PortPair>> := [];
    for i := 0 to |packets|
      invariant ipPorts == IpPorts(packets[..i])
    {
      var pkt := packets[i];
      assert packets[..i + 1][..i] == packets[..i];
      if pkt.ip.Some? {
        var src := pkt.ip.value.src;
        if pkt.tcp.Some? {
          ipPorts := Put(ipPorts, src, PortsIn(ipPorts, src) + {(TCP, pkt.tcp.value.dport)});
        } else if pkt.udp.Some? {
          ipPorts := Put(ipPorts, src, PortsIn(ipPorts, src) + {(UDP, pkt.udp.value.dport)});
        }
      }
    }
    assert packets[..|packets|] == packets;

    IpPortsKeys(packets);
    scanners := [];
    for i := 0 to |ipPorts|
      invariant Keys(scanners) == Heavy(ipPorts[..i], threshold)
      invariant forall ip :: ip in Keys(scanners) ==> ip in Keys(ipPorts[..i])
      invariant forall ip :: Find(scanners, ip).Some? ==>
                  Find(ipPorts, ip).Some? && Describes(Find(scanners, ip).value, Find(ipPorts, ip).value)
    {
      var (ip, ports) := ipPorts[i];
      assert ipPorts[..i + 1][..i] == ipPorts[..i];
      assert Keys(ipPorts[..i + 1]) == Keys(ipPorts[..i]) + [ip];
      DistinctFind(ipPorts, i);
      if |ports| >= threshold {
        var sample := SamplePorts(ports);
        assert ip !in Keys(scanners);
        PutKeys(scanners, ip, ScanReport(|ports|, sample));
        PutOthers(scanners, ip, ScanReport(|ports|, sample));
        scanners := Put(scanners, ip, ScanReport(|ports|, sample));
      } else {
        assert Heavy(ipPorts[..i + 1], threshold) == Heavy(ipPorts[..i], threshold) + [];
      }
    }
    assert ipPorts[..|ipPorts|] == ipPorts;
  }

  /** In a dictionary with distinct keys, the i-th entry is what `Find` returns and its key is new up to i. */
  lemma DistinctFind<V>(m: Dict<string, V>, i: int)
    requires Distinct(Keys(m)) && 0 <= i < |m|
    ensures Find(m, m[i].0) == Some(m[i].1)
    ensures m[i].0 !in Keys(m[..i])
  {
    if i > 0 {
      assert m == [m[0]] + m[1..];
      KeysCons(m[0], m[1..]);
      assert Keys(m)[0] != Keys(m)[i];
      assert Distinct(Keys(m[1..])) by {
        assert Keys(m[1..]) == Keys(m)[1..];
      }
      DistinctFind(m[1..], i - 1);
      FindCons(m[0], m[1..], m[i].0);
      assert m[..i] == [m[0]] + m[1..][..i - 1];
      KeysCons(m[0], m[1..][..i - 1]);
    } else {
      assert m == [m[0]] + m[1..];
      FindCons(m[0], m[1..], m[0].0);
    }
  }

  /** The sources that contributed a pair, in capture order, with repetitions. */
  function Sources(ps: seq<Packet>): seq<string>
  {
    if ps == [] then []
    else
      var p := ps[|ps| - 1];
      Sources(ps[..|ps| - 1]) + (if Scanned(p) then [p.ip.value.src] else [])
  }

  /** The table has each contributing source once, in first-appearance order. */
  lemma {:induction false} IpPortsKeys(ps: seq<Packet>)
    ensures Keys(IpPorts(ps)) == Dedup(Sources(ps))
    ensures Distinct(Keys(IpPorts(ps)))
  {
    if ps != [] {
      var prev := ps[..|ps| - 1];
      var p := ps[|ps| - 1];
      IpPortsKeys(prev);
      if Scanned(p) {
        var m := IpPorts(prev);
        PutDedup(m, Sources(prev), p.ip.value.src, PortsIn(m, p.ip.value.src) + {PairOf(p)});
      } else {
        assert Sources(ps) == Sources(prev) + [];
        assert Sources(prev) + [] == Sources(prev);
      }
    }
  }

  lemma PortsOfSnoc(ps: seq<Packet>, p: Packet, ip: string)
    ensures PortsOf(ps + [p], ip) ==
      PortsOf(ps, ip) + (if Scanned(p) && p.ip.value.src == ip then {PairOf(p)} else {})
  {
    var qs := ps + [p];
    forall x | x in PortsOf(qs, ip)
      ensures x in PortsOf(ps, ip) + (if Scanned(p) && p.ip.value.src == ip then {PairOf(p)} else {})
    {
      var i :| 0 <= i < |qs| && Scanned(qs[i]) && qs[i].ip.value.src == ip && x == PairOf(qs[i]);
      if i < |ps| {
        assert qs[i] == ps[i];
      }
    }
    forall x | x in PortsOf(ps, ip) ensures x in PortsOf(qs, ip) {
      var i :| 0 <= i < |ps| && Scanned(ps[i]) && ps[i].ip.value.src == ip && x == PairOf(ps[i]);
      assert qs[i] == ps[i];
    }
    if Scanned(p) && p.ip.value.src == ip {
      assert qs[|ps|] == p;
      assert PairOf(p) in PortsOf(qs, ip);
    }
  }

  /**
   * The pair set kept for a source is exactly the set of pairs of its
   * packets; a source is in the table exactly when that set is non-empty.
   */
  lemma {:induction false} IpPortsSets(ps: seq<Packet>, ip: string)
    ensures Find(IpPorts(ps), ip) == if PortsOf(ps, ip) == {} then None else Some(PortsOf(ps, ip))
  {
    if ps != [] {
      var prev := ps[..|ps| - 1];
      var p := ps[|ps| - 1];
      IpPortsSets(prev, ip);
      assert ps == prev + [p];
      PortsOfSnoc(prev, p, ip);
      var m := IpPorts(prev);
      if Scanned(p) && p.ip.value.src == ip {
        assert PortsIn(m, ip) == PortsOf(prev, ip);
        assert Find(IpPorts(ps), ip) == Some(PortsOf(prev, ip) + {PairOf(p)});
      } else {
        assert PortsOf(ps, ip) == PortsOf(prev, ip);
        if Scanned(p) {
          assert Find(IpPorts(ps), ip) == Find(Put(m, p.ip.value.src, PortsIn(m, p.ip.value.src) + {PairOf(p)}), ip);
          PutOther(m, p.ip.value.src, PortsIn(m, p.ip.value.src) + {PairOf(p)}, ip);
        }
        assert Find(IpPorts(ps), ip) == Find(m, ip);
      }
    } else {
      assert PortsOf(ps, ip) == {};
    }
  }

  lemma {:induction false} HeavyMembers(m: Dict<string, set<PortPair>>, threshold: int, ip: string)
    requires Distinct(Keys(m))
    ensures ip in Heavy(m, threshold) <==> Find(m, ip).Some? && |Find(m, ip).value| >= threshold
  {
    if m != [] {
      var prev := m[..|m| - 1];
      var last := m[|m| - 1];
      assert m == prev + [last];
      assert Keys(m) == Keys(prev) + [last.0];
      assert Distinct(Keys(prev)) by {
        assert Keys(prev) == Keys(m)[..|prev|];
      }
      HeavyMembers(prev, threshold, ip);
      DistinctFind(m, |prev|);
      if ip != last.0 {
        FindSnoc(prev, last, ip);
      }
    }
  }

  lemma {:induction false} FindSnoc<V>(m: Dict<string, V>, last: (string, V), k: string)
    requires k != last.0
    ensures Find(m + [last], k) == Find(m, k)
  {
    if m != [] {
      assert m + [last] == [m[0]] + (m[1..] + [last]);
      FindCons(m[0], m[1..] + [last], k);
      FindCons(m[0], m[1..], k);
      assert m == [m[0]] + m[1..];
      FindSnoc(m[1..], last, k);
    } else {
      FindCons(last, [], k);
    }
  }

  /**
   * A source is reported exactly when the pairs of its packets number at
   * least the threshold (and at least one), and its report gives that number
   * and a sample of those pairs.
   */
  lemma ScannersExactly(ps: seq<Packet>, threshold: int, ip: string)
    ensures ip in Heavy(IpPorts(ps), threshold) <==> PortsOf(ps, ip) != {} && |PortsOf(ps, ip)| >= threshold
    ensures Find(IpPorts(ps), ip).Some? ==> Find(IpPorts(ps), ip).value == PortsOf(ps, ip)
  {
    IpPortsKeys(ps);
    IpPortsSets(ps, ip);
    HeavyMembers(IpPorts(ps), threshold, ip);
  }

  /** TCP takes precedence: a packet with both a TCP and a UDP layer contributes its TCP port only. */
  lemma TcpWins(p: Packet)
    requires p.ip.Some? && p.tcp.Some? && p.udp.Some?
    ensures PortsOf([p], p.ip.value.src) == {(TCP, p.tcp.value.dport)}
  {
    assert [p][0] == p;
  }
}
