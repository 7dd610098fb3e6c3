/**
 * The single parsing pass over a capture and the traffic-volume detector.
 *
 * `ParsePackets` builds one record per packet it can read, a counter of full
 * protocol chains, a counter of main (innermost) protocols, and the bytes seen
 * per IP address.  `DetectSuspicious` flags the addresses whose byte total is
 * above a fixed threshold, or above a multiple of the mean total.
 */
module Analyzer {
  import opened Collections
  import opened Text
  import opened Packets

  /** One row of the packet table. */
  datatype Record = Record(
    timestamp: real,
    srcIp: string,
    dstIp: string,
    srcPort: Option<int>,
    dstPort: Option<int>,
    mainProtocol: string,
    fullProtocol: string,
    length: nat)

  const Separator: string := " -> "
  const Unknown: string := "UNKNOWN"

  /** The IP addresses: from the IP layer, else from the ARP layer, else empty. */
  function SrcIp(p: Packet): string
  {
    if p.ip.Some? then p.ip.value.src else if p.arp.Some? then p.arp.value.psrc else ""
  }

  function DstIp(p: Packet): string
  {
    if p.ip.Some? then p.ip.value.dst else if p.arp.Some? then p.arp.value.pdst else ""
  }

  /** The ports: from the TCP layer, else from the UDP layer, else none. */
  function SrcPort(p: Packet): Option<int>
  {
    if p.tcp.Some? then Some(p.tcp.value.sport) else if p.udp.Some? then Some(p.udp.value.sport) else None
  }

  function DstPort(p: Packet): Option<int>
  {
    if p.tcp.Some? then Some(p.tcp.value.dport) else if p.udp.Some? then Some(p.udp.value.dport) else None
  }

  function MainProtocol(names: seq<string>): string
  {
    if names == [] then Unknown else names[|names| - 1]
  }

  /** The row recorded for a packet whose fields can be read. */
  function RecordOf(p: Packet): Record
  {
    var names := LayerNames(p.chain);
    Record(p.time, SrcIp(p), DstIp(p), SrcPort(p), DstPort(p), MainProtocol(names), Join(names, Separator), p.length)
  }

  /** The four results of the parsing pass. */
  datatype Parsed = Parsed(
    records: seq<Record>,
    fullCounter: Dict<string, int>,
    mainCounter: Dict<string, int>,
    trafficCounter: Dict<string, int>)

  /** Adds a record's length to the byte totals of its non-empty addresses. */
  function AddTraffic(m: Dict<string, int>, r: Record): Dict<string, int>
  {
    var m1 := if r.srcIp != "" then Bump(m, r.srcIp, r.length) else m;
    if r.dstIp != "" then Bump(m1, r.dstIp, r.length) else m1
  }

  /** What one packet does to the results: nothing if it is malformed. */
  function ParseStep(acc: Parsed, p: Packet): Parsed
  {
    if p.malformed then acc
    else
      var r := RecordOf(p);
      Parsed(acc.records + [r], Bump(acc.fullCounter, r.fullProtocol, 1),
             Bump(acc.mainCounter, r.mainProtocol, 1), AddTraffic(acc.trafficCounter, r))
  }

  /** The results of parsing `ps` from the start. */
  function ParseAll(ps: seq<Packet>): Parsed
  {
    if ps == [] then Parsed([], [], [], []) else ParseStep(ParseAll(ps[..|ps| - 1]), ps[|ps| - 1])
  }

  lemma ParseAllStep(ps: seq<Packet>, i: int)
    requires 0 <= i < |ps|
    ensures ParseAll(ps[..i + 1]) == ParseStep(ParseAll(ps[..i]), ps[i])
  {
    assert ps[..i + 1][..i] == ps[..i];
  }

  /** Walks the layer chain from the outermost layer inwards, collecting the layer names. */
  method WalkLayers(chain: LayerChain) returns (layers: seq<string>)
    ensures layers == LayerNames(chain)
  {
    layers := [];
    var current := chain;
    while current.Layer?
      invariant layers + LayerNames(current) == LayerNames(chain)
      decreases current
    {
      layers := layers + [current.name];
      current := current.payload;
    }
    assert layers + [] == layers;
  }

  /** Reads the fields of one packet into its row: addresses, length, time, ports and layer names. */
  method ReadRecord(pkt: Packet) returns (row: Record)
    ensures row == RecordOf(pkt)
  {
    var srcIp := if pkt.ip.Some? then pkt.ip.value.src else if pkt.arp.Some? then pkt.arp.value.psrc else "";
    var dstIp := if pkt.ip.Some? then pkt.ip.value.dst else if pkt.arp.Some? then pkt.arp.value.pdst else "";
    var length := pkt.length;
    var timestamp := pkt.time;
    var srcPort := if pkt.tcp.Some? then Some(pkt.tcp.value.sport)
                   else if pkt.udp.Some? then Some(pkt.udp.value.sport) else None;
    var dstPort := if pkt.tcp.Some? then Some(pkt.tcp.value.dport)
                   else if pkt.udp.Some? then Some(pkt.udp.value.dport) else None;

    var layers := WalkLayers(pkt.chain);
    var fullProtocol := Join(layers, Separator);
    var mainProtocol := if layers != [] then layers[|layers| - 1] else Unknown;
    row := Record(timestamp, srcIp, dstIp, srcPort, dstPort, mainProtocol, fullProtocol, length);
  }

  /**
   * One pass over the packets.  A malformed packet is skipped; every other
   * packet gets a record, bumps both protocol counters by one, and adds its
   * length to the totals of its non-empty source and destination addresses.
   */
  method ParsePackets(packets: seq<Packet>)
    returns (data: seq<Record>, protocolCounter: Dict<string, int>,
             mainProtocolCounter: Dict<string, int>, ipTrafficCounter: Dict<string, int>)
    ensures Parsed(data, protocolCounter, mainProtocolCounter, ipTrafficCounter) == ParseAll(packets)
  {
    data, protocolCounter, mainProtocolCounter, ipTrafficCounter := [], [], [], [];
    for i := 0 to |packets|
      invariant Parsed(data, protocolCounter, mainProtocolCounter, ipTrafficCounter) == ParseAll(packets[..i])
    {
      var pkt := packets[i];
      ParseAllStep(packets, i);
      ghost var before := Parsed(data, protocolCounter, mainProtocolCounter, ipTrafficCounter);
      if !pkt.malformed {
        var row := ReadRecord(pkt);
        data := data + [row];
        protocolCounter := Bump(protocolCounter, row.fullProtocol, 1);
        mainProtocolCounter := Bump(mainProtocolCounter, row.mainProtocol, 1);
        if row.srcIp != "" {
          ipTrafficCounter := Bump(ipTrafficCounter, row.srcIp, row.length);
        }
        if row.dstIp != "" {
          ipTrafficCounter := Bump(ipTrafficCounter, row.dstIp, row.length);
        }
        assert ipTrafficCounter == AddTraffic(before.trafficCounter, row);
      }
      assert Parsed(data, protocolCounter, mainProtocolCounter, ipTrafficCounter) == ParseStep(before, pkt);
    }
    assert packets[..|packets|] == packets;
  }

  // ---------------------------------------------------------------------------
  // What the parsing pass computes, stated without the pass.

  /** The packets whose fields can be read, in capture order. */
  function Readable(ps: seq<Packet>): seq<Packet>
  {
    if ps == [] then []
    else Readable(ps[..|ps| - 1]) + (if ps[|ps| - 1].malformed then [] else [ps[|ps| - 1]])
  }

  function FullProtocols(rs: seq<Record>): seq<string>
  {
    seq(|rs|, i requires 0 <= i < |rs| => rs[i].fullProtocol)
  }

  function MainProtocols(rs: seq<Record>): seq<string>
  {
    seq(|rs|, i requires 0 <= i < |rs| => rs[i].mainProtocol)
  }

  /** Every readable packet yields exactly one record, in capture order, and nothing else does. */
  lemma {:induction false} RecordsAreReadablePackets(ps: seq<Packet>)
    ensures |ParseAll(ps).records| == |Readable(ps)|
    ensures forall k :: 0 <= k < |Readable(ps)| ==> ParseAll(ps).records[k] == RecordOf(Readable(ps)[k])
  {
    if ps != [] {
      RecordsAreReadablePackets(ps[..|ps| - 1]);
    }
  }

  /** The full-chain counter is `Counter` of the records' full protocol chains. */
  lemma {:induction false} FullCounterTally(ps: seq<Packet>)
    ensures ParseAll(ps).fullCounter == Tally(FullProtocols(ParseAll(ps).records))
  {
    if ps != [] {
      var prev := ps[..|ps| - 1];
      FullCounterTally(prev);
      var rs := ParseAll(ps).records;
      if !ps[|ps| - 1].malformed {
        var names := FullProtocols(rs);
        assert names[..|rs| - 1] == FullProtocols(ParseAll(prev).records);
        assert names[|rs| - 1] == RecordOf(ps[|ps| - 1]).fullProtocol;
      }
    }
  }

  /** The main-protocol counter is `Counter` of the records' main protocols. */
  lemma {:induction false} MainCounterTally(ps: seq<Packet>)
    ensures ParseAll(ps).mainCounter == Tally(MainProtocols(ParseAll(ps).records))
  {
    if ps != [] {
      var prev := ps[..|ps| - 1];
      MainCounterTally(prev);
      var rs := ParseAll(ps).records;
      if !ps[|ps| - 1].malformed {
        var names := MainProtocols(rs);
        assert names[..|rs| - 1] == MainProtocols(ParseAll(prev).records);
        assert names[|rs| - 1] == RecordOf(ps[|ps| - 1]).mainProtocol;
      }
    }
  }

  /** Each protocol counter sums to the number of records; with no readable packet, everything is empty. */
  lemma {:induction false} CountersSumToRecords(ps: seq<Packet>)
    ensures Total(ParseAll(ps).fullCounter) == |ParseAll(ps).records|
    ensures Total(ParseAll(ps).mainCounter) == |ParseAll(ps).records|
    ensures Readable(ps) == [] ==> ParseAll(ps) == Parsed([], [], [], [])
  {
    if ps != [] {
      var prev := ParseAll(ps[..|ps| - 1]);
      CountersSumToRecords(ps[..|ps| - 1]);
      var p := ps[|ps| - 1];
      if !p.malformed {
        BumpTotal(prev.fullCounter, RecordOf(p).fullProtocol, 1);
        BumpTotal(prev.mainCounter, RecordOf(p).mainProtocol, 1);
      }
    }
  }

  /** For every packet: the main protocol is the last layer name, which is the last " -> " segment of the chain. */
  lemma MainProtocolIsLastSegment(p: Packet)
    ensures var names := LayerNames(p.chain);
            var r := RecordOf(p);
            && (names == [] ==> r.fullProtocol == "" && r.mainProtocol == Unknown)
            && (|names| == 1 ==> r.fullProtocol == r.mainProtocol == names[0])
            && (|names| >= 2 ==>
                  r.mainProtocol == names[|names| - 1] &&
                  r.fullProtocol == Join(names[..|names| - 1], Separator) + Separator + r.mainProtocol)
  {
    var names := LayerNames(p.chain);
    if |names| >= 2 {
      JoinLast(names, Separator);
    }
  }

  /** Bytes a record adds to the traffic counter: its length once for each non-empty address. */
  function Contribution(r: Record): int
  {
    (if r.srcIp != "" then r.length else 0) + (if r.dstIp != "" then r.length else 0)
  }

  function TotalContribution(rs: seq<Record>): int
  {
    if rs == [] then 0 else TotalContribution(rs[..|rs| - 1]) + Contribution(rs[|rs| - 1])
  }

  /** Bytes of the records in which `ip` is the source, plus those in which it is the destination. */
  function BytesOf(rs: seq<Record>, ip: string): int
  {
    if rs == [] then 0
    else
      var r := rs[|rs| - 1];
      BytesOf(rs[..|rs| - 1], ip) + (if r.srcIp == ip then r.length else 0) + (if r.dstIp == ip then r.length else 0)
  }

  /** The non-empty addresses of a record, source before destination. */
  function RecordAddresses(r: Record): seq<string>
  {
    (if r.srcIp != "" then [r.srcIp] else []) + (if r.dstIp != "" then [r.dstIp] else [])
  }

  /** The non-empty addresses of the records, in order. */
  function Addresses(rs: seq<Record>): seq<string>
  {
    if rs == [] then [] else Addresses(rs[..|rs| - 1]) + RecordAddresses(rs[|rs| - 1])
  }

  lemma AddTrafficTotal(m: Dict<string, int>, r: Record)
    ensures Total(AddTraffic(m, r)) == Total(m) + Contribution(r)
  {
    var m1 := if r.srcIp != "" then Bump(m, r.srcIp, r.length) else m;
    if r.srcIp != "" {
      BumpTotal(m, r.srcIp, r.length);
    }
    if r.dstIp != "" {
      BumpTotal(m1, r.dstIp, r.length);
    }
  }

  lemma AddTrafficGet(m: Dict<string, int>, r: Record, ip: string)
    ensures ip != "" ==>
      Get(AddTraffic(m, r), ip) == Get(m, ip) + (if r.srcIp == ip then r.length else 0) + (if r.dstIp == ip then r.length else 0)
    ensures Get(AddTraffic(m, r), "") == Get(m, "")
  {
    var m1 := if r.srcIp != "" then Bump(m, r.srcIp, r.length) else m;
    if r.srcIp != "" {
      BumpGet(m, r.srcIp, r.length);
    }
    if r.dstIp != "" {
      BumpGet(m1, r.dstIp, r.length);
    }
  }

  lemma AddTrafficKeys(m: Dict<string, int>, a: seq<string>, r: Record)
    requires Keys(m) == Dedup(a)
    ensures Keys(AddTraffic(m, r)) == Dedup(a + RecordAddresses(r))
  {
    var m1 := if r.srcIp != "" then Bump(m, r.srcIp, r.length) else m;
    var a1 := if r.srcIp != "" then a + [r.srcIp] else a;
    assert Keys(m1) == Dedup(a1) by {
      if r.srcIp != "" {
        BumpDedup(m, a, r.srcIp, r.length);
      }
    }
    if r.dstIp != "" {
      BumpDedup(m1, a1, r.dstIp, r.length);
      assert a + RecordAddresses(r) == a1 + [r.dstIp];
    } else {
      assert a + RecordAddresses(r) == a1;
    }
  }

  /** The traffic counter sums to the records' contributions: each record's length once per non-empty address. */
  lemma {:induction false} TrafficCounterTotal(ps: seq<Packet>)
    ensures Total(ParseAll(ps).trafficCounter) == TotalContribution(ParseAll(ps).records)
  {
    if ps != [] {
      var prev := ParseAll(ps[..|ps| - 1]);
      TrafficCounterTotal(ps[..|ps| - 1]);
      var p := ps[|ps| - 1];
      if !p.malformed {
        var rs := prev.records + [RecordOf(p)];
        assert rs[..|rs| - 1] == prev.records;
        AddTrafficTotal(prev.trafficCounter, RecordOf(p));
      }
    }
  }

  /** Byte totals are never negative, so the adaptive detector's mean is not either. */
  lemma {:induction false} TrafficCounterNonNegative(ps: seq<Packet>)
    ensures NonNegative(ParseAll(ps).trafficCounter)
  {
    if ps != [] {
      var m := ParseAll(ps[..|ps| - 1]).trafficCounter;
      TrafficCounterNonNegative(ps[..|ps| - 1]);
      var p := ps[|ps| - 1];
      if !p.malformed {
        var r := RecordOf(p);
        var m1 := if r.srcIp != "" then Bump(m, r.srcIp, r.length) else m;
        if r.srcIp != "" {
          BumpNonNegative(m, r.srcIp, r.length);
        }
        if r.dstIp != "" {
          BumpNonNegative(m1, r.dstIp, r.length);
        }
        assert AddTraffic(m, r) == if r.dstIp != "" then Bump(m1, r.dstIp, r.length) else m1;
      }
    }
  }

  /**
   * The traffic counter holds, for each non-empty address, the bytes of the
   * records it appears in (twice for a record whose source and destination
   * coincide), and never holds the empty address.
   */
  lemma {:induction false} TrafficCounterPerAddress(ps: seq<Packet>, ip: string)
    ensures ip != "" ==> Get(ParseAll(ps).trafficCounter, ip) == BytesOf(ParseAll(ps).records, ip)
    ensures Get(ParseAll(ps).trafficCounter, "") == 0
  {
    if ps != [] {
      var prev := ParseAll(ps[..|ps| - 1]);
      TrafficCounterPerAddress(ps[..|ps| - 1], ip);
      var p := ps[|ps| - 1];
      if !p.malformed {
        var rs := prev.records + [RecordOf(p)];
        assert rs[..|rs| - 1] == prev.records;
        AddTrafficGet(prev.trafficCounter, RecordOf(p), ip);
      }
    }
  }

  /** The traffic counter lists the addresses in order of first appearance, source before destination. */
  lemma {:induction false} TrafficCounterOrder(ps: seq<Packet>)
    ensures Keys(ParseAll(ps).trafficCounter) == Dedup(Addresses(ParseAll(ps).records))
  {
    if ps != [] {
      var prev := ParseAll(ps[..|ps| - 1]);
      TrafficCounterOrder(ps[..|ps| - 1]);
      var p := ps[|ps| - 1];
      if !p.malformed {
        var rs := prev.records + [RecordOf(p)];
        assert rs[..|rs| - 1] == prev.records;
        assert Addresses(rs) == Addresses(prev.records) + RecordAddresses(RecordOf(p));
        AddTrafficKeys(prev.trafficCounter, Addresses(prev.records), RecordOf(p));
      }
    }
  }

  /** A readable packet whose source and destination are the same address adds twice its length to it. */
  lemma LoopbackCountsTwice(ps: seq<Packet>, p: Packet)
    requires !p.malformed && SrcIp(p) == DstIp(p) != ""
    ensures Get(ParseAll(ps + [p]).trafficCounter, SrcIp(p)) == Get(ParseAll(ps).trafficCounter, SrcIp(p)) + 2 * p.length
  {
    assert (ps + [p])[..|ps|] == ps;
    AddTrafficGet(ParseAll(ps).trafficCounter, RecordOf(p), SrcIp(p));
  }

  // ---------------------------------------------------------------------------
  // Volume anomaly detection.

  /** Static mode compares with a byte count; adaptive mode with a multiple of the mean total. */
  datatype Mode = Static(threshold: int) | Adaptive(factor: real)

  /** The defaults of the detector's parameters: one MiB in static mode, twice the mean in adaptive mode. */
  const DefaultThreshold: int := 1048576
  const DefaultFactor: real := 2.0

  function Mean(counter: Dict<string, int>): real
    requires counter != []
  {
    Total(counter) as real / |counter| as real
  }

  /** The byte total an address must exceed to be flagged. */
  function Cut(counter: Dict<string, int>, mode: Mode): real
    requires mode.Adaptive? ==> counter != []
  {
    match mode
    case Static(threshold) => threshold as real
    case Adaptive(factor) => Mean(counter) * factor
  }

  /** The addresses `DetectSuspicious` returns, in counter order. */
  function Suspicious(counter: Dict<string, int>, mode: Mode): seq<string>
  {
    if mode.Adaptive? && counter == [] then [] else Keys(Above(counter, Cut(counter, mode)))
  }

  /**
   * Flags every address whose total is strictly above the cut, in counter
   * order.  The cut is the threshold, or in adaptive mode the mean total times
   * the factor; an empty counter in adaptive mode flags nothing.
   */
  method DetectSuspicious(ipTrafficCounter: Dict<string, int>, mode: Mode := Static(DefaultThreshold)) returns (suspiciousIps: seq<string>)
    ensures suspiciousIps == Suspicious(ipTrafficCounter, mode)
  {
    suspiciousIps := [];
    var cut: real;
    match mode {
      case Adaptive(factor) =>
        if ipTrafficCounter == [] {
          return [];
        }
        var avgTraffic := Mean(ipTrafficCounter);
        cut := avgTraffic * factor;
      case Static(threshold) =>
        cut := threshold as real;
    }
    assert cut == Cut(ipTrafficCounter, mode);
    for i := 0 to |ipTrafficCounter|
      invariant suspiciousIps == Keys(Above(ipTrafficCounter[..i], cut))
    {
      var (ip, totalBytes) := ipTrafficCounter[i];
      assert ipTrafficCounter[..i + 1] == ipTrafficCounter[..i] + [ipTrafficCounter[i]];
      AboveSnoc(ipTrafficCounter[..i], ipTrafficCounter[i], cut);
      if totalBytes as real > cut {
        suspiciousIps := suspiciousIps + [ip];
      }
    }
    assert ipTrafficCounter[..|ipTrafficCounter|] == ipTrafficCounter;
  }

  /**
   * The flagged addresses are exactly the keys whose total is above the cut,
   * each once; in static mode that is an integer comparison with the threshold.
   */
  lemma SuspiciousExactly(counter: Dict<string, int>, mode: Mode, ip: string)
    requires Distinct(Keys(counter))
    ensures Distinct(Suspicious(counter, mode))
    ensures ip in Suspicious(counter, mode) <==>
      (mode.Static? || counter != []) && ip in Keys(counter) && Get(counter, ip) as real > Cut(counter, mode)
    ensures mode.Static? ==>
      (ip in Suspicious(counter, mode) <==> ip in Keys(counter) && Get(counter, ip) > mode.threshold)
  {
    if mode.Static? || counter != [] {
      var cut := Cut(counter, mode);
      AboveFind(counter, cut, ip);
      assert Find(Above(counter, cut), ip).Some? <==> ip in Keys(Above(counter, cut));
    }
  }

  /** Python's float test `total > (sum / n) * factor` is the integer-friendly `total * n > sum * factor`. */
  lemma AdaptiveCrossMultiplied(counter: Dict<string, int>, total: int, factor: real)
    requires counter != []
    ensures total as real > Mean(counter) * factor <==>
            total as real * |counter| as real > Total(counter) as real * factor
  {
    var n := |counter| as real;
    var s := Total(counter) as real;
    assert Mean(counter) * factor * n == s * factor;
  }

  /** Raising the cut keeps a sub-list of the flagged addresses, in the same order. */
  lemma CutAntitone(counter: Dict<string, int>, c1: real, c2: real)
    requires c1 <= c2
    ensures Keys(Above(counter, c2)) == Keys(Above(Above(counter, c1), c2))
    ensures forall ip :: ip in Keys(Above(counter, c2)) ==> ip in Keys(Above(counter, c1))
  {
    AboveNested(counter, c1, c2);
    AboveMembers(counter, c1);
    AboveMembers(counter, c2);
    KeysWithin(Above(counter, c2), Above(counter, c1));
  }

  /** Raising the static threshold keeps a sub-list of the flagged addresses, in the same order. */
  lemma StaticAntitone(counter: Dict<string, int>, t1: int, t2: int)
    requires t1 <= t2
    ensures Suspicious(counter, Static(t2)) == Keys(Above(Above(counter, t1 as real), t2 as real))
    ensures forall ip :: ip in Suspicious(counter, Static(t2)) ==> ip in Suspicious(counter, Static(t1))
  {
    CutAntitone(counter, Cut(counter, Static(t1)), Cut(counter, Static(t2)));
  }

  lemma {:induction false} TotalNonNegative(counter: Dict<string, int>)
    requires NonNegative(counter)
    ensures Total(counter) >= 0
  {
    if counter != [] {
      TotalNonNegative(counter[1..]);
    }
  }

  lemma MeanNonNegative(counter: Dict<string, int>)
    requires counter != []
    requires NonNegative(counter)
    ensures Mean(counter) >= 0.0
  {
    TotalNonNegative(counter);
  }

  lemma ScaleMonotone(x: real, f1: real, f2: real)
    requires x >= 0.0 && f1 <= f2
    ensures x * f1 <= x * f2
  {
    assert x * f2 - x * f1 == x * (f2 - f1);
  }

  /** For byte totals (never negative), raising the adaptive factor keeps a sub-list of the flagged addresses. */
  lemma AdaptiveAntitone(counter: Dict<string, int>, f1: real, f2: real)
    requires NonNegative(counter)
    requires f1 <= f2
    ensures counter != [] ==> Cut(counter, Adaptive(f1)) <= Cut(counter, Adaptive(f2))
    ensures counter != [] ==>
      Suspicious(counter, Adaptive(f2)) ==
      Keys(Above(Above(counter, Cut(counter, Adaptive(f1))), Cut(counter, Adaptive(f2))))
    ensures forall ip :: ip in Suspicious(counter, Adaptive(f2)) ==> ip in Suspicious(counter, Adaptive(f1))
  {
    if counter != [] {
      MeanNonNegative(counter);
      ScaleMonotone(Mean(counter), f1, f2);
      CutAntitone(counter, Cut(counter, Adaptive(f1)), Cut(counter, Adaptive(f2)));
    }
  }
}
