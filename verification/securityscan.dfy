/**
 * The combined security scan: every detector run over one capture, with the
 * fixed thresholds of the scan (10 distinct port pairs for a port scan, 20
 * SYNs of incomplete connections for a SYN flood, 50 ICMP packets for an ICMP
 * flood).  The DNS detector's failure on an undecodable query name is not
 * caught, so it ends the whole scan; `None` stands for that.
 */
module SecurityScan {
  import opened Collections
  import opened Packets
  import opened Connections
  import opened PortScan
  import opened Floods
  import opened Dns
  import opened Http

  const PortScanThreshold: int := 10
  const SynFloodThreshold: int := 20
  const IcmpFloodThreshold: int := 50

  datatype ScanResults = ScanResults(
    connections: Dict<ConnKey, Conn>,
    portScanners: Dict<string, ScanReport>,
    synFloodTargets: Dict<string, int>,
    incompleteConnections: seq<Incomplete>,
    icmpFlooders: Dict<string, int>,
    dnsQueries: seq<DnsQuery>,
    suspiciousDns: seq<SuspiciousDns>,
    highFreqDns: Dict<string, int>,
    httpRequests: seq<HttpRequest>,
    httpResponses: seq<HttpResponse>)

  /** Runs the detectors in turn and gathers their results. */
  method ComprehensiveSecurityScan(packets: seq<Packet>) returns (results: Option<ScanResults>)
    ensures results.None? <==> Report(packets).None?
    ensures results.Some? ==>
      var r := results.value;
      var dns := Report(packets).value;
      && r.connections == Track(packets)
      && Keys(r.portScanners) == Heavy(IpPorts(packets), PortScanThreshold)
      && (forall ip :: Find(r.portScanners, ip).Some? ==>
            Find(IpPorts(packets), ip).Some? && Describes(Find(r.portScanners, ip).value, Find(IpPorts(packets), ip).value))
      && r.incompleteConnections == IncompleteOf(Track(packets))
      && r.synFloodTargets == AtLeast(Accumulate(Targets(IncompleteOf(Track(packets)))), SynFloodThreshold)
      && r.icmpFlooders == AtLeast(Tally(IcmpSources(packets)), IcmpFloodThreshold)
      && r.dnsQueries == dns.dnsQueries && r.suspiciousDns == dns.suspiciousDns && r.highFreqDns == dns.highFreqDns
      && r.httpRequests == Requests(packets) && r.httpResponses == Responses(packets)
  {
    var connections := AnalyzeConnections(packets);
    var portScanners := DetectPortScanning(packets, 10);
    var synFloodTargets, incompleteConns := DetectSynFlood(connections, 20);
    var icmpFlooders := DetectIcmpFlood(packets, 50);
    var dns := DetectDnsAnomalies(packets);
    if dns.None? {
      return None;
    }
    var httpRequests, httpResponses := ExtractHttpInfo(packets);
    results := Some(ScanResults(
      connections, portScanners, synFloodTargets, incompleteConns, icmpFlooders,
      dns.value.dnsQueries, dns.value.suspiciousDns, dns.value.highFreqDns,
      httpRequests, httpResponses));
  }

  /**
   * What the scan reports, stated without the detectors' passes: it fails
   * exactly when some query name does not decode; otherwise a source is an
   * ICMP flooder exactly when it sent at least 50 ICMP-over-IP packets, a
   * destination is a SYN-flood target exactly when the incomplete connections
   * towards it carry at least 20 SYNs, and a source is a port scanner exactly
   * when it touched at least 10 distinct port pairs.
   */
  lemma ScanVerdicts(ps: seq<Packet>, ip: string)
    ensures Report(ps).None? <==>
      exists i :: 0 <= i < |ps| && IsQuery(ps[i]) && QueryName(ps[i].dns.value).None?
    ensures ip in Keys(AtLeast(Tally(IcmpSources(ps)), IcmpFloodThreshold)) <==>
      Count(IcmpSources(ps), ip) >= IcmpFloodThreshold
    ensures ip in Keys(AtLeast(Accumulate(Targets(IncompleteOf(Track(ps)))), SynFloodThreshold)) <==>
      SynsTowards(IncompleteOf(Track(ps)), ip) >= SynFloodThreshold
    ensures ip in Heavy(IpPorts(ps), PortScanThreshold) <==> |PortsOf(ps, ip)| >= PortScanThreshold
  {
    ScanFails(ps);
    IcmpFlooders(ps, IcmpFloodThreshold, ip);
    var incomplete := IncompleteOf(Track(ps));
    SynFloodTargets(incomplete, SynFloodThreshold, ip);
    if SynsTowards(incomplete, ip) >= SynFloodThreshold {
      SynsNeedTarget(incomplete, ip);
    }
    ScannersExactly(ps, PortScanThreshold, ip);
  }

  /** SYNs towards an address come only from connections to that address. */
  lemma {:induction false} SynsNeedTarget(incomplete: seq<Incomplete>, ip: string)
    requires SynsTowards(incomplete, ip) > 0
    ensures exists i :: 0 <= i < |incomplete| && incomplete[i].dstIp == ip
  {
    var prev := incomplete[..|incomplete| - 1];
    var x := incomplete[|incomplete| - 1];
    if x.dstIp != ip || x.synCount == 0 {
      SynsNeedTarget(prev, ip);
      var i :| 0 <= i < |prev| && prev[i].dstIp == ip;
      assert incomplete[i] == prev[i];
    }
  }
}
