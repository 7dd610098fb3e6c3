/**
 * DNS anomaly detection.
 *
 * Every DNS query (`qr == 0`) carried over IP is recorded with its source, its
 * name decoded as UTF-8, and the name's length in characters; a packet without
 * a question section records the empty name.  A name longer than 50 characters
 * is suspicious (possible tunnelling), and a source with more than 100 queries
 * is high-frequency.
 *
 * The name is decoded strictly and nothing catches a decoding error, so one
 * query name that is not valid UTF-8 makes the whole detector fail; `None`
 * stands for that failure.
 */
module Dns {
  import opened Collections
  import opened Utf8
  import opened Packets

  datatype DnsQuery = DnsQuery(srcIp: string, query: string, length: nat)
  datatype SuspiciousDns = SuspiciousDns(srcIp: string, query: string, reason: string)
  datatype DnsReport = DnsReport(dnsQueries: seq<DnsQuery>, suspiciousDns: seq<SuspiciousDns>, highFreqDns: Dict<string, int>)

  const LongNameReason: string := "Unusually long domain name (potential DNS tunneling)"

  /** A name is suspicious when it is longer than this many characters. */
  const LongName: nat := 50

  /** A source is high-frequency when it sent more than this many queries. */
  const HighFrequency: int := 100

  predicate IsQuery(p: Packet)
  {
    p.dns.Some? && p.ip.Some? && p.dns.value.qr == 0
  }

  /** The decoded query name: "" without a question section, `None` when the bytes are not UTF-8. */
  function QueryName(d: DNSHeader): Option<string>
  {
    match d.qname
    case None => Some("")
    case Some(bytes) => DecodeStrict(bytes)
  }

  /** The records of the queries in `ps` and the suspicious ones among them, or `None` if a name fails to decode. */
  function Scan(ps: seq<Packet>): Option<(seq<DnsQuery>, seq<SuspiciousDns>)>
  {
    if ps == [] then Some(([], []))
    else
      var p := ps[|ps| - 1];
      match Scan(ps[..|ps| - 1])
      case None => None
      case Some((queries, suspicious)) =>
        if !IsQuery(p) then Some((queries, suspicious))
        else
          match QueryName(p.dns.value)
          case None => None
          case Some(name) =>
            var src := p.ip.value.src;
            Some((queries + [DnsQuery(src, name, |name|)],
                  suspicious + (if |name| > LongName then [SuspiciousDns(src, name, LongNameReason)] else [])))
  }

  function QuerySources(queries: seq<DnsQuery>): seq<string>
  {
    seq(|queries|, i requires 0 <= i < |queries| => queries[i].srcIp)
  }

  /** The detector's result: the queries, the suspicious ones, and the sources with more than 100 queries. */
  function Report(ps: seq<Packet>): Option<DnsReport>
  {
    match Scan(ps)
    case None => None
    case Some((queries, suspicious)) =>
      Some(DnsReport(queries, suspicious, Above(Tally(QuerySources(queries)), HighFrequency as real)))
  }

  /** One pass over the packets recording queries and long names, then the per-source count filter. */
  method DetectDnsAnomalies(packets: seq<Packet>) returns (result: Option<DnsReport>)
    ensures result == Report(packets)
  {
    var dnsQueries: seq<DnsQuery> := [];
    var suspiciousDns: seq<SuspiciousDns> := [];
    for i := 0 to |packets|
      invariant Scan(packets[..i]) == Some((dnsQueries, suspiciousDns))
    {
      var pkt := packets[i];
      assert packets[..i + 1][..i] == packets[..i];
      if pkt.dns.Some? && pkt.ip.Some? {
        if pkt.dns.value.qr == 0 {
          var queryName: string;
          if pkt.dns.value.qname.Some? {
            var decoded := DecodeStrict(pkt.dns.value.qname.value);
            if decoded.None? {
              ScanFailurePersists(packets, i + 1);
              return None;
            }
            queryName := decoded.value;
          } else {
            queryName := "";
          }

          assert QueryName(pkt.dns.value) == Some(queryName);
          dnsQueries := dnsQueries + [DnsQuery(pkt.ip.value.src, queryName, |queryName|)];

          if |queryName| > 50 {
            suspiciousDns := suspiciousDns + [SuspiciousDns(pkt.ip.value.src, queryName, LongNameReason)];
          } else {
            assert suspiciousDns + [] == suspiciousDns;
          }
        }
      }
    }
    assert packets[..|packets|] == packets;

    var queryCounter := Tally(QuerySources(dnsQueries));
    var highFreqDns := Above(queryCounter, 100 as real);
    return Some(DnsReport(dnsQueries, suspiciousDns, highFreqDns));
  }

  /** Once a name has failed to decode, no later packet brings the detector back. */
  lemma {:induction false} ScanFailurePersists(ps: seq<Packet>, n: nat)
    requires n <= |ps| && Scan(ps[..n]).None?
    ensures Scan(ps).None?
    decreases |ps| - n
  {
    if n < |ps| {
      assert ps[..n + 1][..n] == ps[..n];
      ScanFailurePersists(ps, n + 1);
    } else {
      assert ps[..n] == ps;
    }
  }

  // ---------------------------------------------------------------------------
  // What the detector reports, stated without the pass.

  /** The detector fails exactly when some query carried over IP has a name that is not valid UTF-8. */
  lemma {:induction false} ScanFails(ps: seq<Packet>)
    ensures Scan(ps).None? <==>
      exists i :: 0 <= i < |ps| && IsQuery(ps[i]) && QueryName(ps[i].dns.value).None?
  {
    if ps != [] {
      var prev := ps[..|ps| - 1];
      ScanFails(prev);
      if exists i :: 0 <= i < |ps| && IsQuery(ps[i]) && QueryName(ps[i].dns.value).None? {
        var i :| 0 <= i < |ps| && IsQuery(ps[i]) && QueryName(ps[i].dns.value).None?;
        if i < |prev| {
          assert prev[i] == ps[i];
        }
      }
      if exists i :: 0 <= i < |prev| && IsQuery(prev[i]) && QueryName(prev[i].dns.value).None? {
        var i :| 0 <= i < |prev| && IsQuery(prev[i]) && QueryName(prev[i].dns.value).None?;
        assert ps[i] == prev[i];
      }
    }
  }

  /** The queries, when they decode: one per query packet carried over IP, in capture order. */
  function QueryPackets(ps: seq<Packet>): seq<Packet>
  {
    if ps == [] then []
    else QueryPackets(ps[..|ps| - 1]) + (if IsQuery(ps[|ps| - 1]) then [ps[|ps| - 1]] else [])
  }

  /** The records flagged for a long name, derived from the query records alone. */
  function LongOnes(queries: seq<DnsQuery>): seq<SuspiciousDns>
  {
    if queries == [] then []
    else
      var q := queries[|queries| - 1];
      LongOnes(queries[..|queries| - 1]) + (if q.length > LongName then [SuspiciousDns(q.srcIp, q.query, LongNameReason)] else [])
  }

  /** The record of query packet `p`: its source, its decoded name and the name's length. */
  predicate Records(q: DnsQuery, p: Packet)
  {
    IsQuery(p) && QueryName(p.dns.value).Some? &&
    q == DnsQuery(p.ip.value.src, QueryName(p.dns.value).value, |QueryName(p.dns.value).value|)
  }

  /** On success there is one query record per query packet, in capture order. */
  lemma {:induction false} ScanQueries(ps: seq<Packet>)
    requires Scan(ps).Some?
    ensures |Scan(ps).value.0| == |QueryPackets(ps)|
    ensures forall i :: 0 <= i < |QueryPackets(ps)| ==> Records(Scan(ps).value.0[i], QueryPackets(ps)[i])
  {
    if ps != [] {
      var prev := ps[..|ps| - 1];
      var p := ps[|ps| - 1];
      assert Scan(prev).Some?;
      ScanQueries(prev);
      var queries := Scan(prev).value.0;
      if IsQuery(p) {
        assert QueryPackets(ps) == QueryPackets(prev) + [p];
        var name := QueryName(p.dns.value).value;
        assert Scan(ps).value.0 == queries + [DnsQuery(p.ip.value.src, name, |name|)];
      } else {
        assert QueryPackets(ps) == QueryPackets(prev) + [];
        assert QueryPackets(prev) + [] == QueryPackets(prev);
      }
    }
  }

  /** On success the suspicious records are exactly the query records whose name is longer than 50 characters. */
  lemma {:induction false} ScanSuspicious(ps: seq<Packet>)
    requires Scan(ps).Some?
    ensures Scan(ps).value.1 == LongOnes(Scan(ps).value.0)
  {
    if ps != [] {
      var prev := ps[..|ps| - 1];
      var p := ps[|ps| - 1];
      assert Scan(prev).Some?;
      ScanSuspicious(prev);
      var queries := Scan(prev).value.0;
      if IsQuery(p) {
        var name := QueryName(p.dns.value).value;
        var q := DnsQuery(p.ip.value.src, name, |name|);
        assert (queries + [q])[..|queries|] == queries;
      }
    }
  }

  /**
   * A source is high-frequency exactly when it sent more than 100 recorded
   * queries; it is reported with that number, and each source once.
   */
  lemma HighFrequencySources(queries: seq<DnsQuery>, ip: string)
    ensures Distinct(Keys(Above(Tally(QuerySources(queries)), HighFrequency as real)))
    ensures Find(Above(Tally(QuerySources(queries)), HighFrequency as real), ip) ==
      if Count(QuerySources(queries), ip) > HighFrequency then Some(Count(QuerySources(queries), ip) as int) else None
  {
    var srcs := QuerySources(queries);
    TallyCounts(srcs);
    CountPositive(srcs, ip);
    AboveFind(Tally(srcs), HighFrequency as real, ip);
  }

  /** A query without a question section records the empty name, which is never suspicious. */
  lemma MissingQuestion(p: Packet)
    requires IsQuery(p) && p.dns.value.qname.None?
    ensures Scan([p]) == Some(([DnsQuery(p.ip.value.src, "", 0)], []))
  {
    assert [p][..0] == [];
    assert Scan([p][..0]) == Some(([], []));
    assert QueryName(p.dns.value) == Some("");
    assert [] + [DnsQuery(p.ip.value.src, "", 0)] == [DnsQuery(p.ip.value.src, "", 0)];
    var none: seq<SuspiciousDns> := [];
    assert none + [] == none;
  }

  /** A name that is not valid UTF-8 makes the detector fail however many good queries surround it. */
  lemma BadNameFails(before: seq<Packet>, p: Packet, after: seq<Packet>)
    requires IsQuery(p) && p.dns.value.qname == Some([0xFF])
    ensures Report(before + [p] + after).None?
  {
    var ps := before + [p] + after;
    assert ps[|before|] == p;
    ScanFails(ps);
  }
}
