/**
 * Service names for port numbers, and the protocol whitelist filter.
 *
 * A port in the well-known table gets the table's name; any other port gets
 * "Port-" followed by its decimal number.  The protocol argument of
 * `get_service_name` is accepted and ignored, so it is not a parameter here.
 *
 * The whitelist filter keeps the protocol counts whose protocol is not on
 * the whitelist; when no whitelist is given, a default one of nine names is
 * used.
 */
module Services {
  import opened Collections
  import opened Text

  /** The well-known service ports; 137, 138 and 139 share a name. */
  const ServicePorts: map<int, string> := map[
    20 := "FTP-DATA", 21 := "FTP", 22 := "SSH", 23 := "Telnet",
    25 := "SMTP", 53 := "DNS", 67 := "DHCP-Server", 68 := "DHCP-Client",
    69 := "TFTP", 80 := "HTTP", 110 := "POP3", 123 := "NTP",
    135 := "MS-RPC", 137 := "NetBIOS", 138 := "NetBIOS", 139 := "NetBIOS",
    143 := "IMAP", 161 := "SNMP", 162 := "SNMP-Trap", 389 := "LDAP",
    443 := "HTTPS", 445 := "SMB", 465 := "SMTPS", 514 := "Syslog",
    587 := "SMTP-Submit", 636 := "LDAPS", 993 := "IMAPS", 995 := "POP3S",
    1433 := "MS-SQL", 1521 := "Oracle-DB", 3306 := "MySQL", 3389 := "RDP",
    5432 := "PostgreSQL", 5900 := "VNC", 6379 := "Redis", 8080 := "HTTP-Proxy",
    8443 := "HTTPS-Alt", 27017 := "MongoDB"
  ]

  const FallbackPrefix: string := "Port-"

  /**
   * The name shown for a port: the table's name, or a fallback whose suffix is
   * a canonical decimal that reads back as the port (by `CanonicalUnique`,
   * the only such suffix).
   */
  function ServiceName(port: int): (name: string)
    ensures port in ServicePorts ==> name == ServicePorts[port]
    ensures port !in ServicePorts ==>
              FallbackPrefix <= name && Canonical(name[|FallbackPrefix|..])
              && ParseDecimal(name[|FallbackPrefix|..]) == Some(port)
  {
    if port in ServicePorts then ServicePorts[port]
    else
      DecimalRoundTrip(port);
      DecimalCanonical(port);
      assert (FallbackPrefix + Decimal(port))[|FallbackPrefix|..] == Decimal(port);
      FallbackPrefix + Decimal(port)
  }

  /** No name in the table looks like a fallback name. */
  lemma TableNamesAreNotFallbacks()
    ensures forall port :: port in ServicePorts ==> !(FallbackPrefix <= ServicePorts[port])
  {
    forall port | port in ServicePorts ensures !(FallbackPrefix <= ServicePorts[port]) {
      var name := ServicePorts[port];
      assert name[0] != 'P' || name[1] != 'o' || name[2] != 'r';
    }
  }

  /**
   * A name tells whether its port is in the table, and a fallback name reads
   * back as its port.
   */
  lemma ServiceNameReadsBack(port: int)
    ensures port in ServicePorts <==> !(FallbackPrefix <= ServiceName(port))
    ensures port !in ServicePorts ==>
              ParseDecimal(ServiceName(port)[|FallbackPrefix|..]) == Some(port)
  {
    TableNamesAreNotFallbacks();
  }

  /** Two ports outside the table never share a name. */
  lemma FallbackNamesAreDistinct(p1: int, p2: int)
    requires p1 !in ServicePorts && p2 !in ServicePorts
    ensures ServiceName(p1) == ServiceName(p2) ==> p1 == p2
  {
    ServiceNameReadsBack(p1);
    ServiceNameReadsBack(p2);
  }

  // ---------------------------------------------------------------------------
  // Unusual protocols.

  const DefaultWhitelist: seq<string> := ["TCP", "UDP", "ICMP", "ARP", "DNS", "HTTP", "HTTPS", "Raw", "Padding"]

  /** The whitelist in force: the one given, or the default. */
  function WhitelistOf(whitelist: Option<seq<string>>): seq<string>
  {
    if whitelist.None? then DefaultWhitelist else whitelist.value
  }

  /** The result of storing, in counter order, every count whose protocol is not whitelisted. */
  function Unusual(counter: Dict<string, int>, whitelist: seq<string>): Dict<string, int>
  {
    if counter == [] then []
    else
      var (proto, count) := counter[|counter| - 1];
      var m := Unusual(counter[..|counter| - 1], whitelist);
      if proto !in whitelist then Put(m, proto, count) else m
  }

  /** One pass over the counter, copying the entries whose protocol is not whitelisted. */
  method DetectUnusualProtocols(protocolCounter: Dict<string, int>, whitelist: Option<seq<string>> := None)
    returns (unusual: Dict<string, int>)
    ensures unusual == Unusual(protocolCounter, WhitelistOf(whitelist))
  {
    var allowed := if whitelist.None? then DefaultWhitelist else whitelist.value;
    unusual := [];
    for i := 0 to |protocolCounter|
      invariant unusual == Unusual(protocolCounter[..i], allowed)
    {
      var (proto, count) := protocolCounter[i];
      assert protocolCounter[..i + 1][..i] == protocolCounter[..i];
      if proto !in allowed {
        unusual := Put(unusual, proto, count);
      }
    }
    assert protocolCounter[..|protocolCounter|] == protocolCounter;
  }

  /** The entries of `counter` whose protocol is not whitelisted, in counter order. */
  function Kept(counter: Dict<string, int>, whitelist: seq<string>): Dict<string, int>
  {
    if counter == [] then []
    else
      var last := counter[|counter| - 1];
      Kept(counter[..|counter| - 1], whitelist) + (if last.0 !in whitelist then [last] else [])
  }

  lemma {:induction false} KeptMembers(counter: Dict<string, int>, whitelist: seq<string>)
    ensures forall p :: p in Kept(counter, whitelist) <==> p in counter && p.0 !in whitelist
  {
    if counter != [] {
      var prev := counter[..|counter| - 1];
      KeptMembers(prev, whitelist);
      assert counter == prev + [counter[|counter| - 1]];
    }
  }

  /**
   * On a counter (each protocol once), the pass keeps exactly the entries
   * whose protocol is not whitelisted, in counter order, each protocol once.
   */
  lemma {:induction false} UnusualIsFilter(counter: Dict<string, int>, whitelist: seq<string>)
    requires Distinct(Keys(counter))
    ensures Unusual(counter, whitelist) == Kept(counter, whitelist)
    ensures Distinct(Keys(Unusual(counter, whitelist)))
  {
    if counter != [] {
      var prev := counter[..|counter| - 1];
      var last := counter[|counter| - 1];
      assert Keys(prev) == Keys(counter)[..|prev|];
      UnusualIsFilter(prev, whitelist);
      if last.0 !in whitelist {
        assert last.0 == Keys(counter)[|prev|];
        KeptAppend(prev, last, whitelist);
      } else {
        assert Kept(prev, whitelist) + [] == Kept(prev, whitelist);
      }
    }
  }

  /** Appending an entry for a new protocol to the filtered counter is a `Put` that keeps the keys distinct. */
  lemma KeptAppend(prev: Dict<string, int>, last: (string, int), whitelist: seq<string>)
    requires Distinct(Keys(Kept(prev, whitelist))) && last.0 !in Keys(prev)
    ensures Put(Kept(prev, whitelist), last.0, last.1) == Kept(prev, whitelist) + [last]
    ensures Distinct(Keys(Kept(prev, whitelist) + [last]))
  {
    var m := Kept(prev, whitelist);
    KeptMembers(prev, whitelist);
    KeysWithin(m, prev);
    PutNew(m, last.0, last.1);
    DistinctSnoc(Keys(m), last.0);
    assert Keys(m + [last]) == Keys(m) + [last.0];
  }

  /** A protocol is reported exactly when it was counted and is not whitelisted, with its count. */
  lemma UnusualExactly(counter: Dict<string, int>, whitelist: seq<string>)
    requires Distinct(Keys(counter))
    ensures forall p :: p in Unusual(counter, whitelist) <==> p in counter && p.0 !in whitelist
  {
    UnusualIsFilter(counter, whitelist);
    KeptMembers(counter, whitelist);
  }

  lemma {:induction false} KeptIdempotent(counter: Dict<string, int>, whitelist: seq<string>)
    ensures Kept(Kept(counter, whitelist), whitelist) == Kept(counter, whitelist)
  {
    if counter != [] {
      var prev := counter[..|counter| - 1];
      var last := counter[|counter| - 1];
      KeptIdempotent(prev, whitelist);
      var m := Kept(prev, whitelist);
      if last.0 !in whitelist {
        assert (m + [last])[..|m|] == m;
      } else {
        assert m + [] == m;
      }
    }
  }

  /** Filtering the result again with the same whitelist changes nothing. */
  lemma UnusualIdempotent(counter: Dict<string, int>, whitelist: seq<string>)
    requires Distinct(Keys(counter))
    ensures Unusual(Unusual(counter, whitelist), whitelist) == Unusual(counter, whitelist)
  {
    UnusualIsFilter(counter, whitelist);
    UnusualIsFilter(Unusual(counter, whitelist), whitelist);
    KeptIdempotent(counter, whitelist);
  }
}
