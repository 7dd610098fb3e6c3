# NetScope capture-analysis core in Dafny

This project models the analysis engine of NetScope, an offline packet-capture
analyser. The engine takes an already-decoded sequence of packets and computes:

- one record per packet, together with three counters: full protocol chain, main protocol, and bytes per address;
- the addresses whose traffic volume is above a static or adaptive cut;
- a directional TCP connection table with per-flag counters and a "handshake complete" latch;
- the port-scan, SYN-flood and ICMP-flood detectors;
- the DNS long-name and high-frequency detector;
- the HTTP request-line and status-line extractor;
- the service-name lookup and the protocol whitelist filter;
- the combined security scan, which runs all detectors with thresholds 10, 20 and 50.

A packet is a datatype (`Packets.Packet`). It has an optional IP, ARP, TCP,
UDP, DNS and raw layer, an ICMP flag, a chain of layer names and a `malformed`
marker. The marker stands for a packet whose field extraction raises.

Python dictionaries, `Counter`s and `defaultdict`s iterate in first-insertion
order. That order is visible in every result, so they are association lists
(`Collections.Dict`). `Put` overwrites in place or appends, as `d[k] = v`
does. Each loop of the source is a method with a loop. Its ensures ties the
result to a prefix-recursive specification function, and the properties the
source promises are lemmas about that function. Four pieces of loop bodies are
methods of their own, called where the source runs them: the field reads of
the parser (`ReadRecord`), its layer walk (`WalkLayers`), the per-connection
update of the connection tracker (`UpdateConnection`) and its five flag tests
(`TestFlags`).

The detectors keep their parameter defaults as Dafny default parameter values:
- the volume detector's mode defaults to `Static(DefaultThreshold)`, with 1048576 bytes;
- a caller that asks for adaptive mode without a factor uses `Adaptive(DefaultFactor)`, with factor 2.0;
- the port-scan threshold defaults to 10, the SYN-flood threshold to 50 and the ICMP threshold to 100;
- the whitelist of the unusual-protocol detector defaults to `None`, which selects the nine-name default list.

The combined scan passes its own thresholds (10, 20 and 50) instead.

Modules:
- `Collections`: dictionaries, counting, `Counter(...)` and the filters;
- `Utf8`: strict and lossy UTF-8 decoding;
- `Text`: `split()`, `split('\r\n')[0]`, `join` and decimal rendering;
- `Packets`;
- `Analyzer`;
- `Connections`;
- `PortScan`;
- `Floods`;
- `Dns`;
- `Http`;
- `Services`;
- `SecurityScan`.

Behaviour of the code worth noting:
- an HTTP request line needs at least three tokens;
- undecodable payload bytes are dropped (`errors='ignore'`);
- a DNS query name that is not valid UTF-8 makes the DNS detector fail, and with it the combined scan;
- the long-name reason text is "Unusually long domain name (potential DNS tunneling)".

## Model

| member | source | states |
|---|---|---|
| Analyzer.ParsePackets | src/analyzer.py:18-68 | The loop produces exactly the records and the three counters of the one-pass specification `ParseAll`. A malformed packet is skipped. |
| Analyzer.ReadRecord | src/analyzer.py:26-53 | The fields read from one packet form its row `RecordOf`: IP, else ARP, else empty addresses; TCP, else UDP, else no ports; the layer names joined by " -> " and the last of them. |
| Analyzer.WalkLayers | src/analyzer.py:34-41 | Walking the payload chain from the outside in collects the layer names in order. |
| Analyzer.RecordsAreReadablePackets | src/analyzer.py:25-65 | There is one record per packet that does not raise, in capture order, and each record is that packet's fields. |
| Analyzer.FullCounterTally | src/analyzer.py:57 | The full-protocol counter is `Counter` of the records' full chains: the count of each chain, keyed in first-appearance order. |
| Analyzer.MainCounterTally | src/analyzer.py:58 | The main-protocol counter is `Counter` of the records' main protocols. |
| Analyzer.CountersSumToRecords | src/analyzer.py:20-67 | Both protocol counters sum to the number of records. Input with no readable packet gives no records and three empty counters. |
| Analyzer.MainProtocolIsLastSegment | src/analyzer.py:35-44 | No layers gives an empty chain and "UNKNOWN". One layer gives chain == main == that name. Otherwise the main protocol is the last layer, and it is the last " -> " segment of the chain. |
| Analyzer.AddTrafficTotal | src/analyzer.py:59-62 | One record adds its length once for each non-empty address to the counter's sum. |
| Analyzer.AddTrafficGet | src/analyzer.py:59-62 | One record adds its length to each of its non-empty addresses, twice when source equals destination, and never counts "". |
| Analyzer.AddTrafficKeys | src/analyzer.py:59-62 | A new address is appended to the key order; a known one keeps its place. |
| Analyzer.TrafficCounterTotal | src/analyzer.py:59-62 | The traffic counter sums to the sum over records of length × (number of non-empty addresses). |
| Analyzer.TrafficCounterPerAddress | src/analyzer.py:59-62 | Each non-empty address maps to the bytes of the records it appears in, counted once per side. The empty address is never counted. |
| Analyzer.TrafficCounterOrder | src/analyzer.py:59-62 | The counter's keys are the non-empty addresses in first-appearance order, each once. |
| Analyzer.TrafficCounterNonNegative | src/analyzer.py:59-62 | Every byte total in the traffic counter is ≥ 0, so `AdaptiveAntitone` applies to the parser's counter. |
| Analyzer.LoopbackCountsTwice | src/analyzer.py:59-62 | A readable packet whose source equals its destination adds twice its length to that one address. |
| Analyzer.DetectSuspicious | src/analyzer.py:70-98 | The loop returns the counter keys above the cut, in counter order. Adaptive mode with an empty counter returns []. The defaults are 1048576 bytes and factor 2. |
| Analyzer.SuspiciousExactly | src/analyzer.py:82-96 | With distinct keys: the result has no duplicates. An address is flagged iff it is a key whose total is strictly above the cut. In static mode this is the integer test `total > threshold`. |
| Analyzer.AdaptiveCrossMultiplied | src/analyzer.py:86-90 | The adaptive test `total > (sum / n) * factor` is the same as `total * n > sum * factor`. |
| Analyzer.CutAntitone | src/analyzer.py:89-96 | A higher cut keeps a subset of the flagged keys, which is the lower cut's result filtered again. |
| Analyzer.StaticAntitone | src/analyzer.py:93-96 | Raising the static threshold yields a subset of the flagged addresses. |
| Analyzer.MeanNonNegative | src/analyzer.py:86 | The mean of non-negative totals is non-negative. |
| Analyzer.AdaptiveAntitone | src/analyzer.py:82-91 | With non-negative totals, raising the factor raises the cut and yields a subset of the flagged addresses. |
| Connections.AnalyzeConnections | src/advanced_analyzer.py:28-78 | The loop builds exactly the table of the specification `Track`. |
| Connections.UpdateConnection | src/advanced_analyzer.py:54-76 | The field-by-field update of one connection equals `Observe`: counts, bytes, first and last time, the five flag tests, then the latch. |
| Connections.TestFlags | src/advanced_analyzer.py:61-72 | Each flag test that passes adds one to its own counter. Packets, bytes, times and the latch are unchanged. |
| Connections.ObserveSummary | src/advanced_analyzer.py:54-76 | Observing one more packet extends the per-key summary by that packet. |
| Connections.TrackSummary | src/advanced_analyzer.py:43-76 | Each key's entry is the summary of the TCP-over-IP packets with that directional key: packet and byte totals, flag counts, first and last time, and the latch. A key with no such packet has no entry. |
| Connections.TrackKeys | src/advanced_analyzer.py:43-51 | The table's keys are the directional keys of the tracked packets, in first-appearance order, each once. |
| Connections.SynAckCountDominates | src/advanced_analyzer.py:62-72 | Because the SYN-ACK mask is 0x12, syn_count ≤ syn_ack_count, ack_count ≤ syn_ack_count and syn_ack_count ≤ packets. |
| Connections.ConnectionInvariants | src/advanced_analyzer.py:43-76 | For every entry: packets is the number of matching packets (> 0), bytes is their total length, the three flag inequalities hold, the latch is set iff syn, syn_ack and ack counts are all positive, and both times are set. |
| Connections.OnKeyAppend | src/advanced_analyzer.py:50-51 | The packets on a key in a concatenation are those of each part, in order. |
| Connections.FlagCountAppend | src/advanced_analyzer.py:62-72 | A flag count never decreases when packets are appended. |
| Connections.HandshakeLatches | src/advanced_analyzer.py:74-76 | Once a key's handshake is complete, it stays complete whatever packets follow. |
| Connections.LoneSyn | src/advanced_analyzer.py:63-66 | A lone SYN counts as one SYN and one SYN-ACK, and leaves the connection incomplete. |
| Connections.SynAckAlone | src/advanced_analyzer.py:63-76 | One packet with SYN and ACK set completes the handshake of its own key. |
| Connections.DirectionsAreSeparate | src/advanced_analyzer.py:50 | The two directions of an exchange are different keys, each with its own statistics. |
| PortScan.DetectPortScanning | src/advanced_analyzer.py:81-103 | The reported sources are the sources of `IpPorts` with at least `threshold` pairs, in first-appearance order. Each report gives the pair count and a sample of that set. The default threshold is 10. |
| PortScan.SamplePorts | src/advanced_analyzer.py:100 | The sample holds min(size, 20) distinct pairs of the set, sorted by port. No omitted pair has a lower port than a listed one. |
| PortScan.LowestPortExists | src/advanced_analyzer.py:100 | A non-empty set of pairs has a pair with the lowest port. |
| PortScan.IpPortsKeys | src/advanced_analyzer.py:84-92 | The per-source table has the scanning sources as keys, in first-appearance order, each once. |
| PortScan.PortsOfSnoc | src/advanced_analyzer.py:86-92 | A packet adds its pair to its source's set only, and only when it carries TCP or UDP over IP. |
| PortScan.IpPortsSets | src/advanced_analyzer.py:84-92 | Each source maps to the set of distinct (protocol, destination port) pairs it sent. A source with none has no entry. |
| PortScan.HeavyMembers | src/advanced_analyzer.py:96-97 | A key is kept iff its set has at least `threshold` pairs. |
| PortScan.ScannersExactly | src/advanced_analyzer.py:86-101 | A source is reported iff it sent at least one pair and its number of distinct pairs is ≥ threshold. |
| PortScan.TcpWins | src/advanced_analyzer.py:89-92 | A packet with both TCP and UDP contributes only its TCP pair. |
| Floods.DetectSynFlood | src/advanced_analyzer.py:106-132 | The loops list the table's incomplete connections in table order. They give the destinations whose summed SYN counts are ≥ threshold, with those sums. The default threshold is 50. |
| Floods.IncompleteSound | src/advanced_analyzer.py:110-119 | Every listed entry is a connection of the table with syn_count > 0 and no complete handshake, with its SYN count. |
| Floods.IncompleteComplete | src/advanced_analyzer.py:110-119 | Every connection with syn_count > 0 and no complete handshake is listed. |
| Floods.WeightOfTargets | src/advanced_analyzer.py:122-124 | The per-destination sum of the weighted list is the SYN total towards that destination. |
| Floods.SynFloodTargets | src/advanced_analyzer.py:121-130 | A destination is a target iff some incomplete connection goes to it and their SYN counts sum to ≥ threshold. It is reported with that sum, each target once. |
| Floods.SynFloodAntitone | src/advanced_analyzer.py:127-130 | Raising the threshold keeps a subset of the targets. |
| Floods.DetectIcmpFlood | src/advanced_analyzer.py:135-150 | The loop counts ICMP-over-IP packets per source and keeps the counts ≥ threshold. The default threshold is 100. |
| Floods.IcmpFlooders | src/advanced_analyzer.py:139-148 | A source is reported iff it sent at least one and at least `threshold` ICMP-over-IP packets. It is reported with that count, each source once. |
| Dns.DetectDnsAnomalies | src/advanced_analyzer.py:153-186 | The loop returns the result of the specification `Report`: None where a query name does not decode, otherwise the queries, the long-name records and the high-frequency sources. |
| Dns.ScanFailurePersists | src/advanced_analyzer.py:158-161 | Once a name has failed to decode, no later packet undoes the failure. |
| Dns.ScanFails | src/advanced_analyzer.py:159-161 | The detector fails iff some query (qr == 0, with IP) has a name that is not valid UTF-8. |
| Dns.ScanQueries | src/advanced_analyzer.py:159-167 | On success there is one record per query packet, in capture order, holding its source, decoded name and name length. |
| Dns.ScanSuspicious | src/advanced_analyzer.py:169-175 | The suspicious records are exactly the query records whose name is longer than 50, in order. |
| Dns.HighFrequencySources | src/advanced_analyzer.py:177-184 | A source is high-frequency iff it sent strictly more than 100 recorded queries. It is reported with that count, each source once. |
| Dns.MissingQuestion | src/advanced_analyzer.py:161 | A query with no question section records the empty name and is not suspicious. |
| Dns.BadNameFails | src/advanced_analyzer.py:161 | A query named by the byte 0xFF makes the whole detector fail, whatever surrounds it. |
| Http.ExtractHttpInfo | src/advanced_analyzer.py:189-231 | The loop returns exactly the request and response lists of the specification. A malformed packet raises inside the `try` and is skipped. |
| Http.MalformedYieldsNothing | src/advanced_analyzer.py:198-229 | A packet whose field reads raise yields neither a request nor a response. |
| Http.RequestOrResponse | src/advanced_analyzer.py:202-217 | No packet yields both a request and a response. |
| Http.PrefixIsMethod | src/advanced_analyzer.py:202 | Each request prefix is a method name plus a space, and a method name is one word. |
| Http.RequestMethod | src/advanced_analyzer.py:202-210 | A recorded request's method is one of the five methods, and the text starts with it and a space. |
| Http.ResponseLine | src/advanced_analyzer.py:217-225 | A recorded response's status line has ≥ 2 tokens. The first starts with "HTTP/" and the status code is the second. |
| Http.NoIpNoAddresses | src/advanced_analyzer.py:208-224 | Without an IP layer, both addresses of a request or response are "". |
| Http.RequestsFromPackets | src/advanced_analyzer.py:194-214 | A request is recorded iff some packet of the capture yields it. |
| Http.ResponsesFromPackets | src/advanced_analyzer.py:194-227 | A response is recorded iff some packet of the capture yields it. |
| Http.DroppedByteText | src/advanced_analyzer.py:199 | The bytes `GE\xffT / H` decode to `GET / H`: the invalid byte is dropped. |
| Http.DroppedByteLine | src/advanced_analyzer.py:202-206 | `GET / H` starts like a request, and its first line splits into three tokens. |
| Http.DroppedByte | src/advanced_analyzer.py:195-214 | A packet with the payload `GE\xffT / H` and no IP yields the request ("", "", "GET", "/", "H"). |
| Services.TableNamesAreNotFallbacks | src/advanced_analyzer.py:8-19 | No name in the service table starts with "Port-". |
| Services.ServiceName | src/advanced_analyzer.py:21-25 | A port in the table gets the table's name. Any other port gets "Port-" followed by a canonical decimal (no leading zero, no "-0") that parses back to the port. By `Text.CanonicalUnique` that is exactly `f"Port-{port}"`. |
| Services.ServiceNameReadsBack | src/advanced_analyzer.py:21-25 | A port is in the table iff its name does not start with "Port-". The fallback name of any other port reads back as that port. |
| Services.FallbackNamesAreDistinct | src/advanced_analyzer.py:21-25 | Two ports outside the table never get the same name. |
| Services.DetectUnusualProtocols | src/advanced_analyzer.py:234-244 | The loop stores, in counter order, every count whose protocol is not whitelisted. The default whitelist is used when none is given. |
| Services.KeptMembers | src/advanced_analyzer.py:240-242 | The filtered entries are exactly the counter's entries with a non-whitelisted protocol. |
| Services.UnusualIsFilter | src/advanced_analyzer.py:240-242 | On a counter with distinct keys, the loop's result is that filter, in counter order, with distinct keys. |
| Services.UnusualExactly | src/advanced_analyzer.py:234-244 | An entry is reported iff it is in the counter and its protocol is not whitelisted. |
| Services.KeptIdempotent | src/advanced_analyzer.py:240-242 | Filtering twice with the same whitelist equals filtering once. |
| Services.UnusualIdempotent | src/advanced_analyzer.py:234-244 | Running the filter on its own result changes nothing. |
| SecurityScan.ComprehensiveSecurityScan | src/advanced_analyzer.py:297-328 | The scan fails iff the DNS detector fails. Otherwise each field is its detector's result on the same capture, with port-scan threshold 10, SYN-flood threshold 20 and ICMP threshold 50. |
| SecurityScan.ScanVerdicts | src/advanced_analyzer.py:297-328 | The scan fails iff some query name does not decode. Otherwise: an ICMP flooder sent ≥ 50 ICMP-over-IP packets; a SYN-flood target receives ≥ 20 SYNs over incomplete connections; a port scanner used ≥ 10 distinct pairs; each iff. |
| SecurityScan.SynsNeedTarget | src/advanced_analyzer.py:122-124 | A positive SYN total towards an address needs an incomplete connection to it. |
| Collections.TallyCounts | src/advanced_analyzer.py:178 | `Counter(s)` maps each element to its number of occurrences, keyed in first-appearance order. |
| Collections.AccumulateSums | src/advanced_analyzer.py:122-124 | `d[k] += w` over a list keeps each key once, in first-appearance order, with the sum of its weights. |
| Collections.AtLeastFind | src/advanced_analyzer.py:127-130 | With distinct keys, the `>=` comprehension keeps a key with its value iff the value is ≥ the threshold. |
| Collections.AboveFind | src/advanced_analyzer.py:181-184 | With distinct keys, the `>` comprehension keeps a key with its value iff the value is strictly above the threshold. |
| Utf8.DecodeStrictEncode | src/advanced_analyzer.py:161 | Strict decoding of the UTF-8 encoding of any text gives the text back. |
| Utf8.DecodeStrictAgrees | src/advanced_analyzer.py:199 | Where strict decoding succeeds, lossy decoding gives the same text. |
| Utf8.DecodeIgnoreEncode | src/advanced_analyzer.py:199 | Lossy decoding of encoded text gives the text back. |
| Utf8.DecodeAscii | src/advanced_analyzer.py:199 | ASCII bytes decode one character per byte, with the same codes. |
| Text.TokensConcat | src/advanced_analyzer.py:204 | `split()` returns the text's non-space characters, cut into non-empty space-free tokens. |
| Text.TokensAtSpace | src/advanced_analyzer.py:204 | `split()` splits at every whitespace character: the tokens of `a + c + b`, with `c` whitespace, are those of `a` followed by those of `b`. |
| Text.FirstLineOfPrefix | src/advanced_analyzer.py:203 | A prefix without a carriage return stays on the first CRLF line. |
| Text.FirstWordOfFirstLine | src/advanced_analyzer.py:202-204 | Text that starts with a word and a space has that word as the first token of its first line. |
| Text.DecimalCanonical | src/advanced_analyzer.py:25 | `f"{port}"` has no leading zero and no minus sign before zero. |
| Text.CanonicalUnique | src/advanced_analyzer.py:25 | A canonical string is the decimal rendering of the integer it parses to, so no other spelling of the port is canonical. |
| Text.DecimalRoundTrip | src/advanced_analyzer.py:25 | The decimal rendering of an integer reads back as that integer. |

## Left out

- Reading the capture file (`load_pcap`): the model takes the decoded packet sequence as input.
- Scapy's layer decoding (`haslayer`, `pkt[X]`, the payload chain): it is replaced by the `Packet` datatype. Which packets raise during field extraction is an input (the `malformed` marker).
- The `malformed` marker is read by the two loops that catch exceptions. The parser skips such a packet (src/analyzer.py:64-65), and so does the HTTP extractor (src/advanced_analyzer.py:228-229).
- Connections.AnalyzeConnections: there is no `try` around the header reads (src/advanced_analyzer.py:44-62). On a malformed packet the source raises out of the function, while the model reads the packet's headers normally.
- PortScan.DetectPortScanning: there is no `try` around the header reads (src/advanced_analyzer.py:87-92). On a malformed packet the source raises, while the model reads the packet normally.
- Floods.DetectIcmpFlood: there is no `try` around the source read (src/advanced_analyzer.py:140-142). On a malformed packet the source raises, while the model counts the packet normally.
- Dns.DetectDnsAnomalies: there is no `try` around the header reads (src/advanced_analyzer.py:159-164). On a malformed packet the source raises, while the model reads the packet normally. The model's failure result covers only a query name that is not valid UTF-8.
- SecurityScan.ComprehensiveSecurityScan: it calls the four detectors above, so on a malformed packet the source raises out of the scan, while the model reads the packet normally.
- Http.ExtractHttpInfo: a raise at `pkt[Raw].load` (src/advanced_analyzer.py:196) is outside the `try` and would end the whole call. The marker does not tell it apart from a raise inside the `try`, and the model skips the packet in both cases.
- The pandas DataFrame of records: the records are a sequence of `Record`s.
- `analyze_packet_timing` and `get_protocol_statistics`: pandas grouping with float mean and standard deviation, outside the core.
- The HTML dashboard, visualiser, report generator, command-line entry point and sample-capture generator: presentation, configuration and I/O.
- Print statements and the logging of skipped packets.
- Analyzer.DetectSuspicious: adaptive mode uses exact rational arithmetic, not IEEE-754 doubles. A total within rounding distance of the cut may be classified differently by the program.
- PortScan.SamplePorts: the order of a TCP pair and a UDP pair on the same port follows Python set iteration order, which is hash-dependent. The contract states only what every order satisfies.
- Services.ServiceName: the unused `protocol` argument of `get_service_name` is not a parameter.
- The TCP flags field is eight bits wide. The ninth (NS) bit is not modelled, and none of the five tests reads it.
- SecurityScan.ComprehensiveSecurityScan: the `df` and `ip_traffic_counter` arguments are unused by the source and are not parameters.
- Layer walks are over a finite chain. A packet whose payload chain loops is not representable.
