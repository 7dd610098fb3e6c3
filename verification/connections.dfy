/**
 * TCP connection tracking.
 *
 * Every packet that carries both TCP and IP belongs to the connection keyed by
 * its (source address, source port, destination address, destination port),
 * taken as is: the two directions of one exchange are two keys.  A connection
 * counts its packets and bytes, the packets carrying each of five flag tests,
 * the first and last arrival times, and latches "complete handshake" once it
 * has seen a SYN, a SYN-ACK and an ACK.
 *
 * The SYN-ACK test is `flags & 0x12`, which holds when SYN or ACK is set, not
 * only when both are: a lone SYN counts as a SYN-ACK too, and a packet with
 * SYN and ACK set completes the handshake of its own key by itself.
 */
module Connections {
  import opened Collections
  import opened Packets

  datatype ConnKey = ConnKey(srcIp: string, srcPort: int, dstIp: string, dstPort: int)

  /** The statistics of one connection; the times are absent until its first packet. */
  datatype Conn = Conn(
    packets: nat,
    bytes: nat,
    synCount: nat,
    synAckCount: nat,
    ackCount: nat,
    finCount: nat,
    rstCount: nat,
    firstSeen: Option<real>,
    lastSeen: Option<real>,
    completeHandshake: bool)

  /** The entry the `defaultdict` creates for a key seen for the first time. */
  const Fresh: Conn := Conn(0, 0, 0, 0, 0, 0, 0, None, None, false)

  /** Only packets with both a TCP and an IP layer are tracked. */
  predicate Tracked(p: Packet)
  {
    p.tcp.Some? && p.ip.Some?
  }

  function KeyOf(p: Packet): ConnKey
    requires Tracked(p)
  {
    ConnKey(p.ip.value.src, p.tcp.value.sport, p.ip.value.dst, p.tcp.value.dport)
  }

  /** `connections[key]` on the `defaultdict`. */
  function Lookup(m: Dict<ConnKey, Conn>, k: ConnKey): Conn
  {
    if Find(m, k).Some? then Find(m, k).value else Fresh
  }

  /** 1 when the flag test `flags & mask` is non-zero. */
  function Bit(flags: bv8, mask: bv8): nat
  {
    if flags & mask != 0 then 1 else 0
  }

  /** The flag test on a packet's TCP flags; a packet without TCP passes none. */
  function Hit(p: Packet, mask: bv8): nat
  {
    if p.tcp.Some? then Bit(p.tcp.value.flags, mask) else 0
  }

  /** The counters and times after one more packet, before the handshake latch. */
  function Counted(c: Conn, p: Packet): Conn
  {
    Conn(
      c.packets + 1, c.bytes + p.length,
      c.synCount + Hit(p, SynBit), c.synAckCount + Hit(p, SynAckMask), c.ackCount + Hit(p, AckBit),
      c.finCount + Hit(p, FinBit), c.rstCount + Hit(p, RstBit),
      if c.firstSeen.None? then Some(p.time) else c.firstSeen, Some(p.time),
      c.completeHandshake)
  }

  /** What one more packet on its key does to the connection. */
  function Observe(c: Conn, p: Packet): Conn
  {
    var c1 := Counted(c, p);
    if c1.synCount > 0 && c1.synAckCount > 0 && c1.ackCount > 0 then c1.(completeHandshake := true) else c1
  }

  /** The connection table after the packets `ps`, keyed in first-appearance order. */
  function Track(ps: seq<Packet>): Dict<ConnKey, Conn>
  {
    if ps == [] then []
    else
      var m := Track(ps[..|ps| - 1]);
      var p := ps[|ps| - 1];
      if Tracked(p) then Put(m, KeyOf(p), Observe(Lookup(m, KeyOf(p)), p)) else m
  }

  /** One pass over the packets, updating the connection of each tracked packet field by field. */
  method AnalyzeConnections(packets: seq<Packet>) returns (connections: Dict<ConnKey, Conn>)
    ensures connections == Track(packets)
  {
    connections := [];
    for i := 0 to |packets|
      invariant connections == Track(packets[..i])
    {
      var pkt := packets[i];
      assert packets[..i + 1][..i] == packets[..i];
      if pkt.tcp.Some? && pkt.ip.Some? {
        var src := pkt.ip.value.src;
        var dst := pkt.ip.value.dst;
        var sport := pkt.tcp.value.sport;
        var dport := pkt.tcp.value.dport;
        var connKey := ConnKey(src, sport, dst, dport);
        var conn := Lookup(connections, connKey);
        conn := UpdateConnection(conn, pkt);
        connections := Put(connections, connKey, conn);
      }
    }
    assert packets[..|packets|] == packets;
  }

  /** The five flag tests: each one that passes bumps its counter, and no other field changes. */
  method TestFlags(conn0: Conn, flags: bv8) returns (conn: Conn)
    ensures conn == conn0.(synCount := conn0.synCount + Bit(flags, SynBit),
                           synAckCount := conn0.synAckCount + Bit(flags, SynAckMask),
                           ackCount := conn0.ackCount + Bit(flags, AckBit),
                           finCount := conn0.finCount + Bit(flags, FinBit),
                           rstCount := conn0.rstCount + Bit(flags, RstBit))
  {
    conn := conn0;
    if flags & 0x02 != 0 {
      conn := conn.(synCount := conn.synCount + 1);
    }
    if flags & 0x12 != 0 {
      conn := conn.(synAckCount := conn.synAckCount + 1);
    }
    if flags & 0x10 != 0 {
      conn := conn.(ackCount := conn.ackCount + 1);
    }
    if flags & 0x01 != 0 {
      conn := conn.(finCount := conn.finCount + 1);
    }
    if flags & 0x04 != 0 {
      conn := conn.(rstCount := conn.rstCount + 1);
    }
  }

  /** The body of the tracking loop for one packet: counters, times, flag tests, then the latch. */
  method UpdateConnection(conn0: Conn, pkt: Packet) returns (conn: Conn)
    requires pkt.tcp.Some?
    ensures conn == Observe(conn0, pkt)
  {
    conn := conn0;
    conn := conn.(packets := conn.packets + 1);
    conn := conn.(bytes := conn.bytes + pkt.length);
    if conn.firstSeen.None? {
      conn := conn.(firstSeen := Some(pkt.time));
    }
    conn := conn.(lastSeen := Some(pkt.time));

    conn := TestFlags(conn, pkt.tcp.value.flags);
    assert conn == Counted(conn0, pkt);
    if conn.synCount > 0 && conn.synAckCount > 0 && conn.ackCount > 0 {
      conn := conn.(completeHandshake := true);
    }
  }

  // ---------------------------------------------------------------------------
  // Each connection, described by the packets on its key alone.

  /** The tracked packets on key `k`, in capture order. */
  function OnKey(ps: seq<Packet>, k: ConnKey): seq<Packet>
  {
    if ps == [] then []
    else
      var p := ps[|ps| - 1];
      OnKey(ps[..|ps| - 1], k) + (if Tracked(p) && KeyOf(p) == k then [p] else [])
  }

  /** The tracked keys in capture order, with repetitions. */
  function TrackedKeys(ps: seq<Packet>): seq<ConnKey>
  {
    if ps == [] then []
    else
      var p := ps[|ps| - 1];
      TrackedKeys(ps[..|ps| - 1]) + (if Tracked(p) then [KeyOf(p)] else [])
  }

  /** Number of packets passing the flag test `mask`. */
  function FlagCount(qs: seq<Packet>, mask: bv8): nat
  {
    if qs == [] then 0 else FlagCount(qs[..|qs| - 1], mask) + Hit(qs[|qs| - 1], mask)
  }

  function Bytes(qs: seq<Packet>): nat
  {
    if qs == [] then 0 else Bytes(qs[..|qs| - 1]) + qs[|qs| - 1].length
  }

  /**
   * The statistics a connection holds after exactly the packets `qs`: their
   * number, their total length, the five flag counts, the first and last
   * times, and the handshake flag set when all of SYN, SYN-ACK and ACK counts
   * are positive.
   */
  function Summary(qs: seq<Packet>): Conn
    requires qs != []
  {
    var syn := FlagCount(qs, SynBit);
    var synAck := FlagCount(qs, SynAckMask);
    var ack := FlagCount(qs, AckBit);
    Conn(|qs|, Bytes(qs), syn, synAck, ack, FlagCount(qs, FinBit), FlagCount(qs, RstBit),
         Some(qs[0].time), Some(qs[|qs| - 1].time), syn > 0 && synAck > 0 && ack > 0)
  }

  /** Observing one more packet extends the summary by that packet. */
  lemma ObserveSummary(qs: seq<Packet>, p: Packet)
    ensures Observe(if qs == [] then Fresh else Summary(qs), p) == Summary(qs + [p])
  {
    var rs := qs + [p];
    assert rs[..|rs| - 1] == qs;
    assert FlagCount(rs, SynBit) == FlagCount(qs, SynBit) + Hit(p, SynBit);
    assert FlagCount(rs, SynAckMask) == FlagCount(qs, SynAckMask) + Hit(p, SynAckMask);
    assert FlagCount(rs, AckBit) == FlagCount(qs, AckBit) + Hit(p, AckBit);
    assert FlagCount(rs, FinBit) == FlagCount(qs, FinBit) + Hit(p, FinBit);
    assert FlagCount(rs, RstBit) == FlagCount(qs, RstBit) + Hit(p, RstBit);
    assert Bytes(rs) == Bytes(qs) + p.length;
    if qs != [] {
      assert rs[0] == qs[0];
    } else {
      assert rs == [p];
    }
  }

  /**
   * The table holds a key exactly when some tracked packet carried it, and
   * then holds the summary of the packets on that key.
   */
  lemma {:induction false} TrackSummary(ps: seq<Packet>, k: ConnKey)
    ensures Find(Track(ps), k) == if OnKey(ps, k) == [] then None else Some(Summary(OnKey(ps, k)))
  {
    if ps != [] {
      var prev := ps[..|ps| - 1];
      var p := ps[|ps| - 1];
      TrackSummary(prev, k);
      var m := Track(prev);
      if Tracked(p) && KeyOf(p) == k {
        assert OnKey(ps, k) == OnKey(prev, k) + [p];
        assert Lookup(m, k) == if OnKey(prev, k) == [] then Fresh else Summary(OnKey(prev, k));
        ObserveSummary(OnKey(prev, k), p);
      } else {
        assert OnKey(ps, k) == OnKey(prev, k) + [];
        assert OnKey(prev, k) + [] == OnKey(prev, k);
        if Tracked(p) {
          PutOther(m, KeyOf(p), Observe(Lookup(m, KeyOf(p)), p), k);
        }
        assert Find(Track(ps), k) == Find(m, k);
      }
    }
  }

  /** The keys are the tracked keys in first-appearance order, each once. */
  lemma {:induction false} TrackKeys(ps: seq<Packet>)
    ensures Keys(Track(ps)) == Dedup(TrackedKeys(ps))
    ensures Distinct(Keys(Track(ps)))
  {
    if ps != [] {
      var prev := ps[..|ps| - 1];
      var p := ps[|ps| - 1];
      TrackKeys(prev);
      if Tracked(p) {
        PutDedup(Track(prev), TrackedKeys(prev), KeyOf(p), Observe(Lookup(Track(prev), KeyOf(p)), p));
      } else {
        assert TrackedKeys(ps) == TrackedKeys(prev) + [];
        assert TrackedKeys(prev) + [] == TrackedKeys(prev);
      }
    }
  }

  /** Because 0x12 contains the SYN bit and the ACK bit, its test passes whenever either of theirs does. */
  lemma {:induction false} SynAckCountDominates(qs: seq<Packet>)
    ensures FlagCount(qs, SynBit) <= FlagCount(qs, SynAckMask)
    ensures FlagCount(qs, AckBit) <= FlagCount(qs, SynAckMask)
    ensures FlagCount(qs, SynAckMask) <= |qs|
  {
    if qs != [] {
      SynAckCountDominates(qs[..|qs| - 1]);
      var p := qs[|qs| - 1];
      if p.tcp.Some? {
        var f := p.tcp.value.flags;
        assert f & SynBit != 0 ==> f & SynAckMask != 0;
        assert f & AckBit != 0 ==> f & SynAckMask != 0;
      }
    }
  }

  /**
   * Every connection's statistics are consistent: one packet per count, the
   * byte total of its packets, at least as many SYN-ACK hits as SYN hits and
   * as ACK hits and no more than its packets, and the handshake flag set
   * exactly when the SYN, SYN-ACK and ACK counts are all positive.
   */
  lemma ConnectionInvariants(ps: seq<Packet>, k: ConnKey)
    requires Find(Track(ps), k).Some?
    ensures var c := Find(Track(ps), k).value;
            && c.packets == |OnKey(ps, k)| > 0
            && c.bytes == Bytes(OnKey(ps, k))
            && c.synCount <= c.synAckCount && c.ackCount <= c.synAckCount && c.synAckCount <= c.packets
            && (c.completeHandshake <==> c.synCount > 0 && c.synAckCount > 0 && c.ackCount > 0)
            && c.firstSeen.Some? && c.lastSeen.Some?
  {
    TrackSummary(ps, k);
    SynAckCountDominates(OnKey(ps, k));
  }

  lemma {:induction false} OnKeyAppend(ps: seq<Packet>, qs: seq<Packet>, k: ConnKey)
    ensures OnKey(ps + qs, k) == OnKey(ps, k) + OnKey(qs, k)
  {
    if qs != [] {
      var last := qs[|qs| - 1];
      assert (ps + qs)[..|ps + qs| - 1] == ps + qs[..|qs| - 1];
      OnKeyAppend(ps, qs[..|qs| - 1], k);
    } else {
      assert ps + qs == ps;
    }
  }

  lemma {:induction false} FlagCountAppend(qs: seq<Packet>, rs: seq<Packet>, mask: bv8)
    ensures FlagCount(qs + rs, mask) >= FlagCount(qs, mask)
  {
    if rs != [] {
      assert (qs + rs)[..|qs + rs| - 1] == qs + rs[..|rs| - 1];
      FlagCountAppend(qs, rs[..|rs| - 1], mask);
    } else {
      assert qs + rs == qs;
    }
  }

  /** The handshake flag is a latch: once set on a key, later packets never clear it. */
  lemma HandshakeLatches(ps: seq<Packet>, later: seq<Packet>, k: ConnKey)
    requires Find(Track(ps), k).Some? && Find(Track(ps), k).value.completeHandshake
    ensures Find(Track(ps + later), k).Some? && Find(Track(ps + later), k).value.completeHandshake
  {
    TrackSummary(ps, k);
    TrackSummary(ps + later, k);
    OnKeyAppend(ps, later, k);
    var before := OnKey(ps, k);
    FlagCountAppend(before, OnKey(later, k), SynBit);
    FlagCountAppend(before, OnKey(later, k), SynAckMask);
    FlagCountAppend(before, OnKey(later, k), AckBit);
  }

  /** A lone SYN counts as a SYN and as a SYN-ACK, and leaves its connection incomplete. */
  lemma LoneSyn(p: Packet)
    requires Tracked(p) && p.tcp.value.flags == SynBit
    ensures Find(Track([p]), KeyOf(p)) ==
      Some(Conn(1, p.length, 1, 1, 0, 0, 0, Some(p.time), Some(p.time), false))
  {
    TrackSummary([p], KeyOf(p));
    assert OnKey([p], KeyOf(p)) == [p];
  }

  /** A single packet with SYN and ACK both set completes the handshake of its own key. */
  lemma SynAckAlone(p: Packet)
    requires Tracked(p) && p.tcp.value.flags == SynBit | AckBit
    ensures Find(Track([p]), KeyOf(p)).Some? && Find(Track([p]), KeyOf(p)).value.completeHandshake
  {
    TrackSummary([p], KeyOf(p));
    assert OnKey([p], KeyOf(p)) == [p];
  }

  /** The two directions of one exchange are different keys, so their statistics are kept apart. */
  lemma DirectionsAreSeparate(p: Packet, q: Packet)
    requires Tracked(p) && Tracked(q)
    requires p.ip.value.src == q.ip.value.dst && p.ip.value.dst == q.ip.value.src
    requires p.tcp.value.sport == q.tcp.value.dport && p.tcp.value.dport == q.tcp.value.sport
    requires p.ip.value.src != p.ip.value.dst
    ensures Find(Track([p, q]), KeyOf(p)) == Some(Summary([p]))
    ensures Find(Track([p, q]), KeyOf(q)) == Some(Summary([q]))
  {
    TrackSummary([p, q], KeyOf(p));
    TrackSummary([p, q], KeyOf(q));
    assert [p, q][..1] == [p];
    assert [p][..0] == [];
    assert KeyOf(p) != KeyOf(q);
    assert OnKey([p], KeyOf(p)) == [p];
    assert OnKey([p], KeyOf(q)) == [];
    assert OnKey([p, q], KeyOf(p)) == [p];
    assert OnKey([p, q], KeyOf(q)) == [q];
  }
}
