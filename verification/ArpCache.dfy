/** ARP frames on the wire, and what a batch of them teaches the shared cache. */
module ArpCache {
  import opened Bytes

  type Mac = s: seq<byte> | |s| == 6 witness [0, 0, 0, 0, 0, 0]
  type Ipv4 = s: seq<byte> | |s| == 4 witness [0, 0, 0, 0]

  const ARP_FRAME: nat := 42

  /** An ARP reply: ethertype 0x0806 and operation 2, in a frame of at least 42 bytes. */
  predicate IsArpReply(p: seq<byte>) {
    |p| >= ARP_FRAME && p[12] == 0x08 && p[13] == 0x06 && p[20] == 0x00 && p[21] == 0x02
  }

  /** Sender address and MAC of an ARP reply, whatever else it holds. */
  function ParseArpReply(p: seq<byte>): (r: Option<(Ipv4, Mac)>)
    ensures r.Some? <==> IsArpReply(p)
  {
    if |p| < 42 then None
    else if p[12] != 0x08 || p[13] != 0x06 then None
    else if p[20] != 0x00 || p[21] != 0x02 then None
    else Some((p[28..32], p[22..28]))
  }

  /** The layout of an ARP reply: what the parser looks at, and parts it skips. */
  ghost predicate Layout(p: seq<byte>, addresses: seq<byte>, fixed: seq<byte>, mac: Mac, ip: Ipv4, target: seq<byte>) {
    && |addresses| == 12 && |fixed| == 6 && |target| >= 10
    && p == addresses + [0x08, 0x06] + fixed + [0x00, 0x02] + mac + ip + target
  }

  /** The parser answers an entry exactly for the frames laid out as a reply that carries it. */
  lemma ParsesExactly(p: seq<byte>, ip: Ipv4, mac: Mac)
    ensures ParseArpReply(p) == Some((ip, mac)) <==>
      exists addresses, fixed, target :: Layout(p, addresses, fixed, mac, ip, target)
  {
    if ParseArpReply(p) == Some((ip, mac)) {
      assert p[12..14] == [0x08, 0x06] && p[20..22] == [0x00, 0x02];
      assert p == p[..12] + p[12..14] + p[14..20] + p[20..22] + p[22..28] + p[28..32] + p[32..];
      assert Layout(p, p[..12], p[14..20], mac, ip, p[32..]);
    }
    forall addresses, fixed, target | Layout(p, addresses, fixed, mac, ip, target)
      ensures ParseArpReply(p) == Some((ip, mac))
    {
      assert p[22..28] == mac && p[28..32] == ip;
    }
  }

  /** The frame the injector builds, field by field. */
  function ReplyFrame(ourMac: Mac, ourIp: Ipv4, peerMac: Mac, peerIp: Ipv4): seq<byte> {
    ourMac + peerMac + [0x08, 0x06] + [0x00, 0x01] + [0x08, 0x00] + [6] + [4] + [0x00, 0x02]
    + peerMac + peerIp + ourMac + ourIp
  }

  /** Fill a zeroed 42-byte buffer with an ARP reply from the peer to us. */
  method BuildArpReply(ourMac: Mac, ourIp: Ipv4, peerMac: Mac, peerIp: Ipv4) returns (packet: array<byte>)
    ensures fresh(packet) && packet.Length == ARP_FRAME
    ensures packet[..] == ReplyFrame(ourMac, ourIp, peerMac, peerIp)
  {
    packet := new byte[42](_ => 0);
    assert packet[..0] == [];
    Copy(packet, 0, ourMac);
    Copy(packet, 6, peerMac);
    Copy(packet, 12, [0x08, 0x06]);
    Copy(packet, 14, [0x00, 0x01]);
    Copy(packet, 16, [0x08, 0x00]);
    Copy(packet, 18, [6]);
    Copy(packet, 19, [4]);
    Copy(packet, 20, [0x00, 0x02]);
    Copy(packet, 22, peerMac);
    Copy(packet, 28, peerIp);
    Copy(packet, 32, ourMac);
    Copy(packet, 38, ourIp);
    assert packet[..] == packet[..42];
    assert [] + ourMac == ourMac;
  }

  /**
   * What a receiver of the injected frame checks: it is an ARP reply for IPv4 over
   * Ethernet, addressed to us on both layers and sent by the peer.
   */
  lemma ReplyAddressed(ourMac: Mac, ourIp: Ipv4, peerMac: Mac, peerIp: Ipv4)
    ensures
      var p := ReplyFrame(ourMac, ourIp, peerMac, peerIp);
      && |p| == 42
      && p[..6] == ourMac && p[6..12] == peerMac && p[12..14] == [0x08, 0x06]
      && p[14..20] == [0, 1, 8, 0, 6, 4] && p[20..22] == [0, 2]
      && p[22..28] == peerMac && p[28..32] == peerIp && p[32..38] == ourMac && p[38..] == ourIp
  {
  }

  /** What is injected is read back as the very entry of the cache. */
  lemma ArpRoundTrip(ourMac: Mac, ourIp: Ipv4, peerMac: Mac, peerIp: Ipv4)
    ensures ParseArpReply(ReplyFrame(ourMac, ourIp, peerMac, peerIp)) == Some((peerIp, peerMac))
  {
    var p := ReplyFrame(ourMac, ourIp, peerMac, peerIp);
    assert p[22..28] == peerMac;
    assert p[28..32] == peerIp;
  }

  /** The cache after a batch of frames: replies in order, a later one winning. */
  function Learned(entries: map<Ipv4, Mac>, frames: seq<seq<byte>>): map<Ipv4, Mac> {
    if frames == [] then entries
    else
      var before := Learned(entries, frames[..|frames| - 1]);
      match ParseArpReply(frames[|frames| - 1])
      case None => before
      case Some((ip, mac)) => before[ip := mac]
  }

  function Replies(frames: seq<seq<byte>>): nat {
    if frames == [] then 0
    else Replies(frames[..|frames| - 1]) + if IsArpReply(frames[|frames| - 1]) then 1 else 0
  }

  /** The replies of a batch are counted one by one. */
  lemma {:induction false} RepliesCounted(frames: seq<seq<byte>>)
    ensures Replies(frames) == |set k | 0 <= k < |frames| && ParseArpReply(frames[k]).Some?|
  {
    var all := set k | 0 <= k < |frames| && ParseArpReply(frames[k]).Some?;
    if frames == [] {
      assert all == {};
    } else {
      var n := |frames| - 1;
      RepliesCounted(frames[..n]);
      var before := set k | 0 <= k < n && ParseArpReply(frames[..n][k]).Some?;
      assert all == before + if ParseArpReply(frames[n]).Some? then {n} else {};
    }
  }

  /** An address without a reply in the batch keeps its entry, or stays unknown. */
  lemma {:induction false} LearnedOthers(entries: map<Ipv4, Mac>, frames: seq<seq<byte>>, ip: Ipv4)
    requires forall k | 0 <= k < |frames| :: ParseArpReply(frames[k]).Some? ==> ParseArpReply(frames[k]).value.0 != ip
    ensures ip in Learned(entries, frames) <==> ip in entries
    ensures ip in entries ==> Learned(entries, frames)[ip] == entries[ip]
  {
    if frames != [] {
      var n := |frames| - 1;
      assert forall k | 0 <= k < n :: frames[..n][k] == frames[k];
      LearnedOthers(entries, frames[..n], ip);
    }
  }

  /** After a batch the cache has, for each address, the MAC of its last reply in the batch. */
  lemma {:induction false} LearnedLast(entries: map<Ipv4, Mac>, frames: seq<seq<byte>>, k: nat, ip: Ipv4, mac: Mac)
    requires k < |frames| && ParseArpReply(frames[k]) == Some((ip, mac))
    requires forall j | k < j < |frames| :: ParseArpReply(frames[j]).Some? ==> ParseArpReply(frames[j]).value.0 != ip
    ensures ip in Learned(entries, frames) && Learned(entries, frames)[ip] == mac
  {
    var n := |frames| - 1;
    if k < n {
      LearnedLast(entries, frames[..n], k, ip, mac);
      assert ParseArpReply(frames[n]).Some? ==> ParseArpReply(frames[n]).value.0 != ip;
    }
  }
}
