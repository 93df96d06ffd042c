/** What the firmware does to one frame between the wire and the receive ring. */
module PacketEcho {
  import opened RingGeometry

  const PKT_NBI_OFFSET: nat := 64
  const MAC_PREPEND_BYTES: nat := 4
  const CTM_BYTES: nat := 256

  // Byte offsets of the header fields, counted from the start of the packet (which includes
  // the eight bytes the MAC prepends).
  const ETH_DST: nat := 8
  const ETH_TYPE: nat := 20
  const IP_HEADER: nat := 22
  const IP_PROTO: nat := 31
  const IP_SRC: nat := 34
  const ICMP_TYPE: nat := 42

  const PROTO_ICMP: Byte := 1
  const PROTO_UDP: Byte := 17
  const ECHO_REPLY: Byte := 0

  /** A received frame: its first 256 bytes of buffer space are in CTM, the rest in the MU
      buffer at the same displacements. `len` is the length the NBI reports. */
  datatype Frame = Frame(ctm: seq<Byte>, mu: seq<Byte>, len: nat) {
    predicate Valid() {
      |ctm| == CTM_BYTES <= |mu| && len < WORD32 && PKT_NBI_OFFSET + len <= |mu|
    }

    /** The two buffers read as one. */
    function Buffer(): (b: seq<Byte>)
      requires Valid()
      ensures |b| == |mu|
    {
      ctm + mu[CTM_BYTES..]
    }

    /** Payload length as the firmware computes it, in 32-bit unsigned arithmetic. */
    function PayloadLength(): nat {
      (len + WORD32 - 2 * MAC_PREPEND_BYTES) % WORD32
    }

    /** Byte `k` of the packet. */
    function At(k: nat): Byte
      requires Valid() && k < CTM_BYTES - PKT_NBI_OFFSET
    {
      ctm[PKT_NBI_OFFSET + k]
    }
  }

  /** IPv4 frames that carry UDP or ICMP and whose payload has exactly the configured size pass. */
  predicate Allowed(f: Frame, packetSize: nat)
    requires f.Valid()
  {
    && f.At(ETH_TYPE) == 0x08 && f.At(ETH_TYPE + 1) == 0x00
    && (f.At(IP_PROTO) == PROTO_UDP || f.At(IP_PROTO) == PROTO_ICMP)
    && f.PayloadLength() == packetSize
  }

  /** Swap of the adjacent, equally long ranges [a, a+n) and [a+n, a+2n). */
  function SwapRanges(s: seq<Byte>, a: nat, n: nat): (r: seq<Byte>)
    requires a + 2 * n <= |s|
    ensures |r| == |s|
    ensures forall k :: 0 <= k < |s| ==>
      r[k] == if a <= k < a + n then s[k + n] else if a + n <= k < a + 2 * n then s[k - n] else s[k]
  {
    s[..a] + s[a + n..a + 2 * n] + s[a..a + n] + s[a + 2 * n..]
  }

  /** The header as the firmware writes it back: MAC addresses swapped, IP addresses swapped,
      and an ICMP message turned into an echo reply. `h` starts where the packet starts. */
  function EchoHeader(h: seq<Byte>): (r: seq<Byte>)
    requires ICMP_TYPE < |h|
    ensures |r| == |h|
  {
    var macs := SwapRanges(h, ETH_DST, 6);
    var ips := SwapRanges(macs, IP_SRC, 4);
    if ips[IP_PROTO] == PROTO_ICMP then ips[ICMP_TYPE := ECHO_REPLY] else ips
  }

  /** The bytes sent to the host for frame `f`: everything after the prepended words of the
      rewritten packet. */
  function EchoOf(f: Frame, packetSize: nat): (p: seq<Byte>)
    requires f.Valid() && PKT_NBI_OFFSET + 2 * MAC_PREPEND_BYTES + packetSize <= |f.mu|
    ensures |p| == packetSize
  {
    var start := PKT_NBI_OFFSET + 2 * MAC_PREPEND_BYTES;
    (f.Buffer()[..PKT_NBI_OFFSET] + EchoHeader(f.Buffer()[PKT_NBI_OFFSET..]))[start..start + packetSize]
  }

  // ----- The rewriting, octet by octet -----

  /** `r` is header `h` with the MAC addresses in octets 8 to 19 and the IP addresses in octets 34 to
      41 exchanged, and the ICMP type, in octet 42, set to 0 if octet 31 names ICMP. */
  predicate Rewritten(h: seq<Byte>, r: seq<Byte>)
    requires |h| == |r| > 42
  {
    && r[8..14] == h[14..20] && r[14..20] == h[8..14] && r[34..38] == h[38..42] && r[38..42] == h[34..38]
    && r[42] == (if h[31] == 1 then 0 else h[42])
    && r[..8] == h[..8] && r[20..34] == h[20..34] && r[43..] == h[43..]
  }

  lemma EchoHeaderBytes(h: seq<Byte>)
    requires |h| > 42
    ensures Rewritten(h, EchoHeader(h))
  {
    var r := EchoHeader(h);
    forall k | 0 <= k < |h| ensures r[k] == RewrittenOctet(h, k) {
    }
    OctetsRewritten(h, r);
  }

  function RewrittenOctet(h: seq<Byte>, k: nat): Byte
    requires k < |h| && |h| > 42
  {
    if 8 <= k < 14 then h[k + 6] else if 14 <= k < 20 then h[k - 6]
    else if 34 <= k < 38 then h[k + 4] else if 38 <= k < 42 then h[k - 4]
    else if k == 42 && h[31] == 1 then 0 else h[k]
  }

  lemma OctetsRewritten(h: seq<Byte>, r: seq<Byte>)
    requires |h| == |r| > 42
    ensures Rewritten(h, r) <==> forall k :: 0 <= k < |h| ==> r[k] == RewrittenOctet(h, k)
  {
    if Rewritten(h, r) {
      forall k | 0 <= k < |h| ensures r[k] == RewrittenOctet(h, k) {
        if k < 8 { assert r[..8][k] == h[..8][k]; }
        else if k < 14 { assert r[8..14][k - 8] == h[14..20][k - 8]; }
        else if k < 20 { assert r[14..20][k - 14] == h[8..14][k - 14]; }
        else if k < 34 { assert r[20..34][k - 20] == h[20..34][k - 20]; }
        else if k < 38 { assert r[34..38][k - 34] == h[38..42][k - 34]; }
        else if k < 42 { assert r[38..42][k - 38] == h[34..38][k - 38]; }
        else if k > 42 { assert r[43..][k - 43] == h[43..][k - 43]; }
      }
    }
  }

  /** `reply`, an Ethernet frame or its beginning, goes back to where `wire` came from: its destination
      addresses are the source addresses of `wire` and conversely, an ICMP message is an echo reply,
      and all else is what it was. */
  predicate SentBack(wire: seq<Byte>, reply: seq<Byte>)
    requires |reply| <= |wire| && |wire| > 34
  {
    forall k :: 0 <= k < |reply| ==> reply[k] == ReplyOctet(wire, k)
  }

  function ReplyOctet(wire: seq<Byte>, k: nat): Byte
    requires k < |wire| && |wire| > 34
  {
    if k < 6 then wire[k + 6] else if k < 12 then wire[k - 6]
    else if 26 <= k < 30 then wire[k + 4] else if 30 <= k < 34 then wire[k - 4]
    else if k == 34 && wire[23] == 1 then 0 else wire[k]
  }

  /** The octets behind the 64 of the buffer's head room and the 8 prepended by the MAC. */
  function Wire(f: Frame): (w: seq<Byte>)
    requires f.Valid()
    ensures |w| == |f.mu| - 72
  {
    f.Buffer()[72..]
  }

  /** The first 256 octets of the buffer are in CTM, the others in the MU buffer. */
  lemma WireAt(f: Frame, k: nat)
    requires f.Valid() && k < |f.mu| - 72
    ensures |f.ctm| == 256 && Wire(f)[k] == if k < 184 then f.ctm[72 + k] else f.mu[72 + k]
  {
  }

  /** What is sent to the host is the received frame sent back. */
  lemma EchoIsSentBack(f: Frame, packetSize: nat)
    requires f.Valid() && PKT_NBI_OFFSET + 2 * MAC_PREPEND_BYTES + packetSize <= |f.mu|
    ensures SentBack(Wire(f), EchoOf(f, packetSize))
  {
    hide EchoHeader;
    var b, p := f.Buffer(), EchoOf(f, packetSize);
    var h := b[64..];
    EchoHeaderBytes(h);
    OctetsRewritten(h, EchoHeader(h));
    forall k | 0 <= k < packetSize ensures p[k] == ReplyOctet(Wire(f), k) {
      assert p[k] == EchoHeader(h)[8 + k] == RewrittenOctet(h, 8 + k);
    }
  }

  /** Exactly these frames pass: EtherType 0x0800, protocol UDP or ICMP, and the configured length
      with the 8 octets prepended by the MAC. */
  lemma AllowedExactly(f: Frame, packetSize: nat)
    requires f.Valid() && packetSize < 0xffff_fff8
    ensures Allowed(f, packetSize)
      <==> && Wire(f)[12..14] == [0x08, 0x00] && Wire(f)[23] in {1, 17} && f.len == packetSize + 8
  {
    var w := Wire(f);
    assert w[12] == f.At(20) && w[13] == f.At(21) && w[23] == f.At(31);
    assert w[12..14] == [w[12], w[13]];
  }

  /** A frame that passes the filter holds the bytes that are sent. */
  lemma AllowedFits(f: Frame, packetSize: nat)
    requires f.Valid() && Allowed(f, packetSize) && packetSize < WORD32 - 2 * MAC_PREPEND_BYTES
    ensures f.len == packetSize + 2 * MAC_PREPEND_BYTES
    ensures PKT_NBI_OFFSET + 2 * MAC_PREPEND_BYTES + packetSize <= |f.mu|
  {
  }
}
