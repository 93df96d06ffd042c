/** Header rewriting in place, and the transfers that split a packet between its two buffers. */
module PacketTransfer {
  import opened RingGeometry
  import opened PacketEcho
  import SingleContext

  // ----- Header -----

  /** Exchange the adjacent fields [a, a+n) and [a+n, a+2n) through a temporary. */
  method SwapFields(h: array<Byte>, a: nat, n: nat)
    requires a + 2 * n <= h.Length
    modifies h
    ensures h[..] == SwapRanges(old(h[..]), a, n)
  {
    var first := h[a..a + n];
    SingleContext.Copy(h[a + n..a + 2 * n], h, a);
    SingleContext.Copy(first, h, a + n);
  }

  method ModifyPacketHeader(h: array<Byte>)
    requires ICMP_TYPE < h.Length
    modifies h
    ensures h[..] == EchoHeader(old(h[..])) && Rewritten(old(h[..]), h[..])
  {
    hide Rewritten;
    EchoHeaderBytes(h[..]);
    SwapFields(h, ETH_DST, 6);
    SwapFields(h, IP_SRC, 4);
    if h[IP_PROTO] == PROTO_ICMP {
      h[ICMP_TYPE] := ECHO_REPLY;
    }
  }

  const HDR_BYTES: nat := 52

  /** Read the header registers from CTM, rewrite them, write them back. */
  method RewriteHeader(ctm: array<Byte>)
    requires ctm.Length == CTM_BYTES
    modifies ctm
    ensures ctm[..] == old(ctm[..PKT_NBI_OFFSET]) + EchoHeader(old(ctm[PKT_NBI_OFFSET..]))
    ensures ctm[..64] == old(ctm[..64]) && Rewritten(old(ctm[64..]), ctm[64..])
  {
    hide Rewritten, EchoHeader;
    EchoHeaderBytes(ctm[64..]);
    var hdr := new Byte[HDR_BYTES];
    SingleContext.Copy(ctm[PKT_NBI_OFFSET..PKT_NBI_OFFSET + HDR_BYTES], hdr, 0);
    ghost var before := hdr[..];
    ModifyPacketHeader(hdr);
    SingleContext.Copy(hdr[..], ctm, PKT_NBI_OFFSET);
    EchoHeaderPrefix(before, old(ctm[PKT_NBI_OFFSET..]));
  }

  // ----- Checksums -----

  /** Sum of the 16-bit big-endian words of `s` (section 1 of RFC 1071), before folding carries;
      the one's-complement sum is this number modulo 65535. */
  function WordSum(s: seq<Byte>): nat {
    if s == [] then 0
    else if |s| == 1 then 256 * (s[0] as nat)
    else 256 * (s[0] as nat) + (s[1] as nat) + WordSum(s[2..])
  }

  lemma {:induction false} WordSumAppend(a: seq<Byte>, b: seq<Byte>)
    requires |a| % 2 == 0
    ensures WordSum(a + b) == WordSum(a) + WordSum(b)
  {
    if a == [] {
      assert a + b == b;
    } else {
      WordSumAppend(a[2..], b);
      assert (a + b)[2..] == a[2..] + b;
    }
  }

  /** Swapping two fields at even offsets, of even length, does not change the sum. */
  lemma SwapKeepsSum(s: seq<Byte>, a: nat, n: nat)
    requires a + 2 * n <= |s| && a % 2 == 0 && n % 2 == 0
    ensures WordSum(SwapRanges(s, a, n)) == WordSum(s)
  {
    hide *;
    var p, x, y, q := s[..a], s[a..a + n], s[a + n..a + 2 * n], s[a + 2 * n..];
    FourParts(s, a, n);
    SumOfSwapped(p, x, y, q);
  }

  lemma SumOfSwapped(p: seq<Byte>, x: seq<Byte>, y: seq<Byte>, q: seq<Byte>)
    requires |p| % 2 == 0 && |x| % 2 == 0 && |y| % 2 == 0
    ensures WordSum(p + x + y + q) == WordSum(p + y + x + q)
  {
    hide WordSum;
    FourSums(p, x, y, q);
    FourSums(p, y, x, q);
  }

  lemma FourParts(s: seq<Byte>, a: nat, n: nat)
    requires a + 2 * n <= |s|
    ensures s == s[..a] + s[a..a + n] + s[a + n..a + 2 * n] + s[a + 2 * n..]
    ensures SwapRanges(s, a, n) == s[..a] + s[a + n..a + 2 * n] + s[a..a + n] + s[a + 2 * n..]
  {
  }

  lemma FourSums(p: seq<Byte>, x: seq<Byte>, y: seq<Byte>, q: seq<Byte>)
    requires |p| % 2 == 0 && |x| % 2 == 0 && |y| % 2 == 0
    ensures WordSum(p + x + y + q) == WordSum(p) + WordSum(x) + WordSum(y) + WordSum(q)
  {
    hide WordSum;
    WordSumAppend(p, x);
    WordSumAppend(p + x, y);
    WordSumAppend(p + x + y, q);
  }

  /** Clearing the first octet of a word lowers the sum by that octet's weight. */
  lemma {:induction false} ClearLowersSum(s: seq<Byte>, k: nat)
    requires k < |s| && k % 2 == 0
    ensures WordSum(s) == WordSum(s[k := 0]) + 256 * (s[k] as nat)
  {
    var c := s[k := 0];
    if k > 0 {
      ClearLowersSum(s[2..], k - 2);
      assert c[2..] == s[2..][k - 2 := 0];
    } else if |s| > 1 {
      assert c[2..] == s[2..];
    }
  }

  lemma OctetWeightVisible(t: Byte, low: nat)
    ensures (low + 256 * (t as nat)) % 65535 == low % 65535 <==> t == 0
  {
    var w := 256 * (t as nat);
    var q, r := low / 65535, low % 65535;
    assert low == 65535 * q + r;
    if t != 0 {
      assert 0 < w < 65535;
      if r + w < 65535 {
        assert low + w == 65535 * q + (r + w);
      } else {
        assert low + w == 65535 * (q + 1) + (r + w - 65535);
      }
    }
  }

  /** A swap inside a window is a swap of the window. */
  lemma SwapInWindow(s: seq<Byte>, a: nat, n: nat, lo: nat, hi: nat)
    requires lo <= a && a + 2 * n <= hi <= |s|
    ensures SwapRanges(s, a, n)[lo..hi] == SwapRanges(s[lo..hi], a - lo, n)
  {
    hide SwapRanges;
    var whole, w := SwapRanges(s, a, n), s[lo..hi];
    var l, r := whole[lo..hi], SwapRanges(w, a - lo, n);
    forall k | 0 <= k < hi - lo ensures l[k] == r[k] {
      assert l[k] == whole[lo + k];
      SwapAt(s, a, n, lo + k);
      SwapAt(w, a - lo, n, k);
    }
    assert l == r;
  }

  lemma SwapAt(s: seq<Byte>, a: nat, n: nat, k: nat)
    requires a + 2 * n <= |s| && k < |s|
    ensures SwapRanges(s, a, n)[k]
      == if a <= k < a + n then s[k + n] else if a + n <= k < a + 2 * n then s[k - n] else s[k]
  {
  }

  /** A swap does not reach behind its ranges. */
  lemma BehindSwap(s: seq<Byte>, a: nat, n: nat, lo: nat, hi: nat)
    requires a + 2 * n <= lo <= hi <= |s|
    ensures SwapRanges(s, a, n)[lo..hi] == s[lo..hi]
  {
    hide SwapRanges;
    forall k | lo <= k < hi ensures SwapRanges(s, a, n)[k] == s[k] {
      SwapAt(s, a, n, k);
    }
    assert SwapRanges(s, a, n)[lo..hi] == s[lo..hi];
  }

  /** The rewritten IPv4 header. */
  lemma EchoedIpHeader(h: seq<Byte>, hi: nat)
    requires ICMP_TYPE <= hi <= |h| && ICMP_TYPE < |h|
    ensures var swapped := SwapRanges(h[IP_HEADER..hi], IP_SRC - IP_HEADER, 4);
      EchoHeader(h)[IP_HEADER..hi]
        == if h[IP_PROTO] == PROTO_ICMP && ICMP_TYPE < hi then swapped[ICMP_TYPE - IP_HEADER := ECHO_REPLY]
           else swapped
  {
    hide SwapRanges;
    var macs := SwapRanges(h, ETH_DST, 6);
    BehindSwap(h, ETH_DST, 6, IP_HEADER, hi);
    SwapInWindow(macs, IP_SRC, 4, IP_HEADER, hi);
    SwapAt(h, ETH_DST, 6, IP_PROTO);
    SwapAt(macs, IP_SRC, 4, IP_PROTO);
  }

  /** The rewritten message behind the IPv4 header. */
  lemma EchoedMessage(h: seq<Byte>)
    requires ICMP_TYPE < |h|
    ensures EchoHeader(h)[ICMP_TYPE..]
      == if h[IP_PROTO] == PROTO_ICMP then h[ICMP_TYPE..][0 := ECHO_REPLY] else h[ICMP_TYPE..]
  {
    var ips := SwapRanges(SwapRanges(h, ETH_DST, 6), IP_SRC, 4);
    assert ips[ICMP_TYPE..] == h[ICMP_TYPE..];
    assert ips[IP_PROTO] == h[IP_PROTO];
  }

  /** The IPv4 header's one's-complement sum survives the rewriting, whatever the header length,
      except that with IP options the octet taken for the ICMP type is an option octet: the sum
      is kept exactly when that octet is not overwritten with a different value. `words` is the
      header length in 32-bit words. */
  lemma IpHeaderSumKept(h: seq<Byte>, words: nat)
    requires 5 <= words <= 15 && ICMP_TYPE < |h| && IP_HEADER + 4 * words <= |h|
    ensures var ip, ip' := h[IP_HEADER..IP_HEADER + 4 * words], EchoHeader(h)[IP_HEADER..IP_HEADER + 4 * words];
      (WordSum(ip') % 65535 == WordSum(ip) % 65535) <==>
      !(h[IP_PROTO] == PROTO_ICMP && words > 5 && h[ICMP_TYPE] != ECHO_REPLY)
  {
    hide WordSum, EchoHeader, SwapRanges;
    var hi := IP_HEADER + 4 * words;
    var ip, ip' := h[IP_HEADER..hi], EchoHeader(h)[IP_HEADER..hi];
    var swapped := SwapRanges(ip, IP_SRC - IP_HEADER, 4);
    SwapKeepsSum(ip, IP_SRC - IP_HEADER, 4);
    EchoedIpHeader(h, hi);
    if h[IP_PROTO] == PROTO_ICMP && words > 5 {
      SwapAt(ip, IP_SRC - IP_HEADER, 4, ICMP_TYPE - IP_HEADER);
      ClearLowersSum(swapped, ICMP_TYPE - IP_HEADER);
      OctetWeightVisible(swapped[ICMP_TYPE - IP_HEADER], WordSum(ip'));
    }
  }

  /** The ICMP checksum is not adjusted: of an ICMP message without IP options the sum survives
      exactly when its type octet already was that of an echo reply. */
  lemma IcmpSumKept(h: seq<Byte>)
    requires ICMP_TYPE < |h| && h[IP_PROTO] == PROTO_ICMP
    ensures (WordSum(EchoHeader(h)[ICMP_TYPE..]) % 65535 == WordSum(h[ICMP_TYPE..]) % 65535) <==>
      h[ICMP_TYPE] == ECHO_REPLY
  {
    hide WordSum, EchoHeader;
    EchoedMessage(h);
    ClearLowersSum(h[ICMP_TYPE..], 0);
    OctetWeightVisible(h[ICMP_TYPE], WordSum(EchoHeader(h)[ICMP_TYPE..]));
  }

  // ----- Transfers -----

  /** The two buffers of a packet read as one: CTM holds the first 256 bytes. */
  function Joined(ctm: seq<Byte>, mu: seq<Byte>): (b: seq<Byte>)
    requires |ctm| == CTM_BYTES <= |mu|
    ensures |b| == |mu|
  {
    ctm + mu[CTM_BYTES..]
  }

  lemma JoinedAt(ctm: seq<Byte>, mu: seq<Byte>, k: nat)
    requires |ctm| == 256 <= |mu| && k < |mu|
    ensures Joined(ctm, mu)[k] == if k < 256 then ctm[k] else mu[k]
  {
  }

  /** A piece of the joined buffers is a piece of the first followed by one of the second. */
  lemma JoinedSlice(ctm: seq<Byte>, mu: seq<Byte>, offset: nat, first: nat, len: nat)
    requires |ctm| == CTM_BYTES <= |mu| && offset + len <= |mu|
    requires first <= len && offset + first <= CTM_BYTES && (first < len ==> offset + first == CTM_BYTES)
    ensures Joined(ctm, mu)[offset..offset + len]
      == ctm[offset..offset + first] + mu[CTM_BYTES..CTM_BYTES + (len - first)]
  {
    var l, a := Joined(ctm, mu)[offset..offset + len], ctm[offset..offset + first];
    var r := a + mu[CTM_BYTES..CTM_BYTES + (len - first)];
    forall k | 0 <= k < len ensures l[k] == r[k] {
      assert l[k] == Joined(ctm, mu)[offset + k];
      if k < first { assert r[k] == a[k]; } else { assert r[k] == mu[CTM_BYTES + (k - first)]; }
    }
    assert l == r;
  }

  /** Send the packet to host memory at `addr`: one transfer for the part in CTM and, if there is
      more, one for the part in the MU buffer. */
  method DmaPacketSend(ctm: array<Byte>, mu: array<Byte>, pktLen: nat, host: array<Byte>, addr: nat)
    requires ctm.Length == CTM_BYTES <= mu.Length && host != ctm && host != mu
    requires 2 * MAC_PREPEND_BYTES < pktLen && PKT_NBI_OFFSET + pktLen <= mu.Length
    requires addr + (pktLen - 2 * MAC_PREPEND_BYTES) <= host.Length
    modifies host
    ensures var offset, len := PKT_NBI_OFFSET + 2 * MAC_PREPEND_BYTES, pktLen - 2 * MAC_PREPEND_BYTES;
      host[..] == old(host[..addr]) + Joined(ctm[..], mu[..])[offset..offset + len] + old(host[addr + len..])
  {
    hide Joined;
    var len := pktLen - 2 * MAC_PREPEND_BYTES;
    var offset := PKT_NBI_OFFSET + 2 * MAC_PREPEND_BYTES;
    var ctmLen := if CTM_BYTES - offset < len then CTM_BYTES - offset else len;
    SingleContext.Copy(ctm[offset..offset + ctmLen], host, addr);
    if len > ctmLen {
      SingleContext.Copy(mu[CTM_BYTES..CTM_BYTES + (len - ctmLen)], host, addr + ctmLen);
    }
    JoinedSlice(ctm[..], mu[..], offset, ctmLen, len);
  }

  /** Fetch `len` bytes of host memory at `addr` into the packet's buffers, behind one prepended
      word. */
  method DmaPacketRecv(ctm: array<Byte>, mu: array<Byte>, len: nat, host: array<Byte>, addr: nat)
    requires ctm.Length == CTM_BYTES <= mu.Length && ctm != mu && host != ctm && host != mu
    requires 0 < len && PKT_NBI_OFFSET + MAC_PREPEND_BYTES + len <= mu.Length && addr + len <= host.Length
    modifies ctm, mu
    ensures var offset := PKT_NBI_OFFSET + MAC_PREPEND_BYTES;
      Joined(ctm[..], mu[..])
        == old(Joined(ctm[..], mu[..]))[..offset] + host[addr..addr + len]
           + old(Joined(ctm[..], mu[..]))[offset + len..]
  {
    var offset := PKT_NBI_OFFSET + MAC_PREPEND_BYTES;
    var ctmLen := if CTM_BYTES - offset < len then CTM_BYTES - offset else len;
    ghost var before := Joined(ctm[..], mu[..]);
    SingleContext.Copy(host[addr..addr + ctmLen], ctm, offset);
    if len > ctmLen {
      SingleContext.Copy(host[addr + ctmLen..addr + len], mu, CTM_BYTES);
      assert host[addr..addr + len] == host[addr..addr + ctmLen] + host[addr + ctmLen..addr + len];
    }
    var after := Joined(ctm[..], mu[..]);
    var wanted := before[..offset] + host[addr..addr + len] + before[offset + len..];
    forall k | 0 <= k < mu.Length ensures after[k] == wanted[k] {
    }
    assert after == wanted;
  }

  /** Reception of one frame into a ring slot. */
  method Ingest(ctm: array<Byte>, mu: array<Byte>, pktLen: nat, packetSize: nat, slot: array<Byte>)
    requires Frame(ctm[..], mu[..], pktLen).Valid() && Allowed(Frame(ctm[..], mu[..], pktLen), packetSize)
    requires 0 < packetSize < WORD32 - 2 * MAC_PREPEND_BYTES && slot.Length == packetSize
    requires ctm != mu && slot != ctm && slot != mu
    modifies ctm, slot
    ensures PKT_NBI_OFFSET + 2 * MAC_PREPEND_BYTES + packetSize <= mu.Length
    ensures slot[..] == EchoOf(old(Frame(ctm[..], mu[..], pktLen)), packetSize)
    ensures SentBack(old(Joined(ctm[..], mu[..]))[72..], slot[..])
  {
    hide EchoHeader, SentBack;
    ghost var f := Frame(ctm[..], mu[..], pktLen);
    AllowedFits(f, packetSize);
    EchoIsSentBack(f, packetSize);
    RewriteHeader(ctm);
    RewrittenBuffer(f, ctm[..]);
    DmaPacketSend(ctm, mu, pktLen, slot, 0);
  }

  /** Reception, copying by the host and transmission of one frame: what ends up behind the
      prepended word of the outgoing packet is the rewritten frame, byte for byte, although the
      two directions split it at different places; and it goes back to its sender. */
  method EchoOnce(inCtm: array<Byte>, inMu: array<Byte>, pktLen: nat, packetSize: nat,
                  rxSlot: array<Byte>, txSlot: array<Byte>, ctm: array<Byte>, mu: array<Byte>)
    requires Frame(inCtm[..], inMu[..], pktLen).Valid() && Allowed(Frame(inCtm[..], inMu[..], pktLen), packetSize)
    requires 0 < packetSize < WORD32 - 2 * MAC_PREPEND_BYTES && rxSlot.Length == txSlot.Length == packetSize
    requires ctm.Length == CTM_BYTES <= mu.Length && PKT_NBI_OFFSET + MAC_PREPEND_BYTES + packetSize <= mu.Length
    requires ctm != mu && rxSlot != txSlot && txSlot != ctm && txSlot != mu
    requires inCtm != inMu && rxSlot != inCtm && rxSlot != inMu
    modifies inCtm, rxSlot, txSlot, ctm, mu
    ensures PKT_NBI_OFFSET + 2 * MAC_PREPEND_BYTES + packetSize <= old(|inMu[..]|)
    ensures var offset := PKT_NBI_OFFSET + MAC_PREPEND_BYTES;
      Joined(ctm[..], mu[..])[offset..offset + packetSize]
        == EchoOf(old(Frame(inCtm[..], inMu[..], pktLen)), packetSize)
    ensures SentBack(old(Joined(inCtm[..], inMu[..]))[72..], Joined(ctm[..], mu[..])[68..68 + packetSize])
  {
    hide EchoOf, SentBack;
    Ingest(inCtm, inMu, pktLen, packetSize, rxSlot);
    ghost var p := rxSlot[..];
    SingleContext.Copy(rxSlot[..], txSlot, 0);
    assert txSlot[0..0 + packetSize] == p;
    DmaPacketRecv(ctm, mu, packetSize, txSlot, 0);
  }

  lemma RewrittenBuffer(f: Frame, ctm: seq<Byte>)
    requires f.Valid() && ctm == f.ctm[..PKT_NBI_OFFSET] + EchoHeader(f.ctm[PKT_NBI_OFFSET..])
    ensures Joined(ctm, f.mu) == f.Buffer()[..PKT_NBI_OFFSET] + EchoHeader(f.Buffer()[PKT_NBI_OFFSET..])
  {
    hide EchoHeader;
    var h, tail := f.ctm[PKT_NBI_OFFSET..], f.mu[CTM_BYTES..];
    var whole := f.Buffer()[PKT_NBI_OFFSET..];
    assert whole == h + tail;
    assert f.Buffer()[..PKT_NBI_OFFSET] == f.ctm[..PKT_NBI_OFFSET];
    EchoHeaderPrefix(h, whole);
    assert whole[|h|..] == tail;
    Associate(f.ctm[..PKT_NBI_OFFSET], EchoHeader(h), tail);
  }

  lemma Associate(a: seq<Byte>, b: seq<Byte>, c: seq<Byte>)
    ensures (a + b) + c == a + (b + c)
  {
  }

  /** Rewriting touches only the header, so it may be done on a prefix that contains it. */
  lemma EchoHeaderPrefix(h: seq<Byte>, whole: seq<Byte>)
    requires ICMP_TYPE < |h| && h <= whole
    ensures EchoHeader(whole) == EchoHeader(h) + whole[|h|..]
  {
    hide SwapRanges;
    SwapPrefix(h, whole, ETH_DST, 6);
    SwapPrefix(SwapRanges(h, ETH_DST, 6), SwapRanges(whole, ETH_DST, 6), IP_SRC, 4);
    var ips := SwapRanges(SwapRanges(h, ETH_DST, 6), IP_SRC, 4);
    assert SwapRanges(SwapRanges(whole, ETH_DST, 6), IP_SRC, 4) == ips + whole[|h|..];
    assert (ips + whole[|h|..])[ICMP_TYPE := ECHO_REPLY] == ips[ICMP_TYPE := ECHO_REPLY] + whole[|h|..];
  }

  lemma SwapPrefix(h: seq<Byte>, whole: seq<Byte>, a: nat, n: nat)
    requires a + 2 * n <= |h| && h <= whole
    ensures SwapRanges(whole, a, n) == SwapRanges(h, a, n) + whole[|h|..]
    ensures SwapRanges(h, a, n) <= SwapRanges(whole, a, n)
  {
    SwapInWindow(whole, a, n, 0, |h|);
    assert whole[0..|h|] == h;
    var w := SwapRanges(whole, a, n);
    assert w == w[0..|h|] + w[|h|..];
    assert w[|h|..] == whole[|h|..];
  }
}
