/** The CRC of the POSIX cksum utility, as used to name resources. */
module Crc32 {
  import opened BitArithmetic

  type Byte = bv8
  type Crc = bv32

  const CRCPOLY_BE: Crc := 0x04c11db7
  const TOP: Crc := 0x8000_0000

  function Xor(x: Crc, y: Crc): Crc { x ^ y }

  // ----- One bit at a time -----

  function Up(x: Crc): Crc { x << 1 }

  function Half(x: Crc): Crc { x >> 1 }

  /** What is subtracted for the bit that falls out of the top. */
  function Carry(x: Crc): Crc { if Out(x) then CRCPOLY_BE else 0 }

  /** A bit is about to fall out. */
  predicate Out(x: Crc) { x & TOP != 0 }

  /** One division step. */
  function Shift(crc: Crc): Crc { Xor(Up(crc), Carry(crc)) }

  function TopIf(bit: bool): Crc { if bit then TOP else 0 }

  /** Feed a sequence of message bits, most significant first. */
  function Feed(crc: Crc, bits: seq<bool>): Crc
    decreases |bits|
  {
    if bits == [] then crc else Feed(Shift(Xor(crc, TopIf(bits[0]))), bits[1..])
  }

  function Bits(b: Byte): (r: seq<bool>)
    ensures |r| == 8
  {
    [b & 0x80 != 0, b & 0x40 != 0, b & 0x20 != 0, b & 0x10 != 0,
     b & 0x08 != 0, b & 0x04 != 0, b & 0x02 != 0, b & 0x01 != 0]
  }

  /** The bits of a message in transmission order. */
  function MessageBits(p: seq<Byte>): (r: seq<bool>)
    ensures |r| == 8 * |p|
  {
    if p == [] then [] else Bits(p[0]) + MessageBits(p[1..])
  }

  /** The length octets appended to a message: least significant first, no leading zeros. */
  function LengthOctets(n: nat): seq<Byte> {
    if n == 0 then [] else [(n % 256) as Byte] + LengthOctets(n / 256)
  }

  function Power256(k: nat): (p: nat)
    ensures p > 0
  {
    if k == 0 then 1 else 256 * Power256(k - 1)
  }

  lemma DivideTwice(n: nat, p: nat)
    requires p > 0
    ensures n / (256 * p) == (n / 256) / p
  {
    var q, r := (n / 256) / p, (n / 256) % p;
    QuotientForm(n / 256, p);
    assert n == q * (256 * p) + (256 * r + n % 256) by { assert q * (256 * p) == 256 * (q * p); }
    UniqueQuotient(n, 256 * p, q, 256 * r + n % 256);
  }

  /** The `k`-th least significant octet of n. */
  function Digit(n: nat, k: nat): Byte { Lowest(Div(n, Power256(k))) }

  function Lowest(n: nat): Byte { (n % 256) as Byte }

  /** The octets appended for a length n are those of n, least significant first, and there are as many
      as n has without leading zeros. */
  lemma {:induction false} LengthOctetsExactly(n: nat)
    ensures var p := LengthOctets(n);
      && n < Power256(|p|) && (p != [] ==> n >= Power256(|p| - 1))
      && forall k :: 0 <= k < |p| ==> p[k] == Digit(n, k)
  {
    if n != 0 {
      hide Power256, Digit, Lowest, LengthOctets;
      LengthOctetsExactly(n / 256);
      LengthOctetsMore(n);
      var p, rest := LengthOctets(n), LengthOctets(n / 256);
      forall k | 0 <= k < |p| ensures p[k] == Digit(n, k) {
        DigitStep(n, k);
      }
      PowerStep(0);
      PowerStep(|p|);
      PowerStep(|p| - 1);
      Scale(n, Power256(|rest|));
      if rest != [] { Scale(n, Power256(|rest| - 1)); } else { NoOctets(n / 256); }
    }
  }

  lemma LengthOctetsMore(n: nat)
    requires n != 0
    ensures LengthOctets(n) == [Lowest(n)] + LengthOctets(n / 256)
  {
  }

  lemma NoOctets(n: nat)
    requires LengthOctets(n) == []
    ensures n == 0
  {
  }

  lemma DigitStep(n: nat, k: nat)
    ensures Digit(n, k) == if k == 0 then Lowest(n) else Digit(n / 256, k - 1)
  {
    hide Lowest, Power256;
    PowerStep(k);
    if k > 0 { DivideTwice(n, Power256(k - 1)); }
  }

  lemma Scale(n: nat, p: nat)
    ensures n / 256 < p <==> n < 256 * p
  {
  }

  lemma PowerStep(k: nat)
    ensures Power256(k) == if k == 0 then 1 else 256 * Power256(k - 1)
  {
  }

  function Complement(x: Crc): Crc { !x }

  /** The checksum: message, then length, then complement. */
  function Posix(p: seq<Byte>): Crc {
    Complement(Feed(0, MessageBits(p + LengthOctets(|p|))))
  }

  // ----- The division step -----

  lemma UpLinear(x: Crc, y: Crc)
    ensures Up(Xor(x, y)) == Xor(Up(x), Up(y))
  {
  }

  lemma OutLinear(x: Crc, y: Crc)
    ensures Out(Xor(x, y)) <==> Out(x) != Out(y)
  {
  }

  lemma CarryLinear(x: Crc, y: Crc)
    ensures Carry(Xor(x, y)) == Xor(Carry(x), Carry(y))
  {
    hide Xor, Out;
    OutLinear(x, y);
    XorZero(Carry(x));
    XorZero(Carry(y));
  }

  lemma XorCommutes(x: Crc, y: Crc)
    ensures Xor(x, y) == Xor(y, x)
  {
  }

  lemma XorAssociates(x: Crc, y: Crc, z: Crc)
    ensures Xor(Xor(x, y), z) == Xor(x, Xor(y, z))
  {
  }

  lemma XorZero(x: Crc)
    ensures Xor(x, 0) == x && Xor(0, x) == x && Xor(x, x) == 0
  {
  }

  lemma XorExchange(a: Crc, b: Crc, c: Crc, d: Crc)
    ensures Xor(Xor(a, b), Xor(c, d)) == Xor(Xor(a, c), Xor(b, d))
  {
    hide Xor;
    XorAssociates(a, b, Xor(c, d));
    XorAssociates(b, c, d);
    XorCommutes(b, c);
    XorAssociates(c, b, d);
    XorAssociates(a, c, Xor(b, d));
  }

  lemma XorCancels(x: Crc, y: Crc, z: Crc)
    requires Xor(x, z) == Xor(y, z)
    ensures x == y
  {
    hide Xor;
    XorAssociates(x, z, z);
    XorAssociates(y, z, z);
    XorZero(z);
    XorZero(x);
    XorZero(y);
  }

  /** The division step is linear over the two-element field. */
  lemma ShiftLinear(x: Crc, y: Crc)
    ensures Shift(Xor(x, y)) == Xor(Shift(x), Shift(y))
  {
    hide Xor, Up, Carry;
    UpLinear(x, y);
    CarryLinear(x, y);
    XorExchange(Up(x), Up(y), Carry(x), Carry(y));
  }

  predicate Even(y: Crc) { y & 1 == 0 }

  lemma UpLow(x: Crc)
    ensures Even(Up(x))
  {
  }

  lemma LowSum(u: Crc, c: Crc)
    requires Even(u)
    ensures Even(Xor(u, c)) == Even(c)
  {
  }

  /** The polynomial has a constant term, so the bit that fell out can be read off. */
  lemma CarryVisible(x: Crc)
    ensures Even(Shift(x)) <==> !Out(x)
  {
    hide Xor, Up, Out, Even;
    UpLow(x);
    LowSum(Up(x), Carry(x));
    PolynomialIsOdd();
  }

  lemma PolynomialIsOdd()
    ensures !Even(CRCPOLY_BE) && Even(0)
  {
  }

  lemma UpInjective(x: Crc, y: Crc)
    requires Up(x) == Up(y) && Out(x) == Out(y)
    ensures x == y
  {
  }

  /** The division step loses nothing. */
  lemma ShiftInjective(x: Crc, y: Crc)
    requires Shift(x) == Shift(y)
    ensures x == y
  {
    hide Xor, Up, Out, Even;
    CarryVisible(x);
    CarryVisible(y);
    XorCancels(Up(x), Up(y), Carry(x));
    UpInjective(x, y);
  }

  lemma {:induction false} FeedAppend(crc: Crc, a: seq<bool>, b: seq<bool>)
    ensures Feed(crc, a + b) == Feed(Feed(crc, a), b)
    decreases |a|
  {
    if a == [] {
      assert a + b == b;
    } else {
      assert (a + b)[1..] == a[1..] + b;
      FeedAppend(Shift(Xor(crc, TopIf(a[0]))), a[1..], b);
    }
  }

  /** `k` division steps. */
  function Shifts(crc: Crc, k: nat): Crc
    decreases k
  {
    if k == 0 then crc else Shifts(Shift(crc), k - 1)
  }

  lemma {:induction false} ShiftsLinear(x: Crc, y: Crc, k: nat)
    ensures Shifts(Xor(x, y), k) == Xor(Shifts(x, k), Shifts(y, k))
    decreases k
  {
    hide Shift, Xor;
    if k > 0 {
      ShiftLinear(x, y);
      ShiftsLinear(Shift(x), Shift(y), k - 1);
    }
  }

  lemma {:induction false} ShiftsInjective(x: Crc, y: Crc, k: nat)
    requires Shifts(x, k) == Shifts(y, k)
    ensures x == y
    decreases k
  {
    hide Shift;
    if k > 0 {
      ShiftsInjective(Shift(x), Shift(y), k - 1);
      ShiftInjective(x, y);
    }
  }

  // ----- Message bits as a word -----

  /** Up to 32 message bits as the high end of a word. */
  function WordOf(bits: seq<bool>): Crc
    decreases |bits|
  {
    if bits == [] then 0 else Xor(TopIf(bits[0]), Half(WordOf(bits[1..])))
  }

  /** All of `x` lies in its `k` highest bits. */
  predicate High(x: Crc, k: nat)
    decreases k
  {
    if k == 0 then x == 0 else High(Up(x), k - 1)
  }

  function Power(j: nat): Crc
    decreases j
  {
    if j == 0 then 1 else Up(Power(j - 1))
  }

  lemma UpZero()
    ensures Up(0) == 0
  {
  }

  lemma {:induction false} PowersNonzero(j: nat)
    requires j <= 31
    ensures Power(j) != 0
    decreases 31 - j
  {
    if j < 31 {
      PowersNonzero(j + 1);
      UpZero();
    } else {
      PowerJump(0, 0x1);
      PowerJump(4, 0x10);
      PowerJump(8, 0x100);
      PowerJump(12, 0x1000);
      PowerJump(16, 0x1_0000);
      PowerJump(20, 0x10_0000);
      PowerJump(24, 0x100_0000);
      assert Power(31) == Up(Up(Up(Power(28))));
    }
  }

  lemma PowerJump(j: nat, p: Crc)
    requires Power(j) == p
    ensures Power(j + 4) == p << 4
  {
    assert Power(j + 2) == Up(Up(Power(j)));
    assert Power(j + 4) == Up(Up(Power(j + 2)));
  }

  predicate Covers(y: Crc, m: Crc) { y & m == m }

  lemma UpCovers(y: Crc, m: Crc)
    requires Covers(y, m)
    ensures Covers(Up(y), Up(m))
  {
  }

  lemma CoversNonzero(y: Crc, m: Crc)
    requires Covers(y, m) && m != 0
    ensures y != 0
  {
  }

  /** A bit at position `j` is still there after `k` shifts up. */
  lemma {:induction false} LowNotHigh(y: Crc, j: nat, k: nat)
    requires j + k <= 31 && Covers(y, Power(j))
    ensures !High(y, k)
    decreases k
  {
    hide Covers, Up;
    PowersNonzero(j);
    if k == 0 {
      CoversNonzero(y, Power(j));
    } else {
      UpCovers(y, Power(j));
      LowNotHigh(Up(y), j + 1, k - 1);
    }
  }

  lemma OddCovers(y: Crc)
    ensures Even(y) || Covers(y, Power(0))
  {
  }

  lemma UpOfTopAndHalf(y: Crc, bit: bool)
    requires Even(y)
    ensures Up(Xor(TopIf(bit), Half(y))) == y
  {
  }

  /** Fewer than 32 bits leave the low end of the word empty. */
  lemma {:induction false} WordIsHigh(bits: seq<bool>)
    requires |bits| <= 32
    ensures High(WordOf(bits), |bits|)
    ensures |bits| < 32 ==> Even(WordOf(bits))
    decreases |bits|
  {
    hide Xor, TopIf, Half, Up, Even, Covers;
    if bits != [] {
      WordIsHigh(bits[1..]);
      UpOfTopAndHalf(WordOf(bits[1..]), bits[0]);
    }
    OddCovers(WordOf(bits));
    if |bits| < 32 && !Even(WordOf(bits)) {
      LowNotHigh(WordOf(bits), 0, |bits|);
    }
  }

  // ----- Error detection -----

  /** Feeding up to 32 bits is dividing the word they make, added to the state. */
  lemma {:induction false} FeedIsShifts(crc: Crc, bits: seq<bool>)
    requires |bits| <= 32
    ensures Feed(crc, bits) == Shifts(Xor(crc, WordOf(bits)), |bits|)
    decreases |bits|
  {
    hide Xor, Shift, TopIf, Half, Even;
    if bits == [] {
      XorZero(crc);
    } else {
      var first, rest := TopIf(bits[0]), WordOf(bits[1..]);
      var next := Xor(crc, first);
      FeedIsShifts(Shift(next), bits[1..]);
      WordIsHigh(bits[1..]);
      ShiftUndoes(rest);
      ShiftLinear(next, Half(rest));
      XorAssociates(crc, first, Half(rest));
    }
  }

  lemma DownUp(y: Crc)
    requires Even(y)
    ensures !Out(Half(y)) && Up(Half(y)) == y
  {
  }

  /** Dividing a word shifted down restores it if its low bit was clear. */
  lemma ShiftUndoes(y: Crc)
    requires Even(y)
    ensures Shift(Half(y)) == y
  {
    DownUp(y);
    XorZero(y);
  }

  lemma TopIfInjective(a: bool, b: bool, x: Crc, y: Crc)
    requires Xor(TopIf(a), Half(x)) == Xor(TopIf(b), Half(y))
    ensures a == b
  {
  }

  lemma {:induction false} WordInjective(a: seq<bool>, b: seq<bool>)
    requires |a| == |b| <= 32 && WordOf(a) == WordOf(b)
    ensures a == b
    decreases |a|
  {
    hide Xor, TopIf, Half, Up, Even;
    if a != [] {
      TopIfInjective(a[0], b[0], WordOf(a[1..]), WordOf(b[1..]));
      WordIsHigh(a[1..]);
      WordIsHigh(b[1..]);
      UpOfTopAndHalf(WordOf(a[1..]), a[0]);
      UpOfTopAndHalf(WordOf(b[1..]), b[0]);
      WordInjective(a[1..], b[1..]);
      assert a == [a[0]] + a[1..] && b == [b[0]] + b[1..];
    }
  }

  /** From one state, different bursts of equal length up to 32 lead to different states. */
  lemma BurstSeparates(crc: Crc, a: seq<bool>, b: seq<bool>)
    requires |a| == |b| <= 32 && Feed(crc, a) == Feed(crc, b)
    ensures a == b
  {
    FeedIsShifts(crc, a);
    FeedIsShifts(crc, b);
    ShiftsInjective(Xor(crc, WordOf(a)), Xor(crc, WordOf(b)), |a|);
    XorCommutes(crc, WordOf(a));
    XorCommutes(crc, WordOf(b));
    XorCancels(WordOf(a), WordOf(b), crc);
    WordInjective(a, b);
  }

  /** Equal bits keep different states apart. */
  lemma {:induction false} FeedInjective(x: Crc, y: Crc, bits: seq<bool>)
    requires Feed(x, bits) == Feed(y, bits)
    ensures x == y
    decreases |bits|
  {
    hide Xor, Shift, TopIf;
    if bits != [] {
      var t := TopIf(bits[0]);
      FeedInjective(Shift(Xor(x, t)), Shift(Xor(y, t)), bits[1..]);
      ShiftInjective(Xor(x, t), Xor(y, t));
      XorCancels(x, y, t);
    }
  }

  /** Bit sequences that differ only inside a window of 32 bits are told apart. */
  lemma BurstInContext(a: seq<bool>, b: seq<bool>, from: nat, to: nat)
    requires |a| == |b| && from <= to <= |a| && to - from <= 32
    requires a[..from] == b[..from] && a[to..] == b[to..] && Feed(0, a) == Feed(0, b)
    ensures a == b
  {
    hide Feed;
    FeedInThree(a, from, to);
    FeedInThree(b, from, to);
    var s := Feed(0, a[..from]);
    FeedInjective(Feed(s, a[from..to]), Feed(s, b[from..to]), a[to..]);
    BurstSeparates(s, a[from..to], b[from..to]);
    assert a == a[..from] + a[from..to] + a[to..];
    assert b == b[..from] + b[from..to] + b[to..];
  }

  /** The checksum of a message is a function of its bits alone, its length being given. */
  lemma SameChecksumSameFeed(p: seq<Byte>, q: seq<Byte>)
    requires |p| == |q| && Posix(p) == Posix(q)
    ensures Feed(0, MessageBits(p)) == Feed(0, MessageBits(q))
  {
    hide Feed, MessageBits, Complement;
    var tail := LengthOctets(|p|);
    MessageBitsAppend(p, tail);
    MessageBitsAppend(q, tail);
    var a, b, t := MessageBits(p), MessageBits(q), MessageBits(tail);
    ComplementInjective(Feed(0, a + t), Feed(0, b + t));
    FeedAppend(0, a, t);
    FeedAppend(0, b, t);
    FeedInjective(Feed(0, a), Feed(0, b), t);
  }

  /** Messages of equal length that agree except inside a window of 32 consecutive bits (at any
      bit position) have the same checksum only if they are the same. */
  lemma BurstsAreDetected(p: seq<Byte>, q: seq<Byte>, from: nat, to: nat)
    requires |p| == |q| && from <= to <= 8 * |p| && to - from <= 32
    requires MessageBits(p)[..from] == MessageBits(q)[..from] && MessageBits(p)[to..] == MessageBits(q)[to..]
    ensures Posix(p) == Posix(q) <==> p == q
  {
    hide Posix;
    if Posix(p) == Posix(q) {
      SameChecksumSameFeed(p, q);
      BurstInContext(MessageBits(p), MessageBits(q), from, to);
      MessageBitsInjective(p, q);
    }
  }

  /** In octets: messages of equal length that agree outside `to - from` <= 4 consecutive octets. */
  lemma OctetBurstsAreDetected(p: seq<Byte>, q: seq<Byte>, from: nat, to: nat)
    requires |p| == |q| && from <= to <= |p| && to - from <= 4
    requires p[..from] == q[..from] && p[to..] == q[to..]
    ensures Posix(p) == Posix(q) <==> p == q
  {
    hide Posix;
    BitsOfPart(p, from);
    BitsOfPart(q, from);
    BitsOfPart(p, to);
    BitsOfPart(q, to);
    BurstsAreDetected(p, q, 8 * from, 8 * to);
  }

  lemma BitsOfPart(p: seq<Byte>, k: nat)
    requires k <= |p|
    ensures MessageBits(p)[..8 * k] == MessageBits(p[..k]) && MessageBits(p)[8 * k..] == MessageBits(p[k..])
  {
    hide MessageBits;
    MessageBitsAppend(p[..k], p[k..]);
    assert p == p[..k] + p[k..];
  }

  lemma FeedInThree(bits: seq<bool>, from: nat, to: nat)
    requires from <= to <= |bits|
    ensures Feed(0, bits) == Feed(Feed(Feed(0, bits[..from]), bits[from..to]), bits[to..])
  {
    hide Feed;
    assert bits == bits[..from] + (bits[from..to] + bits[to..]);
    FeedAppend(0, bits[..from], bits[from..to] + bits[to..]);
    FeedAppend(Feed(0, bits[..from]), bits[from..to], bits[to..]);
  }

  lemma ComplementInjective(x: Crc, y: Crc)
    requires Complement(x) == Complement(y)
    ensures x == y
  {
  }

  lemma {:induction false} MessageBitsAppend(p: seq<Byte>, q: seq<Byte>)
    ensures MessageBits(p + q) == MessageBits(p) + MessageBits(q)
  {
    if p == [] {
      assert p + q == q;
    } else {
      assert (p + q)[1..] == p[1..] + q;
      MessageBitsAppend(p[1..], q);
    }
  }

  lemma BitsInjective(a: Byte, b: Byte)
    requires Bits(a) == Bits(b)
    ensures a == b
  {
    assert forall k :: 0 <= k < 8 ==> Bits(a)[k] == Bits(b)[k];
  }

  lemma {:induction false} MessageBitsInjective(p: seq<Byte>, q: seq<Byte>)
    requires |p| == |q| && MessageBits(p) == MessageBits(q)
    ensures p == q
  {
    hide Bits;
    if p != [] {
      var a, b := MessageBits(p), MessageBits(q);
      assert a[..8] == Bits(p[0]) && b[..8] == Bits(q[0]);
      assert a[8..] == MessageBits(p[1..]) && b[8..] == MessageBits(q[1..]);
      BitsInjective(p[0], q[0]);
      MessageBitsInjective(p[1..], q[1..]);
      assert p == [p[0]] + p[1..] && q == [q[0]] + q[1..];
    }
  }

  // ----- The code -----

  /** The bits of an octet, as the code adds them to the state. */
  function OctetHigh(b: Byte): Crc { (b as Crc) << 24 }

  function WordOf2(a: bool, b: bool, w: Crc): Crc { Xor(TopIf(a), Half(Xor(TopIf(b), Half(w)))) }

  lemma OctetIsWord(b: Byte)
    ensures WordOf(Bits(b)) == OctetHigh(b)
  {
    var s := Bits(b);
    WordOfTwo(s[6..]);
    WordOfTwo(s[4..]);
    WordOfTwo(s[2..]);
    WordOfTwo(s);
  }

  lemma WordOfTwo(bits: seq<bool>)
    requires |bits| >= 2
    ensures WordOf(bits) == WordOf2(bits[0], bits[1], WordOf(bits[2..]))
  {
    assert bits[1..][1..] == bits[2..];
  }

  lemma {:induction false} ShiftsAppend(x: Crc, k: nat)
    ensures Shifts(x, k + 1) == Shift(Shifts(x, k))
    decreases k
  {
    hide Shift;
    if k > 0 { ShiftsAppend(Shift(x), k - 1); }
  }

  /** Feed the octets of `p`. */
  method Crc32Be(start: Crc, p: seq<Byte>) returns (crc: Crc)
    ensures crc == Feed(start, MessageBits(p))
  {
    crc := start;
    for n := 0 to |p|
      invariant crc == Feed(start, MessageBits(p[..n]))
    {
      crc := Octet(crc, p[n]);
      MessageBitsAppend(p[..n], [p[n]]);
      assert p[..n + 1] == p[..n] + [p[n]];
      assert MessageBits([p[n]]) == Bits(p[n]);
      FeedAppend(start, MessageBits(p[..n]), Bits(p[n]));
    }
    assert p[..|p|] == p;
  }

  /** The body of the outer loop: add one octet at the top, divide eight times. */
  method Octet(start: Crc, b: Byte) returns (crc: Crc)
    ensures crc == Feed(start, Bits(b))
  {
    hide Xor, Shift, OctetHigh;
    crc := Xor(start, OctetHigh(b));
    ghost var sum := crc;
    for i := 0 to 8
      invariant crc == Shifts(sum, i)
    {
      ShiftsAppend(sum, i);
      crc := Shift(crc);
    }
    OctetIsWord(b);
    FeedIsShifts(start, Bits(b));
  }

  /** Extend with the octets of the length, then complement. */
  method Crc32PosixEnd(start: Crc, totalLen: nat) returns (crc: Crc)
    ensures crc == Complement(Feed(start, MessageBits(LengthOctets(totalLen))))
  {
    crc := start;
    var rest := totalLen;
    while rest != 0
      invariant Feed(crc, MessageBits(LengthOctets(rest))) == Feed(start, MessageBits(LengthOctets(totalLen)))
      decreases rest
    {
      var c := (rest % 256) as Byte;
      MessageBitsAppend([c], LengthOctets(rest / 256));
      FeedAppend(crc, MessageBits([c]), MessageBits(LengthOctets(rest / 256)));
      assert LengthOctets(rest) == [c] + LengthOctets(rest / 256);
      crc := Crc32Be(crc, [c]);
      rest := rest / 256;
    }
    crc := Complement(crc);
  }

  /** The checksum of a buffer. */
  method Crc32Posix(p: seq<Byte>) returns (crc: Crc)
    ensures crc == Posix(p)
  {
    crc := Crc32Be(0, p);
    crc := Crc32PosixEnd(crc, |p|);
    MessageBitsAppend(p, LengthOctets(|p|));
    FeedAppend(0, MessageBits(p), MessageBits(LengthOctets(|p|)));
  }
}
