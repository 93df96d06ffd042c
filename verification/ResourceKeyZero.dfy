/** A resource name whose checksum is 0: acquiring it takes the device mutex itself. */
module ResourceKeyZero {
  import opened MutexWord
  import opened MutexHandles
  import opened Crc32
  import opened ResourceTable

  /** "ab-z15zy" */
  const NAME: seq<Byte> := [0x61, 0x62, 0x2d, 0x7a, 0x31, 0x35, 0x7a, 0x79]

  /** Eight division steps. */
  function Steps(x: Crc): Crc { Shift(Shift(Shift(Shift(Shift(Shift(Shift(Shift(x)))))))) }

  lemma StepsAreShifts(x: Crc)
    ensures Shifts(x, 8) == Steps(x)
  {
    hide Shift;
    assert Shifts(x, 8) == Shifts(Shift(Shift(Shift(Shift(x)))), 4);
  }

  /** Feeding an octet and the rest of a message. */
  lemma FeedOctet(c: Crc, p: seq<Byte>)
    requires p != []
    ensures Feed(c, MessageBits(p)) == Feed(Steps(Xor(c, OctetHigh(p[0]))), MessageBits(p[1..]))
  {
    hide Shift, Xor, OctetHigh, Bits;
    FeedAppend(c, Bits(p[0]), MessageBits(p[1..]));
    FeedIsShifts(c, Bits(p[0]));
    OctetIsWord(p[0]);
    StepsAreShifts(Xor(c, OctetHigh(p[0])));
  }

  lemma StepsOfName()
    ensures Steps(Xor(0, OctetHigh(0x61))) == 0xa864db20
    ensures Steps(Xor(0xa864db20, OctetHigh(0x62))) == 0x16db664f
    ensures Steps(Xor(0x16db664f, OctetHigh(0x2d))) == 0x241fe9f1
    ensures Steps(Xor(0x241fe9f1, OctetHigh(0x7a))) == 0x5bf0fa0d
    ensures Steps(Xor(0x5bf0fa0d, OctetHigh(0x31))) == 0x73d51d41
    ensures Steps(Xor(0x73d51d41, OctetHigh(0x35))) == 0xfb1d7cc5
    ensures Steps(Xor(0xfb1d7cc5, OctetHigh(0x7a))) == 0x70b13859
    ensures Steps(Xor(0x70b13859, OctetHigh(0x79))) == 0x93f1a90f
    ensures Steps(Xor(0x93f1a90f, OctetHigh(0x08))) == 0xffffffff
  {
  }

  lemma NameHasKeyZero()
    ensures KeyOf(NAME) == 0
  {
    hide Steps, Shift, Xor, OctetHigh, MessageBits, Feed;
    PaddedIsName();
    var p := NAME + LengthOctets(8);
    LengthOfName();
    StepsOfName();
    assert p == [0x61, 0x62, 0x2d, 0x7a, 0x31, 0x35, 0x7a, 0x79, 0x08];
    FeedOctet(0, p);
    FeedOctet(0xa864db20, p[1..]);
    FeedOctet(0x16db664f, p[2..]);
    FeedOctet(0x241fe9f1, p[3..]);
    FeedOctet(0x5bf0fa0d, p[4..]);
    FeedOctet(0x73d51d41, p[5..]);
    FeedOctet(0xfb1d7cc5, p[6..]);
    FeedOctet(0x70b13859, p[7..]);
    FeedOctet(0x93f1a90f, p[8..]);
    NothingLeft(0xffffffff, p[9..]);
  }

  lemma {:induction false} PaddedWhole(name: seq<Byte>, n: nat)
    requires |name| == n && forall i :: 0 <= i < n ==> name[i] != 0
    ensures Padded(name, n) == name
    decreases n
  {
    if n > 0 { PaddedWhole(name[1..], n - 1); }
  }

  lemma PaddedIsName()
    ensures Padded(NAME, NAME_SIZE) == NAME
  {
    PaddedWhole(NAME, NAME_SIZE);
  }

  lemma LengthOfName()
    ensures LengthOctets(8) == [0x08]
  {
    assert LengthOctets(8 / 256) == [];
  }

  lemma NothingLeft(c: Crc, p: seq<Byte>)
    requires p == []
    ensures Feed(c, MessageBits(p)) == c
  {
  }

  /** A process without handles, on a device whose mutex is free and has its key. */
  const FRESH: Host := Host(1, true, [], map[TBL_BASE := 0, TBL_BASE + 4 := TBL_KEY])

  /** There, acquiring this name takes the device mutex. */
  lemma NameTakesDevice()
    ensures Valid(FRESH) && Acquire(FRESH, NAME).attempt == Acquired(TBL_BASE)
  {
    hide KeyOf, Padded;
    NameHasKeyZero();
    PaddedIsName();
    FreeAndTakenWords();
    LockedWord(1);
    var s0 := Obtain(FRESH, TBL_BASE, TBL_KEY);
    assert s0.cache == [Handle(TBL_BASE, 0, 0, 1)];
    var t := TryLock(s0, TBL_BASE);
    assert t.cache == [Handle(TBL_BASE, 0, 1, 1)];
    assert Find(t, NAME) == At(0);
    var u := Obtain(t, TBL_BASE, 0);
    assert u.cache == [Handle(TBL_BASE, 0, 1, 2)];
    assert TryLockResult(u, TBL_BASE).status == Ok;
  }
}
