/** Byte-offset arithmetic of the packet rings shared by the firmware and the host:
    32-bit pointers that advance by one entry and restart at 0 at the end of the buffer. */
module RingGeometry {

  type Byte = bv8

  const WORD32: nat := 0x1_0000_0000

  /** Entry size and buffer capacity, both in bytes (configuration of the device). */
  datatype Geometry = Geometry(size: nat, capacity: nat) {
    predicate Valid() {
      0 < size && 0 < capacity < WORD32 && size <= capacity && capacity % size == 0
    }

    /** Number of entries the buffer has room for. */
    function Slots(): nat
      requires Valid()
    {
      capacity / size
    }
  }

  /** The pointer after `p`: 32-bit addition, then restart at 0 at or past the end. */
  function Advance(g: Geometry, p: nat): nat {
    var q := (p + g.size) % WORD32;
    if q >= g.capacity then 0 else q
  }

  /** The byte offset a pointer holds after `i` advances from 0. */
  function Offset(g: Geometry, i: nat): nat {
    if i == 0 then 0 else Advance(g, Offset(g, i - 1))
  }

  lemma SlotsTimesSize(g: Geometry)
    requires g.Valid()
    ensures g.Slots() >= 1 && g.Slots() * g.size == g.capacity
  {
  }

  lemma {:induction false} MulStrict(a: nat, b: nat, s: nat)
    requires a < b
    ensures a * s + s <= b * s
    decreases b
  {
    assert b * s == (b - 1) * s + s;
    if a < b - 1 {
      MulStrict(a, b - 1, s);
    }
  }

  lemma MulStep(k: nat, s: nat)
    requires 0 < k
    ensures k * s == (k - 1) * s + s
  {
  }

  /** Below the end of the buffer nothing wraps; at the end the pointer restarts. */
  lemma AdvanceStep(g: Geometry, p: nat)
    requires 0 < g.capacity < WORD32 && p + g.size <= g.capacity
    ensures Advance(g, p) == if p + g.size == g.capacity then 0 else p + g.size
  {
    SmallMod(p + g.size, WORD32);
  }

  /** During the first turn the pointer stands on slot `k`; the 32-bit addition does not wrap. */
  lemma {:induction false} OffsetFirstTurn(g: Geometry, k: nat)
    requires g.Valid() && k < g.Slots()
    ensures Offset(g, k) == k * g.size && k * g.size + g.size <= g.capacity
  {
    hide Advance, Geometry.Slots;
    SlotsTimesSize(g);
    MulStrict(k, g.Slots(), g.size);
    if k > 0 {
      OffsetFirstTurn(g, k - 1);
      MulStep(k, g.size);
      AdvanceStep(g, Offset(g, k - 1));
    }
  }

  /** One full turn brings the pointer back to where it was. */
  lemma {:induction false} OffsetPeriodic(g: Geometry, i: nat)
    requires g.Valid()
    ensures Offset(g, i + g.Slots()) == Offset(g, i)
  {
    SlotsTimesSize(g);
    var n := g.Slots();
    if i == 0 {
      OffsetFirstTurn(g, n - 1);
      MulStep(n, g.size);
      AdvanceStep(g, Offset(g, n - 1));
    } else {
      OffsetPeriodic(g, i - 1);
    }
  }

  /** Every entry lies inside the buffer. */
  lemma {:induction false} OffsetFits(g: Geometry, i: nat)
    requires g.Valid()
    ensures Offset(g, i) + g.size <= g.capacity
  {
    SlotsTimesSize(g);
    if i < g.Slots() {
      OffsetFirstTurn(g, i);
    } else {
      OffsetFits(g, i - g.Slots());
      OffsetPeriodic(g, i - g.Slots());
    }
  }

  /** Equality of wrapped pointers decides equality of counters within one turn of the ring:
      the test the firmware and the host use for "full" and for "empty". */
  lemma {:induction false} SameOffset(g: Geometry, i: nat, j: nat)
    requires g.Valid()
    requires i <= j <= i + g.Slots()
    ensures Offset(g, i) == Offset(g, j) <==> j == i || j == i + g.Slots()
  {
    var n := g.Slots();
    SlotsTimesSize(g);
    if i < j < i + n {
      OffsetsApart(g, i, j);
    } else {
      OffsetPeriodic(g, i);
    }
  }

  /** Distinct counters less than one turn apart own disjoint byte ranges. */
  lemma {:induction false} OffsetsApart(g: Geometry, i: nat, j: nat)
    requires g.Valid()
    requires i < j < i + g.Slots()
    ensures Offset(g, i) + g.size <= Offset(g, j) || Offset(g, j) + g.size <= Offset(g, i)
  {
    hide Offset, Geometry.Slots;
    var n := g.Slots();
    SlotsTimesSize(g);
    if i >= n {
      OffsetsApart(g, i - n, j - n);
      OffsetPeriodic(g, i - n);
      OffsetPeriodic(g, j - n);
    } else if j < n {
      OffsetFirstTurn(g, i);
      OffsetFirstTurn(g, j);
      MulStrict(i, j, g.size);
    } else {
      OffsetPeriodic(g, j - n);
      OffsetFirstTurn(g, i);
      OffsetFirstTurn(g, j - n);
      MulStrict(j - n, i, g.size);
    }
  }

  /** The host's full test reduces modulo the capacity instead of comparing; on pointers that
      occur it computes the same successor. */
  lemma ModuloAdvance(g: Geometry, i: nat)
    requires g.Valid()
    ensures ((Offset(g, i) + g.size) % WORD32) % g.capacity == Offset(g, i + 1)
  {
    OffsetFits(g, i);
    WrapModulo(Offset(g, i) + g.size, g.capacity);
  }

  lemma WrapModulo(q: nat, c: nat)
    requires 0 < c < WORD32 && q <= c
    ensures q % WORD32 == q
    ensures (q % WORD32) % c == if q >= c then 0 else q
  {
    SmallMod(q, WORD32);
    if q < c { SmallMod(q, c); } else { SelfMod(c); }
  }

  lemma SelfMod(m: nat)
    requires 0 < m
    ensures m % m == 0
  {
  }

  lemma SmallMod(a: nat, m: nat)
    requires a < m
    ensures a % m == a
  {
  }

  lemma DivisionRemainder(c: nat, s: nat)
    requires 0 < s && c % s != 0
    ensures (c / s) * s < c < (c / s) * s + s
  {
    assert c == (c / s) * s + c % s;
  }

  /** Divisibility is exactly what keeps every entry inside the buffer. */
  lemma {:induction false} EntriesFitExactlyWhenDivisible(g: Geometry)
    requires 0 < g.size && 0 < g.capacity < WORD32
    ensures (forall i: nat :: Offset(g, i) + g.size <= g.capacity) <==> g.capacity % g.size == 0
  {
    if g.Valid() {
      forall i: nat ensures Offset(g, i) + g.size <= g.capacity {
        OffsetFits(g, i);
      }
    } else if g.capacity < g.size {
      assert Offset(g, 0) + g.size > g.capacity;
      SmallMod(g.capacity, g.size);
    } else {
      var k := g.capacity / g.size;
      DivisionRemainder(g.capacity, g.size);
      OffsetsBeforeEnd(g, k);
      assert Offset(g, k) + g.size > g.capacity;
    }
  }

  lemma {:induction false} OffsetsBeforeEnd(g: Geometry, k: nat)
    requires 0 < g.size && 0 < g.capacity < WORD32 && k * g.size < g.capacity
    ensures Offset(g, k) == k * g.size
  {
    hide Advance;
    if k > 0 {
      MulStep(k, g.size);
      OffsetsBeforeEnd(g, k - 1);
      AdvanceStep(g, Offset(g, k - 1));
    }
  }

  // ----- Ring memory -----

  /** The entry at byte offset `p`. */
  function Load(g: Geometry, mem: seq<Byte>, p: nat): seq<Byte>
    requires p + g.size <= |mem|
  {
    mem[p..p + g.size]
  }

  /** `mem` with the entry at byte offset `p` replaced. */
  function Store(g: Geometry, mem: seq<Byte>, p: nat, data: seq<Byte>): seq<Byte>
    requires p + g.size <= |mem| && |data| == g.size
  {
    mem[..p] + data + mem[p + g.size..]
  }

  lemma LoadAfterStore(g: Geometry, mem: seq<Byte>, p: nat, data: seq<Byte>)
    requires p + g.size <= |mem| && |data| == g.size
    ensures |Store(g, mem, p, data)| == |mem|
    ensures Load(g, Store(g, mem, p, data), p) == data
  {
  }

  lemma LoadElsewhere(g: Geometry, mem: seq<Byte>, p: nat, q: nat, data: seq<Byte>)
    requires p + g.size <= |mem| && q + g.size <= |mem| && |data| == g.size
    requires p + g.size <= q || q + g.size <= p
    ensures |Store(g, mem, p, data)| == |mem|
    ensures Load(g, Store(g, mem, p, data), q) == Load(g, mem, q)
  {
  }

  /** Storing into slot `i` leaves every other slot less than one turn away as it was. */
  lemma StoreSlot(g: Geometry, mem: seq<Byte>, i: nat, j: nat, data: seq<Byte>)
    requires g.Valid() && |mem| == g.capacity && |data| == g.size
    requires i < j + g.Slots() && j < i + g.Slots()
    ensures Offset(g, i) + g.size <= |mem| && Offset(g, j) + g.size <= |mem|
    ensures Load(g, Store(g, mem, Offset(g, i), data), Offset(g, j))
         == if i == j then data else Load(g, mem, Offset(g, j))
  {
    OffsetFits(g, i);
    OffsetFits(g, j);
    if i == j {
      LoadAfterStore(g, mem, Offset(g, i), data);
    } else {
      if i < j { OffsetsApart(g, i, j); } else { OffsetsApart(g, j, i); }
      LoadElsewhere(g, mem, Offset(g, i), Offset(g, j), data);
    }
  }
}
