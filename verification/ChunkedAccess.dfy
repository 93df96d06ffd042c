/** Reading and writing device memory through areas of limited size, 64 bytes at a time. */
module ChunkedAccess {
  import opened RingGeometry
  import SingleContext

  const BOUNDARY: nat := 0x10_0000
  const BUFFER: nat := 64
  const ADDRESS40: nat := 0x100_0000_0000
  /** Length of the largest window a BAR can have (`BarWindow.LongRangesNeverShown`); an area beyond
      it is not opened, so the 32-bit index of the transfer loop does not wrap. */
  const MAX_AREA: nat := 0x4000_0000

  /** One area that is opened: where, and how long. */
  datatype Tile = Tile(start: nat, len: nat)

  /** A file offset holds the target above an address of 40 bits. */
  function TargetAddress(offset: nat): nat { offset % ADDRESS40 }

  /** Up to the next boundary, if the range reaches beyond it. */
  function FirstLength(start: nat, count: nat): nat
    requires count > 0
  {
    if (start + count - 1) / BOUNDARY != start / BOUNDARY then BOUNDARY - start % BOUNDARY else count
  }

  function NextLength(count: nat): nat { if count > BOUNDARY then BOUNDARY else count }

  /** The areas opened for a range when the first has length `len`. */
  function Tiles(start: nat, count: nat, len: nat): seq<Tile>
    requires count == 0 || 0 < len <= count
    decreases count
  {
    if count == 0 then []
    else [Tile(start, len)] + Tiles(start + len, count - len, NextLength(count - len))
  }

  function ReadTiles(start: nat, count: nat): seq<Tile> {
    if count == 0 then []
    else
      FirstLengthFits(start, count);
      Tiles(start, count, FirstLength(start, count))
  }

  lemma FirstLengthFits(start: nat, count: nat)
    requires count > 0
    ensures 0 < FirstLength(start, count) <= count
    ensures FirstLength(start, count) < count ==> (start + FirstLength(start, count)) % BOUNDARY == 0
    ensures Inside(Tile(start, FirstLength(start, count))) && FirstLength(start, count) <= BOUNDARY
  {
    var q, r := start / BOUNDARY, start % BOUNDARY;
    assert start == BOUNDARY * q + r;
  }

  /** The area lies between two boundaries. */
  predicate Inside(t: Tile) { t.len > 0 && (t.start + t.len - 1) / BOUNDARY == t.start / BOUNDARY }

  /** The areas follow each other without gap or overlap from `from` to `to`. */
  predicate Tiled(tiles: seq<Tile>, from: nat, to: nat) {
    if tiles == [] then from == to
    else tiles[0].start == from && tiles[0].len > 0 && Tiled(tiles[1..], from + tiles[0].len, to)
  }

  lemma {:induction false} TilesTile(start: nat, count: nat, len: nat)
    requires count == 0 || 0 < len <= count
    ensures Tiled(Tiles(start, count, len), start, start + count)
    decreases count
  {
    if count > 0 {
      TilesTile(start + len, count - len, NextLength(count - len));
    }
  }

  lemma AlignedTileInside(start: nat, len: nat)
    requires start % BOUNDARY == 0 && 0 < len <= BOUNDARY
    ensures Inside(Tile(start, len))
  {
    var q := start / BOUNDARY;
    assert start == BOUNDARY * q;
  }

  lemma {:induction false} LaterTilesInside(start: nat, count: nat)
    requires count > 0 ==> start % BOUNDARY == 0
    ensures forall t :: t in Tiles(start, count, NextLength(count)) ==> Inside(t)
    decreases count
  {
    if count > 0 {
      var len := NextLength(count);
      AlignedTileInside(start, len);
      LaterTilesInside(start + len, count - len);
    }
  }

  /** Every area but the last ends at a multiple of 1 MiB. */
  predicate EndAtMiB(tiles: seq<Tile>) {
    forall i :: 0 <= i < |tiles| - 1 ==> (tiles[i].start + tiles[i].len) % 0x10_0000 == 0
  }

  lemma {:induction false} TilesEndAtMiB(start: nat, count: nat, len: nat)
    requires count == 0 || 0 < len <= count
    requires len < count ==> (start + len) % 0x10_0000 == 0
    ensures EndAtMiB(Tiles(start, count, len))
    decreases count
  {
    if count > 0 {
      var left := count - len;
      if left > BOUNDARY { assert (start + len + BOUNDARY) % 0x10_0000 == 0; }
      TilesEndAtMiB(start + len, left, NextLength(left));
      EndsPrepend(Tile(start, len), Tiles(start + len, left, NextLength(left)));
      if left == 0 { NoMoreTiles(start + len, NextLength(left)); }
    }
  }

  lemma EndsPrepend(t: Tile, tiles: seq<Tile>)
    requires EndAtMiB(tiles) && (tiles != [] ==> (t.start + t.len) % 0x10_0000 == 0)
    ensures EndAtMiB([t] + tiles)
  {
    var all := [t] + tiles;
    forall i | 0 <= i < |all| - 1 ensures (all[i].start + all[i].len) % 0x10_0000 == 0 {
      if i > 0 { assert all[i] == tiles[i - 1]; }
    }
  }

  /** The areas of a read cover the range exactly once, in order, and none crosses a multiple of 1 MiB;
      nor are they smaller than that makes them: all but the last end at one. */
  lemma ReadTilesTile(start: nat, count: nat)
    ensures Tiled(ReadTiles(start, count), start, start + count)
    ensures forall t :: t in ReadTiles(start, count) ==> (t.start + t.len - 1) / 0x10_0000 == t.start / 0x10_0000
    ensures EndAtMiB(ReadTiles(start, count))
  {
    if count > 0 {
      FirstLengthFits(start, count);
      var len := FirstLength(start, count);
      TilesTile(start, count, len);
      LaterTilesInside(start + len, count - len);
      TilesEndAtMiB(start, count, len);
      forall t | t in ReadTiles(start, count) ensures (t.start + t.len - 1) / 0x10_0000 == t.start / 0x10_0000 {
        assert Inside(t);
      }
    }
  }

  /** A write opens one area for the whole range: the length computed up to the next boundary is
      overwritten. So it crosses a boundary exactly when the range does. */
  lemma WriteTileCrosses(start: nat, count: nat)
    requires count > 0
    ensures Tiles(start, count, count) == [Tile(start, count)]
    ensures Inside(Tiles(start, count, count)[0]) <==> start % BOUNDARY + count <= BOUNDARY
  {
    assert Tiles(start + count, 0, NextLength(0)) == [];
    var q, r := start / BOUNDARY, start % BOUNDARY;
    assert start == BOUNDARY * q + r;
  }

  // ----- Transfers -----

  /** What a call reports: all done, or the input/output error that ended it. */
  datatype Status = Complete | IoError

  /** `was` with `n` bytes of `from` put at `at`. */
  function Moved(was: seq<Byte>, at: nat, from: seq<Byte>, start: nat, n: nat): (r: seq<Byte>)
    requires at + n <= |was| && start + n <= |from|
    ensures |r| == |was|
  {
    was[..at] + from[start..start + n] + was[at + n..]
  }

  lemma MovedNothing(was: seq<Byte>, at: nat, from: seq<Byte>, start: nat)
    requires at <= |was| && start <= |from|
    ensures Moved(was, at, from, start, 0) == was
  {
  }

  /** Pieces that follow each other add up. */
  lemma MovedOn(was: seq<Byte>, at: nat, from: seq<Byte>, start: nat, n: nat, m: nat)
    requires at + n + m <= |was| && start + n + m <= |from|
    ensures Moved(Moved(was, at, from, start, n), at + n, from, start + n, m) == Moved(was, at, from, start, n + m)
  {
    var w := Moved(was, at, from, start, n);
    assert w[..at + n] == was[..at] + from[start..start + n];
    assert w[at + n + m..] == was[at + (n + m)..];
    assert from[start..start + (n + m)] == from[start..start + n] + from[start + n..start + n + m];
  }

  /** Copy one area's bytes through the 64-byte buffer, between device memory and the caller's
      buffer (either way). `fails(n)`: does the n-th transfer of the call fail? */
  method MoveArea(src: array<Byte>, start: nat, dst: array<Byte>, at: nat, len: nat, fails: nat -> bool, n: nat)
    returns (status: Status, pos: nat, done: nat)
    requires src != dst && start + len <= src.Length && at + len <= dst.Length
    modifies dst
    ensures pos <= len && (status == Complete <==> pos == len)
    ensures dst[..] == Moved(old(dst[..]), at, src[..], start, pos)
    ensures status == IoError ==> fails(done)
    ensures done == n + (pos + 63) / 64 && (pos == len || pos % 64 == 0)
    ensures (forall k :: !fails(k)) ==> status == Complete
  {
    hide Moved;
    pos := 0;
    done := n;
    MovedNothing(dst[..], at, src[..], start);
    while pos < len
      invariant pos <= len && (pos == len || pos % 64 == 0) && done == n + (pos + 63) / 64
      invariant dst[..] == Moved(old(dst[..]), at, src[..], start, pos)
    {
      var piece := if len - pos > BUFFER then BUFFER else len - pos;
      if fails(done) { return IoError, pos, done; }
      MovedOn(old(dst[..]), at, src[..], start, pos, piece);
      MovePiece(src, start + pos, dst, at + pos, piece);
      pos := pos + piece;
      done := done + 1;
    }
    return Complete, pos, done;
  }

  method MovePiece(src: array<Byte>, start: nat, dst: array<Byte>, at: nat, len: nat)
    requires src != dst && start + len <= src.Length && at + len <= dst.Length
    modifies dst
    ensures dst[..] == Moved(old(dst[..]), at, src[..], start, len)
  {
    var tmp := src[start..start + len];
    SingleContext.Copy(tmp, dst, at);
  }

  /** The loop both calls share: open areas, the first of length `first`, until all is moved or
      something fails. `refused(k)`: can the k-th area not be opened, although it is not too long? */
  method MoveRange(src: array<Byte>, srcAt: nat, dst: array<Byte>, dstAt: nat, start: nat, count: nat, first: nat,
                   refused: nat -> bool, fails: nat -> bool)
    returns (status: Status, moved: nat, tiles: seq<Tile>)
    requires src != dst && srcAt + count <= src.Length && dstAt + count <= dst.Length
    requires count == 0 || 0 < first <= count
    modifies dst
    ensures moved <= count && (status == Complete <==> moved == count)
    ensures dst[..] == Moved(old(dst[..]), dstAt, src[..], srcAt, moved)
    ensures tiles <= Tiles(start, count, first) && (status == Complete ==> tiles == Tiles(start, count, first))
    ensures (forall k :: !refused(k)) && (forall k :: !fails(k)) && first <= MAX_AREA ==> status == Complete
    ensures count > 0 && first > MAX_AREA ==> status == IoError && moved == 0
  {
    hide Moved, Tiles;
    moved, tiles := 0, [];
    var done := 0;
    var left: nat, len: nat := count, first;
    MovedNothing(dst[..], dstAt, src[..], srcAt);
    while left > 0
      invariant moved + left == count && (left == 0 || 0 < len <= left)
      invariant (len <= MAX_AREA && (first <= MAX_AREA || count == 0)) || (len == first && moved == 0 && left == count)
      invariant dst[..] == Moved(old(dst[..]), dstAt, src[..], srcAt, moved)
      invariant tiles + Tiles(start + moved, left, len) == Tiles(start, count, first)
      decreases left
    {
      if len > MAX_AREA || refused(|tiles|) { return IoError, moved, tiles; }
      NextTile(tiles, start + moved, left, len);
      tiles := tiles + [Tile(start + moved, len)];
      var pos;
      status, pos, done := MoveArea(src, srcAt + moved, dst, dstAt + moved, len, fails, done);
      MovedOn(old(dst[..]), dstAt, src[..], srcAt, moved, pos);
      moved := moved + pos;
      if status == IoError { return; }
      left := left - len;
      len := NextLength(left);
    }
    NoMoreTiles(start + moved, len);
    return Complete, moved, tiles;
  }

  lemma NoMoreTiles(start: nat, len: nat)
    ensures Tiles(start, 0, len) == []
  {
  }

  lemma NextTile(tiles: seq<Tile>, start: nat, left: nat, len: nat)
    requires 0 < len <= left
    ensures tiles + Tiles(start, left, len)
      == (tiles + [Tile(start, len)]) + Tiles(start + len, left - len, NextLength(left - len))
    ensures tiles + [Tile(start, len)] <= tiles + Tiles(start, left, len)
  {
  }

  /** Read `count` bytes of the target's memory; the areas opened are returned too. */
  method DevRead(mem: array<Byte>, offset: nat, count: nat, buf: array<Byte>, refused: nat -> bool, fails: nat -> bool)
    returns (status: Status, moved: nat, tiles: seq<Tile>)
    requires mem != buf && buf.Length == count && offset % 0x100_0000_0000 + count <= mem.Length
    modifies buf
    ensures moved <= count && (status == Complete <==> moved == count)
    ensures var o := offset % 0x100_0000_0000; buf[..] == mem[o..o + moved] + old(buf[moved..])
    ensures tiles <= ReadTiles(TargetAddress(offset), count)
    ensures status == Complete ==> tiles == ReadTiles(TargetAddress(offset), count)
    ensures (forall k :: !refused(k)) && (forall k :: !fails(k)) ==> status == Complete
  {
    hide Tiles;
    var start := TargetAddress(offset);
    var len := count;
    NoMoreTiles(start, len);
    if count > 0 {
      FirstLengthFits(start, count);
      len := FirstLength(start, count);
    }
    status, moved, tiles := MoveRange(mem, start, buf, 0, start, count, len, refused, fails);
  }

  /** Write the caller's bytes to the target's memory, all through one area: so more than fits the
      largest window is never written, and nothing of it. */
  method DevWrite(mem: array<Byte>, offset: nat, buf: array<Byte>, refused: nat -> bool, fails: nat -> bool)
    returns (status: Status, moved: nat, tiles: seq<Tile>)
    requires mem != buf && TargetAddress(offset) + buf.Length <= mem.Length
    modifies mem
    ensures moved <= buf.Length && (status == Complete <==> moved == buf.Length)
    ensures var o := offset % 0x100_0000_0000; mem[..] == old(mem[..o]) + buf[..moved] + old(mem[o + moved..])
    ensures tiles <= Tiles(TargetAddress(offset), buf.Length, buf.Length)
    ensures (forall k :: !refused(k)) && (forall k :: !fails(k)) ==>
      (status == Complete <==> buf.Length <= 0x4000_0000)
    ensures buf.Length > 0x4000_0000 ==> status == IoError && moved == 0
  {
    var start := TargetAddress(offset);
    status, moved, tiles := MoveRange(buf, 0, mem, start, start, buf.Length, buf.Length, refused, fails);
  }

  /** What was written is read back; if no area is refused and no transfer fails, for every range
      that fits the largest window. */
  method WriteThenRead(mem: array<Byte>, offset: nat, data: array<Byte>, buf: array<Byte>,
                       refused: nat -> bool, fails: nat -> bool) returns (status: Status)
    requires mem != data && mem != buf && data != buf && buf.Length == data.Length
    requires TargetAddress(offset) + data.Length <= mem.Length
    modifies mem, buf
    ensures status == Complete ==> buf[..] == data[..]
    ensures (forall k :: !refused(k)) && (forall k :: !fails(k)) ==>
      (status == Complete <==> data.Length <= 0x4000_0000)
  {
    var moved, tiles;
    status, moved, tiles := DevWrite(mem, offset, data, refused, fails);
    if status == IoError { return; }
    status, moved, tiles := DevRead(mem, offset, data.Length, buf, refused, fails);
  }
}
