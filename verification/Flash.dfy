/**
  Images of flash devices: `image-flash.c`. The partitions tile the device in
  erase blocks, and every byte of the output is content or 0xFF.
 */
module Flash {
  import opened Bytes
  import opened Files
  import opened Arith
  import opened Model

  // `struct flash_type`, as far as it is used
  datatype FlashType = FlashType(pebsize: nat, numpebs: nat) {
    function Size(): nat {
      pebsize * numpebs
    }
  }

  const ERASED: byte := 0xff

  // ------------------------------------------------- the layout

  // The image of a partition exists, and fits.
  predicate HasRoom(children: Children, p: Part) {
    p.image.Some? ==> p.image.value in children && children[p.image.value].size <= p.size
  }

  // One partition, with `partsize` bytes in use.
  function PlaceOne(flash: FlashType, children: Children, p: Part, partsize: nat): Option<Part>
    requires flash.pebsize > 0
  {
    if p.size == 0 && partsize > flash.Size() then None
    else
      var size := if p.size == 0 then flash.Size() - partsize else p.size;
      var r := p.(size := size, offset := if p.offset != 0 then p.offset else partsize);
      if size % flash.pebsize != 0 || p.offset % flash.pebsize != 0 then None
      else if p.offset != 0 && partsize > p.offset then None
      else if HasRoom(children, r) then Some(r)
      else None
  }

  // The loop of `flash_setup`
  function PlaceAll(flash: FlashType, children: Children, parts: seq<Part>, partsize: nat,
                    last: bool): (r: Option<seq<Part>>)
    requires flash.pebsize > 0
    ensures r.Some? ==> |r.value| == |parts|
    decreases |parts|
  {
    if parts == [] then Some([])
    else if last then None
    else
      var p :- PlaceOne(flash, children, parts[0], partsize);
      var rest :- PlaceAll(flash, children, parts[1..], p.End(), parts[0].size == 0);
      Some([p] + rest)
  }

  // The end of the last partition.
  function EndOf(parts: seq<Part>, start: nat): nat {
    if parts == [] then start else parts[|parts| - 1].End()
  }

  datatype FlashLayout = FlashLayout(parts: seq<Part>, size: nat)

  // `flash_setup`
  function Setup(flash: FlashType, children: Children, parts: seq<Part>, size: nat): Option<FlashLayout>
    requires flash.pebsize > 0
  {
    var placed :- PlaceAll(flash, children, parts, 0, false);
    var end := EndOf(placed, 0);
    if end > flash.Size() then None else Some(FlashLayout(placed, if size == 0 then end else size))
  }

  // ------------------------------------------------- tiling

  // Partitions in ascending order, from a start on.
  ghost predicate Ascending(parts: seq<Part>, start: nat) {
    && (forall i | 0 <= i < |parts| :: start <= parts[i].offset)
    && (forall i, j | 0 <= i < j < |parts| :: parts[i].End() <= parts[j].offset)
  }

  // A partition in whole erase blocks, with the offset and size of the
  // configuration if they are given.
  ghost predicate Placed(flash: FlashType, children: Children, p: Part, r: Part)
    requires flash.pebsize > 0
  {
    && r.offset % flash.pebsize == 0 && r.size % flash.pebsize == 0
    && r == p.(offset := r.offset, size := r.size)
    && (p.offset != 0 ==> r.offset == p.offset) && (p.size != 0 ==> r.size == p.size)
    && HasRoom(children, r)
  }

  lemma SumOfMultiples(a: nat, b: nat, m: nat)
    requires m > 0 && a % m == 0 && b % m == 0
    ensures (a + b) % m == 0
  {
    var x, y := a / m, b / m;
    assert a == x * m && b == y * m;
    hide *;
    assert a + b == (x + y) * m;
    MultipleMod(x + y, m);
  }

  lemma FlashSizeIsMultiple(flash: FlashType)
    requires flash.pebsize > 0
    ensures flash.Size() % flash.pebsize == 0
  {
    MultipleMod(flash.numpebs, flash.pebsize);
  }

  lemma PlaceOneIs(flash: FlashType, children: Children, p: Part, partsize: nat)
    requires flash.pebsize > 0 && partsize % flash.pebsize == 0
    requires PlaceOne(flash, children, p, partsize).Some?
    ensures var r := PlaceOne(flash, children, p, partsize).value;
            && Placed(flash, children, p, r)
            && partsize <= r.offset && r.End() % flash.pebsize == 0
            && (p.size == 0 ==> r.size == flash.Size() - partsize)
  {
    FlashSizeIsMultiple(flash);
    hide FlashType.Size;
    var r := PlaceOne(flash, children, p, partsize).value;
    SumOfMultiples(r.offset, r.size, flash.pebsize);
  }

  lemma NothingAscends(start: nat)
    ensures Ascending([], start)
  {
  }

  lemma AscendingCons(p: Part, rest: seq<Part>, start: nat)
    ensures Ascending([p] + rest, start) <==> start <= p.offset && Ascending(rest, p.End())
    ensures EndOf([p] + rest, start) == EndOf(rest, p.End())
  {
    var all := [p] + rest;
    if Ascending(all, start) {
      forall i | 0 <= i < |rest|
        ensures p.End() <= rest[i].offset
      {
        assert all[0].End() <= all[i + 1].offset;
      }
      forall i, j | 0 <= i < j < |rest|
        ensures rest[i].End() <= rest[j].offset
      {
        assert all[i + 1].End() <= all[j + 1].offset;
      }
    }
  }

  lemma {:induction false} PlaceAllIs(flash: FlashType, children: Children, parts: seq<Part>, partsize: nat, last: bool)
    requires flash.pebsize > 0 && partsize % flash.pebsize == 0
    requires PlaceAll(flash, children, parts, partsize, last).Some?
    ensures var r := PlaceAll(flash, children, parts, partsize, last).value;
            && Ascending(r, partsize) && partsize <= EndOf(r, partsize)
            && (forall i | 0 <= i < |r| :: Placed(flash, children, parts[i], r[i]))
            && (forall i | 0 <= i < |r| && parts[i].size == 0 :: i == |r| - 1 && r[i].End() >= flash.Size())
    decreases |parts|
  {
    hide PlaceOne, Placed, HasRoom, FlashType.Size, Ascending;
    if parts == [] {
      NothingAscends(partsize);
    } else {
      var p := PlaceOne(flash, children, parts[0], partsize).value;
      PlaceOneIs(flash, children, parts[0], partsize);
      PlaceAllIs(flash, children, parts[1..], p.End(), parts[0].size == 0);
      var rest := PlaceAll(flash, children, parts[1..], p.End(), parts[0].size == 0).value;
      AscendingCons(p, rest, partsize);
    }
  }

  // r is partition p behind everything up to `now`, on a device of a given size:
  // without an offset right there, and without a size up to the end of the device.
  ghost predicate Fills(block: nat, total: nat, children: Children, p: Part, now: nat, r: Part)
    requires block > 0
  {
    && r == p.(offset := r.offset, size := r.size)
    && (if p.offset != 0 then now <= r.offset == p.offset && r.offset % block == 0 else r.offset == now)
    && (if p.size != 0 then r.size == p.size else now + r.size == total)
    && r.size % block == 0
    && (p.image.Some? ==> p.image.value in children && children[p.image.value].size <= r.size)
  }

  ghost predicate TileAt(flash: FlashType, children: Children, p: Part, now: nat, r: Part)
    requires flash.pebsize > 0
  {
    Fills(flash.pebsize, flash.pebsize * flash.numpebs, children, p, now, r)
  }

  function EndAt(parts: seq<Part>, start: nat, i: nat): nat
    requires i <= |parts|
  {
    if i == 0 then start else parts[i - 1].offset + parts[i - 1].size
  }

  // Partition number i is where it has to be; only the last one may take the rest of the device.
  ghost predicate Tile(flash: FlashType, children: Children, parts: seq<Part>, start: nat, r: seq<Part>, i: nat)
    requires flash.pebsize > 0 && i < |parts| == |r|
  {
    && TileAt(flash, children, parts[i], EndAt(r, start, i), r[i])
    && (i < |parts| - 1 ==> parts[i].size != 0)
  }

  // All partitions one behind the other.
  ghost predicate Tiling(flash: FlashType, children: Children, parts: seq<Part>, start: nat, r: seq<Part>)
    requires flash.pebsize > 0
  {
    |r| == |parts| && forall i | 0 <= i < |parts| :: Tile(flash, children, parts, start, r, i)
  }

  lemma PlaceOneFills(flash: FlashType, children: Children, p: Part, now: nat, r: Part)
    requires flash.pebsize > 0
    ensures PlaceOne(flash, children, p, now) == Some(r) <==> Fills(flash.pebsize, flash.Size(), children, p, now, r)
  {
    hide FlashType.Size;
    assert 0 % flash.pebsize == 0;
  }

  lemma PlaceOneIff(flash: FlashType, children: Children, p: Part, now: nat, r: Part)
    requires flash.pebsize > 0
    ensures PlaceOne(flash, children, p, now) == Some(r) <==> TileAt(flash, children, p, now, r)
  {
    hide PlaceOne, Fills;
    PlaceOneFills(flash, children, p, now, r);
  }

  lemma FirstTileIs(flash: FlashType, children: Children, p: Part, rest: seq<Part>, start: nat, r: Part,
                    more: seq<Part>)
    requires flash.pebsize > 0 && |more| == |rest|
    ensures Tile(flash, children, [p] + rest, start, [r] + more, 0) <==>
              TileAt(flash, children, p, start, r) && (rest != [] ==> p.size != 0)
  {
    hide TileAt;
    assert ([p] + rest)[0] == p && ([r] + more)[0] == r;
  }

  lemma LaterTileIs(flash: FlashType, children: Children, p: Part, rest: seq<Part>, start: nat, r: Part,
                    more: seq<Part>, i: nat)
    requires flash.pebsize > 0 && i < |more| == |rest|
    ensures Tile(flash, children, [p] + rest, start, [r] + more, i + 1) <==> Tile(flash, children, rest, r.End(), more, i)
  {
    hide TileAt;
    var parts, all := [p] + rest, [r] + more;
    assert parts[i + 1] == rest[i] && all[i + 1] == more[i];
    assert all[i] == if i == 0 then r else more[i - 1];
  }

  // The tiling of a partition and those behind it.
  lemma TilingCons(flash: FlashType, children: Children, p: Part, rest: seq<Part>, start: nat, r: Part, more: seq<Part>)
    requires flash.pebsize > 0 && |more| == |rest|
    ensures Tiling(flash, children, [p] + rest, start, [r] + more) <==>
              && TileAt(flash, children, p, start, r) && (rest != [] ==> p.size != 0)
              && Tiling(flash, children, rest, r.End(), more)
  {
    hide TileAt, Tile;
    var parts, all := [p] + rest, [r] + more;
    FirstTileIs(flash, children, p, rest, start, r, more);
    forall i | 0 <= i < |rest|
      ensures Tile(flash, children, parts, start, all, i + 1) <==> Tile(flash, children, rest, r.End(), more, i)
    {
      LaterTileIs(flash, children, p, rest, start, r, more, i);
    }
    if Tile(flash, children, parts, start, all, 0) && Tiling(flash, children, rest, r.End(), more) {
      forall i | 0 <= i < |parts|
        ensures Tile(flash, children, parts, start, all, i)
      {
        if i > 0 {
          assert Tile(flash, children, rest, r.End(), more, i - 1);
        }
      }
    }
  }

  lemma NothingTiles(flash: FlashType, children: Children, now: nat, r: seq<Part>)
    requires flash.pebsize > 0
    ensures Tiling(flash, children, [], now, r) <==> r == []
  {
  }

  lemma OtherLength(flash: FlashType, children: Children, parts: seq<Part>, now: nat, r: seq<Part>)
    requires flash.pebsize > 0 && |r| != |parts|
    ensures !Tiling(flash, children, parts, now, r)
  {
  }

  lemma {:induction false} PlaceAllIff(flash: FlashType, children: Children, parts: seq<Part>, now: nat, last: bool,
                                       r: seq<Part>)
    requires flash.pebsize > 0
    ensures PlaceAll(flash, children, parts, now, last) == Some(r) <==>
              Tiling(flash, children, parts, now, r) && (last ==> parts == [])
    decreases |parts|
  {
    hide PlaceOne, TileAt, Tiling;
    if parts == [] {
      NothingTiles(flash, children, now, r);
    } else if last {
    } else {
      var p, rest := parts[0], parts[1..];
      assert parts == [p] + rest;
      if r != [] {
        PlaceOneIff(flash, children, p, now, r[0]);
        PlaceAllIff(flash, children, rest, r[0].End(), p.size == 0, r[1..]);
        assert r == [r[0]] + r[1..];
        if |r| == |parts| {
          TilingCons(flash, children, p, rest, now, r[0], r[1..]);
        } else {
          OtherLength(flash, children, parts, now, r);
          OtherLength(flash, children, rest, r[0].End(), r[1..]);
        }
      } else {
        OtherLength(flash, children, parts, now, r);
      }
    }
  }

  // `flash_setup` accepts a configuration if and only if its partitions tile the
  // device in this way, and then leaves this tiling.
  lemma FlashSetupIff(flash: FlashType, children: Children, parts: seq<Part>, size: nat, l: FlashLayout)
    requires flash.pebsize > 0
    ensures Setup(flash, children, parts, size) == Some(l) <==>
              && Tiling(flash, children, parts, 0, l.parts)
              && EndAt(l.parts, 0, |l.parts|) <= flash.pebsize * flash.numpebs
              && l.size == if size == 0 then EndAt(l.parts, 0, |l.parts|) else size
  {
    hide PlaceAll, Tiling;
    PlaceAllIff(flash, children, parts, 0, false, l.parts);
  }

  // Partition i is at the offset of the configuration or, if there is none, where
  // the one before it ends.
  ghost predicate StartsAt(parts: seq<Part>, r: seq<Part>, i: nat)
    requires i < |parts| == |r|
  {
    r[i].offset == if parts[i].offset != 0 then parts[i].offset else if i == 0 then 0 else r[i - 1].End()
  }

  lemma TilingOffset(flash: FlashType, children: Children, parts: seq<Part>, r: seq<Part>, i: nat)
    requires flash.pebsize > 0 && Tiling(flash, children, parts, 0, r) && i < |parts|
    ensures |r| == |parts| && StartsAt(parts, r, i)
  {
    assert Tile(flash, children, parts, 0, r, i);
  }

  // After a successful setup the partitions are in ascending order, disjoint,
  // in whole erase blocks and inside of the device; only the last one can have
  // had the size zero, and it ends where the device ends.
  lemma FlashTiles(flash: FlashType, children: Children, parts: seq<Part>, size: nat)
    requires flash.pebsize > 0 && Setup(flash, children, parts, size).Some?
    ensures var l := Setup(flash, children, parts, size).value;
            && |l.parts| == |parts| && Ascending(l.parts, 0)
            && (forall i | 0 <= i < |parts| :: Placed(flash, children, parts[i], l.parts[i]) && l.parts[i].End() <= flash.Size())
            && (forall i | 0 <= i < |parts| && parts[i].size == 0 :: i == |parts| - 1 && l.parts[i].End() == flash.Size())
            && (size == 0 ==> l.size == EndOf(l.parts, 0) <= flash.Size())
            && (forall i | 0 <= i < |parts| :: StartsAt(parts, l.parts, i))
  {
    hide PlaceOne, PlaceAll, Placed, HasRoom, FlashType.Size, Tiling, StartsAt, EndAt;
    PlaceAllIs(flash, children, parts, 0, false);
    var l := Setup(flash, children, parts, size).value;
    FlashSetupIff(flash, children, parts, size, l);
    forall i | 0 <= i < |parts|
      ensures StartsAt(parts, l.parts, i) && l.parts[i].End() <= flash.Size()
    {
      TilingOffset(flash, children, parts, l.parts, i);
      if i < |parts| - 1 {
        assert l.parts[i].End() <= l.parts[|parts| - 1].offset;
      }
    }
  }

  // ------------------------------------------------- the content

  ghost function Content(children: Children, p: Part): (r: seq<byte>)
    requires HasRoom(children, p)
    ensures |r| == p.size
  {
    Inserted(if p.image.Some? then Some(children[p.image.value].file) else None, p.size, 0, ERASED)
  }

  // The bytes from a start to the end of the last partition.
  ghost function Tiles(children: Children, parts: seq<Part>, start: nat): (r: seq<byte>)
    requires forall i | 0 <= i < |parts| :: HasRoom(children, parts[i])
    requires Ascending(parts, start)
    ensures start + |r| == EndOf(parts, start)
    decreases |parts|
  {
    if parts == [] then []
    else Fill(parts[0].offset - start, ERASED) + Content(children, parts[0]) + Tiles(children, parts[1..], parts[0].End())
  }

  // The contents of the output of `flash_generate`.
  ghost function Output(children: Children, l: FlashLayout): (r: seq<byte>)
    requires forall i | 0 <= i < |l.parts| :: HasRoom(children, l.parts[i])
    requires Ascending(l.parts, 0)
    ensures |r| == Max(l.size, EndOf(l.parts, 0))
  {
    Tiles(children, l.parts, 0) + Fill(Max(0, l.size - EndOf(l.parts, 0)), ERASED)
  }

  lemma StartsBehind(parts: seq<Part>, start: nat)
    requires Ascending(parts, start)
    ensures forall i | 0 <= i < |parts| :: start <= parts[i].offset
  {
  }

  // The tiles of a partition and those behind it.
  lemma TilesCons(children: Children, p: Part, rest: seq<Part>, start: nat)
    requires HasRoom(children, p) && forall i | 0 <= i < |rest| :: HasRoom(children, rest[i])
    requires start <= p.offset && Ascending(rest, p.End())
    ensures forall i | 0 <= i < |[p] + rest| :: HasRoom(children, ([p] + rest)[i])
    ensures Ascending([p] + rest, start)
    ensures Tiles(children, [p] + rest, start)
         == Fill(p.offset - start, ERASED) + Content(children, p) + Tiles(children, rest, p.End())
  {
    hide Content, HasRoom, Ascending;
    AscendingCons(p, rest, start);
    assert ([p] + rest)[1..] == rest;
  }

  lemma FirstTile(gap: seq<byte>, content: seq<byte>, rest: seq<byte>, k: nat)
    requires k < |gap| + |content| + |rest|
    ensures (gap + content + rest)[k]
         == if k < |gap| then gap[k]
            else if k < |gap| + |content| then content[k - |gap|]
            else rest[k - |gap| - |content|]
  {
  }

  lemma {:induction false} TilesAt(children: Children, parts: seq<Part>, start: nat, pos: nat)
    requires forall i | 0 <= i < |parts| :: HasRoom(children, parts[i])
    requires Ascending(parts, start) && start <= pos < EndOf(parts, start)
    ensures forall i | 0 <= i < |parts| && parts[i].offset <= pos < parts[i].End() ::
              Tiles(children, parts, start)[pos - start] == Content(children, parts[i])[pos - parts[i].offset]
    ensures (forall i | 0 <= i < |parts| :: !(parts[i].offset <= pos < parts[i].End())) ==>
              Tiles(children, parts, start)[pos - start] == ERASED
    decreases |parts|
  {
    hide Content, HasRoom, Ascending, Tiles;
    var p, rest := parts[0], parts[1..];
    assert parts == [p] + rest;
    AscendingCons(p, rest, start);
    TilesCons(children, p, rest, start);
    StartsBehind(rest, p.End());
    FirstTile(Fill(p.offset - start, ERASED), Content(children, p), Tiles(children, rest, p.End()), pos - start);
    if pos < p.End() {
    } else {
      TilesAt(children, rest, p.End(), pos);
      forall i | 0 <= i < |parts| && parts[i].offset <= pos < parts[i].End()
        ensures Tiles(children, parts, start)[pos - start] == Content(children, parts[i])[pos - parts[i].offset]
      {
        assert parts[i] == rest[i - 1];
      }
    }
  }

  // Every byte of the output is content of the partition it is in, or padding.
  lemma FlashContent(children: Children, l: FlashLayout, pos: nat)
    requires forall i | 0 <= i < |l.parts| :: HasRoom(children, l.parts[i])
    requires Ascending(l.parts, 0) && pos < |Output(children, l)|
    ensures forall i | 0 <= i < |l.parts| && l.parts[i].offset <= pos < l.parts[i].End() ::
              Output(children, l)[pos] == Content(children, l.parts[i])[pos - l.parts[i].offset]
    ensures (forall i | 0 <= i < |l.parts| :: !(l.parts[i].offset <= pos < l.parts[i].End())) ==>
              Output(children, l)[pos] == 0xff
  {
    hide Content, HasRoom, Tiles;
    var end := EndOf(l.parts, 0);
    if pos < end {
      TilesAt(children, l.parts, 0, pos);
      assert Output(children, l)[pos] == Tiles(children, l.parts, 0)[pos];
    } else {
      assert Output(children, l)[pos] == ERASED;
      forall i | 0 <= i < |l.parts|
        ensures l.parts[i].End() <= end
      {
        if i < |l.parts| - 1 {
          assert l.parts[i].End() <= l.parts[|l.parts| - 1].offset;
        }
      }
    }
  }

  // The content of a partition is the file up to the end of its last extent,
  // and then padding; what it hides of the file are zeros.
  lemma ContentIsFile(children: Children, p: Part, k: nat)
    requires HasRoom(children, p) && p.image.Some? && k < p.size
    requires var file := children[p.image.value].file; file.Valid() && file.fiemap != Failed
    ensures var file := children[p.image.value].file;
            && Content(children, p)[k] == (if GoesOn(file, p.size, k) then At(file.data, k) else 0xff)
            && (!GoesOn(file, p.size, k) && k < |file.data| ==> file.data[k] == 0)
  {
    hide Inserted, Reach, Source.Valid, GoesOn;
    var file := children[p.image.value].file;
    InsertedIsCopy(file, p.size, 0, ERASED, k);
    ReachIff(file, p.size, 0, k);
    if Reach(file, p.size, 0) <= k < |file.data| {
      BeyondReach(file, p.size, 0, k);
    }
  }

  // The extents of the image can be found.
  predicate CanMap(children: Children, image: Option<string>) {
    image.Some? && image.value in children ==> children[image.value].file.fiemap != Failed
  }

  // ------------------------------------------------- the handler

  class FlashImage {
    const flash: FlashType
    const children: Children
    var size: nat
    var partitions: seq<Partition>

    constructor (flash: FlashType, children: Children, size: nat, partitions: seq<Partition>)
      ensures this.flash == flash && this.children == children && this.size == size && this.partitions == partitions
    {
      this.flash, this.children, this.size, this.partitions := flash, children, size, partitions;
    }

    // The loop body of `flash_setup`
    method PlacePart(part: Partition, partsize: nat) returns (ok: bool, last: bool)
      requires flash.pebsize > 0
      modifies part`size, part`offset
      ensures ok <==> PlaceOne(flash, children, old(part.Value()), partsize).Some?
      ensures ok ==> part.Value() == PlaceOne(flash, children, old(part.Value()), partsize).value
      ensures ok ==> last == (old(part.Value()).size == 0)
      ensures ok ==> TileAt(flash, children, old(part.Value()), partsize, part.Value())
    {
      ghost var was := part.Value();
      if PlaceOne(flash, children, was, partsize).Some? {
        PlaceOneIff(flash, children, was, partsize, PlaceOne(flash, children, was, partsize).value);
      }
      hide FlashType.Size, TileAt;
      last := false;
      var flashsize := flash.Size();
      if part.size == 0 {
        last := true;
        if partsize > flashsize {
          return false, last;
        }
        part.size := flashsize - partsize;
      }
      if part.size % flash.pebsize != 0 {
        return false, last;
      }
      if part.offset % flash.pebsize != 0 {
        return false, last;
      }
      if part.offset != 0 {
        if partsize > part.offset {
          return false, last;
        }
      } else {
        part.offset := partsize;
      }
      if part.image.Some? {
        if part.image.value !in children {
          return false, last;
        }
        if children[part.image.value].size > part.size {
          return false, last;
        }
      }
      ok := true;
    }

    // The loop of `flash_setup`
    method PlaceParts() returns (ok: bool, partsize: nat)
      requires flash.pebsize > 0 && Distinct(partitions)
      modifies partitions
      ensures var r := PlaceAll(flash, children, old(Values(partitions)), 0, false);
              && (ok <==> r.Some?)
              && (ok ==> Values(partitions) == r.value && partsize == EndOf(r.value, 0))
    {
      hide PlaceOne, PlaceAll, Prepend, EndOf, Partition.Value, Values, Distinct;
      ghost var todo := Values(partitions);
      var last := false;
      partsize := 0;
      FirstPlaced(flash, children, todo);
      for n := 0 to |partitions|
        invariant forall i | n <= i < |partitions| :: partitions[i].Value() == todo[i]
        invariant partsize == EndOf(Values(partitions[..n]), 0)
        invariant PlaceAll(flash, children, todo, 0, false)
               == Prepend(Values(partitions[..n]), PlaceAll(flash, children, todo[n..], partsize, last))
      {
        ghost var before := Values(partitions[..n]);
        NextPlaced(flash, children, todo, n, partsize, last, before);
        if last {
          return false, partsize;
        }
        var part, takesRest := partitions[n], false;
        NotBefore(partitions, n);
        ok, takesRest := PlacePart(part, partsize);
        if !ok {
          return;
        }
        FieldsOfValue(part);
        assert partitions[..n + 1] == partitions[..n] + [part];
        ValuesAppend(partitions[..n], part);
        partsize, last := part.offset + part.size, takesRest;
      }
      assert partitions[..|partitions|] == partitions;
      LastPlaced(flash, children, todo, partsize, last, Values(partitions));
      ok := true;
    }

    // `flash_setup`
    method FlashSetup() returns (ok: bool)
      requires flash.pebsize > 0 && Distinct(partitions)
      modifies this`size, partitions
      ensures var l := Setup(flash, children, old(Values(partitions)), old(size));
              && (ok <==> l.Some?)
              && (ok ==> Values(partitions) == l.value.parts && size == l.value.size)
    {
      hide PlaceAll, EndOf, FlashType.Size, Values, Distinct;
      var partsize;
      ok, partsize := PlaceParts();
      if !ok {
        return;
      }
      if partsize > flash.Size() {
        return false;
      }
      if size == 0 {
        size := partsize;
      }
    }

    // The loop body of `flash_generate`: the gap before a partition, and its content.
    method InsertPart(out: OutFile, part: Partition, end: nat, ghost f: seq<byte>, ghost before: seq<byte>)
      returns (ok: bool)
      requires HasRoom(children, part.Value())
      requires forall name | name in children :: children[name].file.Valid()
      requires end <= part.Value().offset && |before| == end
      requires out.data == Overwrite(f, 0, before)
      modifies out
      ensures ok ==> var p := part.Value();
                out.data == Overwrite(f, 0, before + (Fill(p.offset - end, ERASED) + Content(children, p)))
      ensures out.reliable && CanMap(children, part.image) ==> ok
    {
      hide Overwrite, Inserted, Source.Valid, Partition.Value;
      FieldsOfValue(part);
      ghost var gap, content := Fill(part.offset - end, ERASED), Content(children, part.Value());
      ok := true;
      if part.offset > end {
        PaddingIsFill(part.offset - end);
        ok := out.InsertImage(None, part.offset - end, end, 0, ERASED, false);
        if !ok {
          return;
        }
        OverwriteTwice(f, 0, before, gap);
      } else {
        assert before + gap == before;
      }
      var child := if part.image.Some? then Some(children[part.image.value].file) else None;
      ok := out.InsertImage(child, part.size, part.offset, 0, ERASED, false);
      OverwriteTwice(f, 0, before + gap, content);
      assert before + gap + content == before + (gap + content);
    }

    // `flash_generate` for a regular output file
    method FlashGenerate(out: OutFile) returns (ok: bool)
      requires forall name | name in children :: children[name].file.Valid()
      requires var parts := Values(partitions); Ascending(parts, 0) && forall i | 0 <= i < |parts| :: HasRoom(children, parts[i])
      modifies out
      ensures ok ==> out.data == Output(children, FlashLayout(Values(partitions), size))
      ensures out.reliable && (forall i | 0 <= i < |partitions| :: CanMap(children, partitions[i].image)) ==> ok
    {
      hide Overwrite, Inserted, Source.Valid, Tiles, Content, HasRoom, Partition.Value, EndOf, Ascending;
      ghost var parts := Values(partitions);
      var end := 0;
      ok := out.PrepareImage(size);
      if !ok {
        return;
      }
      ghost var f := Fill(size, 0);
      NoTiles(children, parts);
      for n := 0 to |partitions|
        invariant end == EndOf(parts[..n], 0) && Ascending(parts[..n], 0)
        invariant out.data == Overwrite(f, 0, Tiles(children, parts[..n], 0))
      {
        assert parts[n] == partitions[n].Value();
        NextTile(children, parts, n);
        ghost var before := Tiles(children, parts[..n], 0);
        ok := InsertPart(out, partitions[n], end, f, before);
        if !ok {
          return;
        }
        FieldsOfValue(partitions[n]);
        end := partitions[n].offset + partitions[n].size;
      }
      assert parts[..|partitions|] == parts;
      ghost var tiles := Tiles(children, parts, 0);
      if size > end {
        ok := out.InsertImage(None, size - end, end, 0, ERASED, false);
        if !ok {
          return;
        }
        PaddingIsFill(size - end);
        OverwriteTwice(f, 0, tiles, Fill(size - end, ERASED));
      } else {
        assert tiles + Fill(0, ERASED) == tiles;
      }
      OverwriteAll(f, Output(children, FlashLayout(parts, size)));
      ok := true;
    }
  }

  lemma FirstPlaced(flash: FlashType, children: Children, todo: seq<Part>)
    requires flash.pebsize > 0
    ensures EndOf([], 0) == 0 && todo[0..] == todo
    ensures Prepend([], PlaceAll(flash, children, todo[0..], 0, false)) == PlaceAll(flash, children, todo, 0, false)
  {
    assert todo[0..] == todo;
    PrependNothing(PlaceAll(flash, children, todo, 0, false));
  }

  // The next step of the loop of `flash_setup`
  lemma NextPlaced(flash: FlashType, children: Children, todo: seq<Part>, n: nat, partsize: nat, last: bool,
                   before: seq<Part>)
    requires flash.pebsize > 0 && n < |todo|
    ensures var one := PlaceOne(flash, children, todo[n], partsize);
            var all := Prepend(before, PlaceAll(flash, children, todo[n..], partsize, last));
            && (last || one.None? ==> all.None?)
            && (!last && one.Some? ==>
                  && all == Prepend(before + [one.value], PlaceAll(flash, children, todo[n + 1..], one.value.End(), todo[n].size == 0))
                  && EndOf(before + [one.value], 0) == one.value.End())
  {
    hide PlaceOne;
    assert todo[n..][0] == todo[n] && todo[n..][1..] == todo[n + 1..];
    var one := PlaceOne(flash, children, todo[n], partsize);
    if !last && one.Some? {
      PrependMore(before, [one.value], PlaceAll(flash, children, todo[n + 1..], one.value.End(), todo[n].size == 0));
    }
  }

  lemma LastPlaced(flash: FlashType, children: Children, todo: seq<Part>, partsize: nat, last: bool, before: seq<Part>)
    requires flash.pebsize > 0
    ensures Prepend(before, PlaceAll(flash, children, todo[|todo|..], partsize, last)) == Some(before)
  {
    assert todo[|todo|..] == [];
    assert before + [] == before;
  }

  lemma FieldsOfValue(part: Partition)
    ensures var p := part.Value();
            p.offset == part.offset && p.size == part.size && p.image == part.image && p.End() == part.offset + part.size
  {
  }

  lemma PaddingIsFill(n: nat)
    ensures Inserted(None, n, 0, ERASED) == Fill(n, ERASED)
  {
  }

  lemma NoTiles(children: Children, parts: seq<Part>)
    requires forall i | 0 <= i < |parts| :: HasRoom(children, parts[i])
    ensures Ascending(parts[..0], 0) && Tiles(children, parts[..0], 0) == [] && EndOf(parts[..0], 0) == 0
  {
  }

  lemma NoTilesBehind(children: Children, start: nat)
    requires Ascending([], start)
    ensures Tiles(children, [], start) == []
  {
  }

  lemma ConcatAssociates(a: seq<byte>, b: seq<byte>, c: seq<byte>)
    ensures a + (b + c) == a + b + c
  {
  }

  lemma {:induction false} TilesAppend(children: Children, parts: seq<Part>, p: Part, start: nat)
    requires HasRoom(children, p) && forall i | 0 <= i < |parts| :: HasRoom(children, parts[i])
    requires Ascending(parts + [p], start)
    ensures Ascending(parts, start) && EndOf(parts, start) <= p.offset
    ensures Tiles(children, parts + [p], start)
         == Tiles(children, parts, start) + (Fill(p.offset - EndOf(parts, start), ERASED) + Content(children, p))
    decreases |parts|
  {
    hide Content, HasRoom, Ascending, Tiles;
    var all := parts + [p];
    if parts == [] {
      NothingAscends(start);
      assert all == [p] + [];
      AscendingCons(p, [], start);
      TilesCons(children, p, [], start);
      NoTilesBehind(children, p.End());
      NoTilesBehind(children, start);
    } else {
      var first, rest := parts[0], parts[1..];
      assert all == [first] + (rest + [p]) && parts == [first] + rest;
      AscendingCons(first, rest, start);
      AscendingCons(first, rest + [p], start);
      TilesAppend(children, rest, p, first.End());
      TilesCons(children, first, rest, start);
      TilesCons(children, first, rest + [p], start);
      ConcatAssociates(Fill(first.offset - start, ERASED) + Content(children, first), Tiles(children, rest, first.End()),
                       Fill(p.offset - EndOf(rest, first.End()), ERASED) + Content(children, p));
    }
  }

  lemma NextTile(children: Children, parts: seq<Part>, n: nat)
    requires n < |parts| && forall i | 0 <= i < |parts| :: HasRoom(children, parts[i])
    requires Ascending(parts, 0)
    ensures Ascending(parts[..n], 0) && Ascending(parts[..n + 1], 0)
    ensures EndOf(parts[..n], 0) <= parts[n].offset
    ensures Tiles(children, parts[..n + 1], 0)
         == Tiles(children, parts[..n], 0) + (Fill(parts[n].offset - EndOf(parts[..n], 0), ERASED) + Content(children, parts[n]))
    ensures EndOf(parts[..n + 1], 0) == parts[n].End()
  {
    hide Content, HasRoom;
    assert parts[..n + 1] == parts[..n] + [parts[n]];
    TilesAppend(children, parts[..n], parts[n], 0);
  }

  lemma OverwriteAll(f: seq<byte>, s: seq<byte>)
    requires |f| <= |s|
    ensures Overwrite(f, 0, s) == s
  {
  }
}
