/**
  Declared holes are compared in positions of the partition, although they are
  positions of the image file. With an `imageoffset`, a byte outside of every
  hole can be lost: exactly if some hole of the partition, moved by the
  `imageoffset`, is not a hole of the file.
 */
module HdHoles {
  import opened Bytes
  import opened Files
  import opened Model
  import opened HdLayout
  import opened HdShape
  import opened HdWriter
  import opened HdContent

  // ------------------------------------------------- two partitions

  function Piece(image: string, imageoffset: nat, offset: nat): Part {
    Part(image, Configured, Flags(false, false, false, false), 0, false, false, false, Some(image), imageoffset, false,
         offset, 0, 0, false, true, None, None)
  }

  // An image, and one of a single byte.
  function TwoImages(child: Child, b: byte): Children {
    map["a" := child, "b" := Child(1, [], Source([b], Unsupported))]
  }

  // The first image from an `imageoffset` on, and the byte at position k of it.
  function Pieces(imageoffset: nat, k: nat): seq<Part> {
    [Piece("a", imageoffset, 8), Piece("b", 0, 8 + k)]
  }

  // The first partition in its place.
  function FirstPlaced(child: Child, imageoffset: nat): Part
    requires imageoffset <= child.size
  {
    Piece("a", imageoffset, 8).(size := child.size - imageoffset, align := 1, inTable := false)
  }

  function SecondPlaced(k: nat): Part {
    Piece("b", 0, 8 + k).(size := 1, align := 1, inTable := false)
  }

  // An image that is read from an `imageoffset` on.
  ghost predicate Given(child: Child, imageoffset: nat) {
    && imageoffset < child.size < 0x8000_0000_0000_0000
    && child.file.Valid() && child.file.fiemap != Failed
  }

  function AfterFirst(child: Child, imageoffset: nat): Progress
    requires imageoffset < child.size
  {
    var end := 8 + child.size - imageoffset;
    Progress([FirstPlaced(child, imageoffset)], end, end, false, 0)
  }

  lemma FirstStep(child: Child, imageoffset: nat, k: nat, b: byte)
    requires Given(child, imageoffset)
    ensures var cfg := Normalise(Tableless());
            Step(cfg, TwoImages(child, b), Begin(cfg), Pieces(imageoffset, k)[0]) == Some(AfterFirst(child, imageoffset))
  {
    var cfg, children := Normalise(Tableless()), TwoImages(child, b);
    var p := Pieces(imageoffset, k)[0].(align := 1, inTable := false);
    assert Resolve(cfg, 0, Pieces(imageoffset, k)[0]) == Some(p);
    assert children["a"] == child;
    var r := FirstPlaced(child, imageoffset);
    assert Fit(cfg, children, Begin(cfg), p) == Some(r);
    assert Fits(children, [], 0, r);
    assert [] + [r] == [r];
  }

  lemma CoveringByte(children: Children, child: Child, imageoffset: nat, k: nat)
    requires imageoffset < child.size && k < child.size - imageoffset
    requires "a" in children && children["a"] == child
    ensures Compatible(children, FirstPlaced(child, imageoffset), SecondPlaced(k)) <==> Covered(child.holes, k)
  {
    var q, p := FirstPlaced(child, imageoffset), SecondPlaced(k);
    assert !Apart(q.offset, q.End(), p.offset, p.End());
    assert Max(p.offset, q.offset) - q.offset == k && Min(p.End(), q.End()) - q.offset == k + 1;
    if Covered(child.holes, k) {
      var h :| 0 <= h < |child.holes| && child.holes[h].start <= k < child.holes[h].end;
      assert child.holes[h].start <= k && k + 1 <= child.holes[h].end;
    }
  }

  // The check of overlaps accepts the byte exactly if it is in a hole of the
  // partition, as long as it is inside of the first one.
  lemma SecondStep(child: Child, imageoffset: nat, k: nat, b: byte)
    requires Given(child, imageoffset) && k < child.size - imageoffset
    ensures var cfg, r := Normalise(Tableless()), SecondPlaced(k);
            var g := AfterFirst(child, imageoffset);
            Step(cfg, TwoImages(child, b), g, Pieces(imageoffset, k)[1])
            == if Covered(child.holes, k) then Some(Progress(g.done + [r], g.now, g.fileSize, false, 0)) else None
  {
    var cfg, children := Normalise(Tableless()), TwoImages(child, b);
    var g, r := AfterFirst(child, imageoffset), SecondPlaced(k);
    var p := Pieces(imageoffset, k)[1].(align := 1, inTable := false);
    assert Resolve(cfg, 1, Pieces(imageoffset, k)[1]) == Some(p);
    assert children["b"].size == 1 && children["a"] == child;
    assert Fit(cfg, children, g, p) == Some(r);
    CoveringByte(children, child, imageoffset, k);
    assert NoOverlap(children, g.done, r) <==> Compatible(children, g.done[0], r);
    assert Fits(children, g.done, g.now, r) <==> Covered(child.holes, k);
  }

  // Setup accepts both partitions exactly if the byte is in a hole of the first.
  lemma BothPlaced(child: Child, imageoffset: nat, k: nat, b: byte)
    requires Given(child, imageoffset) && k < child.size - imageoffset
    ensures var l := Setup(Tableless(), TwoImages(child, b), Pieces(imageoffset, k));
            && (l.Some? <==> Covered(child.holes, k))
            && (l.Some? ==>
                  && Accepted(Tableless(), TwoImages(child, b), Pieces(imageoffset, k), l.value)
                  && l.value.parts == [FirstPlaced(child, imageoffset), SecondPlaced(k)])
  {
    hide Step, Covered;
    var cfg, parts := Normalise(Tableless()), Pieces(imageoffset, k);
    FirstStep(child, imageoffset, k, b);
    SecondStep(child, imageoffset, k, b);
    assert TableAreas(cfg) == [] && parts + [] == parts;
    assert Listed(cfg, parts) == Some(parts);
    assert parts[1..] == [parts[1]] && parts[1..][1..] == [];
    var children, g := TwoImages(child, b), AfterFirst(child, imageoffset);
    assert Place(cfg, children, Begin(cfg), parts) == Place(cfg, children, g, parts[1..]);
    assert Step(cfg, children, g, parts[1]).Some? ==>
             Place(cfg, children, g, parts[1..]) == Place(cfg, children, Step(cfg, children, g, parts[1]).value, []);
    assert [FirstPlaced(child, imageoffset)] + [SecondPlaced(k)] == [FirstPlaced(child, imageoffset), SecondPlaced(k)];
  }

  // ------------------------------------------------- the output

  lemma SecondWrites(child: Child, imageoffset: nat, k: nat, b: byte)
    ensures var p, children := SecondPlaced(k), TwoImages(child, b);
            && Copies(children, p, 0) && !Covered(children["b"].holes, 0)
            && p.offset == 8 + k && p.imageoffset == 0 && p.image == Some("b")
            && children["b"].file.Valid() && children["b"].file.fiemap != Failed && At(children["b"].file.data, 0) == b
  {
  }

  // The byte that is written later is the one in the output.
  lemma LastByteWins(child: Child, imageoffset: nat, k: nat, b: byte)
    requires Given(child, imageoffset) && k < child.size - imageoffset && Covered(child.holes, k)
    ensures var l := Setup(Tableless(), TwoImages(child, b), Pieces(imageoffset, k));
            l.Some? && 8 + k < |Output(TwoImages(child, b), l.value)| && Output(TwoImages(child, b), l.value)[8 + k] == b
  {
    BothPlaced(child, imageoffset, k, b);
    SecondWrites(child, imageoffset, k, b);
    hide Setup, Output, Accepted, Covered, Copies, SecondPlaced, FirstPlaced, Source.Valid;
    var l := Setup(Tableless(), TwoImages(child, b), Pieces(imageoffset, k)).value;
    ContentIsKept(Tableless(), TwoImages(child, b), Pieces(imageoffset, k), l, 1, 0);
  }

  lemma FirstWrites(child: Child, imageoffset: nat, b: byte)
    requires Given(child, imageoffset)
    ensures var p, children := FirstPlaced(child, imageoffset), TwoImages(child, b);
            p.offset == 8 && p.imageoffset == imageoffset && p.image == Some("a") && "a" in children && children["a"] == child
  {
  }

  // ------------------------------------------------- when every byte is safe

  // What is a hole of the partition is one of the file.
  ghost predicate Shifts(child: Child, imageoffset: nat) {
    forall k | 0 <= k < child.size - imageoffset && Covered(child.holes, k) :: Covered(child.holes, imageoffset + k)
  }

  // Partition i of a layout takes its bytes from this image, from the `imageoffset` on.
  ghost predicate Takes(children: Children, l: Layout, i: nat, child: Child, imageoffset: nat) {
    && i < |l.parts| && l.parts[i].imageoffset == imageoffset
    && l.parts[i].image.Some? && l.parts[i].image.value in children && children[l.parts[i].image.value] == child
  }

  // Byte k of a partition is in the output as the image has it, unless it is a hole of the image.
  ghost predicate Survives(children: Children, l: Layout, i: nat, child: Child, k: nat)
    requires i < |l.parts|
  {
    var p, o := l.parts[i], Output(children, l);
    !Covered(child.holes, p.imageoffset + k) ==>
      p.offset + k < |o| && o[p.offset + k] == At(child.file.data, p.imageoffset + k)
  }

  // In every layout that setup accepts, all bytes survive.
  ghost predicate Safe(child: Child, imageoffset: nat) {
    forall options: Config, children: Children, parts: seq<Part>, l: Layout, i: nat, k: nat ::
      Accepted(options, children, parts, l) && Takes(children, l, i, child, imageoffset) && k < child.size - imageoffset
      ==> Survives(children, l, i, child, k)
  }

  // The byte is copied, and the partition has its holes where the file has them.
  lemma TakenByte(options: Config, children: Children, parts: seq<Part>, l: Layout, i: nat,
                  child: Child, imageoffset: nat, k: nat)
    requires Given(child, imageoffset)
    requires Accepted(options, children, parts, l) && Takes(children, l, i, child, imageoffset) && k < child.size - imageoffset
    ensures Copies(children, l.parts[i], k)
  {
    hide Accepted, Source.Valid;
    PartFacts(options, children, parts, l, i);
  }

  lemma ShiftedSurvives(options: Config, children: Children, parts: seq<Part>, l: Layout, i: nat,
                        child: Child, imageoffset: nat, k: nat)
    requires Given(child, imageoffset) && Shifts(child, imageoffset)
    requires Accepted(options, children, parts, l) && Takes(children, l, i, child, imageoffset) && k < child.size - imageoffset
    ensures Survives(children, l, i, child, k)
  {
    hide Setup, Output, Accepted, Covered, Copies, Source.Valid;
    TakenByte(options, children, parts, l, i, child, imageoffset, k);
    if !Covered(child.holes, imageoffset + k) {
      assert !Covered(child.holes, k);
      ContentIsKept(options, children, parts, l, i, k);
    }
  }

  lemma LostByte(child: Child, imageoffset: nat, k: nat, b: byte)
    requires Given(child, imageoffset) && k < child.size - imageoffset
    requires Covered(child.holes, k) && !Covered(child.holes, imageoffset + k) && b != At(child.file.data, imageoffset + k)
    ensures var children, parts := TwoImages(child, b), Pieces(imageoffset, k);
            var l := Setup(Tableless(), children, parts);
            && l.Some? && Accepted(Tableless(), children, parts, l.value)
            && Takes(children, l.value, 0, child, imageoffset) && !Survives(children, l.value, 0, child, k)
  {
    hide Setup, Output, Covered, Source.Valid, Accepted, FirstPlaced, SecondPlaced, TwoImages, Pieces;
    BothPlaced(child, imageoffset, k, b);
    FirstWrites(child, imageoffset, b);
    LastByteWins(child, imageoffset, k, b);
  }

  lemma ShiftsWhen(child: Child, imageoffset: nat)
    ensures imageoffset == 0 || child.holes == [] ==> Shifts(child, imageoffset)
  {
  }

  // No byte of an image outside of its holes is lost in any layout if and only if
  // its holes, moved by the `imageoffset`, are holes again: always without an
  // `imageoffset`, or without holes.
  lemma SafeIff(child: Child, imageoffset: nat)
    requires Given(child, imageoffset)
    ensures Shifts(child, imageoffset) <==> Safe(child, imageoffset)
    ensures imageoffset == 0 || child.holes == [] ==> Safe(child, imageoffset)
  {
    ShiftsWhen(child, imageoffset);
    hide Survives, Covered, Source.Valid, Setup, Accepted;
    if Shifts(child, imageoffset) {
      forall options: Config, children: Children, parts: seq<Part>, l: Layout, i: nat, k: nat |
        Accepted(options, children, parts, l) && Takes(children, l, i, child, imageoffset) && k < child.size - imageoffset
        ensures Survives(children, l, i, child, k)
      {
        ShiftedSurvives(options, children, parts, l, i, child, imageoffset, k);
      }
    } else {
      var k :| 0 <= k < child.size - imageoffset && Covered(child.holes, k) && !Covered(child.holes, imageoffset + k);
      LostByte(child, imageoffset, k, if At(child.file.data, imageoffset + k) == 0 then 1 else 0);
    }
  }

  // An image of three bytes whose first one is a hole, read from its second byte
  // on: that byte is lost to another image.
  lemma ShiftedHoleLosesData()
    ensures var child := Child(3, [Extent(0, 1)], Source([0, 7, 8], Unsupported));
            !Covered(child.holes, 1) && !Safe(child, 1)
  {
    var child := Child(3, [Extent(0, 1)], Source([0, 7, 8], Unsupported));
    assert child.holes[0].start <= 0 < child.holes[0].end;
    assert Covered(child.holes, 0) && !Covered(child.holes, 1 + 0);
    hide Safe;
    SafeIff(child, 1);
  }
}
