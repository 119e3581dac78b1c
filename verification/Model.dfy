/**
  The structures of `genimage.h` that the layout code works on.
 */
module Model {
  import opened Bytes
  import opened Files

  // A partition of the configuration, or one of those that the code for hard
  // disk images adds: these stand for the pointer comparisons with
  // `hd->extended_partition` and `gpt_backup`.
  datatype Kind = Configured | Extended | Fake | Backup

  // The options that are only copied into table entries.
  datatype Flags = Flags(bootable: bool, readOnly: bool, hidden: bool, noAutomount: bool)

  // The value of a `struct partition`.
  datatype Part = Part(
    name: string,
    kind: Kind,
    flags: Flags,
    partitionType: Uchar,
    forcedPrimary: bool,
    fill: bool,
    sparse: bool,
    image: Option<string>,
    imageoffset: nat,
    autoresize: bool,
    offset: nat,
    size: nat,
    align: nat,
    logical: bool,
    inTable: bool,
    typeUuid: Option<string>,
    uuid: Option<string>)
  {
    // `partition_end`
    function End(): nat {
      offset + size
    }
  }

  // `struct partition`: the handlers assign to the last seven fields.
  class Partition {
    const name: string
    const kind: Kind
    const flags: Flags
    const partitionType: Uchar
    const forcedPrimary: bool
    const fill: bool
    const sparse: bool
    const image: Option<string>
    const imageoffset: nat
    const autoresize: bool
    var offset: nat
    var size: nat
    var align: nat
    var logical: bool
    var inTable: bool
    var typeUuid: Option<string>
    var uuid: Option<string>

    constructor (p: Part)
      ensures Value() == p
    {
      name, kind, flags, partitionType := p.name, p.kind, p.flags, p.partitionType;
      forcedPrimary, fill, sparse := p.forcedPrimary, p.fill, p.sparse;
      image, imageoffset, autoresize := p.image, p.imageoffset, p.autoresize;
      offset, size, align := p.offset, p.size, p.align;
      logical, inTable, typeUuid, uuid := p.logical, p.inTable, p.typeUuid, p.uuid;
    }

    function Value(): Part
      reads this
    {
      Part(name, kind, flags, partitionType, forcedPrimary, fill, sparse, image, imageoffset, autoresize,
           offset, size, align, logical, inTable, typeUuid, uuid)
    }
  }

  ghost function Values(list: seq<Partition>): (r: seq<Part>)
    reads list
    ensures |r| == |list|
    ensures forall i | 0 <= i < |list| :: r[i] == list[i].Value()
  {
    seq(|list|, i requires 0 <= i < |list| reads list => list[i].Value())
  }

  ghost predicate Distinct(list: seq<Partition>) {
    forall i, j | 0 <= i < j < |list| :: list[i] != list[j]
  }

  lemma NotBefore(list: seq<Partition>, j: nat)
    requires Distinct(list) && j < |list|
    ensures list[j] !in list[..j] && forall k | j < k < |list| :: list[k] != list[j]
  {
  }

  lemma ValuesAppend(list: seq<Partition>, p: Partition)
    ensures Values(list + [p]) == Values(list) + [p.Value()]
  {
  }

  // What becomes of the rest of a list, behind what is done.
  function Prepend(done: seq<Part>, rest: Option<seq<Part>>): Option<seq<Part>> {
    if rest.None? then None else Some(done + rest.value)
  }

  lemma PrependNothing(rest: Option<seq<Part>>)
    ensures Prepend([], rest) == rest
  {
    if rest.Some? {
      assert [] + rest.value == rest.value;
    }
  }

  lemma PrependMore(done: seq<Part>, more: seq<Part>, rest: Option<seq<Part>>)
    ensures Prepend(done, Prepend(more, rest)) == Prepend(done + more, rest)
    ensures Prepend(done, None) == None
  {
    if rest.Some? {
      assert done + (more + rest.value) == done + more + rest.value;
    }
  }

  // What the layout code needs of another image: the size its handler found,
  // its declared holes, and the file itself.
  datatype Child = Child(size: nat, holes: seq<Extent>, file: Source)

  // `image_get` on the images that a partition can refer to.
  type Children = map<string, Child>

  // Two regions of the output without a common byte.
  predicate Apart(a: int, aEnd: int, b: int, bEnd: int) {
    aEnd <= b || bEnd <= a
  }
}
