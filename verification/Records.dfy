/**
  The on-disk records that `image-hd.c` fills in: little-endian numbers,
  entries of the MBR and of extended boot records, the GPT header and the
  entries of the GPT array. The records are stated as the bytes of the packed
  structures on a little-endian machine.
 */
module Records {
  import opened Bytes

  // ------------------------------------------------- numbers

  function Pow256(k: nat): nat {
    if k == 0 then 1 else 256 * Pow256(k - 1)
  }

  // The k low bytes of n, lowest first.
  function Le(n: nat, k: nat): (r: seq<byte>)
    ensures |r| == k
    decreases k
  {
    if k == 0 then [] else [(n % 256) as byte] + Le(n / 256, k - 1)
  }

  function Num(s: seq<byte>): nat {
    if s == [] then 0 else s[0] as nat + 256 * Num(s[1..])
  }

  lemma {:induction false} NumOfLe(n: nat, k: nat)
    requires n < Pow256(k)
    ensures Num(Le(n, k)) == n
    decreases k
  {
    if k == 0 {
    } else {
      assert n / 256 < Pow256(k - 1);
      NumOfLe(n / 256, k - 1);
      assert Le(n, k)[1..] == Le(n / 256, k - 1);
    }
  }

  lemma Pow256Values()
    ensures Pow256(2) == 0x1_0000
    ensures Pow256(4) == 0x1_0000_0000
    ensures Pow256(8) == 0x1_0000_0000_0000_0000
  {
    assert Pow256(1) == 256;
    assert Pow256(3) == 256 * Pow256(2);
    assert Pow256(5) == 256 * Pow256(4);
    assert Pow256(6) == 256 * Pow256(5);
    assert Pow256(7) == 256 * Pow256(6);
  }

  // Conversion to `uint32_t` and `uint64_t`.
  function U32(n: int): nat {
    n % 0x1_0000_0000
  }

  function U64(n: int): nat {
    n % 0x1_0000_0000_0000_0000
  }

  // Numbers that fit are read back as they were.
  lemma Num32(n: nat)
    ensures Num(Le(U32(n), 4)) == U32(n)
  {
    Pow256Values();
    NumOfLe(U32(n), 4);
  }

  lemma Num64(n: nat)
    ensures Num(Le(U64(n), 8)) == U64(n)
  {
    Pow256Values();
    NumOfLe(U64(n), 8);
  }

  // ------------------------------------------------- cylinder, head, sector

  const HEADS: nat := 255
  const TRACK: nat := 63

  // `lba_to_chs`
  function LbaToChs(lba: nat): (r: seq<byte>)
    ensures |r| == 3
  {
    var c := lba / (TRACK * HEADS);
    var s := if lba > 0 then lba % TRACK + 1 else 0;
    [(lba / TRACK % HEADS) as byte, (c / 256 % 4 * 64 + s) as byte, (c % 256) as byte]
  }

  // A sector address as a BIOS understands it: head, then the low six bits of
  // the second byte, then ten bits of the cylinder.
  function ChsToLba(chs: seq<byte>): int
    requires |chs| == 3
  {
    var h, s := chs[0] as int, chs[1] as int % 64;
    var c := chs[1] as int / 64 * 256 + chs[2] as int;
    (c * 255 + h) * 63 + s - 1
  }

  lemma CylinderIs(lba: nat)
    ensures var t, c := lba / 63, lba / 16065; t / 255 == c && lba == (c * 255 + t % 255) * 63 + lba % 63
  {
  }

  lemma TenBits(c: nat)
    ensures var d := c % 1024;
            && c / 256 % 4 == d / 256 <= 3 && c % 256 == d % 256 && d == d / 256 * 256 + d % 256
            && c == 1024 * (c / 1024) + d
  {
  }

  lemma SectorByte(high: nat, s: nat)
    requires high <= 3 && s < 64
    ensures (high * 64 + s) / 64 == high && (high * 64 + s) % 64 == s
  {
  }

  lemma BelowCylinders(lba: nat, q: nat, d: nat, h: nat, s: nat)
    requires d < 1024 && h < 255 && s < 63 && lba == ((1024 * q + d) * 255 + h) * 63 + s
    ensures (d * 255 + h) * 63 + s == lba % 16450560
  {
  }

  // Addresses survive, modulo the sectors of 1024 cylinders; sector 0 has no address.
  lemma ChsRoundTrip(lba: nat)
    ensures lba == 0 ==> LbaToChs(lba) == [0, 0, 0]
    ensures lba > 0 ==> ChsToLba(LbaToChs(lba)) == lba % 16450560
    ensures lba > 0 ==> LbaToChs(lba)[0] < 255 && 1 <= LbaToChs(lba)[1] % 64
  {
    if lba > 0 {
      var t, c, s := lba / 63, lba / 16065, lba % 63 + 1;
      var d := c % 1024;
      CylinderIs(lba);
      TenBits(c);
      SectorByte(d / 256, s);
      BelowCylinders(lba, c / 1024, d, t % 255, lba % 63);
      var b := LbaToChs(lba);
      assert b[0] as int == t % 255 && b[1] as int == d / 256 * 64 + s && b[2] as int == d % 256;
    }
  }

  // ------------------------------------------------- entries of an MBR

  // `struct mbr_partition_entry`, with the sector from which the addresses count.
  datatype MbrEntry = MbrEntry(bootable: bool, partitionType: Uchar, start: int, sectors: int, base: int)

  function EntryBytes(e: MbrEntry): (r: seq<byte>)
    ensures |r| == 16
  {
    var start, sectors := U32(e.start), U32(e.sectors);
    [if e.bootable then 0x80 else 0x00]
    + LbaToChs(U32(start + e.base))
    + [e.partitionType as byte]
    + LbaToChs(U32(start + sectors - 1 + e.base))
    + Le(start, 4) + Le(sectors, 4)
  }

  // The four entries of a table, the unused ones zero.
  function TableBytes(entries: seq<MbrEntry>, slots: nat): (r: seq<byte>)
    ensures |r| == 16 * slots
    decreases slots
  {
    if slots == 0 then []
    else if entries == [] then Fill(16, 0) + TableBytes([], slots - 1)
    else EntryBytes(entries[0]) + TableBytes(entries[1..], slots - 1)
  }

  // `struct mbr_tail`, which is at offset 440.
  function MbrBytes(signature: nat, entries: seq<MbrEntry>): (r: seq<byte>)
    ensures |r| == 72
  {
    Le(U32(signature), 4) + Fill(2, 0) + TableBytes(entries, 4) + [0x55, 0xaa]
  }

  // The table of an extended boot record, which is at offset 446 of its sector.
  function EbrBytes(entries: seq<MbrEntry>): (r: seq<byte>)
    ensures |r| == 66
  {
    TableBytes(entries, 4) + [0x55, 0xaa]
  }

  // What a reader makes of the 16 bytes of an entry; the addresses of the first
  // and of the last sector are in cylinder, head and sector.
  datatype Slot = Slot(partitionType: nat, start: nat, sectors: nat, active: nat, first: seq<byte>, last: seq<byte>)

  const EMPTY: Slot := Slot(0, 0, 0, 0, [0, 0, 0], [0, 0, 0])

  function ReadSlot(bytes: seq<byte>): Slot
    requires |bytes| == 16
  {
    Slot(bytes[4] as nat, Num(bytes[8..12]), Num(bytes[12..16]), bytes[0] as nat, bytes[1..4], bytes[5..8])
  }

  // The sectors that an entry addresses.
  function FirstSector(e: MbrEntry): nat {
    U32(U32(e.start) + e.base)
  }

  function LastSector(e: MbrEntry): nat {
    U32(U32(e.start) + U32(e.sectors) - 1 + e.base)
  }

  function SlotOf(e: MbrEntry): Slot {
    Slot(e.partitionType, U32(e.start), U32(e.sectors), if e.bootable then 0x80 else 0x00,
         LbaToChs(FirstSector(e)), LbaToChs(LastSector(e)))
  }

  lemma U32Twice(n: int)
    ensures U32(U32(n)) == U32(n)
  {
  }

  lemma SlotOfEntry(e: MbrEntry)
    ensures ReadSlot(EntryBytes(e)) == SlotOf(e)
  {
    hide LbaToChs, Le, Num, U32;
    var b := EntryBytes(e);
    Num32(U32(e.start));
    Num32(U32(e.sectors));
    U32Twice(e.start);
    U32Twice(e.sectors);
    assert b[1..4] == LbaToChs(FirstSector(e));
    assert b[5..8] == LbaToChs(LastSector(e));
    assert b[8..12] == Le(U32(e.start), 4);
    assert b[12..16] == Le(U32(e.sectors), 4);
  }

  lemma SlotOfNothing()
    ensures ReadSlot(Fill(16, 0)) == EMPTY
  {
    var z := Fill(16, 0);
    assert z[8..12] == Fill(4, 0) && z[12..16] == Fill(4, 0);
    assert z[1..4] == [0, 0, 0] && z[5..8] == [0, 0, 0];
    assert Fill(4, 0) == [0, 0, 0, 0];
    assert Num([0, 0, 0, 0]) == 256 * Num([0, 0, 0]) && Num([0, 0, 0]) == 256 * Num([0, 0]) && Num([0, 0]) == 256 * Num([0]);
  }

  // Three bytes that address a sector as far as they can: with ten bits for the
  // cylinder, and nothing for sector 0.
  predicate Addresses(chs: seq<byte>, lba: int) {
    && |chs| == 3 && (lba == 0 ==> chs == [0, 0, 0])
    && (lba > 0 ==> chs[0] < 255 && 1 <= chs[1] % 64 && ChsToLba(chs) == lba % 16450560)
  }

  lemma ChsAddresses(lba: nat)
    ensures Addresses(LbaToChs(lba), lba)
  {
    ChsRoundTrip(lba);
  }

  lemma BehindSlot(first: seq<byte>, rest: seq<byte>, i: nat)
    requires |first| == 16 && 0 < i && 16 * i <= |rest|
    ensures (first + rest)[16 * i..16 * i + 16] == rest[16 * (i - 1)..16 * (i - 1) + 16]
  {
  }

  // Slot number i of a table.
  lemma {:induction false} SlotOfTable(entries: seq<MbrEntry>, slots: nat, i: nat)
    requires i < slots
    ensures TableBytes(entries, slots)[16 * i..16 * i + 16] == if i < |entries| then EntryBytes(entries[i]) else Fill(16, 0)
    decreases slots
  {
    hide EntryBytes;
    var b := TableBytes(entries, slots);
    var first := if entries == [] then Fill(16, 0) else EntryBytes(entries[0]);
    var rest := if entries == [] then [] else entries[1..];
    assert b == first + TableBytes(rest, slots - 1);
    if i == 0 {
      assert b[0..16] == first;
    } else {
      SlotOfTable(rest, slots - 1, i - 1);
      BehindSlot(first, TableBytes(rest, slots - 1), i);
    }
  }

  // ------------------------------------------------- the GPT

  // `struct gpt_header` without its checksum
  datatype GptHeader = GptHeader(
    currentLba: nat, backupLba: nat, firstUsable: nat, lastUsable: nat,
    diskUuid: seq<byte>, startingLba: nat, tableCrc: nat)

  const GPT_SIGNATURE: seq<byte> := [0x45, 0x46, 0x49, 0x20, 0x50, 0x41, 0x52, 0x54]
  const GPT_REVISION: nat := 0x0001_0000
  const GPT_HEADER_SIZE: nat := 92
  const GPT_ENTRY_SIZE: nat := 128

  // The fields before the checksum.
  const GPT_HEAD: seq<byte> := GPT_SIGNATURE + Le(GPT_REVISION, 4) + Le(GPT_HEADER_SIZE, 4)

  // The fields behind the checksum.
  function HeaderTail(h: GptHeader): (r: seq<byte>)
    requires |h.diskUuid| == 16
    ensures |r| == 72
  {
    Le(0, 4)
    + Le(U64(h.currentLba), 8) + Le(U64(h.backupLba), 8) + Le(U64(h.firstUsable), 8) + Le(U64(h.lastUsable), 8)
    + h.diskUuid + Le(U64(h.startingLba), 8) + Le(128, 4) + Le(GPT_ENTRY_SIZE, 4) + Le(U32(h.tableCrc), 4)
  }

  // The header with a given value in its checksum field.
  function HeaderBytes(h: GptHeader, crc: nat): (r: seq<byte>)
    requires |h.diskUuid| == 16
    ensures |r| == GPT_HEADER_SIZE
  {
    GPT_HEAD + Le(U32(crc), 4) + HeaderTail(h)
  }

  // `struct gpt_partition_entry`
  datatype GptEntry = GptEntry(typeUuid: seq<byte>, uuid: seq<byte>, first: nat, last: nat, flags: nat, name: string)

  // `htole16` of a character: characters beyond ASCII are bytes with a sign.
  function NameUnit(c: char): nat {
    var v := c as int;
    if v < 0x80 then v else (0xff00 + v) % 0x1_0000
  }

  function NameBytes(name: string, units: nat): (r: seq<byte>)
    ensures |r| == 2 * units
    decreases units
  {
    if units == 0 then []
    else Le(if name == [] then 0 else NameUnit(name[0]), 2) + NameBytes(if name == [] then [] else name[1..], units - 1)
  }

  function GptEntryBytes(e: GptEntry): (r: seq<byte>)
    requires |e.typeUuid| == 16 && |e.uuid| == 16
    ensures |r| == GPT_ENTRY_SIZE
  {
    e.typeUuid + e.uuid + Le(U64(e.first), 8) + Le(U64(e.last), 8) + Le(U64(e.flags), 8) + NameBytes(e.name, 36)
  }
}
