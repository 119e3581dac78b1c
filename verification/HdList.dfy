/**
  The list that `hdimage_setup` places, exactly: where `[Extended]` comes, which
  partitions are logical, the areas of the tables, and when the list is refused.
 */
module HdList {
  import opened Bytes
  import opened Model
  import opened HdLayout
  import opened HdOverlap
  import Uuid

  // The partitions of the table.
  function TableParts(parts: seq<Part>): seq<Part> {
    if parts == [] then []
    else (if parts[0].inTable then [parts[0]] else []) + TableParts(parts[1..])
  }

  // How many of the partitions are primary by force.
  function CountForced(parts: seq<Part>): nat {
    if parts == [] then 0 else (if parts[0].forcedPrimary then 1 else 0) + CountForced(parts[1..])
  }

  // The number of the entry that `[Extended]` takes, if any.
  function ExtendedEntry(cfg: Config, parts: seq<Part>): nat {
    if cfg.table != Mbr then 0
    else if cfg.extendedIndex != 0 then cfg.extendedIndex
    else if |TableParts(parts)| > 4 then 4
    else 0
  }

  lemma {:induction false} CountIsTable(parts: seq<Part>)
    ensures CountInTable(parts) == |TableParts(parts)|
    decreases |parts|
  {
    if parts == [] {
    } else {
      CountIsTable(parts[1..]);
    }
  }

  // ------------------------------------------------- one round

  // What one round of `setup_logical_partitions` decides about a partition of the table.
  datatype Outcome = Outcome(ok: bool, starts: bool, inside: bool, entries: nat)

  function SplitOutcome(cfg: Config, index: nat, p: Part, count: nat, entries: nat, inExtended: bool,
                        found: bool): Outcome {
    var starts := index == count + 1;
    var inside := (inExtended || starts) && !p.forcedPrimary;
    var entries' := entries + (if starts then 1 else 0) + (if inside then 0 else 1);
    var refused := if p.forcedPrimary then !(found || starts) else !inside && (found || starts);
    Outcome(!refused && entries' <= 4, starts, inside, entries')
  }

  // One round of `setup_logical_partitions` on the values.
  lemma SplitStep(cfg: Config, index: nat, parts: seq<Part>, count: nat, entries: nat, inExtended: bool, found: bool)
    requires parts != []
    ensures var p, all := parts[0], SplitLogical(cfg, index, parts, count, entries, inExtended, found);
            if !p.inTable then
              all == Prepend([p], SplitLogical(cfg, index, parts[1..], count, entries, inExtended, found))
            else
              var s := SplitOutcome(cfg, index, p, count, entries, inExtended, found);
              if !s.ok then all == None
              else all == Prepend((if s.starts then [ExtendedPartition(cfg, p)] else []) + [p.(logical := s.inside)],
                                  SplitLogical(cfg, index, parts[1..], count + 1, s.entries, s.inside, found || s.starts))
  {
  }

  // ------------------------------------------------- what is accepted

  // Forced primary partitions come last.
  ghost predicate ForcedLast(t: seq<Part>, from: int) {
    forall i, j | 0 <= i < j < |t| && from <= i && t[i].forcedPrimary :: t[j].forcedPrimary
  }

  // The same behind some partitions, with so many entries up to `[Extended]`.
  ghost predicate SplitsBehind(t: seq<Part>, k: int, entries: int) {
    && (forall i | 0 <= i < |t| && i < k - 1 :: !t[i].forcedPrimary)
    && ForcedLast(t, k - 1)
    && (k <= |t| ==> entries + CountForced(t) <= 4)
  }

  // With `[Extended]` as entry number k: none of those before it is primary by
  // force, those behind it are so at the end only, and there are four entries.
  ghost predicate Splits(t: seq<Part>, k: int) {
    SplitsBehind(t, k, k)
  }

  lemma ForcedLastCons(p: Part, rest: seq<Part>)
    ensures ForcedLast([p] + rest, 0) <==>
              ForcedLast(rest, 0) && (p.forcedPrimary ==> forall i | 0 <= i < |rest| :: rest[i].forcedPrimary)
  {
    var t := [p] + rest;
    if ForcedLast(t, 0) {
      forall i, j | 0 <= i < j < |rest| && rest[i].forcedPrimary
        ensures rest[j].forcedPrimary
      {
        assert t[i + 1] == rest[i] && t[j + 1] == rest[j];
      }
      if p.forcedPrimary {
        forall i | 0 <= i < |rest|
          ensures rest[i].forcedPrimary
        {
          assert t[0].forcedPrimary && t[i + 1] == rest[i];
        }
      }
    }
  }

  lemma {:induction false} AllForced(t: seq<Part>)
    ensures CountForced(t) <= |t|
    ensures (forall i | 0 <= i < |t| :: t[i].forcedPrimary) ==> CountForced(t) == |t|
    ensures (forall i | 0 <= i < |t| :: !t[i].forcedPrimary) ==> CountForced(t) == 0
    decreases |t|
  {
    if t == [] {
    } else {
      AllForced(t[1..]);
    }
  }

  // Once a forced primary partition has come, only such ones may follow.
  lemma {:induction false} ClosedSplits(cfg: Config, index: nat, t: seq<Part>, count: nat, entries: nat)
    requires index <= count && entries <= 4 && forall i | 0 <= i < |t| :: t[i].inTable
    ensures SplitLogical(cfg, index, t, count, entries, false, true).Some? <==>
              (forall i | 0 <= i < |t| :: t[i].forcedPrimary) && entries + |t| <= 4
    decreases |t|
  {
    hide ExtendedPartition;
    if t == [] {
    } else if t[0].forcedPrimary && entries < 4 {
      ClosedSplits(cfg, index, t[1..], count + 1, entries + 1);
      assert t == [t[0]] + t[1..];
    }
  }

  lemma NoneForced()
    ensures ForcedLast([], 0)
  {
  }

  lemma ForcedAreLast(t: seq<Part>)
    ensures (forall i | 0 <= i < |t| :: t[i].forcedPrimary) ==> ForcedLast(t, 0)
  {
  }

  lemma {:induction false} OpenSplits(cfg: Config, index: nat, t: seq<Part>, count: nat, entries: nat)
    requires index <= count && entries <= 4 && forall i | 0 <= i < |t| :: t[i].inTable
    ensures SplitLogical(cfg, index, t, count, entries, true, true).Some? <==>
              ForcedLast(t, 0) && entries + CountForced(t) <= 4
    decreases |t|
  {
    hide ExtendedPartition, ForcedLast;
    if t == [] {
      NoneForced();
    } else {
      var rest := t[1..];
      assert t == [t[0]] + rest;
      ForcedLastCons(t[0], rest);
      AllForced(rest);
      if !t[0].forcedPrimary {
        OpenSplits(cfg, index, rest, count + 1, entries);
      } else if entries < 4 {
        ClosedSplits(cfg, index, rest, count + 1, entries + 1);
        ForcedAreLast(rest);
      }
    }
  }

  lemma SplitsCons(p: Part, rest: seq<Part>, k: int, entries: int)
    requires k > 1
    ensures SplitsBehind([p] + rest, k, entries) <==> !p.forcedPrimary && SplitsBehind(rest, k - 1, entries)
  {
    var t := [p] + rest;
    assert t[1..] == rest && forall i | 0 <= i < |rest| :: t[i + 1] == rest[i];
    if SplitsBehind(t, k, entries) {
      forall i, j | 0 <= i < j < |rest| && k - 2 <= i && rest[i].forcedPrimary
        ensures rest[j].forcedPrimary
      {
        assert t[i + 1].forcedPrimary && t[j + 1] == rest[j];
      }
      assert !t[0].forcedPrimary;
    }
    if !p.forcedPrimary && SplitsBehind(rest, k - 1, entries) {
      forall i, j | 0 <= i < j < |t| && k - 1 <= i && t[i].forcedPrimary
        ensures t[j].forcedPrimary
      {
        assert rest[i - 1].forcedPrimary && t[j] == rest[j - 1];
      }
    }
  }

  // The first partition behind `[Extended]`
  lemma StartSplits(cfg: Config, index: nat, p: Part, rest: seq<Part>)
    requires 0 < index <= 4 && p.inTable && forall i | 0 <= i < |rest| :: rest[i].inTable
    ensures SplitsBehind([p] + rest, 1, index) <==>
              if p.forcedPrimary then index < 4 && SplitLogical(cfg, index, rest, index, index + 1, false, true).Some?
              else SplitLogical(cfg, index, rest, index, index, true, true).Some?
  {
    hide SplitLogical, ForcedLast;
    assert ([p] + rest)[1..] == rest;
    ForcedLastCons(p, rest);
    AllForced(rest);
    ForcedAreLast(rest);
    if p.forcedPrimary && index < 4 {
      ClosedSplits(cfg, index, rest, index, index + 1);
    } else if !p.forcedPrimary {
      OpenSplits(cfg, index, rest, index, index);
    }
  }

  lemma NothingSplits(cfg: Config, index: nat, count: nat, entries: nat, inExtended: bool, found: bool)
    ensures SplitLogical(cfg, index, [], count, entries, inExtended, found) == Some([])
    ensures count < index ==> SplitsBehind([], index - count, index)
    ensures TableParts([]) == []
  {
  }

  lemma {:induction false} TableSplits(cfg: Config, index: nat, t: seq<Part>, count: nat)
    requires count < index <= 4 && forall i | 0 <= i < |t| :: t[i].inTable
    ensures SplitLogical(cfg, index, t, count, count, false, false).Some? <==> SplitsBehind(t, index - count, index)
    decreases |t|
  {
    hide SplitLogical, SplitsBehind, ExtendedPartition;
    if t == [] {
      NothingSplits(cfg, index, count, count, false, false);
    } else {
      var rest := t[1..];
      assert t == [t[0]] + rest;
      SplitStep(cfg, index, t, count, count, false, false);
      if count + 1 == index {
        StartSplits(cfg, index, t[0], rest);
      } else {
        SplitsCons(t[0], rest, index - count, index);
        if !t[0].forcedPrimary {
          TableSplits(cfg, index, rest, count + 1);
        }
      }
    }
  }

  lemma {:induction false} TablePartsAre(parts: seq<Part>)
    ensures forall i | 0 <= i < |TableParts(parts)| :: TableParts(parts)[i].inTable
    decreases |parts|
  {
    if parts == [] {
    } else {
      TablePartsAre(parts[1..]);
    }
  }

  lemma TablePartsCons(p: Part, rest: seq<Part>)
    ensures TableParts([p] + rest) == (if p.inTable then [p] else []) + TableParts(rest)
    ensures !p.inTable ==> TableParts([p] + rest) == TableParts(rest)
  {
    assert ([p] + rest)[1..] == rest;
  }

  // Partitions outside of the table do not matter for that.
  lemma {:induction false} SplitsTable(cfg: Config, index: nat, parts: seq<Part>, count: nat, entries: nat,
                                       inExtended: bool, found: bool)
    ensures SplitLogical(cfg, index, parts, count, entries, inExtended, found).Some? <==>
            SplitLogical(cfg, index, TableParts(parts), count, entries, inExtended, found).Some?
    decreases |parts|
  {
    if parts == [] {
    } else {
      hide SplitLogical, TableParts, SplitOutcome, ExtendedPartition;
      var p, rest := parts[0], parts[1..];
      assert parts == [p] + rest;
      TablePartsCons(p, rest);
      SplitStep(cfg, index, parts, count, entries, inExtended, found);
      if !p.inTable {
        SplitsTable(cfg, index, rest, count, entries, inExtended, found);
      } else {
        var t := TableParts(parts);
        assert t[0] == p && t[1..] == TableParts(rest);
        SplitStep(cfg, index, t, count, entries, inExtended, found);
        var s := SplitOutcome(cfg, index, p, count, entries, inExtended, found);
        SplitsTable(cfg, index, rest, count + 1, s.entries, s.inside, found || s.starts);
      }
    }
  }

  // The partitions are divided if and only if they are in that order.
  lemma SplitsIff(cfg: Config, index: nat, parts: seq<Part>)
    requires 0 < index <= 4
    ensures SplitLogical(cfg, index, parts, 0, 0, false, false).Some? <==> Splits(TableParts(parts), index)
  {
    hide SplitLogical, SplitsBehind;
    TablePartsAre(parts);
    SplitsTable(cfg, index, parts, 0, 0, false, false);
    TableSplits(cfg, index, TableParts(parts), 0);
  }

  // ------------------------------------------------- what comes out

  // Behind `[Extended]`, a partition of the table is logical unless it is primary by force.
  function Marked(p: Part): Part {
    p.(logical := p.inTable && !p.forcedPrimary)
  }

  function Marks(parts: seq<Part>): (r: seq<Part>)
    ensures |r| == |parts| && forall i | 0 <= i < |parts| :: r[i] == Marked(parts[i])
  {
    if parts == [] then [] else [Marked(parts[0])] + Marks(parts[1..])
  }

  lemma PrependIs(front: seq<Part>, rest: Option<seq<Part>>)
    ensures Prepend(front, rest) == if rest.None? then None else Some(front + rest.value)
  {
  }

  // Behind `[Extended]`, every round adds one partition.
  lemma BehindStep(cfg: Config, index: nat, parts: seq<Part>, count: nat, entries: nat, inExtended: bool)
    requires Fresh(parts) && parts != [] && index <= count
    requires SplitLogical(cfg, index, parts, count, entries, inExtended, true).Some?
    ensures var p, rest, all := parts[0], parts[1..], SplitLogical(cfg, index, parts, count, entries, inExtended, true).value;
            var s := SplitOutcome(cfg, index, p, count, entries, inExtended, true);
            var more := if p.inTable then SplitLogical(cfg, index, rest, count + 1, s.entries, s.inside, true)
                        else SplitLogical(cfg, index, rest, count, entries, inExtended, true);
            more.Some? && all == [Marked(p)] + more.value
  {
    hide SplitLogical, ExtendedPartition, Prepend;
    var p, rest := parts[0], parts[1..];
    var s := SplitOutcome(cfg, index, p, count, entries, inExtended, true);
    var more := if p.inTable then SplitLogical(cfg, index, rest, count + 1, s.entries, s.inside, true)
                else SplitLogical(cfg, index, rest, count, entries, inExtended, true);
    SplitStep(cfg, index, parts, count, entries, inExtended, true);
    PrependIs([Marked(p)], more);
    assert [] + [p.(logical := s.inside)] == [p.(logical := s.inside)];
  }

  lemma {:induction false} SplitBehind(cfg: Config, index: nat, parts: seq<Part>, count: nat, entries: nat,
                                       inExtended: bool)
    requires Fresh(parts) && index <= count
    requires SplitLogical(cfg, index, parts, count, entries, inExtended, true).Some?
    ensures SplitLogical(cfg, index, parts, count, entries, inExtended, true).value == Marks(parts)
    decreases |parts|
  {
    hide SplitLogical, ExtendedPartition, SplitOutcome, Marked;
    if parts == [] {
      NothingSplits(cfg, index, count, entries, inExtended, true);
    } else {
      BehindStep(cfg, index, parts, count, entries, inExtended);
      var s := SplitOutcome(cfg, index, parts[0], count, entries, inExtended, true);
      if parts[0].inTable {
        SplitBehind(cfg, index, parts[1..], count + 1, s.entries, s.inside);
      } else {
        SplitBehind(cfg, index, parts[1..], count, entries, inExtended);
      }
    }
  }

  // The list with `[Extended]` before partition number e.
  function Divide(cfg: Config, parts: seq<Part>, e: nat): seq<Part>
    requires e < |parts|
  {
    parts[..e] + [ExtendedPartition(cfg, parts[e])] + Marks(parts[e..])
  }

  // Partition number e is entry number k of the table.
  predicate IsEntry(parts: seq<Part>, e: nat, k: int) {
    e < |parts| && parts[e].inTable && |TableParts(parts[..e])| == k - 1
  }

  lemma EntryCons(p: Part, rest: seq<Part>, e: nat, k: int)
    requires IsEntry(rest, e, if p.inTable then k - 1 else k)
    ensures IsEntry([p] + rest, e + 1, k)
  {
    assert ([p] + rest)[..e + 1] == [p] + rest[..e];
    assert ([p] + rest[..e])[1..] == rest[..e];
  }

  lemma DivideCons(cfg: Config, p: Part, rest: seq<Part>, e: nat)
    requires e < |rest|
    ensures Divide(cfg, [p] + rest, e + 1) == [p] + Divide(cfg, rest, e)
  {
    hide ExtendedPartition, Marks;
    var parts := [p] + rest;
    assert parts[..e + 1] == [p] + rest[..e] && parts[e + 1..] == rest[e..];
  }

  lemma OutcomeBefore(cfg: Config, index: nat, p: Part, count: nat, entries: nat)
    requires count < index
    ensures var s := SplitOutcome(cfg, index, p, count, entries, false, false);
            if count + 1 == index
            then s.starts && s.inside == !p.forcedPrimary && s.entries == entries + 1 + (if p.forcedPrimary then 1 else 0)
            else !s.starts && !s.inside && s.entries == entries + 1
  {
  }

  // The result, behind some partitions.
  ghost predicate DividedAt(cfg: Config, parts: seq<Part>, k: int, e: nat, s: seq<Part>) {
    if |TableParts(parts)| < k then s == parts else IsEntry(parts, e, k) && s == Divide(cfg, parts, e)
  }

  lemma EntryIsIn(parts: seq<Part>, e: nat, k: int)
    requires IsEntry(parts, e, k)
    ensures e < |parts|
  {
  }

  lemma DividedCons(cfg: Config, p: Part, rest: seq<Part>, k: int, e: nat, s: seq<Part>)
    requires DividedAt(cfg, rest, if p.inTable then k - 1 else k, e, s)
    ensures DividedAt(cfg, [p] + rest, k, if |TableParts([p] + rest)| < k then e else e + 1, [p] + s)
  {
    hide TableParts, Divide, IsEntry;
    TablePartsCons(p, rest);
    if |TableParts([p] + rest)| >= k {
      EntryIsIn(rest, e, if p.inTable then k - 1 else k);
      EntryCons(p, rest, e, k);
      DivideCons(cfg, p, rest, e);
    }
  }

  lemma MarksCons(p: Part, rest: seq<Part>)
    ensures Marks([p] + rest) == [Marked(p)] + Marks(rest)
  {
    assert ([p] + rest)[1..] == rest;
  }

  lemma FirstEntry(cfg: Config, parts: seq<Part>)
    requires parts != [] && parts[0].inTable
    ensures IsEntry(parts, 0, 1)
    ensures Divide(cfg, parts, 0) == [ExtendedPartition(cfg, parts[0])] + Marks(parts)
  {
    assert parts[0..] == parts && parts[..0] == [];
  }

  lemma DividedFirst(cfg: Config, index: nat, parts: seq<Part>, count: nat, entries: nat)
    requires Fresh(parts) && parts != [] && parts[0].inTable && count + 1 == index
    requires SplitLogical(cfg, index, parts, count, entries, false, false).Some?
    ensures DividedAt(cfg, parts, 1, 0, SplitLogical(cfg, index, parts, count, entries, false, false).value)
  {
    hide SplitLogical, ExtendedPartition, Divide, IsEntry, TableParts, SplitOutcome, Marks, Prepend;
    var p, rest := parts[0], parts[1..];
    assert parts == [p] + rest;
    TablePartsCons(p, rest);
    SplitStep(cfg, index, parts, count, entries, false, false);
    OutcomeBefore(cfg, index, p, count, entries);
    FirstEntry(cfg, parts);
    var entries' := entries + 1 + (if p.forcedPrimary then 1 else 0);
    var more := SplitLogical(cfg, index, rest, count + 1, entries', !p.forcedPrimary, true);
    var front := [ExtendedPartition(cfg, p)] + [p.(logical := !p.forcedPrimary)];
    PrependIs(front, more);
    SplitBehind(cfg, index, rest, count + 1, entries', !p.forcedPrimary);
    MarksCons(p, rest);
    assert front + Marks(rest) == [ExtendedPartition(cfg, p)] + Marks(parts);
  }

  lemma NothingDivided(cfg: Config, k: int)
    requires k > 0
    ensures DividedAt(cfg, [], k, 0, [])
  {
  }

  lemma {:induction false} SplitBefore(cfg: Config, index: nat, parts: seq<Part>, count: nat, entries: nat)
    returns (e: nat)
    requires Fresh(parts) && count < index && SplitLogical(cfg, index, parts, count, entries, false, false).Some?
    ensures DividedAt(cfg, parts, index - count, e, SplitLogical(cfg, index, parts, count, entries, false, false).value)
    decreases |parts|
  {
    hide SplitLogical, ExtendedPartition, DividedAt, SplitOutcome;
    e := 0;
    if parts == [] {
      NothingSplits(cfg, index, count, entries, false, false);
      NothingDivided(cfg, index - count);
    } else if parts[0].inTable && count + 1 == index {
      DividedFirst(cfg, index, parts, count, entries);
    } else {
      var p, rest := parts[0], parts[1..];
      assert parts == [p] + rest && p == p.(logical := false);
      SplitStep(cfg, index, parts, count, entries, false, false);
      OutcomeBefore(cfg, index, p, count, entries);
      e := SplitBefore(cfg, index, rest, if p.inTable then count + 1 else count, if p.inTable then entries + 1 else entries);
      var s := SplitLogical(cfg, index, rest, if p.inTable then count + 1 else count,
                            if p.inTable then entries + 1 else entries, false, false).value;
      DividedCons(cfg, p, rest, index - count, e, s);
      e := if |TableParts(parts)| < index - count then e else e + 1;
      assert [] + [p] == [p];
    }
  }

  // ------------------------------------------------- the whole list

  lemma NoTableParts()
    ensures TableParts([]) == []
  {
  }

  lemma {:induction false} TablePartsConcat(a: seq<Part>, b: seq<Part>)
    ensures TableParts(a + b) == TableParts(a) + TableParts(b)
    decreases |a|
  {
    hide TableParts;
    if a == [] {
      assert a + b == b;
      NoTableParts();
    } else {
      var rest := a[1..];
      assert a == [a[0]] + rest && a + b == [a[0]] + (rest + b);
      TablePartsCons(a[0], rest);
      TablePartsCons(a[0], rest + b);
      TablePartsConcat(rest, b);
    }
  }

  lemma LaterEntry(parts: seq<Part>, d: nat, e: nat)
    requires d < e < |parts| && parts[d].inTable
    ensures |TableParts(parts[..d])| < |TableParts(parts[..e])|
  {
    var mid := parts[d + 1..e];
    assert parts[..e] == parts[..d] + ([parts[d]] + mid);
    TablePartsConcat(parts[..d], [parts[d]] + mid);
    TablePartsCons(parts[d], mid);
  }

  // Only one partition is entry number k.
  lemma OneIsEntry(parts: seq<Part>, d: nat, e: nat, k: int)
    requires IsEntry(parts, d, k) && IsEntry(parts, e, k)
    ensures d == e
  {
    if d < e {
      LaterEntry(parts, d, e);
    } else if e < d {
      LaterEntry(parts, e, d);
    }
  }

  // `[Extended]`: its offset leaves the image alignment for the boot record of
  // its first partition, if that has an explicit offset; its size is found later.
  function Container(cfg: Config, first: Part): Part {
    var offset := if first.offset == 0 then 0
                  else if first.offset >= cfg.align then first.offset - cfg.align
                  else 0x1_0000_0000_0000_0000 + first.offset - cfg.align % 0x1_0000_0000_0000_0000;
    Part("[Extended]", Kind.Extended, Flags(false, false, false, false), 0x0f, false, false, false, None, 0, false,
         offset, 0, cfg.align, false, true, None, None)
  }

  function Area(name: string, kind: Kind, offset: nat, size: nat): Part {
    Part(name, kind, Flags(false, false, false, false), 0, false, false, false, None, 0, false,
         offset, size, 1, false, false, None, None)
  }

  function GptAreas(cfg: Config): seq<Part> {
    var backup := 128 * 128 + 512;
    var offset := if cfg.imageSize == 0 then 0
                  else if cfg.imageSize >= backup then cfg.imageSize - backup
                  else 0x1_0000_0000_0000_0000 + cfg.imageSize - backup;
    [Area("[MBR]", Fake, 440, 72), Area("[GPT header]", Fake, 512, 512),
     Area("[GPT array]", Fake, cfg.gptLocation, 128 * 128), Area("[GPT backup]", Backup, offset, backup)]
  }

  // The areas of the tables: the end of the first sector, and with a GPT the
  // second sector, the array of 128 entries, and the same again at the end.
  function Areas(cfg: Config): seq<Part> {
    match cfg.table
    case NoTable => []
    case Mbr => [Area("[MBR]", Fake, 440, 72)]
    case Gpt => GptAreas(cfg)
    case Hybrid => GptAreas(cfg)
  }

  lemma AreasAreTables(cfg: Config)
    ensures TableAreas(cfg) == Areas(cfg)
  {
  }

  lemma ContainerIs(cfg: Config, first: Part)
    ensures ExtendedPartition(cfg, first) == Container(cfg, first)
  {
  }

  // The list with `[Extended]` before partition number e, if that is entry number k.
  ghost predicate DividesAt(cfg: Config, parts: seq<Part>, k: nat, e: nat, todo: seq<Part>) {
    && IsEntry(parts, e, k)
    && todo == parts[..e] + [Container(cfg, parts[e])] + Marks(parts[e..]) + Areas(cfg)
  }

  // todo is what `hdimage_setup` makes of the configured partitions: those of the
  // table behind `[Extended]` are logical unless they are primary by force.
  ghost predicate ListsAs(cfg: Config, parts: seq<Part>, todo: seq<Part>) {
    var k := ExtendedEntry(cfg, parts);
    && cfg.extendedIndex <= 4
    && (cfg.table != NoTable ==> cfg.align % 512 == 0)
    && (cfg.diskUuid.Some? ==> (cfg.table == Gpt || cfg.table == Hybrid) && Uuid.Valid(cfg.diskUuid.value))
    && (cfg.signature.Given? ==> cfg.table == Mbr || cfg.table == Hybrid)
    && (k > 0 ==> Splits(TableParts(parts), k))
    && if k == 0 || |TableParts(parts)| < k then todo == parts + Areas(cfg)
       else exists e: nat :: DividesAt(cfg, parts, k, e, todo)
  }

  lemma EntryIsIndex(cfg: Config, parts: seq<Part>)
    requires cfg.table == Mbr
    ensures ExtendedIndex(cfg, parts) == ExtendedEntry(cfg, parts)
  {
    hide TableParts, CountInTable;
    CountIsTable(parts);
  }

  lemma DividesIs(cfg: Config, parts: seq<Part>, k: nat, e: nat, todo: seq<Part>)
    requires IsEntry(parts, e, k)
    ensures e < |parts| && (DividesAt(cfg, parts, k, e, todo) <==> todo == Divide(cfg, parts, e) + Areas(cfg))
  {
    hide Container, ExtendedPartition, Areas, Marks;
    ContainerIs(cfg, parts[e]);
  }

  lemma DividesEntry(cfg: Config, parts: seq<Part>, k: nat, d: nat, todo: seq<Part>)
    requires DividesAt(cfg, parts, k, d, todo)
    ensures IsEntry(parts, d, k)
  {
  }

  lemma EntryIsSmall(cfg: Config, parts: seq<Part>)
    requires cfg.extendedIndex <= 4
    ensures ExtendedEntry(cfg, parts) <= 4
  {
  }

  lemma NoEntry(cfg: Config, parts: seq<Part>)
    ensures cfg.table != Mbr ==> ExtendedEntry(cfg, parts) == 0
  {
  }

  lemma ListedIff(cfg: Config, parts: seq<Part>, todo: seq<Part>)
    requires Fresh(parts)
    ensures Listed(cfg, parts) == Some(todo) <==> ListsAs(cfg, parts, todo)
  {
    hide SplitLogical, Splits, TableParts, Areas, TableAreas, IsEntry, Divide, DividesAt, ExtendedIndex;
    hide ExtendedEntry, Fresh;
    AreasAreTables(cfg);
    if cfg.extendedIndex <= 4 && cfg.table == Mbr {
      EntryIsIndex(cfg, parts);
      var k := ExtendedEntry(cfg, parts);
      EntryIsSmall(cfg, parts);
      if k > 0 {
        SplitsIff(cfg, k, parts);
        if Splits(TableParts(parts), k) {
          var e := SplitBefore(cfg, k, parts, 0, 0);
          if |TableParts(parts)| >= k {
            DividesIs(cfg, parts, k, e, todo);
            forall d: nat | DividesAt(cfg, parts, k, d, todo)
              ensures d == e
            {
              DividesEntry(cfg, parts, k, d, todo);
              OneIsEntry(parts, d, e, k);
            }
          }
        }
      }
    } else {
      NoEntry(cfg, parts);
    }
  }
}
