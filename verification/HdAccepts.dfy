/**
  Whole runs of `hdimage_setup`: the layout that it leaves, in numbers, and the
  configurations that it accepts.
 */
module HdAccepts {
  import opened Bytes
  import opened Model
  import opened HdLayout
  import opened HdOverlap
  import opened HdShape
  import opened HdList
  import opened HdExact

  // ------------------------------------------------- the whole layout

  // How far a partition reaches on its own; `[Extended]` only has a beginning.
  function Reaches(r: Part): nat {
    if r.kind == Kind.Extended then r.offset else r.offset + r.size
  }

  // The end of everything among the first n partitions, and of the tables in front of them.
  function Ends(base: nat, parts: seq<Part>, n: nat): (r: nat)
    requires n <= |parts|
    ensures base <= r && forall i | 0 <= i < n :: Reaches(parts[i]) <= r
    ensures r == base || exists i | 0 <= i < n :: r == Reaches(parts[i])
    decreases n
  {
    if n == 0 then base else Max(Ends(base, parts, n - 1), Reaches(parts[n - 1]))
  }

  // r is where and as large as its options ask for, behind everything that ends at `now`.
  ghost predicate Lies(cfg: Config, children: Children, now: nat, p: Part, r: Part) {
    && r.align > 0 && Positions(cfg, now, p, r) && r.offset % r.align == 0
    && (r.logical ==> now + cfg.align <= r.offset)
    && (r.kind != Kind.Extended ==> Measures(cfg, children, false, p, r))
  }

  ghost predicate LastLogical(parts: seq<Part>, i: nat)
    requires i < |parts|
  {
    parts[i].logical && forall j | i < j < |parts| :: !parts[j].logical
  }

  // `[Extended]` ends with the last logical partition; without one it is empty.
  ghost predicate Encloses(parts: seq<Part>) {
    forall e | 0 <= e < |parts| && parts[e].kind == Kind.Extended ::
      && ((forall i | 0 <= i < |parts| :: !parts[i].logical) ==> parts[e].size == 0)
      && forall i | 0 <= i < |parts| && LastLogical(parts, i) :: parts[e].offset + parts[e].size == parts[i].offset + parts[i].size
  }

  // The file reaches to the end of the tables in front, or as far as a partition needs it.
  ghost predicate Suffices(cfg: Config, children: Children, base: nat, parts: seq<Part>, fileSize: nat) {
    && base <= fileSize && (forall i | 0 <= i < |parts| :: Needs(cfg, children, parts[i]) <= fileSize)
    && (fileSize == base || exists i | 0 <= i < |parts| :: fileSize == Needs(cfg, children, parts[i]))
  }

  // What is true of a layout that is placed up to some partition.
  ghost predicate Exact(cfg: Config, children: Children, base: nat, g: Progress) {
    && g.now == Ends(base, g.done, |g.done|)
    && Encloses(g.done)
    && Suffices(cfg, children, base, g.done, g.fileSize)
  }

  lemma EndsSame(base: nat, a: seq<Part>, b: seq<Part>, n: nat)
    requires n <= |a| && n <= |b| && forall i | 0 <= i < n :: Reaches(a[i]) == Reaches(b[i])
    ensures Ends(base, a, n) == Ends(base, b, n)
    decreases n
  {
    if n > 0 {
      EndsSame(base, a, b, n - 1);
    }
  }

  lemma FollowsKeeps(cfg: Config, children: Children, g: Progress, r: Part, g': Progress)
    requires Follows(cfg, children, g, r, g')
    ensures forall i | 0 <= i < |g.done| ::
              && Reaches(g'.done[i]) == Reaches(g.done[i]) && g'.done[i].logical == g.done[i].logical
              && g'.done[i].kind == g.done[i].kind && g'.done[i].offset == g.done[i].offset
              && Needs(cfg, children, g'.done[i]) == Needs(cfg, children, g.done[i])
              && (!r.logical ==> g'.done[i] == g.done[i])
  {
  }

  lemma StepKeepsEnds(cfg: Config, children: Children, base: nat, g: Progress, p: Part, r: Part, g': Progress)
    requires Ordinary(cfg, p) && Becomes(cfg, children, g, p, r) && Follows(cfg, children, g, r, g')
    requires g.now == Ends(base, g.done, |g.done|)
    ensures g'.now == Ends(base, g'.done, |g'.done|) && Ends(base, g'.done, |g.done|) == g.now
  {
    hide Identifies, Positions, Free, RoundedUp, Resizes, Needs;
    FollowsKeeps(cfg, children, g, r, g');
    EndsSame(base, g.done, g'.done, |g.done|);
  }

  lemma StepKeepsSize(cfg: Config, children: Children, base: nat, g: Progress, r: Part, g': Progress)
    requires Follows(cfg, children, g, r, g') && Suffices(cfg, children, base, g.done, g.fileSize)
    ensures Suffices(cfg, children, base, g'.done, g'.fileSize)
  {
    FollowsKeeps(cfg, children, g, r, g');
    hide Needs;
    if g.fileSize != base && g'.fileSize == g.fileSize {
      var i :| 0 <= i < |g.done| && g.fileSize == Needs(cfg, children, g.done[i]);
      assert g'.fileSize == Needs(cfg, children, g'.done[i]);
    } else if g'.fileSize != g.fileSize {
      assert g'.fileSize == Needs(cfg, children, g'.done[|g.done|]);
    }
  }

  lemma EnclosesMore(done: seq<Part>, r: Part)
    requires Encloses(done) && !r.logical
    requires r.kind == Kind.Extended ==> r.size == 0 && forall i | 0 <= i < |done| :: !done[i].logical
    ensures Encloses(done + [r])
  {
    var all, n := done + [r], |done|;
    forall i | 0 <= i < |all| && LastLogical(all, i)
      ensures i < n && LastLogical(done, i)
    {
      assert forall j | i < j < n :: all[j] == done[j];
    }
    if forall i | 0 <= i < |all| :: !all[i].logical {
      assert forall i | 0 <= i < n :: all[i] == done[i];
    }
  }

  lemma EnclosesLogical(all: seq<Part>)
    requires all != [] && all[|all| - 1].logical
    requires var r := all[|all| - 1];
             forall e | 0 <= e < |all| && all[e].kind == Kind.Extended :: all[e].offset + all[e].size == r.offset + r.size
    ensures Encloses(all)
  {
    forall i | 0 <= i < |all| && LastLogical(all, i)
      ensures i == |all| - 1
    {
    }
  }

  lemma StepKeepsEncloses(cfg: Config, children: Children, g: Progress, p: Part, r: Part, g': Progress)
    requires Ordinary(cfg, p) && Becomes(cfg, children, g, p, r) && Follows(cfg, children, g, r, g')
    requires Encloses(g.done) && forall i | 0 <= i < |g.done| :: Reaches(g.done[i]) <= g.now
    requires r.kind == Kind.Extended ==> forall i | 0 <= i < |g.done| :: !g.done[i].logical
    ensures Encloses(g'.done)
  {
    hide Identifies, Positions, RoundedUp, Resizes, Needs, Clear, Encloses;
    if !r.logical {
      assert g'.done == g.done + [r];
      EnclosesMore(g.done, r);
    } else {
      EnclosesLogical(g'.done);
    }
  }

  lemma BecomesLies(cfg: Config, children: Children, g: Progress, p: Part, r: Part)
    requires Becomes(cfg, children, g, p, r)
    ensures Lies(cfg, children, g.now, p, r) && r.kind == p.kind && r.logical == p.logical
  {
    hide Identifies, Positions, RoundedUp, Clear;
  }

  lemma StepIsExact(cfg: Config, children: Children, base: nat, g: Progress, p: Part) returns (r: Part)
    requires cfg.align > 0 && Step(cfg, children, g, p).Some? && Ordinary(cfg, p) && Exact(cfg, children, base, g)
    requires p.kind == Kind.Extended ==> forall i | 0 <= i < |g.done| :: !g.done[i].logical
    ensures var g' := Step(cfg, children, g, p).value;
            && Exact(cfg, children, base, g') && |g'.done| == |g.done| + 1 && g'.done[|g.done|] == r
            && Ends(base, g'.done, |g.done|) == g.now && Lies(cfg, children, g.now, p, r)
            && r.kind == p.kind && r.logical == p.logical
  {
    hide Step, Identifies, Positions, Measures, Clear, Encloses, Suffices, Ends, Follows, Ordinary, Becomes, Reaches;
    var start;
    r, start := StepIs(cfg, children, g, p);
    var g' := Step(cfg, children, g, p).value;
    StepIff(cfg, children, g, p, r, g');
    BecomesLies(cfg, children, g, p, r);
    StepKeepsEnds(cfg, children, base, g, p, r, g');
    StepKeepsSize(cfg, children, base, g, r, g');
    StepKeepsEncloses(cfg, children, g, p, r, g');
  }

  // The list has `[Extended]` before all logical partitions.
  ghost predicate Orderly(cfg: Config, todo: seq<Part>) {
    && (forall i | 0 <= i < |todo| :: Ordinary(cfg, todo[i]))
    && forall i, j | 0 <= i < j < |todo| && todo[j].kind == Kind.Extended :: !todo[i].logical
  }

  // No logical partition is placed if `[Extended]` is still to come.
  ghost predicate Awaits(done: seq<Part>, todo: seq<Part>) {
    forall i, j | 0 <= i < |done| && 0 <= j < |todo| && todo[j].kind == Kind.Extended :: !done[i].logical
  }

  lemma NextAwaits(cfg: Config, children: Children, g: Progress, todo: seq<Part>)
    requires cfg.align > 0 && todo != [] && Step(cfg, children, g, todo[0]).Some?
    requires Orderly(cfg, todo) && Awaits(g.done, todo)
    ensures Orderly(cfg, todo[1..]) && Awaits(Step(cfg, children, g, todo[0]).value.done, todo[1..])
    ensures todo[0].kind == Kind.Extended ==> forall i | 0 <= i < |g.done| :: !g.done[i].logical
  {
    hide Step, Becomes, Ordinary;
    var g' := Step(cfg, children, g, todo[0]).value;
    var r, start := StepIs(cfg, children, g, todo[0]);
    StepIff(cfg, children, g, todo[0], r, g');
    FollowsKeeps(cfg, children, g, r, g');
    hide Follows;
  }

  lemma ReachesStay(done: seq<Part>, d: seq<Part>)
    requires |done| <= |d| && forall i | 0 <= i < |done| :: Stays(done[i], d[i])
    ensures forall i | 0 <= i < |done| :: Reaches(d[i]) == Reaches(done[i])
  {
  }

  // The partitions from index n on are those of the list.
  ghost predicate AllLie(cfg: Config, children: Children, base: nat, d: seq<Part>, n: nat, todo: seq<Part>)
    requires |d| == n + |todo|
  {
    forall i | 0 <= i < |todo| :: Lies(cfg, children, Ends(base, d, n + i), todo[i], d[n + i])
  }

  lemma NoneLies(cfg: Config, children: Children, base: nat, d: seq<Part>)
    ensures AllLie(cfg, children, base, d, |d|, [])
  {
  }

  lemma LiesStill(cfg: Config, children: Children, now: nat, p: Part, r: Part, d: Part)
    requires Lies(cfg, children, now, p, r) && Stays(r, d)
    ensures Lies(cfg, children, now, p, d)
  {
  }

  // Later steps leave the first partition where it is.
  lemma FirstLies(cfg: Config, children: Children, base: nat, g: Progress, todo: seq<Part>, r: Part)
    requires cfg.align > 0 && todo != [] && Place(cfg, children, g, todo).Some?
    requires var g1 := Step(cfg, children, g, todo[0]).value;
             && |g1.done| == |g.done| + 1 && g1.done[|g.done|] == r
             && Ends(base, g1.done, |g.done|) == g.now && Lies(cfg, children, g.now, todo[0], r)
    ensures var d := Place(cfg, children, g, todo).value.done;
            |g.done| < |d| && Lies(cfg, children, Ends(base, d, |g.done|), todo[0], d[|g.done|])
  {
    hide Step, Lies, Ends, Reaches, SameOptions, Stays;
    var g1 := Step(cfg, children, g, todo[0]).value;
    var d := Place(cfg, children, g, todo).value.done;
    PlaceKeepsOrder(cfg, children, g1, todo[1..]);
    ReachesStay(g1.done, d);
    EndsSame(base, g1.done, d, |g.done|);
    LiesStill(cfg, children, g.now, todo[0], r, d[|g.done|]);
  }

  lemma LiesCons(cfg: Config, children: Children, base: nat, d: seq<Part>, n: nat, todo: seq<Part>)
    requires todo != [] && |d| == n + |todo| && Lies(cfg, children, Ends(base, d, n), todo[0], d[n])
    requires AllLie(cfg, children, base, d, n + 1, todo[1..])
    ensures AllLie(cfg, children, base, d, n, todo)
  {
    hide Lies, Ends;
    forall i | 0 <= i < |todo|
      ensures Lies(cfg, children, Ends(base, d, n + i), todo[i], d[n + i])
    {
      if i > 0 {
        assert Lies(cfg, children, Ends(base, d, n + 1 + (i - 1)), todo[1..][i - 1], d[n + 1 + (i - 1)]);
      }
    }
  }

  lemma FirstOrdinary(cfg: Config, todo: seq<Part>)
    requires todo != [] && Orderly(cfg, todo)
    ensures Ordinary(cfg, todo[0])
  {
  }

  lemma {:induction false} PlaceIsExact(cfg: Config, children: Children, base: nat, g: Progress, todo: seq<Part>)
    requires cfg.align > 0 && Place(cfg, children, g, todo).Some? && Exact(cfg, children, base, g)
    requires Orderly(cfg, todo) && Awaits(g.done, todo)
    ensures var g', n := Place(cfg, children, g, todo).value, |g.done|;
            && Exact(cfg, children, base, g') && |g'.done| == n + |todo|
            && AllLie(cfg, children, base, g'.done, n, todo)
    decreases |todo|
  {
    hide Step, Exact, Lies, Orderly, Awaits, Ends, Reaches, AllLie;
    if todo == [] {
      NoneLies(cfg, children, base, g.done);
    } else {
      assert Ordinary(cfg, todo[0]) by {
        FirstOrdinary(cfg, todo);
      }
      NextAwaits(cfg, children, g, todo);
      var r := StepIsExact(cfg, children, base, g, todo[0]);
      var g1 := Step(cfg, children, g, todo[0]).value;
      PlaceIsExact(cfg, children, base, g1, todo[1..]);
      FirstLies(cfg, children, base, g, todo, r);
      LiesCons(cfg, children, base, Place(cfg, children, g, todo).value.done, |g.done|, todo);
    }
  }

  lemma AreasAreOrdinary(cfg: Config)
    ensures forall i | 0 <= i < |TableAreas(cfg)| :: Ordinary(cfg, TableAreas(cfg)[i])
  {
  }

  lemma ExtendedIsOrdinary(cfg: Config, first: Part)
    ensures Ordinary(cfg, ExtendedPartition(cfg, first))
  {
  }

  lemma ConfiguredIsOrdinary(cfg: Config, p: Part)
    ensures p.kind == Configured ==> Ordinary(cfg, p)
  {
  }

  // `[Extended]` is at index k if it is anywhere, and nothing before it is logical.
  lemma ExtendedIs(cfg: Config, todo: seq<Part>, k: nat)
    requires Plain(todo) || Divided(cfg, todo, k)
    ensures forall i | 0 <= i < |todo| && todo[i].kind == Kind.Extended ::
              Ordinary(cfg, todo[i]) && forall j | 0 <= j < i :: !todo[j].logical
  {
    hide Ordinary, ExtendedPartition;
    if Divided(cfg, todo, k) {
      ExtendedIsOrdinary(cfg, todo[k + 1]);
      DividedIsInOrder(cfg, todo, k);
    }
  }

  // The list that `hdimage_setup` places.
  lemma ListedIsOrderly(cfg: Config, parts: seq<Part>)
    requires Fresh(parts) && Listed(cfg, parts).Some?
    ensures Orderly(cfg, Listed(cfg, parts).value)
  {
    hide SplitLogical, TableAreas, DiskIdsOk, Ordinary, Divided, ExtendedPartition;
    var todo, split := Listed(cfg, parts).value, SetupLogical(cfg, parts).value;
    var k := ListedShape(cfg, parts);
    AreasAreOrdinary(cfg);
    ExtendedIs(cfg, todo, k);
    if split != parts {
      SplitKinds(cfg, ExtendedIndex(cfg, parts), parts, 0, 0, false, false);
    }
    forall i | 0 <= i < |todo|
      ensures Ordinary(cfg, todo[i])
    {
      if i >= |split| {
        assert todo[i] == TableAreas(cfg)[i - |split|];
      } else {
        assert todo[i] == split[i];
        ConfiguredIsOrdinary(cfg, todo[i]);
      }
    }
  }

  // The end of the tables in front of the image.
  function FrontEnd(cfg: Config): nat {
    match cfg.table
    case NoTable => 0
    case Mbr => 512
    case Gpt => cfg.gptLocation + 128 * 128
    case Hybrid => cfg.gptLocation + 128 * 128
  }

  lemma NothingIsExact(cfg: Config, children: Children)
    ensures Exact(cfg, children, FrontEnd(cfg), Begin(cfg))
  {
  }

  // The options with their defaults.
  function Defaulted(options: Config): Config {
    options.(align := if options.align != 0 then options.align else if options.table == NoTable then 1 else 512,
             gptLocation := if options.gptLocation != 0 then options.gptLocation else 1024)
  }

  // The layout of an accepted configuration: the options with their defaults,
  // every partition of the list exactly where and as large as its options and
  // those before it make it, `[Extended]` up to the end of its last logical
  // partition, and the size of the image.
  lemma SetupIsExact(options: Config, children: Children, parts: seq<Part>)
    requires Fresh(parts) && Setup(options, children, parts).Some?
    ensures var l := Setup(options, children, parts).value;
            && l.cfg == Defaulted(options)
            && Listed(l.cfg, parts).Some? && |Listed(l.cfg, parts).value| == |l.parts|
            && (forall i | 0 <= i < |l.parts| ::
                  Lies(l.cfg, children, Ends(FrontEnd(l.cfg), l.parts, i), Listed(l.cfg, parts).value[i], l.parts[i]))
            && Encloses(l.parts)
            && l.imageSize == (if options.imageSize != 0 then options.imageSize else Ends(FrontEnd(l.cfg), l.parts, |l.parts|))
            && (options.fill || (options.table != NoTable && options.table != Mbr && !options.gptNoBackup) ==>
                  l.fileSize == l.imageSize)
            && (!options.fill && (options.table == NoTable || options.table == Mbr || options.gptNoBackup) ==>
                  Suffices(l.cfg, children, FrontEnd(l.cfg), l.parts, l.fileSize))
  {
    hide Place, Listed, Lies, Ends, Encloses, Suffices, Orderly;
    var l := Setup(options, children, parts).value;
    var todo := Listed(l.cfg, parts).value;
    ListedIsOrderly(l.cfg, parts);
    NothingIsExact(l.cfg, children);
    PlaceIsExact(l.cfg, children, FrontEnd(l.cfg), Begin(l.cfg), todo);
    var g := Place(l.cfg, children, Begin(l.cfg), todo).value;
    forall i | 0 <= i < |l.parts|
      ensures Lies(l.cfg, children, Ends(FrontEnd(l.cfg), l.parts, i), todo[i], l.parts[i])
    {
      assert Lies(l.cfg, children, Ends(FrontEnd(l.cfg), g.done, 0 + i), todo[i], g.done[0 + i]);
    }
  }

  // ------------------------------------------------- when a configuration is accepted

  ghost predicate Advances(cfg: Config, children: Children, g: Progress, p: Part, g': Progress) {
    exists r: Part :: Becomes(cfg, children, g, p, r) && Follows(cfg, children, g, r, g')
  }

  // One after the other, every partition of the list becomes something.
  ghost predicate Runs(cfg: Config, children: Children, g: Progress, todo: seq<Part>, gs: seq<Progress>) {
    && |gs| == |todo| + 1 && gs[0] == g
    && forall i | 0 <= i < |todo| :: Advances(cfg, children, gs[i], todo[i], gs[i + 1])
  }

  lemma AdvancesIff(cfg: Config, children: Children, g: Progress, p: Part, g': Progress)
    requires cfg.align > 0 && Ordinary(cfg, p)
    ensures Advances(cfg, children, g, p, g') <==> Step(cfg, children, g, p) == Some(g')
  {
    hide Step, Becomes, Follows;
    if r: Part :| Becomes(cfg, children, g, p, r) && Follows(cfg, children, g, r, g') {
      StepIff(cfg, children, g, p, r, g');
    }
    if Step(cfg, children, g, p) == Some(g') {
      var r, start := StepIs(cfg, children, g, p);
      StepIff(cfg, children, g, p, r, g');
    }
  }

  lemma LaterRuns(cfg: Config, children: Children, g: Progress, todo: seq<Part>, gs: seq<Progress>)
    requires todo != [] && Runs(cfg, children, g, todo, gs)
    ensures Runs(cfg, children, gs[1], todo[1..], gs[1..])
  {
    hide Advances;
    forall i | 0 <= i < |todo| - 1
      ensures Advances(cfg, children, gs[1..][i], todo[1..][i], gs[1..][i + 1])
    {
      assert Advances(cfg, children, gs[i + 1], todo[i + 1], gs[i + 1 + 1]);
    }
  }

  lemma EarlierRuns(cfg: Config, children: Children, g: Progress, todo: seq<Part>, g': Progress, gs: seq<Progress>)
    requires todo != [] && Advances(cfg, children, g, todo[0], g') && Runs(cfg, children, g', todo[1..], gs)
    ensures Runs(cfg, children, g, todo, [g] + gs) && ([g] + gs)[|todo|] == gs[|todo| - 1]
  {
    hide Advances;
    var all := [g] + gs;
    forall i | 0 <= i < |todo|
      ensures Advances(cfg, children, all[i], todo[i], all[i + 1])
    {
      if i > 0 {
        assert Advances(cfg, children, gs[i - 1], todo[1..][i - 1], gs[i - 1 + 1]);
      }
    }
  }

  lemma {:induction false} RunsIff(cfg: Config, children: Children, g: Progress, todo: seq<Part>, end: Progress)
    requires cfg.align > 0 && forall i | 0 <= i < |todo| :: Ordinary(cfg, todo[i])
    ensures (exists gs :: Runs(cfg, children, g, todo, gs) && |gs| > |todo| && gs[|todo|] == end) <==> Place(cfg, children, g, todo) == Some(end)
    decreases |todo|
  {
    hide Step, Advances, Ordinary;
    if todo == [] {
      assert Runs(cfg, children, g, todo, [g]);
    } else {
      var p, rest := todo[0], todo[1..];
      if gs :| Runs(cfg, children, g, todo, gs) && |gs| > |todo| && gs[|todo|] == end {
        AdvancesIff(cfg, children, g, p, gs[1]);
        assert Advances(cfg, children, gs[0], todo[0], gs[0 + 1]);
        LaterRuns(cfg, children, g, todo, gs);
        RunsIff(cfg, children, gs[1], rest, end);
        assert Runs(cfg, children, gs[1], rest, gs[1..]) && gs[1..][|rest|] == end;
      }
      if Place(cfg, children, g, todo) == Some(end) {
        var g' := Step(cfg, children, g, p).value;
        AdvancesIff(cfg, children, g, p, g');
        RunsIff(cfg, children, g', rest, end);
        var gs :| Runs(cfg, children, g', rest, gs) && |gs| > |rest| && gs[|rest|] == end;
        EarlierRuns(cfg, children, g, todo, g', gs);
      }
    }
  }

  // The checks behind the loop, and what is left behind.
  ghost predicate Completes(cfg: Config, g: Progress, l: Layout) {
    && g.hybridEntries <= 3 && (cfg.table == Hybrid ==> g.hybridEntries > 0)
    && (cfg.imageSize == 0 || g.now <= cfg.imageSize)
    && l.cfg == cfg && l.parts == g.done
    && l.imageSize == (if cfg.imageSize == 0 then g.now else cfg.imageSize)
    && l.fileSize == (if cfg.fill || ((cfg.table == Gpt || cfg.table == Hybrid) && !cfg.gptNoBackup) then l.imageSize
                      else g.fileSize)
  }

  // A run of the whole configuration: the list is accepted, every partition of it
  // becomes something, and the checks behind the loop hold.
  ghost predicate Configures(options: Config, children: Children, parts: seq<Part>, todo: seq<Part>, gs: seq<Progress>,
                             l: Layout) {
    var cfg := Defaulted(options);
    && ListsAs(cfg, parts, todo)
    && Runs(cfg, children, Progress([], FrontEnd(cfg), FrontEnd(cfg), false, 0), todo, gs)
    && Completes(cfg, gs[|todo|], l)
  }

  lemma RunLength(cfg: Config, children: Children, g: Progress, todo: seq<Part>, gs: seq<Progress>)
    requires Runs(cfg, children, g, todo, gs)
    ensures |gs| == |todo| + 1
  {
  }

  lemma FrontIs(options: Config)
    ensures Normalise(options) == Defaulted(options)
    ensures Begin(Defaulted(options))
         == Progress([], FrontEnd(Defaulted(options)), FrontEnd(Defaulted(options)), false, 0)
  {
  }

  lemma ListedIsOrdinary(cfg: Config, parts: seq<Part>)
    requires Fresh(parts) && Listed(cfg, parts).Some?
    ensures forall i | 0 <= i < |Listed(cfg, parts).value| :: Ordinary(cfg, Listed(cfg, parts).value[i])
  {
    hide Listed, Ordinary;
    ListedIsOrderly(cfg, parts);
  }

  lemma CompletesIff(cfg: Config, g: Progress, l: Layout)
    ensures Finish(cfg, g) == Some(l) <==> Completes(cfg, g, l)
  {
  }

  // `hdimage_setup` accepts a configuration if and only if there is such a run,
  // and leaves the layout at its end.
  lemma SetupIff(options: Config, children: Children, parts: seq<Part>, l: Layout)
    requires Fresh(parts)
    ensures Setup(options, children, parts) == Some(l) <==>
            exists todo, gs :: Configures(options, children, parts, todo, gs, l)
  {
    hide Place, Listed, ListsAs, Runs, Finish, Completes, Orderly;
    var cfg := Defaulted(options);
    FrontIs(options);
    if todo, gs :| Configures(options, children, parts, todo, gs, l) {
      ListedIff(cfg, parts, todo);
      ListedIsOrdinary(cfg, parts);
      assert |gs| == |todo| + 1 by {
        RunLength(cfg, children, Begin(cfg), todo, gs);
      }
      RunsIff(cfg, children, Begin(cfg), todo, gs[|todo|]);
      CompletesIff(cfg, gs[|todo|], l);
    }
    if Setup(options, children, parts) == Some(l) {
      var todo := Listed(cfg, parts).value;
      ListedIff(cfg, parts, todo);
      ListedIsOrdinary(cfg, parts);
      var g := Place(cfg, children, Begin(cfg), todo).value;
      RunsIff(cfg, children, Begin(cfg), todo, g);
      var gs :| Runs(cfg, children, Begin(cfg), todo, gs) && |gs| > |todo| && gs[|todo|] == g;
      CompletesIff(cfg, g, l);
      assert Configures(options, children, parts, todo, gs, l);
    }
  }

  // ------------------------------------------------- what that means in numbers

  lemma NeedsIs(cfg: Config, children: Children, r: Part)
    ensures var n := Needs(cfg, children, r);
            || n == 0 || (r.logical && n == r.offset - cfg.align + 512)
            || (r.image.Some? && r.image.value in children
                && var size := children[r.image.value].size;
                   n == r.offset + if size > r.imageoffset then size - r.imageoffset else 0)
  {
  }

  // The predicted file is no larger than it has to be: unless the image is
  // filled or has a backup GPT, it ends with the tables in front, with the boot
  // record of a logical partition, or with the data of an image.
  lemma FileSizeIsNeeded(options: Config, children: Children, parts: seq<Part>)
    requires Fresh(parts) && Setup(options, children, parts).Some?
    requires !options.fill && (options.table == NoTable || options.table == Mbr || options.gptNoBackup)
    ensures var l := Setup(options, children, parts).value;
            || l.fileSize == (match options.table
                              case NoTable => 0
                              case Mbr => 512
                              case _ => (if options.gptLocation == 0 then 1024 else options.gptLocation) + 16384)
            || exists i | 0 <= i < |l.parts| ::
                 var r := l.parts[i];
                 || (r.logical && l.fileSize == r.offset - l.cfg.align + 512)
                 || (r.image.Some? && r.image.value in children
                     && var size := children[r.image.value].size;
                        l.fileSize == r.offset + if size > r.imageoffset then size - r.imageoffset else 0)
  {
    hide Setup, Listed, Lies, Ends, Encloses;
    SetupIsExact(options, children, parts);
    var l := Setup(options, children, parts).value;
    if l.fileSize != FrontEnd(l.cfg) {
      var i :| 0 <= i < |l.parts| && l.fileSize == Needs(l.cfg, children, l.parts[i]);
      NeedsIs(l.cfg, children, l.parts[i]);
      assert l.fileSize > 0;
    }
  }

  lemma LiesMeasures(cfg: Config, children: Children, now: nat, p: Part, r: Part)
    requires Lies(cfg, children, now, p, r) && Ordinary(cfg, p) && r.kind == p.kind && p.autoresize
    ensures r.align > 0 && Resizes(cfg, false, p, r)
  {
    hide Positions, RoundedUp;
  }

  // A partition with autoresize ends less than one unit of its alignment before
  // the end of the image, or before the backup GPT.
  lemma AutoresizeFills(options: Config, children: Children, parts: seq<Part>, i: nat)
    requires Fresh(parts) && Setup(options, children, parts).Some?
    requires i < |Setup(options, children, parts).value.parts| && Setup(options, children, parts).value.parts[i].autoresize
    ensures var r := Setup(options, children, parts).value.parts[i];
            var limit := options.imageSize - (if options.table == Gpt || options.table == Hybrid then 33 * 512 else 0);
            && r.align > 0 && r.size % r.align == 0 && r.size > 0
            && r.offset + r.size <= limit < r.offset + r.size + r.align
  {
    hide Setup, Listed, Ends, Encloses, Suffices, Lies, SameOptions, Sound, Predicted;
    SetupIsExact(options, children, parts);
    SetupIsComplete(options, children, parts);
    var l := Setup(options, children, parts).value;
    var todo := Listed(l.cfg, parts).value;
    ListedIsOrdinary(l.cfg, parts);
    KindIsKept(l.cfg, todo[i], l.parts[i]);
    LiesMeasures(l.cfg, children, Ends(FrontEnd(l.cfg), l.parts, i), todo[i], l.parts[i]);
  }

  lemma OptionsKept(cfg: Config, p: Part, r: Part)
    requires SameOptions(cfg, p, r) && cfg.table == Mbr
    ensures r.kind == p.kind && r.inTable == p.inTable
  {
  }

  lemma {:induction false} SameTableCount(a: seq<Part>, b: seq<Part>)
    requires |a| == |b| && forall i | 0 <= i < |a| :: a[i].inTable == b[i].inTable
    ensures |TableParts(a)| == |TableParts(b)|
    decreases |a|
  {
    if a == [] {
    } else {
      SameTableCount(a[1..], b[1..]);
    }
  }

  lemma ContainerKind(cfg: Config, p: Part)
    ensures Container(cfg, p).kind == Kind.Extended
  {
  }

  lemma MarksKeepKind(parts: seq<Part>)
    ensures forall i | 0 <= i < |parts| :: Marks(parts)[i].kind == parts[i].kind
  {
  }

  lemma AreasKind(cfg: Config)
    requires cfg.table == Mbr
    ensures forall i | 0 <= i < |Areas(cfg)| :: Areas(cfg)[i].kind == Fake
  {
  }

  // `[Extended]` is at index e of a divided list, and nowhere else.
  lemma DividedOnce(cfg: Config, parts: seq<Part>, k: nat, e: nat, todo: seq<Part>)
    requires Fresh(parts) && DividesAt(cfg, parts, k, e, todo) && cfg.table == Mbr
    ensures e < |todo| && e < |parts| && todo[..e] == parts[..e] && |TableParts(todo[..e])| == k - 1
    ensures forall i | 0 <= i < |todo| :: todo[i].kind == Kind.Extended <==> i == e
  {
    hide Container, TableParts, Marked, Area;
    var first, last := parts[..e] + [Container(cfg, parts[e])], Marks(parts[e..]) + Areas(cfg);
    assert todo == first + last && todo[..e] == parts[..e];
    ContainerKind(cfg, parts[e]);
    assert forall i | 0 <= i < |last| :: last[i].kind != Kind.Extended by {
      MarksKeepKind(parts[e..]);
      AreasKind(cfg);
    }
  }

  lemma ListedEntry(cfg: Config, parts: seq<Part>, todo: seq<Part>)
    requires Fresh(parts) && ListsAs(cfg, parts, todo) && cfg.table == Mbr
    ensures var k := ExtendedEntry(cfg, parts);
            && (forall e | 0 <= e < |todo| && todo[e].kind == Kind.Extended :: |TableParts(todo[..e])| == k - 1)
            && (0 < k <= |TableParts(parts)| <==> exists e :: 0 <= e < |todo| && todo[e].kind == Kind.Extended)
  {
    hide Splits, TableParts, DividesAt, ExtendedEntry, Areas;
    var k := ExtendedEntry(cfg, parts);
    if 0 < k <= |TableParts(parts)| {
      var e: nat :| DividesAt(cfg, parts, k, e, todo);
      DividedOnce(cfg, parts, k, e, todo);
    } else {
      AreasKind(cfg);
    }
  }

  // In a layout with an MBR, `[Extended]` is entry number k of the table: the
  // given one, or the fourth if more than four partitions are in the table. It is
  // there exactly if there are so many.
  lemma ExtendedIsEntry(options: Config, children: Children, parts: seq<Part>)
    requires Fresh(parts) && Setup(options, children, parts).Some? && options.table == Mbr
    ensures var l := Setup(options, children, parts).value;
            var n := |TableParts(parts)|;
            var k := if options.extendedIndex != 0 then options.extendedIndex else if n > 4 then 4 else 0;
            && (forall e | 0 <= e < |l.parts| && l.parts[e].kind == Kind.Extended :: |TableParts(l.parts[..e])| == k - 1)
            && (0 < k <= n <==> exists e :: 0 <= e < |l.parts| && l.parts[e].kind == Kind.Extended)
  {
    hide Setup, Listed, ListsAs, TableParts, SameOptions, Sound, Predicted, Areas;
    SetupIsComplete(options, children, parts);
    var l := Setup(options, children, parts).value;
    ListedWhenSetup(options, children, parts);
    var todo := Listed(l.cfg, parts).value;
    ListedIff(l.cfg, parts, todo);
    ListedEntry(l.cfg, parts, todo);
    forall i | 0 <= i < |todo|
      ensures l.parts[i].kind == todo[i].kind && l.parts[i].inTable == todo[i].inTable
    {
      OptionsKept(l.cfg, todo[i], l.parts[i]);
    }
    forall e | 0 <= e < |todo|
      ensures |TableParts(l.parts[..e])| == |TableParts(todo[..e])|
    {
      SameTableCount(l.parts[..e], todo[..e]);
    }
  }
}
