/**
  The dependencies between images: `image_get`, `image_setup` and
  `image_generate` of `genimage.c`, and the two loops of `main` that call them.
  Both passes use the same fields `seen` and `done`, with opposite signs.
 */
module Images {
  import opened Bytes

  datatype Pass = SettingUp | Generating

  // `struct image`. The outcomes of the handler's functions, and of the commands
  // and environment variables around them, are given.
  class Image {
    const file: string
    const partitions: seq<Option<string>>
    const setupWorks: bool
    const generateWorks: bool
    var seen: int
    var done: int

    constructor (file: string, partitions: seq<Option<string>>, setupWorks: bool, generateWorks: bool)
      ensures this.file == file && this.partitions == partitions
      ensures this.setupWorks == setupWorks && this.generateWorks == generateWorks
      ensures seen == 0 && done == 0
    {
      this.file, this.partitions := file, partitions;
      this.setupWorks, this.generateWorks := setupWorks, generateWorks;
      seen, done := 0, 0;
    }

    predicate Seen(pass: Pass)
      reads this
    {
      if pass.SettingUp? then seen < 0 else seen > 0
    }

    predicate Done(pass: Pass)
      reads this
    {
      if pass.SettingUp? then done < 0 else done > 0
    }

    predicate Works(pass: Pass) {
      if pass.SettingUp? then setupWorks else generateWorks
    }
  }

  // ------------------------------------------------- the graph

  // The first image with a file name.
  function Lookup(images: seq<Image>, name: string): (r: Option<nat>)
    ensures r.Some? ==> r.value < |images| && images[r.value].file == name
    ensures r.Some? ==> forall k | 0 <= k < r.value :: images[k].file != name
    ensures r.None? ==> forall k | 0 <= k < |images| :: images[k].file != name
    decreases |images|
  {
    if images == [] then None
    else if images[0].file == name then Some(0)
    else
      var k :- Lookup(images[1..], name);
      Some(k + 1)
  }

  predicate Uses(images: seq<Image>, partition: Option<string>, j: nat) {
    partition.Some? && Lookup(images, partition.value) == Some(j)
  }

  // Image i has a partition with image j.
  ghost predicate Edge(images: seq<Image>, i: nat, j: nat) {
    i < |images| && exists k | 0 <= k < |images[i].partitions| :: Uses(images, images[i].partitions[k], j)
  }

  // All images of the partitions exist.
  ghost predicate Resolved(images: seq<Image>, i: nat)
    requires i < |images|
  {
    forall k | 0 <= k < |images[i].partitions| && images[i].partitions[k].Some? ::
      Lookup(images, images[i].partitions[k].value).Some?
  }

  ghost predicate Path(images: seq<Image>, p: seq<nat>) {
    && p != []
    && (forall k | 0 <= k < |p| :: p[k] < |images|)
    && forall k | 0 < k < |p| :: Edge(images, p[k - 1], p[k])
  }

  // Why a pass fails: at the end of a path there is an image that is on the
  // path already, has an unknown dependency, or a handler that fails.
  ghost predicate Fault(images: seq<Image>, pass: Pass, p: seq<nat>) {
    && Path(images, p)
    && var last := p[|p| - 1];
       last in p[..|p| - 1] || !Resolved(images, last) || !images[last].Works(pass)
  }

  // Images in an order in which each one comes after all those that it uses.
  ghost predicate Ordered(images: seq<Image>, ran: seq<nat>) {
    && (forall k | 0 <= k < |ran| :: ran[k] < |images| && ran[k] !in ran[..k])
    && (forall k, j: nat | 0 <= k < |ran| && Edge(images, ran[k], j) :: j in ran[..k])
  }

  // The images have been handled successfully.
  ghost predicate Handled(images: seq<Image>, pass: Pass, ran: seq<nat>) {
    && Ordered(images, ran)
    && forall k | 0 <= k < |ran| :: Resolved(images, ran[k]) && images[ran[k]].Works(pass)
  }

  lemma HandledAppend(images: seq<Image>, pass: Pass, ran: seq<nat>, i: nat)
    requires Handled(images, pass, ran) && i < |images| && i !in ran
    requires Resolved(images, i) && images[i].Works(pass) && forall j: nat | Edge(images, i, j) :: j in ran
    ensures Handled(images, pass, ran + [i])
  {
    hide Edge, Resolved, Lookup;
    var all := ran + [i];
    forall k | 0 <= k < |all|
      ensures all[k] < |images| && all[k] !in all[..k] && Resolved(images, all[k]) && images[all[k]].Works(pass)
      ensures forall j: nat | Edge(images, all[k], j) :: j in all[..k]
    {
      assert all[..k] == ran[..k];
      assert k == |ran| ==> ran[..k] == ran;
    }
  }

  // ------------------------------------------------- the passes

  class Genimage {
    const images: seq<Image>
    // the outcome of what `main` does between its two loops
    const pathsWork: bool
    // the images whose handlers have been called in the current pass
    ghost var ran: seq<nat>

    constructor (images: seq<Image>, pathsWork: bool)
      ensures this.images == images && this.pathsWork == pathsWork
    {
      this.images, this.pathsWork := images, pathsWork;
      ran := [];
    }

    ghost predicate Distinct() {
      forall i, j | 0 <= i < j < |images| :: images[i] != images[j]
    }

    // In the middle of a pass: the images on the stack have been seen, and
    // those that are done have been handled.
    ghost predicate Running(pass: Pass, stack: seq<nat>)
      reads this, images
    {
      && Distinct() && Handled(images, pass, ran)
      && (forall i | i in stack :: i !in ran)
      && (forall i | 0 <= i < |images| :: images[i].Seen(pass) <==> i in stack || i in ran)
      && (forall i | 0 <= i < |images| :: images[i].Done(pass) <==> i in ran)
    }

    ghost function Unseen(pass: Pass): set<nat>
      reads images
    {
      set i: nat | i < |images| && !images[i].Seen(pass)
    }

    lemma UnseenIsRest(pass: Pass, stack: seq<nat>)
      requires Running(pass, stack)
      ensures Unseen(pass) == Rest(|images|, stack, ran)
    {
    }

    // A pass begins: no image has the marks of the pass.
    lemma Begins(pass: Pass)
      requires Distinct() && ran == []
      requires forall i | 0 <= i < |images| :: !images[i].Seen(pass) && !images[i].Done(pass)
      ensures Running(pass, [])
    {
    }

    // Both passes mark an image, and the marks of one pass are not those of the other.
    lemma SetupIsNoGenerate()
      requires Running(SettingUp, []) && forall i | 0 <= i < |images| :: i in ran
      ensures forall i | 0 <= i < |images| :: !images[i].Seen(Generating) && !images[i].Done(Generating)
    {
      forall i | 0 <= i < |images|
        ensures !images[i].Seen(Generating) && !images[i].Done(Generating)
      {
        assert images[i].Seen(SettingUp) && images[i].Done(SettingUp);
      }
    }

    // `image_get`
    method ImageGet(name: string) returns (image: Image?, ghost j: nat)
      ensures image == null <==> Lookup(images, name).None?
      ensures image != null ==> Lookup(images, name) == Some(j) && j < |images| && images[j] == image
    {
      var n := 0;
      while n < |images|
        invariant n <= |images|
        invariant forall k | 0 <= k < n :: images[k].file != name
      {
        if images[n].file == name {
          FirstIs(images, name, n);
          return images[n], n;
        }
        n := n + 1;
      }
      return null, 0;
    }

    // The function of the handler for the pass, and the commands around it.
    method CallHandler(pass: Pass, image: Image, ghost i: nat) returns (ok: bool)
      modifies this`ran
      ensures ran == old(ran) + [i] && ok == image.Works(pass)
    {
      ran := ran + [i];
      ok := if pass.SettingUp? then image.setupWorks else image.generateWorks;
    }

    // The marks of image i.
    lemma MarksOf(pass: Pass, stack: seq<nat>, i: nat)
      requires Running(pass, stack) && i < |images|
      ensures images[i].Done(pass) <==> i in ran
      ensures images[i].Seen(pass) <==> i in stack || i in ran
    {
    }

    // Image i comes onto the stack.
    method Enter(pass: Pass, image: Image, ghost i: nat, ghost stack: seq<nat>)
      requires i < |images| && images[i] == image && i !in stack && i !in ran
      requires Running(pass, stack)
      modifies image`seen
      ensures Running(pass, stack + [i])
    {
      hide Handled;
      image.seen := if pass.SettingUp? then -1 else 1;
    }

    // The handler of image i is called, after those of the images it uses.
    method Leave(pass: Pass, image: Image, ghost i: nat, ghost stack: seq<nat>) returns (ok: bool)
      requires i < |images| && images[i] == image && i !in stack
      requires Running(pass, stack + [i]) && Resolved(images, i) && forall j: nat | Edge(images, i, j) :: j in ran
      modifies image`done, this`ran
      ensures ok == image.Works(pass) && ran == old(ran) + [i]
      ensures ok ==> Running(pass, stack)
    {
      hide Handled, Edge, Resolved;
      assert i in stack + [i];
      ok := CallHandler(pass, image, i);
      if !ok {
        return;
      }
      HandledAppend(images, pass, old(ran), i);
      image.done := if pass.SettingUp? then -1 else 1;
    }

    // `image_setup`
    method ImageSetup(image: Image, ghost i: nat, ghost stack: seq<nat>) returns (ok: bool, ghost fault: seq<nat>)
      requires i < |images| && images[i] == image
      requires Running(SettingUp, stack) && Path(images, stack + [i])
      modifies images, this`ran
      ensures ok ==> Running(SettingUp, stack) && i in ran && old(ran) <= ran
      ensures !ok ==> Fault(images, SettingUp, fault)
      decreases Unseen(SettingUp)
    {
      hide Running, Edge, Resolved, Lookup, Handled, Path, Fault, Unseen, Rest, UsedAreIn;
      fault := stack + [i];
      LastOfStack(images, SettingUp, stack, i);
      UnseenIsRest(SettingUp, stack);
      MarksOf(SettingUp, stack, i);
      if image.done < 0 {
        return true, fault;
      }
      if image.seen < 0 {
        return false, fault;
      }
      Enter(SettingUp, image, i, stack);
      NoneUsed(images, i, ran);
      for k := 0 to |image.partitions|
        invariant Running(SettingUp, stack + [i]) && old(ran) <= ran && fault == stack + [i]
        invariant UsedAreIn(images, i, k, ran)
      {
        ghost var before := ran;
        if image.partitions[k] == None {
          NextUsed(images, i, k, ran, ran);
          continue;
        }
        var child, j := ImageGet(image.partitions[k].value);
        if child == null {
          NotResolved(images, i, k);
          return false, fault;
        }
        OneFurther(images, stack, i, k, j);
        UnseenIsRest(SettingUp, stack + [i]);
        RestShrinks(|images|, stack, old(ran), i, ran);
        ok, fault := ImageSetup(child, j, stack + [i]);
        if !ok {
          return;
        }
        fault := stack + [i];
        NextUsed(images, i, k, before, ran);
      }
      AllResolved(images, i, ran);
      ok := Leave(SettingUp, image, i, stack);
    }

    // `image_generate`
    method ImageGenerate(image: Image, ghost i: nat, ghost stack: seq<nat>) returns (ok: bool, ghost fault: seq<nat>)
      requires i < |images| && images[i] == image
      requires Running(Generating, stack) && Path(images, stack + [i])
      modifies images, this`ran
      ensures ok ==> Running(Generating, stack) && i in ran && old(ran) <= ran
      ensures !ok ==> Fault(images, Generating, fault)
      decreases Unseen(Generating)
    {
      hide Running, Edge, Resolved, Lookup, Handled, Path, Fault, Unseen, Rest, UsedAreIn;
      fault := stack + [i];
      LastOfStack(images, Generating, stack, i);
      UnseenIsRest(Generating, stack);
      MarksOf(Generating, stack, i);
      if image.done > 0 {
        return true, fault;
      }
      if image.seen > 0 {
        return false, fault;
      }
      Enter(Generating, image, i, stack);
      NoneUsed(images, i, ran);
      for k := 0 to |image.partitions|
        invariant Running(Generating, stack + [i]) && old(ran) <= ran && fault == stack + [i]
        invariant UsedAreIn(images, i, k, ran)
      {
        ghost var before := ran;
        if image.partitions[k] == None {
          NextUsed(images, i, k, ran, ran);
          continue;
        }
        var child, j := ImageGet(image.partitions[k].value);
        if child == null {
          NotResolved(images, i, k);
          return false, fault;
        }
        OneFurther(images, stack, i, k, j);
        UnseenIsRest(Generating, stack + [i]);
        RestShrinks(|images|, stack, old(ran), i, ran);
        ok, fault := ImageGenerate(child, j, stack + [i]);
        if !ok {
          return;
        }
        fault := stack + [i];
        NextUsed(images, i, k, before, ran);
      }
      AllResolved(images, i, ran);
      ok := Leave(Generating, image, i, stack);
    }

    // The first of the two loops of `main`
    method SetupAll() returns (ok: bool, ghost fault: seq<nat>)
      requires Running(SettingUp, [])
      modifies images, this`ran
      ensures ok ==> Running(SettingUp, []) && forall i | 0 <= i < |images| :: i in ran
      ensures !ok ==> Fault(images, SettingUp, fault)
    {
      hide Handled, Path, Fault;
      fault := [];
      for i := 0 to |images|
        invariant Running(SettingUp, []) && forall k | 0 <= k < i :: k in ran
      {
        PathOfOne(images, i);
        ghost var before := ran;
        ok, fault := ImageSetup(images[i], i, []);
        if !ok {
          return;
        }
        assert forall k | k in before :: k in ran;
      }
      ok := true;
    }

    // The second loop
    method GenerateAll() returns (ok: bool, ghost fault: seq<nat>)
      requires Running(Generating, [])
      modifies images, this`ran
      ensures ok ==> Running(Generating, []) && forall i | 0 <= i < |images| :: i in ran
      ensures !ok ==> Fault(images, Generating, fault)
    {
      hide Handled, Path, Fault;
      fault := [];
      for i := 0 to |images|
        invariant Running(Generating, []) && forall k | 0 <= k < i :: k in ran
      {
        PathOfOne(images, i);
        ghost var before := ran;
        ok, fault := ImageGenerate(images[i], i, []);
        if !ok {
          return;
        }
        assert forall k | k in before :: k in ran;
      }
      ok := true;
    }

    // A pass ends with all images handled.
    lemma Ends(pass: Pass)
      requires Running(pass, []) && forall i | 0 <= i < |images| :: i in ran
      ensures Complete(images, ran) && Acyclic(images)
      ensures forall i | 0 <= i < |images| :: Resolved(images, i) && images[i].Works(pass)
    {
      AllHandled(images, pass, ran);
    }

    // Both passes, with `setenv_paths` and the making of the image directory
    // between them. They succeed exactly if that works, no image depends on
    // itself, every image that is used exists, and all handlers work; in each
    // pass the handler of every image is then called once, after those of the
    // images it uses.
    method Build() returns (ok: bool, ghost setups: seq<nat>, ghost generated: seq<nat>)
      requires Distinct() && forall i | 0 <= i < |images| :: images[i].seen == 0 && images[i].done == 0
      modifies images, this`ran
      ensures ok <==> Buildable(images) && pathsWork
      ensures ok <==> pathsWork && (forall i | 0 <= i < |images| :: images[i].setupWorks && images[i].generateWorks)
                      && exists order :: InOrder(images, order)
      ensures ok ==> Complete(images, setups) && Complete(images, generated)
      ensures ok ==> InOrder(images, setups) && InOrder(images, generated)
    {
      ran := [];
      Begins(SettingUp);
      hide Edge, Resolved, Lookup, Path, Fault, Running, Buildable, Complete, Acyclic, InOrder, Image.Seen, Image.Done;
      forall order | InOrder(images, order) && forall i | 0 <= i < |images| :: images[i].setupWorks && images[i].generateWorks
        ensures Buildable(images)
      {
        OrderIsBuildable(images, order);
      }
      ghost var fault;
      setups, generated := [], [];
      ok, fault := SetupAll();
      if !ok {
        FaultIsNotBuildable(images, SettingUp, fault);
        return;
      }
      setups := ran;
      Ends(SettingUp);
      SetupIsNoGenerate();
      if !pathsWork {
        return false, setups, generated;
      }
      ran := [];
      Begins(Generating);
      ok, fault := GenerateAll();
      if !ok {
        FaultIsNotBuildable(images, Generating, fault);
        return;
      }
      generated := ran;
      Ends(Generating);
      BothWork(images);
      CompleteIsInOrder(images, setups);
      CompleteIsInOrder(images, generated);
    }
  }

  // ------------------------------------------------- when a pass succeeds

  // No path comes back to an image.
  ghost predicate Acyclic(images: seq<Image>) {
    forall p: seq<nat> | Path(images, p) :: p[|p| - 1] !in p[..|p| - 1]
  }

  ghost predicate Buildable(images: seq<Image>) {
    && Acyclic(images)
    && forall i | 0 <= i < |images| :: Resolved(images, i) && images[i].setupWorks && images[i].generateWorks
  }

  // Every image once, after all that it uses.
  ghost predicate Complete(images: seq<Image>, ran: seq<nat>) {
    Ordered(images, ran) && forall i | 0 <= i < |images| :: i in ran
  }

  // `image_get` finds image j for a file name: it is the first one that has it.
  ghost predicate FirstNamed(images: seq<Image>, name: string, j: nat) {
    j < |images| && images[j].file == name && forall i | 0 <= i < j :: images[i].file != name
  }

  ghost predicate HasBefore(images: seq<Image>, ran: seq<nat>, k: nat, name: string)
    requires k <= |ran|
  {
    exists n | 0 <= n < k :: FirstNamed(images, name, ran[n])
  }

  // An order of all images, each of them once, in which every image that a
  // partition names stands before the image of the partition.
  ghost predicate InOrder(images: seq<Image>, ran: seq<nat>) {
    && (forall k | 0 <= k < |ran| :: ran[k] < |images| && ran[k] !in ran[..k])
    && (forall i | 0 <= i < |images| :: i in ran)
    && forall k, m | 0 <= k < |ran| && 0 <= m < |images[ran[k]].partitions| && images[ran[k]].partitions[m].Some? ::
         HasBefore(images, ran, k, images[ran[k]].partitions[m].value)
  }

  lemma {:induction false} FirstIs(images: seq<Image>, name: string, n: nat)
    requires n < |images| && images[n].file == name && forall k | 0 <= k < n :: images[k].file != name
    ensures Lookup(images, name) == Some(n)
    decreases n
  {
    if n == 0 {
    } else {
      FirstIs(images[1..], name, n - 1);
    }
  }

  lemma LookupIff(images: seq<Image>, name: string, j: nat)
    ensures FirstNamed(images, name, j) <==> Lookup(images, name) == Some(j)
  {
    if FirstNamed(images, name, j) {
      FirstIs(images, name, j);
    }
  }

  lemma NamedBefore(images: seq<Image>, ran: seq<nat>, k: nat, name: string, j: nat)
    requires k <= |ran| && Lookup(images, name) == Some(j)
    ensures HasBefore(images, ran, k, name) <==> j in ran[..k]
  {
    hide FirstNamed, Lookup;
    LookupIff(images, name, j);
    if HasBefore(images, ran, k, name) {
      var n :| 0 <= n < k && FirstNamed(images, name, ran[n]);
      LookupIff(images, name, ran[n]);
      assert ran[..k][n] == j;
    }
    if j in ran[..k] {
      var n :| 0 <= n < k && ran[..k][n] == j;
      assert FirstNamed(images, name, ran[n]);
    }
  }

  lemma BeforeIsFound(images: seq<Image>, ran: seq<nat>, k: nat, name: string)
    requires k <= |ran| && HasBefore(images, ran, k, name)
    ensures Lookup(images, name).Some?
  {
    var n :| 0 <= n < k && FirstNamed(images, name, ran[n]);
    LookupIff(images, name, ran[n]);
  }

  // The position of an image in an order.
  function Position(ran: seq<nat>, x: nat): (r: nat)
    requires x in ran
    ensures r < |ran| && ran[r] == x
  {
    if ran[0] == x then 0 else Position(ran[1..], x) + 1
  }

  lemma InOrderIsComplete(images: seq<Image>, ran: seq<nat>)
    requires InOrder(images, ran)
    ensures Complete(images, ran) && forall i | 0 <= i < |images| :: Resolved(images, i)
  {
    hide FirstNamed, Lookup, HasBefore;
    forall k, j: nat | 0 <= k < |ran| && Edge(images, ran[k], j)
      ensures j in ran[..k]
    {
      var parts := images[ran[k]].partitions;
      var m :| 0 <= m < |parts| && Uses(images, parts[m], j);
      NamedBefore(images, ran, k, parts[m].value, j);
    }
    forall i, m | 0 <= i < |images| && 0 <= m < |images[i].partitions| && images[i].partitions[m].Some?
      ensures Lookup(images, images[i].partitions[m].value).Some?
    {
      var k := Position(ran, i);
      BeforeIsFound(images, ran, k, images[ran[k]].partitions[m].value);
    }
  }

  lemma CompleteIsInOrder(images: seq<Image>, ran: seq<nat>)
    requires Complete(images, ran) && forall i | 0 <= i < |images| :: Resolved(images, i)
    ensures InOrder(images, ran)
  {
    hide FirstNamed, Lookup, HasBefore;
    forall k, m | 0 <= k < |ran| && 0 <= m < |images[ran[k]].partitions| && images[ran[k]].partitions[m].Some?
      ensures HasBefore(images, ran, k, images[ran[k]].partitions[m].value)
    {
      var partition := images[ran[k]].partitions[m];
      assert Resolved(images, ran[k]);
      var j := Lookup(images, partition.value).value;
      assert Uses(images, partition, j);
      assert Edge(images, ran[k], j);
      NamedBefore(images, ran, k, partition.value, j);
    }
  }

  lemma {:induction false} BeforePosition(ran: seq<nat>, x: nat, n: nat)
    requires n <= |ran| && x in ran[..n]
    ensures Position(ran, x) < n
    decreases n
  {
    if ran[0] == x {
    } else {
      assert ran[..n] == [ran[0]] + ran[1..][..n - 1];
      BeforePosition(ran[1..], x, n - 1);
    }
  }

  // Along a path the positions go down.
  lemma {:induction false} PathDescends(images: seq<Image>, ran: seq<nat>, p: seq<nat>, k: nat, m: nat)
    requires Complete(images, ran) && Path(images, p) && k < m < |p|
    ensures p[k] in ran && p[m] in ran && Position(ran, p[m]) < Position(ran, p[k])
    decreases m - k
  {
    hide Edge;
    assert Edge(images, p[m - 1], p[m]);
    var at := Position(ran, p[m - 1]);
    assert ran[at] == p[m - 1] && p[m] in ran[..at];
    BeforePosition(ran, p[m], at);
    if k == m - 1 {
    } else {
      PathDescends(images, ran, p, k, m - 1);
    }
  }

  // An order of all images rules out cycles.
  lemma CompleteIsAcyclic(images: seq<Image>, ran: seq<nat>)
    requires Complete(images, ran)
    ensures Acyclic(images)
  {
    hide Edge, Complete;
    forall p: seq<nat> | Path(images, p)
      ensures p[|p| - 1] !in p[..|p| - 1]
    {
      var m := |p| - 1;
      forall k | 0 <= k < m
        ensures p[k] != p[m]
      {
        PathDescends(images, ran, p, k, m);
      }
    }
  }

  // The images can be built if and only if there is such an order, and all handlers work.
  lemma OrderIsBuildable(images: seq<Image>, ran: seq<nat>)
    requires InOrder(images, ran) && forall i | 0 <= i < |images| :: images[i].setupWorks && images[i].generateWorks
    ensures Buildable(images)
  {
    hide InOrder, Complete, Acyclic, Resolved;
    InOrderIsComplete(images, ran);
    CompleteIsAcyclic(images, ran);
  }

  lemma BothWork(images: seq<Image>)
    requires Acyclic(images)
    requires forall i | 0 <= i < |images| :: Resolved(images, i) && images[i].Works(SettingUp) && images[i].Works(Generating)
    ensures Buildable(images)
  {
  }

  lemma PathOfOne(images: seq<Image>, i: nat)
    requires i < |images|
    ensures Path(images, [] + [i])
  {
  }

  lemma FaultIsNotBuildable(images: seq<Image>, pass: Pass, p: seq<nat>)
    requires Fault(images, pass, p)
    ensures !Buildable(images)
  {
    hide Edge, Resolved;
    var last := p[|p| - 1];
    assert Path(images, p) && last < |images|;
  }

  lemma AllHandled(images: seq<Image>, pass: Pass, ran: seq<nat>)
    requires Handled(images, pass, ran) && forall i | 0 <= i < |images| :: i in ran
    ensures Complete(images, ran) && Acyclic(images)
    ensures forall i | 0 <= i < |images| :: Resolved(images, i) && images[i].Works(pass)
  {
    hide Resolved, Edge, Acyclic;
    CompleteIsAcyclic(images, ran);
    forall i | 0 <= i < |images|
      ensures Resolved(images, i) && images[i].Works(pass)
    {
      assert ran[Position(ran, i)] == i;
    }
  }

  // The images that are neither on the stack nor done.
  ghost function Rest(count: nat, stack: seq<nat>, ran: seq<nat>): set<nat> {
    set k: nat | k < count && k !in stack && k !in ran
  }

  lemma RestShrinks(count: nat, stack: seq<nat>, ran: seq<nat>, i: nat, later: seq<nat>)
    requires i < count && i !in stack && i !in ran && ran <= later
    ensures Rest(count, stack + [i], later) < Rest(count, stack, ran)
  {
    assert forall k | k in ran :: k in later;
    assert i in Rest(count, stack, ran) && i !in Rest(count, stack + [i], later);
  }

  // What is at the end of the path to image i.
  lemma LastOfStack(images: seq<Image>, pass: Pass, stack: seq<nat>, i: nat)
    requires Path(images, stack + [i])
    ensures i < |images|
    ensures i in stack || !Resolved(images, i) || !images[i].Works(pass) ==> Fault(images, pass, stack + [i])
  {
    var p := stack + [i];
    assert p[..|stack|] == stack && p[|stack|] == i;
  }

  lemma NotResolved(images: seq<Image>, i: nat, k: nat)
    requires i < |images| && k < |images[i].partitions| && images[i].partitions[k].Some?
    requires Lookup(images, images[i].partitions[k].value).None?
    ensures !Resolved(images, i)
  {
  }

  // The path to an image that image i uses.
  lemma OneFurther(images: seq<Image>, stack: seq<nat>, i: nat, k: nat, j: nat)
    requires Path(images, stack + [i]) && i < |images| && k < |images[i].partitions|
    requires Uses(images, images[i].partitions[k], j)
    ensures Path(images, stack + [i] + [j])
  {
    hide Lookup;
    var p := stack + [i] + [j];
    forall n | 0 < n < |p|
      ensures Edge(images, p[n - 1], p[n])
    {
      if n < |p| - 1 {
        assert Edge(images, (stack + [i])[n - 1], (stack + [i])[n]);
      }
    }
    forall n | 0 <= n < |p|
      ensures p[n] < |images|
    {
      if n < |p| - 1 {
        assert p[n] == (stack + [i])[n];
      }
    }
  }

  // The images of the first k partitions of image i have been handled.
  ghost predicate UsedAreIn(images: seq<Image>, i: nat, k: nat, ran: seq<nat>)
    requires i < |images| && k <= |images[i].partitions|
  {
    forall n | 0 <= n < k && images[i].partitions[n].Some? ::
      Lookup(images, images[i].partitions[n].value).Some? && Lookup(images, images[i].partitions[n].value).value in ran
  }

  lemma NextUsed(images: seq<Image>, i: nat, k: nat, ran: seq<nat>, later: seq<nat>)
    requires i < |images| && k < |images[i].partitions| && UsedAreIn(images, i, k, ran) && ran <= later
    requires images[i].partitions[k].Some? ==>
               Lookup(images, images[i].partitions[k].value).Some? && Lookup(images, images[i].partitions[k].value).value in later
    ensures UsedAreIn(images, i, k + 1, later)
  {
    hide Lookup;
    assert forall j | j in ran :: j in later;
  }

  lemma NoneUsed(images: seq<Image>, i: nat, ran: seq<nat>)
    requires i < |images|
    ensures UsedAreIn(images, i, 0, ran)
  {
  }

  lemma AllResolved(images: seq<Image>, i: nat, ran: seq<nat>)
    requires i < |images| && UsedAreIn(images, i, |images[i].partitions|, ran)
    ensures Resolved(images, i) && forall j: nat | Edge(images, i, j) :: j in ran
  {
    hide Lookup;
  }
}
