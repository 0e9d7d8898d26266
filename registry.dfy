/**
 * `forAllClasses` and `aspect(methodName:replacement:)`: the walk over the
 * runtime's class list that runs a per-class callback on each class in order,
 * stopping at the first class for which the callback sets `stop`.
 *
 * The class list is what `objc_copyClassList` returns: `None` for a null
 * buffer, otherwise the classes in the order the runtime lists them.
 */
module Registry {
  import opened Wrappers
  import opened Metadata
  import opened Symbols
  import opened Hooks

  /**
   * The callback handed to `forAllClasses`. Its one caller passes the closure
   * of `aspect(methodName:replacement:)`, which hooks the class and sets `stop`
   * on success.
   */
  datatype ClassCallback = AspectEach(methodName: string, replacement: Addr)

  predicate AllWellFormed(imgs: seq<ClassImage>) {
    forall k :: 0 <= k < |imgs| ==> WellFormed(imgs[k])
  }

  /** What the callback does to one class: whether it set `stop`, and the class afterwards. */
  function OnClass(rt: Runtime, cb: ClassCallback, img: ClassImage): (r: (bool, ClassImage))
    requires WellFormed(img)
    ensures SameShape(img, r.1) && WellFormed(r.1)
  {
    match cb
    case AspectEach(methodName, replacement) =>
      (MatchIndex(rt, img, methodName).Some?, Hooked(rt, img, methodName, replacement))
  }

  /** Outcome of a walk over classes: the classes afterwards, `stopped`, and the indices handed to the callback. */
  datatype Swept = Swept(images: seq<ClassImage>, stopped: bool, visited: seq<nat>)

  function VisitClass(rt: Runtime, cb: ClassCallback, imgs: seq<ClassImage>, j: nat): (r: Swept)
    requires j < |imgs| && AllWellFormed(imgs)
    ensures |r.images| == |imgs| && AllWellFormed(r.images)
  {
    var (stop, img) := OnClass(rt, cb, imgs[j]);
    Swept(imgs[j := img], stop, [j])
  }

  function PrependClasses(v: seq<nat>, w: Swept): Swept {
    w.(visited := v + w.visited)
  }

  /** The loop of `forAllClasses` from class `j` on. */
  function Sweep(rt: Runtime, cb: ClassCallback, imgs: seq<ClassImage>, j: nat): (r: Swept)
    requires j <= |imgs| && AllWellFormed(imgs)
    ensures |r.images| == |imgs| && AllWellFormed(r.images)
    decreases |imgs| - j
  {
    if j == |imgs| then Swept(imgs, false, [])
    else
      var v := VisitClass(rt, cb, imgs, j);
      if v.stopped then v else PrependClasses(v.visited, Sweep(rt, cb, v.images, j + 1))
  }

  /** `j, j + 1, ..., m - 1`. */
  function Range(j: nat, m: nat): (r: seq<nat>)
    requires j <= m
    ensures |r| == m - j && forall k :: 0 <= k < |r| ==> r[k] == j + k
    decreases m - j
  {
    if j == m then [] else [j] + Range(j + 1, m)
  }

  /**
   * Classes are handed to the callback in list order, none skipped: every class
   * from `j` on when no callback sets `stop`, otherwise up to and including the
   * first class whose callback sets it.
   */
  lemma {:induction false} SweepInOrder(rt: Runtime, cb: ClassCallback, imgs: seq<ClassImage>, j: nat)
    requires j <= |imgs| && AllWellFormed(imgs)
    ensures var r := Sweep(rt, cb, imgs, j);
      && (!r.stopped ==> r.visited == Range(j, |imgs|) && forall k :: j <= k < |imgs| ==> !OnClass(rt, cb, imgs[k]).0)
      && (r.stopped ==>
            exists m :: j < m <= |imgs| && r.visited == Range(j, m) && OnClass(rt, cb, imgs[m - 1]).0
              && (forall k :: j <= k < m - 1 ==> !OnClass(rt, cb, imgs[k]).0))
    decreases |imgs| - j
  {
    if j < |imgs| {
      var v := VisitClass(rt, cb, imgs, j);
      if v.stopped {
        assert v.visited == Range(j, j + 1);
      } else {
        SweepInOrder(rt, cb, v.images, j + 1);
        var w := Sweep(rt, cb, v.images, j + 1);
        assert forall k :: j + 1 <= k < |imgs| ==> v.images[k] == imgs[k];
        if w.stopped {
          var m :| j + 1 < m <= |imgs| && w.visited == Range(j + 1, m)
            && OnClass(rt, cb, v.images[m - 1]).0 && forall k :: j + 1 <= k < m - 1 ==> !OnClass(rt, cb, v.images[k]).0;
          assert [j] + w.visited == Range(j, m);
        }
      }
    }
  }

  // ---------------------------------------------------------------------------
  // aspect(methodName:replacement:)

  /** The first class from `j` on that `aspect(aClass:)` would hook. */
  function FirstHookable(rt: Runtime, imgs: seq<ClassImage>, j: nat, methodName: string): (r: Option<nat>)
    requires j <= |imgs| && AllWellFormed(imgs)
    ensures r.Some? ==> j <= r.value < |imgs| && MatchIndex(rt, imgs[r.value], methodName).Some?
    ensures forall k :: j <= k < |imgs| && (r.None? || k < r.value) ==> MatchIndex(rt, imgs[k], methodName).None?
    decreases |imgs| - j
  {
    if j == |imgs| then None
    else if MatchIndex(rt, imgs[j], methodName).Some? then Some(j)
    else FirstHookable(rt, imgs, j + 1, methodName)
  }

  /** The classes after `aspect(methodName:)`: the first hookable class hooked, all others as they were. */
  function HookedAll(rt: Runtime, imgs: seq<ClassImage>, methodName: string, replacement: Addr): (r: seq<ClassImage>)
    requires AllWellFormed(imgs)
    ensures |r| == |imgs| && AllWellFormed(r)
  {
    match FirstHookable(rt, imgs, 0, methodName)
    case None => imgs
    case Some(c) => imgs[c := Hooked(rt, imgs[c], methodName, replacement)]
  }

  /** The sweep with the aspect callback stops at the first hookable class and changes that class only. */
  lemma {:induction false} AspectSweep(rt: Runtime, imgs: seq<ClassImage>, j: nat, methodName: string, replacement: Addr)
    requires j <= |imgs| && AllWellFormed(imgs)
    ensures Sweep(rt, AspectEach(methodName, replacement), imgs, j)
      == match FirstHookable(rt, imgs, j, methodName)
         case None => Swept(imgs, false, Range(j, |imgs|))
         case Some(c) => Swept(imgs[c := Hooked(rt, imgs[c], methodName, replacement)], true, Range(j, c + 1))
    decreases |imgs| - j
  {
    if j < |imgs| {
      var cb := AspectEach(methodName, replacement);
      if MatchIndex(rt, imgs[j], methodName).None? {
        assert Hooked(rt, imgs[j], methodName, replacement) == imgs[j];
        assert imgs[j := imgs[j]] == imgs;
        AspectSweep(rt, imgs, j + 1, methodName, replacement);
      }
    }
  }

  /**
   * `aspect(methodName:)` patches at most one slot in at most one class: the
   * first matching slot of the first class, in list order, that has one.
   */
  lemma AspectAllChangesOneSlot(rt: Runtime, imgs: seq<ClassImage>, methodName: string, replacement: Addr)
    requires AllWellFormed(imgs)
    ensures var r := HookedAll(rt, imgs, methodName, replacement);
      forall a, k :: 0 <= a < |imgs| && 0 <= k < |imgs[a].vtable| ==>
        |r[a].vtable| == |imgs[a].vtable|
        && (r[a].vtable[k] != imgs[a].vtable[k] ==>
              FirstHookable(rt, imgs, 0, methodName) == Some(a) && MatchIndex(rt, imgs[a], methodName) == Some(k))
  {
  }

  /** Whatever `aspect(methodName:)` hooks, every class keeps its name, size fields and slot count. */
  lemma AspectAllKeepsShape(rt: Runtime, imgs: seq<ClassImage>, methodName: string, replacement: Addr)
    requires AllWellFormed(imgs)
    ensures var r := HookedAll(rt, imgs, methodName, replacement);
      forall a :: 0 <= a < |imgs| ==> SameShape(imgs[a], r[a])
  {
  }

  // ---------------------------------------------------------------------------
  // The loops over live classes

  ghost function Vtables(classes: seq<ClassMetadata>): set<array<Slot>> {
    set k | 0 <= k < |classes| :: classes[k].vtable
  }

  /** Every listed class is well formed and no two share slot memory. */
  ghost predicate ValidRegistry(classes: seq<ClassMetadata>) {
    && (forall k :: 0 <= k < |classes| ==> classes[k].Valid())
    && (forall a, b :: 0 <= a < b < |classes| ==> classes[a].vtable != classes[b].vtable)
  }

  ghost function Images(classes: seq<ClassMetadata>): (r: seq<ClassImage>)
    reads Vtables(classes)
    ensures |r| == |classes| && forall k :: 0 <= k < |classes| ==> r[k] == classes[k].Image()
  {
    seq(|classes|, k requires 0 <= k < |classes| reads Vtables(classes) => classes[k].Image())
  }

  lemma ValidRegistryWellFormed(classes: seq<ClassMetadata>, imgs: seq<ClassImage>)
    requires ValidRegistry(classes)
    requires |imgs| == |classes| && forall k :: 0 <= k < |classes| ==> SameShape(classes[k].Image(), imgs[k])
    ensures AllWellFormed(imgs)
  {
  }

  /**
   * Runs `cb` on each listed class in order until one sets `stop`; returns
   * whether one did, and `false` when the class list is null.
   */
  method ForAllClasses(rt: Runtime, registry: Option<seq<ClassMetadata>>, cb: ClassCallback) returns (stopped: bool)
    requires registry.Some? ==> ValidRegistry(registry.value)
    modifies if registry.Some? then Vtables(registry.value) else {}
    ensures registry.None? ==> !stopped
    ensures registry.Some? ==>
      AllWellFormed(old(Images(registry.value)))
      && var w := Sweep(rt, cb, old(Images(registry.value)), 0);
         stopped == w.stopped && Images(registry.value) == w.images
  {
    stopped := false;
    if registry.None? {
      return;
    }
    var classes := registry.value;
    ValidRegistryWellFormed(classes, Images(classes));
    ghost var whole := Sweep(rt, cb, Images(classes), 0);
    ghost var visited: seq<nat> := [];
    var j := 0;
    while j < |classes|
      invariant 0 <= j <= |classes|
      invariant AllWellFormed(Images(classes))
      invariant PrependClasses(visited, Sweep(rt, cb, Images(classes), j)) == whole
      decreases |classes| - j
    {
      ghost var before := Images(classes);
      ghost var v := VisitClass(rt, cb, before, j);
      assert classes[j].vtable in Vtables(classes);
      match cb {
        case AspectEach(methodName, replacement) =>
          stopped := Aspect(rt, classes[j], methodName, replacement);
      }
      forall k | 0 <= k < |classes| ensures Images(classes)[k] == v.images[k] {
        if k != j {
          assert classes[k].vtable != classes[j].vtable;
        }
      }
      assert Images(classes) == v.images;
      if stopped {
        visited := visited + [j];
        break;
      }
      assert visited + ([j] + Sweep(rt, cb, v.images, j + 1).visited)
        == (visited + [j]) + Sweep(rt, cb, v.images, j + 1).visited;
      visited := visited + [j];
      j := j + 1;
    }
  }

  /**
   * Hooks `methodName` in the first listed class that has a slot of that name;
   * reports whether some class did.
   */
  method AspectAll(rt: Runtime, registry: Option<seq<ClassMetadata>>, methodName: string, replacement: Addr)
    returns (found: bool)
    requires registry.Some? ==> ValidRegistry(registry.value)
    modifies if registry.Some? then Vtables(registry.value) else {}
    ensures registry.None? ==> !found
    ensures registry.Some? ==>
      AllWellFormed(old(Images(registry.value)))
      && found == FirstHookable(rt, old(Images(registry.value)), 0, methodName).Some?
      && Images(registry.value) == HookedAll(rt, old(Images(registry.value)), methodName, replacement)
  {
    if registry.Some? {
      ValidRegistryWellFormed(registry.value, Images(registry.value));
      AspectSweep(rt, Images(registry.value), 0, methodName, replacement);
    }
    found := ForAllClasses(rt, registry, AspectEach(methodName, replacement));
  }
}
