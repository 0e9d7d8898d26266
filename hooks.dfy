/**
 * The two clients of the walk on one class: `methodNames`, which collects
 * every readable name, and `aspect(aClass:methodName:replacement:)`, which
 * overwrites the first slot whose name is exactly the one asked for.
 */
module Hooks {
  import opened Wrappers
  import opened Metadata
  import opened Symbols
  import opened Traversal

  // ---------------------------------------------------------------------------
  // methodNames

  /** The callback of `methodNames`: append the name, leave the slot alone, never stop. */
  function CollectName(names: seq<string>, name: string, impl: Addr): Step<seq<string>> {
    Step(names + [name], impl, false)
  }

  /** The readable names of the slots of `[i, n)`, in slot order. */
  function ResolvedNames(rt: Runtime, vt: seq<Slot>, i: nat, n: nat): seq<string>
    requires i <= n <= |vt|
    decreases n - i
  {
    if i == n then []
    else
      match Resolve(rt, vt[i])
      case None => ResolvedNames(rt, vt, i + 1, n)
      case Some(name) => [name] + ResolvedNames(rt, vt, i + 1, n)
  }

  /** One name per resolvable slot: the `j`-th name is that of the `j`-th resolvable slot. */
  lemma {:induction false} ResolvedNamesAt(rt: Runtime, vt: seq<Slot>, i: nat, n: nat)
    requires i <= n <= |vt|
    ensures |ResolvedNames(rt, vt, i, n)| == |Resolvable(rt, vt, i, n)|
    ensures forall j :: 0 <= j < |Resolvable(rt, vt, i, n)| ==>
      Resolvable(rt, vt, i, n)[j] < |vt|
      && Resolve(rt, vt[Resolvable(rt, vt, i, n)[j]]) == Some(ResolvedNames(rt, vt, i, n)[j])
    decreases n - i
  {
    if i < n {
      ResolvedNamesAt(rt, vt, i + 1, n);
      ResolvableFrom(rt, vt, i, n);
      ResolvedNamesFrom(rt, vt, i, n);
      var slots, names := Resolvable(rt, vt, i + 1, n), ResolvedNames(rt, vt, i + 1, n);
      match Resolve(rt, vt[i])
      case None =>
        assert Resolvable(rt, vt, i, n) == slots;
        assert ResolvedNames(rt, vt, i, n) == names;
      case Some(name) =>
        assert Resolvable(rt, vt, i, n) == [i] + slots;
        assert ResolvedNames(rt, vt, i, n) == [name] + names;
        forall j | 0 <= j < |slots| + 1
          ensures ([i] + slots)[j] < |vt| && Resolve(rt, vt[([i] + slots)[j]]) == Some(([name] + names)[j])
        {
          if j > 0 {
            assert ([i] + slots)[j] == slots[j - 1];
            assert ([name] + names)[j] == names[j - 1];
          }
        }
    }
  }

  lemma ResolvedNamesFrom(rt: Runtime, vt: seq<Slot>, i: nat, n: nat)
    requires i < n <= |vt|
    ensures var r := Resolve(rt, vt[i]);
      ResolvedNames(rt, vt, i, n) == (if r.Some? then [r.value] else []) + ResolvedNames(rt, vt, i + 1, n)
  {
  }

  /** What `methodNames` returns for a class: nothing for an ineligible class. */
  function ListedNames(rt: Runtime, img: ClassImage): seq<string>
    requires WellFormed(img)
  {
    if Eligible(img.name)
    then ResolvedNames(rt, img.vtable, 0, SlotCount(img.classSize, img.classAddressOffset) as nat)
    else []
  }

  /** The collecting walk never stops, changes no slot, and appends exactly the resolved names. */
  lemma {:induction false} CollectWalk(rt: Runtime, vt: seq<Slot>, i: nat, n: nat, names: seq<string>)
    requires i <= n <= |vt|
    ensures Walk(rt, CollectName, vt, i, n, names)
      == Walked(names + ResolvedNames(rt, vt, i, n), vt, false, Resolvable(rt, vt, i, n))
    decreases n - i
  {
    if i == n {
      assert names + [] == names;
    } else {
      var r := Resolve(rt, vt[i]);
      var here: seq<nat> := if r.Some? then [i] else [];
      var found: seq<string> := if r.Some? then [r.value] else [];
      var next := if r.Some? then names + [r.value] else names;
      assert next == names + found;
      CollectStep(rt, vt, i, n, names);
      CollectWalk(rt, vt, i + 1, n, next);
      ResolvableFrom(rt, vt, i, n);
      ResolvedNamesFrom(rt, vt, i, n);
      assert (names + found) + ResolvedNames(rt, vt, i + 1, n) == names + (found + ResolvedNames(rt, vt, i + 1, n));
      assert Resolvable(rt, vt, i, n) == here + Resolvable(rt, vt, i + 1, n);
      assert ResolvedNames(rt, vt, i, n) == found + ResolvedNames(rt, vt, i + 1, n);
    }
  }

  /** One turn of the collecting loop: a readable slot adds its name, and no slot changes. */
  lemma CollectStep(rt: Runtime, vt: seq<Slot>, i: nat, n: nat, names: seq<string>)
    requires i < n <= |vt|
    ensures var r := Resolve(rt, vt[i]);
      Walk(rt, CollectName, vt, i, n, names)
        == Prepend(if r.Some? then [i] else [],
                   Walk(rt, CollectName, vt, i + 1, n, if r.Some? then names + [r.value] else names))
  {
    match Resolve(rt, vt[i])
    case None =>
      assert Visit(rt, CollectName, vt, i, names) == Walked(names, vt, false, []);
    case Some(name) =>
      assert vt[i := Some(vt[i].value)] == vt;
      assert CollectName(names, name, vt[i].value) == Step(names + [name], vt[i].value, false);
      assert Visit(rt, CollectName, vt, i, names) == Walked(names + [name], vt, false, [i]);
  }

  /** `methodNames` as the walk computes it: the listed names, no slot changed, no early stop. */
  lemma MethodNamesIterate(rt: Runtime, img: ClassImage)
    requires WellFormed(img)
    ensures var w := Iterate(rt, CollectName, img, []);
      w.state == ListedNames(rt, img) && w.vtable == img.vtable && !w.stopped
  {
    if Eligible(img.name) {
      CollectWalk(rt, img.vtable, 0, SlotCount(img.classSize, img.classAddressOffset) as nat, []);
    }
  }

  /** The names of all readable slots of `c`, in slot order. */
  method MethodNames(rt: Runtime, c: ClassMetadata) returns (names: seq<string>)
    requires c.Valid()
    modifies c.vtable
    ensures names == ListedNames(rt, old(c.Image()))
    ensures c.vtable[..] == old(c.vtable[..])
  {
    MethodNamesIterate(rt, c.Image());
    var stop;
    ghost var visited;
    stop, names, visited := IterateMethods(rt, c, CollectName, []);
  }

  // ---------------------------------------------------------------------------
  // aspect(aClass:methodName:replacement:)

  /** The callback of `aspect(aClass:)`: on an exact name match, store the replacement and stop. */
  function ReplaceNamed(methodName: string, replacement: Addr): ((), string, Addr) -> Step<()> {
    (u: (), name: string, impl: Addr) =>
      if name == methodName then Step(u, replacement, true) else Step(u, impl, false)
  }

  /** The first slot of `[i, n)` whose readable name is exactly `target`. */
  function FirstMatch(rt: Runtime, vt: seq<Slot>, i: nat, n: nat, target: string): (r: Option<nat>)
    requires i <= n <= |vt|
    ensures r.Some? ==> i <= r.value < n && Resolve(rt, vt[r.value]) == Some(target)
    ensures forall k :: i <= k < n && (r.None? || k < r.value) ==> Resolve(rt, vt[k]) != Some(target)
    decreases n - i
  {
    if i == n then None
    else if Resolve(rt, vt[i]) == Some(target) then Some(i)
    else FirstMatch(rt, vt, i + 1, n, target)
  }

  /** The slot `aspect(aClass:)` patches, if any: none for an ineligible class. */
  function MatchIndex(rt: Runtime, img: ClassImage, target: string): (r: Option<nat>)
    requires WellFormed(img)
    ensures r.Some? ==> r.value < |img.vtable|
  {
    if Eligible(img.name)
    then FirstMatch(rt, img.vtable, 0, SlotCount(img.classSize, img.classAddressOffset) as nat, target)
    else None
  }

  /**
   * The class after `aspect(aClass:)`: the matched slot holds the replacement and
   * every other slot, and every field, is as before.
   */
  function Hooked(rt: Runtime, img: ClassImage, target: string, replacement: Addr): (r: ClassImage)
    requires WellFormed(img)
    ensures SameShape(img, r)
    ensures MatchIndex(rt, img, target).Some? ==> r.vtable[MatchIndex(rt, img, target).value] == Some(replacement)
    ensures forall k :: 0 <= k < |img.vtable| && MatchIndex(rt, img, target) != Some(k) ==> r.vtable[k] == img.vtable[k]
  {
    match MatchIndex(rt, img, target)
    case None => img
    case Some(k) => img.(vtable := img.vtable[k := Some(replacement)])
  }

  /** What the replacing walk over `[i, n)` leaves: the first match patched, or nothing changed. */
  function Replaced(rt: Runtime, vt: seq<Slot>, i: nat, n: nat, target: string, replacement: Addr): Walked<()>
    requires i <= n <= |vt|
  {
    match FirstMatch(rt, vt, i, n, target)
    case None => Walked((), vt, false, Resolvable(rt, vt, i, n))
    case Some(k) => Walked((), vt[k := Some(replacement)], true, Resolvable(rt, vt, i, k + 1))
  }

  /** The replacing walk stops exactly at the first match, having patched that slot and no other. */
  lemma {:induction false} ReplaceWalk(rt: Runtime, vt: seq<Slot>, i: nat, n: nat, target: string, replacement: Addr)
    requires i <= n <= |vt|
    ensures Walk(rt, ReplaceNamed(target, replacement), vt, i, n, ()) == Replaced(rt, vt, i, n, target, replacement)
    decreases n - i
  {
    if i < n {
      var cb := ReplaceNamed(target, replacement);
      var r := Resolve(rt, vt[i]);
      if r == Some(target) {
        assert cb((), target, vt[i].value) == Step((), replacement, true);
        assert FirstMatch(rt, vt, i, n, target) == Some(i);
        ResolvableFrom(rt, vt, i, i + 1);
      } else {
        if r.Some? {
          assert cb((), r.value, vt[i].value) == Step((), vt[i].value, false);
          assert vt[i := Some(vt[i].value)] == vt;
        }
        var here: seq<nat> := if r.Some? then [i] else [];
        assert Walk(rt, cb, vt, i, n, ()) == Prepend(here, Walk(rt, cb, vt, i + 1, n, ()));
        ReplaceWalk(rt, vt, i + 1, n, target, replacement);
        var m := FirstMatch(rt, vt, i, n, target);
        assert m == FirstMatch(rt, vt, i + 1, n, target);
        if m.Some? {
          ResolvableFrom(rt, vt, i, m.value + 1);
        } else {
          ResolvableFrom(rt, vt, i, n);
        }
      }
    }
  }

  /** `aspect(aClass:)` as the walk computes it: it reports a match exactly when it patched one. */
  lemma AspectIterate(rt: Runtime, img: ClassImage, target: string, replacement: Addr)
    requires WellFormed(img)
    ensures var w := Iterate(rt, ReplaceNamed(target, replacement), img, ());
      w.stopped == MatchIndex(rt, img, target).Some? && w.vtable == Hooked(rt, img, target, replacement).vtable
  {
    if Eligible(img.name) {
      ReplaceWalk(rt, img.vtable, 0, SlotCount(img.classSize, img.classAddressOffset) as nat, target, replacement);
    }
  }

  /** A slot with name `target` exists in `[i, n)` exactly when `target` is among the resolved names. */
  lemma {:induction false} FirstMatchIffResolved(rt: Runtime, vt: seq<Slot>, i: nat, n: nat, target: string)
    requires i <= n <= |vt|
    ensures FirstMatch(rt, vt, i, n, target).Some? <==> target in ResolvedNames(rt, vt, i, n)
    decreases n - i
  {
    if i < n {
      FirstMatchIffResolved(rt, vt, i + 1, n, target);
    }
  }

  /** `aspect(aClass:)` succeeds exactly when `methodNames` lists the name. */
  lemma AspectIffListed(rt: Runtime, img: ClassImage, target: string)
    requires WellFormed(img)
    ensures MatchIndex(rt, img, target).Some? <==> target in ListedNames(rt, img)
  {
    if Eligible(img.name) {
      FirstMatchIffResolved(rt, img.vtable, 0, SlotCount(img.classSize, img.classAddressOffset) as nat, target);
    }
  }

  /** Overwrites the first slot of `c` named exactly `methodName` with `replacement`; reports whether it did. */
  method Aspect(rt: Runtime, c: ClassMetadata, methodName: string, replacement: Addr) returns (found: bool)
    requires c.Valid()
    modifies c.vtable
    ensures found == MatchIndex(rt, old(c.Image()), methodName).Some?
    ensures c.Image() == Hooked(rt, old(c.Image()), methodName, replacement)
  {
    AspectIterate(rt, c.Image(), methodName, replacement);
    var u;
    ghost var visited;
    found, u, visited := IterateMethods(rt, c, ReplaceNamed(methodName, replacement), ());
  }
}
