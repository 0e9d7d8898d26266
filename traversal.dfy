/**
 * `iterateMethods`: the walk over a class's slots that hands every slot with a
 * readable name to a callback, and stops as soon as the callback asks it to.
 *
 * A Swift callback gets the name, a mutable reference to the slot and the `stop`
 * flag, and may update the state its closure captures. Here it is a function
 * from the captured state, the name and the slot's current address to a `Step`:
 * the new state, the address the slot holds afterwards and the new `stop`.
 */
module Traversal {
  import opened Wrappers
  import opened Metadata
  import opened Symbols

  datatype Step<S> = Step(state: S, slot: Addr, stop: bool)

  /** Outcome of a walk: the callback's final state, the slots, the `stop` flag, and the slots handed to the callback. */
  datatype Walked<S> = Walked(state: S, vtable: seq<Slot>, stopped: bool, visited: seq<nat>)

  predicate Increasing(s: seq<nat>) {
    forall a, b :: 0 <= a < b < |s| ==> s[a] < s[b]
  }

  /** Indices in `[i, n)` of the slots that resolve to a readable name, in ascending order. */
  function Resolvable(rt: Runtime, vt: seq<Slot>, i: nat, n: nat): seq<nat>
    requires i <= n <= |vt|
    decreases n - i
  {
    if i == n then []
    else if Resolve(rt, vt[i]).Some? then [i] + Resolvable(rt, vt, i + 1, n)
    else Resolvable(rt, vt, i + 1, n)
  }

  /**
   * `Resolvable` lists exactly the resolvable slots of `[i, n)`, each once, in
   * strictly ascending order.
   */
  lemma {:induction false} ResolvableSpec(rt: Runtime, vt: seq<Slot>, i: nat, n: nat)
    requires i <= n <= |vt|
    ensures var r := Resolvable(rt, vt, i, n);
      && (forall j :: 0 <= j < |r| ==> i <= r[j] < n)
      && (forall k :: k in r <==> i <= k < n && Resolve(rt, vt[k]).Some?)
      && Increasing(r)
    decreases n - i
  {
    if i < n {
      ResolvableSpec(rt, vt, i + 1, n);
      var rest := Resolvable(rt, vt, i + 1, n);
      if Resolve(rt, vt[i]).Some? {
        assert Resolvable(rt, vt, i, n) == [i] + rest;
        forall b | 0 <= b < |rest| ensures i < rest[b] { }
      }
    }
  }

  /** Resolvability of a range depends only on the slots in that range. */
  lemma {:induction false} ResolvableAgree(rt: Runtime, vt: seq<Slot>, vt': seq<Slot>, i: nat, n: nat)
    requires i <= n <= |vt| && n <= |vt'|
    requires forall k :: i <= k < n ==> vt[k] == vt'[k]
    ensures Resolvable(rt, vt, i, n) == Resolvable(rt, vt', i, n)
    decreases n - i
  {
    if i < n {
      ResolvableAgree(rt, vt, vt', i + 1, n);
    }
  }

  lemma ResolvableFrom(rt: Runtime, vt: seq<Slot>, i: nat, n: nat)
    requires i < n <= |vt|
    ensures Resolvable(rt, vt, i, n)
      == (if Resolve(rt, vt[i]).Some? then [i] else []) + Resolvable(rt, vt, i + 1, n)
  {
  }

  /** The body of the loop for slot `k`: skip it, or call the callback and store what it leaves in the slot. */
  function Visit<S>(rt: Runtime, cb: (S, string, Addr) -> Step<S>, vt: seq<Slot>, k: nat, s: S): Walked<S>
    requires k < |vt|
  {
    match Resolve(rt, vt[k])
    case None => Walked(s, vt, false, [])
    case Some(name) =>
      var st := cb(s, name, vt[k].value);
      Walked(st.state, vt[k := Some(st.slot)], st.stop, [k])
  }

  function Prepend<S>(v: seq<nat>, w: Walked<S>): Walked<S> {
    w.(visited := v + w.visited)
  }

  /** The loop over slots `[i, n)` with state `s`: the specification of `IterateMethods`. */
  function Walk<S>(rt: Runtime, cb: (S, string, Addr) -> Step<S>, vt: seq<Slot>, i: nat, n: nat, s: S): (r: Walked<S>)
    requires i <= n <= |vt|
    ensures |r.vtable| == |vt|
    decreases n - i
  {
    if i == n then Walked(s, vt, false, [])
    else
      var v := Visit(rt, cb, vt, i, s);
      if v.stopped then v else Prepend(v.visited, Walk(rt, cb, v.vtable, i + 1, n, v.state))
  }

  /** One turn of the loop. */
  lemma WalkStep<S>(rt: Runtime, cb: (S, string, Addr) -> Step<S>, vt: seq<Slot>, i: nat, n: nat, s: S)
    requires i < n <= |vt|
    ensures var v := Visit(rt, cb, vt, i, s);
      Walk(rt, cb, vt, i, n, s) == if v.stopped then v else Prepend(v.visited, Walk(rt, cb, v.vtable, i + 1, n, v.state))
  {
  }

  lemma PrependTwice<S>(a: seq<nat>, b: seq<nat>, w: Walked<S>)
    ensures Prepend(a, Prepend(b, w)) == Prepend(a + b, w)
  {
    assert a + (b + w.visited) == (a + b) + w.visited;
  }

  /** The whole of `iterateMethods` on a snapshot: the name filter, then the walk over `SlotCount` slots. */
  function Iterate<S>(rt: Runtime, cb: (S, string, Addr) -> Step<S>, img: ClassImage, s0: S): Walked<S>
    requires WellFormed(img)
  {
    if !Eligible(img.name) then Walked(s0, img.vtable, false, [])
    else Walk(rt, cb, img.vtable, 0, SlotCount(img.classSize, img.classAddressOffset) as nat, s0)
  }

  // ---------------------------------------------------------------------------
  // What every walk does, whatever the callback

  /** An ineligible class: `false`, no callback, every slot as it was. */
  lemma IterateIneligible<S>(rt: Runtime, cb: (S, string, Addr) -> Step<S>, img: ClassImage, s0: S)
    requires WellFormed(img) && !Eligible(img.name)
    ensures Iterate(rt, cb, img, s0) == Walked(s0, img.vtable, false, [])
  {
  }

  function Last(s: seq<nat>): nat
    requires s != []
  {
    s[|s| - 1]
  }

  /** Without a `stop`, the callback is called on every resolvable slot of `[i, n)`, in ascending order. */
  lemma {:induction false} WalkVisitsResolvable<S>(rt: Runtime, cb: (S, string, Addr) -> Step<S>, vt: seq<Slot>, i: nat, n: nat, s: S)
    requires i <= n <= |vt|
    requires !Walk(rt, cb, vt, i, n, s).stopped
    ensures Walk(rt, cb, vt, i, n, s).visited == Resolvable(rt, vt, i, n)
    decreases n - i
  {
    if i < n {
      var v := Visit(rt, cb, vt, i, s);
      var here: seq<nat> := if Resolve(rt, vt[i]).Some? then [i] else [];
      assert v.visited == here;
      WalkVisitsResolvable(rt, cb, v.vtable, i + 1, n, v.state);
      ResolvableAgree(rt, vt, v.vtable, i + 1, n);
      ResolvableFrom(rt, vt, i, n);
    }
  }

  /**
   * When a callback sets `stop`, the callback was called on the resolvable slots of
   * `[i, n)` in ascending order up to and including the one that set it, and no further.
   */
  lemma {:induction false} WalkVisitsUntilStop<S>(rt: Runtime, cb: (S, string, Addr) -> Step<S>, vt: seq<Slot>, i: nat, n: nat, s: S)
    requires i <= n <= |vt|
    requires Walk(rt, cb, vt, i, n, s).stopped
    ensures var r := Walk(rt, cb, vt, i, n, s);
      r.visited != [] && i <= Last(r.visited) < n && r.visited == Resolvable(rt, vt, i, Last(r.visited) + 1)
    decreases n - i
  {
    assert i < n;
    var v := Visit(rt, cb, vt, i, s);
    var here: seq<nat> := if Resolve(rt, vt[i]).Some? then [i] else [];
    assert v.visited == here;
    if v.stopped {
      ResolvableFrom(rt, vt, i, i + 1);
      assert Resolvable(rt, vt, i + 1, i + 1) == [];
    } else {
      var w := Walk(rt, cb, v.vtable, i + 1, n, v.state);
      assert Walk(rt, cb, vt, i, n, s) == Prepend(here, w);
      WalkVisitsUntilStop(rt, cb, v.vtable, i + 1, n, v.state);
      var last := Last(w.visited);
      assert Last(here + w.visited) == last;
      ResolvableAgree(rt, vt, v.vtable, i + 1, last + 1);
      ResolvableFrom(rt, vt, i, last + 1);
    }
  }

  /** A slot the callback was not handed keeps its contents. */
  lemma {:induction false} WalkFrame<S>(rt: Runtime, cb: (S, string, Addr) -> Step<S>, vt: seq<Slot>, i: nat, n: nat, s: S)
    requires i <= n <= |vt|
    ensures var r := Walk(rt, cb, vt, i, n, s);
      forall k :: 0 <= k < |vt| && k !in r.visited ==> r.vtable[k] == vt[k]
    decreases n - i
  {
    if i < n {
      var v := Visit(rt, cb, vt, i, s);
      if !v.stopped {
        WalkFrame(rt, cb, v.vtable, i + 1, n, v.state);
      }
    }
  }

  /**
   * Walking `[i, n)` is walking `[i, k)` and, unless that stopped, walking `[k, n)`
   * from where it left off. In particular once a callback sets `stop`, no later slot is visited.
   */
  lemma {:induction false} WalkSplit<S>(rt: Runtime, cb: (S, string, Addr) -> Step<S>, vt: seq<Slot>, i: nat, k: nat, n: nat, s: S)
    requires i <= k <= n <= |vt|
    ensures var w := Walk(rt, cb, vt, i, k, s);
      Walk(rt, cb, vt, i, n, s)
        == if w.stopped then w else Prepend(w.visited, Walk(rt, cb, w.vtable, k, n, w.state))
    decreases k - i
  {
    if i == k {
      assert Walk(rt, cb, vt, i, k, s).visited == [];
    } else {
      var v := Visit(rt, cb, vt, i, s);
      if !v.stopped {
        WalkSplit(rt, cb, v.vtable, i + 1, k, n, v.state);
        var w' := Walk(rt, cb, v.vtable, i + 1, k, v.state);
        if !w'.stopped {
          var rest := Walk(rt, cb, w'.vtable, k, n, w'.state);
          assert v.visited + (w'.visited + rest.visited) == (v.visited + w'.visited) + rest.visited;
        }
      }
    }
  }

  /** The callback at slot `k`, reached by a walk from `i` that had not stopped before it, sets `stop`. */
  predicate StopsAt<S>(rt: Runtime, cb: (S, string, Addr) -> Step<S>, vt: seq<Slot>, i: nat, k: nat, s: S)
    requires i <= k < |vt|
  {
    var w := Walk(rt, cb, vt, i, k, s);
    !w.stopped && Visit(rt, cb, w.vtable, k, w.state).stopped
  }

  /** `iterateMethods` returns `true` exactly when some callback on `[i, n)` set `stop`. */
  lemma {:induction false} WalkStoppedIff<S>(rt: Runtime, cb: (S, string, Addr) -> Step<S>, vt: seq<Slot>, i: nat, n: nat, s: S)
    requires i <= n <= |vt|
    ensures Walk(rt, cb, vt, i, n, s).stopped <==> exists k :: i <= k < n && StopsAt(rt, cb, vt, i, k, s)
    decreases n - i
  {
    if i < n {
      var v := Visit(rt, cb, vt, i, s);
      assert Walk(rt, cb, vt, i, i, s) == Walked(s, vt, false, []);
      if v.stopped {
        assert StopsAt(rt, cb, vt, i, i, s);
      } else {
        assert !StopsAt(rt, cb, vt, i, i, s);
        WalkStoppedIff(rt, cb, v.vtable, i + 1, n, v.state);
        forall k | i + 1 <= k < n
          ensures StopsAt(rt, cb, vt, i, k, s) == StopsAt(rt, cb, v.vtable, i + 1, k, v.state)
        {
          assert Walk(rt, cb, vt, i, k, s) == Prepend(v.visited, Walk(rt, cb, v.vtable, i + 1, k, v.state));
        }
        if Walk(rt, cb, vt, i, n, s).stopped {
          var k :| i + 1 <= k < n && StopsAt(rt, cb, v.vtable, i + 1, k, v.state);
          assert StopsAt(rt, cb, vt, i, k, s);
        }
        if exists k :: i <= k < n && StopsAt(rt, cb, vt, i, k, s) {
          var k :| i <= k < n && StopsAt(rt, cb, vt, i, k, s);
          assert StopsAt(rt, cb, v.vtable, i + 1, k, v.state);
        }
      }
    }
  }

  /** When the walk stops, it is the callback on the last slot visited that set `stop`. */
  lemma WalkStopsAtLast<S>(rt: Runtime, cb: (S, string, Addr) -> Step<S>, vt: seq<Slot>, i: nat, n: nat, s: S)
    requires i <= n <= |vt|
    requires Walk(rt, cb, vt, i, n, s).stopped
    ensures var r := Walk(rt, cb, vt, i, n, s);
      r.visited != [] && i <= Last(r.visited) < n && StopsAt(rt, cb, vt, i, Last(r.visited), s)
  {
    WalkStoppedIff(rt, cb, vt, i, n, s);
    var k :| i <= k < n && StopsAt(rt, cb, vt, i, k, s);
    WalkSplit(rt, cb, vt, i, k, n, s);
    var w := Walk(rt, cb, vt, i, k, s);
    WalkStep(rt, cb, w.vtable, k, n, w.state);
    var v := Visit(rt, cb, w.vtable, k, w.state);
    assert v.visited == [k];
    assert Walk(rt, cb, vt, i, n, s).visited == w.visited + [k];
  }

  // ---------------------------------------------------------------------------
  // The loop itself

  /**
   * Runs `cb` on the readable slots of `c`, in slot order, writing back what the
   * callback leaves in each slot, until a callback sets `stop`; returns `stop`
   * and the callback's final state.
   */
  method IterateMethods<S>(rt: Runtime, c: ClassMetadata, cb: (S, string, Addr) -> Step<S>, s0: S)
    returns (stop: bool, s: S, ghost visited: seq<nat>)
    requires c.Valid()
    modifies c.vtable
    ensures var w := Iterate(rt, cb, old(c.Image()), s0);
      stop == w.stopped && s == w.state && c.vtable[..] == w.vtable && visited == w.visited
  {
    stop, s, visited := false, s0, [];
    if !Eligible(c.name) {
      return;
    }
    var n := SlotCount(c.classSize, c.classAddressOffset) as nat;
    ghost var whole := Walk(rt, cb, c.vtable[..], 0, n, s0);
    var i := 0;
    while i < n
      invariant 0 <= i <= n
      invariant Prepend(visited, Walk(rt, cb, c.vtable[..], i, n, s)) == whole
      decreases n - i
    {
      ghost var v := Visit(rt, cb, c.vtable[..], i, s);
      WalkStep(rt, cb, c.vtable[..], i, n, s);
      match Resolve(rt, c.vtable[i]) {
        case None =>
          PrependTwice(visited, [], Walk(rt, cb, c.vtable[..], i + 1, n, s));
        case Some(name) =>
          var step := cb(s, name, c.vtable[i].value);
          c.vtable[i] := Some(step.slot);
          s := step.state;
          assert c.vtable[..] == v.vtable;
          if step.stop {
            visited := visited + [i];
            stop := true;
            break;
          }
          PrependTwice(visited, [i], Walk(rt, cb, c.vtable[..], i + 1, n, s));
          visited := visited + [i];
      }
      i := i + 1;
    }
  }
}
