/**
 * The mount orchestration of src/MountedPiece.ts.
 *
 * Mount, update and teardown actions are opaque ids; what they do to the
 * page is recorded as events in a trace. Promises are sequential steps. All
 * MountedPiece instances live in one table keyed by their id, so a parent's
 * child registry is the sequence of its children's ids, bottom (oldest)
 * first, pushed and deleted exactly as `Stacks.Stack` pushes and deletes.
 */
module Pieces {
  import opened Stacks

  type ActionId = nat
  /** The counter part of `generatePieceId`'s `cjsp-<counter>-<time>`. */
  type PieceId = nat
  /** An opaque render target (an `HTMLElement` in the source). */
  type Target = nat

  /** Property keys: the caller's own names, and the reserved `mountPieceKey`. */
  datatype PropKey = Named(name: string) | MountPieceKey
  /** Property values: caller data, or the bound `mountPiece` capability of an instance. */
  datatype PropValue = Opaque(token: nat) | MountPieceFor(owner: PieceId)
  type Props = map<PropKey, PropValue>

  /** A mount or update specification: one action, or an array of specifications. */
  datatype Spec = Single(action: ActionId) | Many(items: seq<Spec>)

  datatype Piece = Piece(mount: Spec, update: Option<Spec>)

  /**
   * A teardown (`UnmountFn`): the one an action returned, or the closure `doMount`
   * builds over the Stack of the teardowns it collected (bottom first).
   */
  datatype Teardown = Undo(action: ActionId) | RunStack(collected: seq<Teardown>)

  datatype Event =
    | Mounted(action: ActionId, target: Target, props: Props)
    | TornDown(action: ActionId)
    | Updated(action: ActionId, props: Props)

  /** The fields of a MountedPiece; `childPieces` is its registry, bottom first. */
  datatype MountedPiece = MountedPiece(
    piece: Piece,
    parent: Option<PieceId>,
    childPieces: seq<PieceId>,
    cleanup: Option<Teardown>)

  type Table = map<PieceId, MountedPiece>

  // ---------------------------------------------------------------------------
  // Specifications of the nested mount and update arrays

  /** The actions of a specification, depth first and left to right. */
  function Leaves(s: Spec): seq<ActionId>
    decreases s, 1
  {
    match s
    case Single(a) => [a]
    case Many(ms) => LeavesOf(ms)
  }

  function LeavesOf(ms: seq<Spec>): seq<ActionId>
    decreases ms, 0
  {
    if |ms| == 0 then [] else LeavesOf(ms[..|ms| - 1]) + Leaves(ms[|ms| - 1])
  }

  /** One `Mounted` event per action of `acts`, in order, all with the same target and props. */
  function Mounts(acts: seq<ActionId>, target: Target, props: Props): (r: seq<Event>)
    ensures |r| == |acts|
    ensures forall i :: 0 <= i < |acts| ==> r[i] == Mounted(acts[i], target, props)
  {
    seq(|acts|, i requires 0 <= i < |acts| => Mounted(acts[i], target, props))
  }

  /** One `TornDown` event per action of `acts`, in order. */
  function TornDowns(acts: seq<ActionId>): (r: seq<Event>)
    ensures |r| == |acts|
    ensures forall i :: 0 <= i < |acts| ==> r[i] == TornDown(acts[i])
  {
    seq(|acts|, i requires 0 <= i < |acts| => TornDown(acts[i]))
  }

  /** One `Updated` event per action of `acts`, in order, all with the same props. */
  function Updates(acts: seq<ActionId>, props: Props): (r: seq<Event>)
    ensures |r| == |acts|
    ensures forall i :: 0 <= i < |acts| ==> r[i] == Updated(acts[i], props)
  {
    seq(|acts|, i requires 0 <= i < |acts| => Updated(acts[i], props))
  }

  lemma MountsAppend(a: seq<ActionId>, b: seq<ActionId>, target: Target, props: Props)
    ensures Mounts(a + b, target, props) == Mounts(a, target, props) + Mounts(b, target, props)
  {
    var l, r := Mounts(a + b, target, props), Mounts(a, target, props) + Mounts(b, target, props);
    assert |l| == |r|;
    forall i | 0 <= i < |l| ensures l[i] == r[i] {
      if i < |a| { assert r[i] == Mounts(a, target, props)[i]; } else { assert r[i] == Mounts(b, target, props)[i - |a|]; }
    }
  }

  lemma TornDownsAppend(a: seq<ActionId>, b: seq<ActionId>)
    ensures TornDowns(a + b) == TornDowns(a) + TornDowns(b)
  {
    var l, r := TornDowns(a + b), TornDowns(a) + TornDowns(b);
    assert |l| == |r|;
    forall i | 0 <= i < |l| ensures l[i] == r[i] {
      if i < |a| { assert r[i] == TornDowns(a)[i]; } else { assert r[i] == TornDowns(b)[i - |a|]; }
    }
  }

  lemma UpdatesAppend(a: seq<ActionId>, b: seq<ActionId>, props: Props)
    ensures Updates(a + b, props) == Updates(a, props) + Updates(b, props)
  {
    var l, r := Updates(a + b, props), Updates(a, props) + Updates(b, props);
    assert |l| == |r|;
    forall i | 0 <= i < |l| ensures l[i] == r[i] {
      if i < |a| { assert r[i] == Updates(a, props)[i]; } else { assert r[i] == Updates(b, props)[i - |a|]; }
    }
  }

  /** One more element of an array specification mounted. */
  lemma MountStep(t0: seq<Event>, before: seq<Event>, after: seq<Event>, ms: seq<Spec>, j: nat, target: Target, props: Props)
    requires j < |ms|
    requires before == t0 + Mounts(LeavesOf(ms[..j]), target, props)
    requires after == before + Mounts(Leaves(ms[j]), target, props)
    ensures after == t0 + Mounts(LeavesOf(ms[..j + 1]), target, props)
    ensures TeardownsOf(ms[..j + 1]) == TeardownsOf(ms[..j]) + [TeardownOf(ms[j])]
  {
    assert ms[..j + 1][..j] == ms[..j];
    MountsAppend(LeavesOf(ms[..j]), Leaves(ms[j]), target, props);
  }

  /** One more element of an array specification updated. */
  lemma UpdateStep(t0: seq<Event>, before: seq<Event>, after: seq<Event>, ms: seq<Spec>, j: nat, props: Props)
    requires j < |ms|
    requires before == t0 + Updates(LeavesOf(ms[..j]), props)
    requires after == before + Updates(Leaves(ms[j]), props)
    ensures after == t0 + Updates(LeavesOf(ms[..j + 1]), props)
  {
    assert ms[..j + 1][..j] == ms[..j];
    UpdatesAppend(LeavesOf(ms[..j]), Leaves(ms[j]), props);
  }

  /** The teardown `doMount` returns for `s`. */
  function TeardownOf(s: Spec): Teardown
    decreases s, 1
  {
    match s
    case Single(a) => Undo(a)
    case Many(ms) => RunStack(TeardownsOf(ms))
  }

  /** The contents of `doMount`'s `unmountFns` Stack after mounting all of `ms`. */
  function TeardownsOf(ms: seq<Spec>): (r: seq<Teardown>)
    decreases ms, 0
    ensures |r| == |ms|
  {
    if |ms| == 0 then [] else TeardownsOf(ms[..|ms| - 1]) + [TeardownOf(ms[|ms| - 1])]
  }

  /** The events of running a teardown. */
  function TeardownTrace(u: Teardown): seq<Event>
    decreases u, 1
  {
    match u
    case Undo(a) => [TornDown(a)]
    case RunStack(us) => StackTrace(us)
  }

  /**
   * The events of running the teardowns `us`, held in a Stack bottom first, acts
   * `for (const u of unmountFns)` does: with the default iterator, top to bottom.
   */
  function StackTrace(us: seq<Teardown>): seq<Event>
    decreases us, 0
  {
    if |us| == 0 then [] else StackTrace(us[1..]) + TeardownTrace(us[0])
  }

  lemma {:induction false} StackTracePush(us: seq<Teardown>, u: Teardown)
    ensures StackTrace(us + [u]) == TeardownTrace(u) + StackTrace(us)
    decreases |us|
  {
    if us == [] {
      assert [u][1..] == [];
    } else {
      assert (us + [u])[1..] == us[1..] + [u];
      StackTracePush(us[1..], u);
    }
  }

  /**
   * The combined teardown runs one teardown per action, in the reverse of the
   * mount order: `[A, [B, C]]` mounts A, B, C and tears down C, B, A.
   */
  lemma {:induction false} TeardownReversesMount(s: Spec)
    ensures TeardownTrace(TeardownOf(s)) == TornDowns(Reversed(Leaves(s)))
    decreases s, 1
  {
    match s
    case Single(a) =>
      assert Reversed([a]) == [a];
    case Many(ms) =>
      TeardownsReverseMount(ms);
  }

  lemma {:induction false} TeardownsReverseMount(ms: seq<Spec>)
    ensures StackTrace(TeardownsOf(ms)) == TornDowns(Reversed(LeavesOf(ms)))
    decreases ms, 0
  {
    if |ms| == 0 {
      assert Reversed<ActionId>([]) == [];
    } else {
      var init, last := ms[..|ms| - 1], ms[|ms| - 1];
      StackTracePush(TeardownsOf(init), TeardownOf(last));
      TeardownReversesMount(last);
      TeardownsReverseMount(init);
      ReversedAppend(LeavesOf(init), Leaves(last));
      TornDownsAppend(Reversed(Leaves(last)), Reversed(LeavesOf(init)));
    }
  }

  /** src/MountedPiece.ts:59: the caller's props, with `mountPieceKey` set to the instance's capability. */
  function WithMountPiece(props: Option<Props>, id: PieceId): (r: Props)
    ensures MountPieceKey in r && r[MountPieceKey] == MountPieceFor(id)
    ensures forall k :: k != MountPieceKey ==> (k in r <==> props.Some? && k in props.value)
    ensures forall k :: k != MountPieceKey && k in r ==> props.Some? && r[k] == props.value[k]
  {
    (if props.None? then map[] else props.value)[MountPieceKey := MountPieceFor(id)]
  }

  // ---------------------------------------------------------------------------
  // The instance table

  function IsPiece(id: PieceId): PieceId -> bool
  {
    x => x == id
  }

  ghost predicate Distinct(s: seq<PieceId>)
  {
    forall i, j :: 0 <= i < j < |s| ==> s[i] != s[j]
  }

  /**
   * What holds of the instances at every step: ids come from the counter, a
   * parent was constructed before its child, a registry lists only mounted
   * children of its owner, each once.
   */
  ghost predicate WellFormed(t: Table, counter: nat)
  {
    && (forall k | k in t :: k <= counter)
    && (forall k | k in t && t[k].parent.Some? :: t[k].parent.value in t && t[k].parent.value < k)
    && (forall p, j | p in t && 0 <= j < |t[p].childPieces| ::
          t[p].childPieces[j] in t && t[t[p].childPieces[j]].parent == Some(p) && t[t[p].childPieces[j]].cleanup.Some?)
    && (forall p | p in t :: Distinct(t[p].childPieces))
  }

  /** `k` is `id` or one of its descendants, following parent links. */
  ghost predicate Below(t: Table, k: PieceId, id: PieceId)
    decreases k
  {
    k == id || (k in t && t[k].parent.Some? && t[k].parent.value < k && Below(t, t[k].parent.value, id))
  }

  /** `k` is one of `cs[lo..]` or a descendant of one. */
  ghost predicate BelowSome(t: Table, k: PieceId, cs: seq<PieceId>, lo: nat)
  {
    exists j :: lo <= j < |cs| && Below(t, k, cs[j])
  }

  /** The two tables differ at most in their registries. */
  ghost predicate SameButRegistries(t1: Table, t2: Table)
  {
    && t1.Keys == t2.Keys
    && forall k | k in t1 ::
         t1[k].piece == t2[k].piece && t1[k].parent == t2[k].parent && t1[k].cleanup == t2[k].cleanup
  }

  lemma SameButRegistriesTrans(t0: Table, t1: Table, t2: Table)
    requires SameButRegistries(t0, t1) && SameButRegistries(t1, t2)
    ensures SameButRegistries(t0, t2)
  {
  }

  lemma {:induction false} BelowAtLeast(t: Table, k: PieceId, id: PieceId)
    ensures Below(t, k, id) ==> id <= k
    decreases k
  {
    if k != id && k in t && t[k].parent.Some? && t[k].parent.value < k {
      BelowAtLeast(t, t[k].parent.value, id);
    }
  }

  /** A descendant of a child is a descendant of the parent. */
  lemma {:induction false} BelowThroughParent(t: Table, k: PieceId, c: PieceId, id: PieceId)
    requires Below(t, k, c) && c in t && t[c].parent == Some(id) && id < c
    ensures Below(t, k, id)
    decreases k
  {
    if k != c {
      BelowThroughParent(t, t[k].parent.value, c, id);
    }
  }

  /** Two different children of one parent have no descendant in common. */
  lemma {:induction false} SiblingsDisjoint(t: Table, k: PieceId, a: PieceId, b: PieceId, id: PieceId)
    requires a in t && b in t && a != b
    requires t[a].parent == Some(id) && t[b].parent == Some(id) && id < a && id < b
    ensures !(Below(t, k, a) && Below(t, k, b))
    decreases k
  {
    if Below(t, k, a) && Below(t, k, b) {
      if k == a {
        BelowAtLeast(t, id, b);
      } else if k == b {
        BelowAtLeast(t, id, a);
      } else {
        SiblingsDisjoint(t, t[k].parent.value, a, b, id);
      }
    }
  }

  /** `Below` only looks at parent links. */
  lemma {:induction false} BelowSameParents(t1: Table, t2: Table, k: PieceId, id: PieceId)
    requires SameButRegistries(t1, t2)
    ensures Below(t1, k, id) <==> Below(t2, k, id)
    decreases k
  {
    if k != id && k in t1 && t1[k].parent.Some? && t1[k].parent.value < k {
      BelowSameParents(t1, t2, t1[k].parent.value, id);
    }
  }

  /** The events of running a recorded cleanup; none when no cleanup was recorded. */
  function CleanupTrace(c: Option<Teardown>): seq<Event>
  {
    match c
    case None => []
    case Some(u) => TeardownTrace(u)
  }

  /**
   * The events of `unmount` on `id` (src/MountedPiece.ts:65-75): every child in
   * its registry unmounted, most recently registered first, then its own cleanup.
   */
  function UnmountTrace(t: Table, counter: nat, id: PieceId): seq<Event>
    requires WellFormed(t, counter) && id in t
    decreases counter - id, 1
  {
    ChildrenTrace(t, counter, id, 0) + CleanupTrace(t[id].cleanup)
  }

  /** The events of unmounting `t[id].childPieces[lo..]` from the top down. */
  function ChildrenTrace(t: Table, counter: nat, id: PieceId, lo: nat): seq<Event>
    requires WellFormed(t, counter) && id in t && lo <= |t[id].childPieces|
    decreases counter - id, 0, |t[id].childPieces| - lo
  {
    if lo == |t[id].childPieces| then []
    else
      var c := t[id].childPieces[lo];
      ChildrenTrace(t, counter, id, lo + 1) + UnmountTrace(t, counter, c)
  }

  /**
   * The instances `unmount()` on `id` reaches: `id` itself and, through the
   * registries, every instance registered below it.
   */
  ghost function Visited(t: Table, counter: nat, id: PieceId): set<PieceId>
    requires WellFormed(t, counter) && id in t
    decreases counter - id, 1
  {
    {id} + VisitedFrom(t, counter, id, 0)
  }

  /** The instances reached from the children `t[id].childPieces[lo..]`. */
  ghost function VisitedFrom(t: Table, counter: nat, id: PieceId, lo: nat): set<PieceId>
    requires WellFormed(t, counter) && id in t && lo <= |t[id].childPieces|
    decreases counter - id, 0, |t[id].childPieces| - lo
  {
    if lo == |t[id].childPieces| then {}
    else Visited(t, counter, t[id].childPieces[lo]) + VisitedFrom(t, counter, id, lo + 1)
  }

  /** Every instance `unmount()` reaches is a descendant, by parent links. */
  lemma {:induction false} VisitedBelow(t: Table, counter: nat, id: PieceId, k: PieceId)
    requires WellFormed(t, counter) && id in t
    ensures k in Visited(t, counter, id) ==> k in t && Below(t, k, id)
    decreases counter - id, 1
  {
    var cs := t[id].childPieces;
    if k in Visited(t, counter, id) && k != id {
      VisitedFromBelow(t, counter, id, 0, k);
      var j :| 0 <= j < |cs| && Below(t, k, cs[j]);
      assert cs[j] in t && t[cs[j]].parent == Some(id);
      BelowThroughParent(t, k, cs[j], id);
    }
  }

  lemma {:induction false} VisitedFromBelow(t: Table, counter: nat, id: PieceId, lo: nat, k: PieceId)
    requires WellFormed(t, counter) && id in t && lo <= |t[id].childPieces|
    ensures k in VisitedFrom(t, counter, id, lo) ==> k in t && BelowSome(t, k, t[id].childPieces, lo)
    decreases counter - id, 0, |t[id].childPieces| - lo
  {
    var cs := t[id].childPieces;
    if lo < |cs| {
      VisitedBelow(t, counter, cs[lo], k);
      VisitedFromBelow(t, counter, id, lo + 1, k);
    }
  }

  /** What a child's unmount reaches lies strictly above `id` in age. */
  lemma VisitedFromAbove(t: Table, counter: nat, id: PieceId, lo: nat)
    requires WellFormed(t, counter) && id in t && lo <= |t[id].childPieces|
    ensures forall k | k in VisitedFrom(t, counter, id, lo) :: k in t && id < k
  {
    var cs := t[id].childPieces;
    forall k | k in VisitedFrom(t, counter, id, lo) ensures k in t && id < k {
      VisitedFromBelow(t, counter, id, lo, k);
      var j :| lo <= j < |cs| && Below(t, k, cs[j]);
      assert cs[j] in t && t[cs[j]].parent == Some(id);
      BelowAtLeast(t, k, cs[j]);
    }
  }

  /** Everything a registered child's unmount reaches is reached by its parent's unmount. */
  lemma {:induction false} VisitedCoversRegistry(t: Table, counter: nat, id: PieceId, lo: nat, j: nat)
    requires WellFormed(t, counter) && id in t && lo <= j < |t[id].childPieces|
    ensures t[id].childPieces[j] in t
    ensures Visited(t, counter, t[id].childPieces[j]) <= VisitedFrom(t, counter, id, lo)
    decreases j - lo
  {
    if lo < j {
      VisitedCoversRegistry(t, counter, id, lo + 1, j);
    }
  }

  /** The unmount events of the instances `cs`, one after the other in the order given. */
  function UnmountAll(t: Table, counter: nat, cs: seq<PieceId>): seq<Event>
    requires WellFormed(t, counter) && forall j | 0 <= j < |cs| :: cs[j] in t
  {
    if cs == [] then [] else UnmountTrace(t, counter, cs[0]) + UnmountAll(t, counter, cs[1..])
  }

  lemma {:induction false} UnmountAllAppend(t: Table, counter: nat, a: seq<PieceId>, b: seq<PieceId>)
    requires WellFormed(t, counter)
    requires forall j | 0 <= j < |a| :: a[j] in t
    requires forall j | 0 <= j < |b| :: b[j] in t
    ensures UnmountAll(t, counter, a + b) == UnmountAll(t, counter, a) + UnmountAll(t, counter, b)
    decreases |a|
  {
    if a == [] {
      assert a + b == b;
    } else {
      assert (a + b)[0] == a[0];
      assert (a + b)[1..] == a[1..] + b;
      UnmountAllAppend(t, counter, a[1..], b);
    }
  }

  /**
   * `unmount` visits every child registered when it starts exactly once, the
   * most recently registered first.
   */
  lemma ChildrenInReverseOrder(t: Table, counter: nat, id: PieceId)
    requires WellFormed(t, counter) && id in t
    ensures forall j | 0 <= j < |t[id].childPieces| :: t[id].childPieces[j] in t
    ensures ChildrenTrace(t, counter, id, 0) == UnmountAll(t, counter, Reversed(t[id].childPieces))
  {
    ChildrenFromInReverseOrder(t, counter, id, 0);
    assert t[id].childPieces[0..] == t[id].childPieces;
  }

  lemma {:induction false} ChildrenFromInReverseOrder(t: Table, counter: nat, id: PieceId, lo: nat)
    requires WellFormed(t, counter) && id in t && lo <= |t[id].childPieces|
    ensures forall j | 0 <= j < |t[id].childPieces| :: t[id].childPieces[j] in t
    ensures ChildrenTrace(t, counter, id, lo) == UnmountAll(t, counter, Reversed(t[id].childPieces[lo..]))
    decreases |t[id].childPieces| - lo
  {
    var cs := t[id].childPieces;
    if lo == |cs| {
      assert cs[lo..] == [];
    } else {
      ChildrenFromInReverseOrder(t, counter, id, lo + 1);
      assert cs[lo..] == [cs[lo]] + cs[lo + 1..];
      ReversedAppend([cs[lo]], cs[lo + 1..]);
      assert Reversed([cs[lo]]) == [cs[lo]];
      UnmountAllAppend(t, counter, Reversed(cs[lo + 1..]), [cs[lo]]);
      assert [cs[lo]][1..] == [];
    }
  }

  /**
   * The unmount events of `id`, and the instances its unmount reaches, depend
   * only on the records of `id` and its descendants.
   */
  lemma {:induction false} UnmountTraceFrame(t1: Table, t2: Table, counter: nat, id: PieceId)
    requires WellFormed(t1, counter) && WellFormed(t2, counter) && id in t1
    requires SameButRegistries(t1, t2)
    requires forall k | k in t1 && Below(t1, k, id) :: t2[k] == t1[k]
    ensures UnmountTrace(t1, counter, id) == UnmountTrace(t2, counter, id)
    ensures Visited(t1, counter, id) == Visited(t2, counter, id)
    decreases counter - id, 1
  {
    assert Below(t1, id, id);
    ChildrenTraceFrame(t1, t2, counter, id, 0);
  }

  lemma {:induction false} ChildrenTraceFrame(t1: Table, t2: Table, counter: nat, id: PieceId, lo: nat)
    requires WellFormed(t1, counter) && WellFormed(t2, counter) && id in t1
    requires SameButRegistries(t1, t2)
    requires forall k | k in t1 && Below(t1, k, id) :: t2[k] == t1[k]
    requires lo <= |t1[id].childPieces|
    ensures t2[id] == t1[id]
    ensures ChildrenTrace(t1, counter, id, lo) == ChildrenTrace(t2, counter, id, lo)
    ensures VisitedFrom(t1, counter, id, lo) == VisitedFrom(t2, counter, id, lo)
    decreases counter - id, 0, |t1[id].childPieces| - lo
  {
    assert Below(t1, id, id);
    if lo < |t1[id].childPieces| {
      var c := t1[id].childPieces[lo];
      forall k | k in t1 && Below(t1, k, c) ensures t2[k] == t1[k] {
        BelowThroughParent(t1, k, c, id);
      }
      ChildrenTraceFrame(t1, t2, counter, id, lo + 1);
      UnmountTraceFrame(t1, t2, counter, c);
    }
  }

  /** Unmounting `id` tears down only what `id` and its descendants recorded. */
  lemma {:induction false} UnmountTraceWithinSubtree(t: Table, counter: nat, id: PieceId, e: Event)
    requires WellFormed(t, counter) && id in t
    requires e in UnmountTrace(t, counter, id)
    ensures exists k :: k in t && Below(t, k, id) && e in CleanupTrace(t[k].cleanup)
    decreases counter - id, 1
  {
    if e in CleanupTrace(t[id].cleanup) {
      assert Below(t, id, id);
    } else {
      ChildrenTraceWithinSubtree(t, counter, id, 0, e);
    }
  }

  lemma {:induction false} ChildrenTraceWithinSubtree(t: Table, counter: nat, id: PieceId, lo: nat, e: Event)
    requires WellFormed(t, counter) && id in t && lo <= |t[id].childPieces|
    requires e in ChildrenTrace(t, counter, id, lo)
    ensures exists k :: k in t && Below(t, k, id) && e in CleanupTrace(t[k].cleanup)
    decreases counter - id, 0, |t[id].childPieces| - lo
  {
    var c := t[id].childPieces[lo];
    if e in ChildrenTrace(t, counter, id, lo + 1) {
      ChildrenTraceWithinSubtree(t, counter, id, lo + 1, e);
    } else {
      UnmountTraceWithinSubtree(t, counter, c, e);
      var k :| k in t && Below(t, k, c) && e in CleanupTrace(t[k].cleanup);
      BelowThroughParent(t, k, c, id);
    }
  }

  /** Two top-level instances are not descendants of each other. */
  lemma TopLevelIndependent(t: Table, a: PieceId, b: PieceId)
    requires a in t && b in t && a != b
    requires t[a].parent == None && t[b].parent == None
    ensures !Below(t, a, b) && !Below(t, b, a)
  {
  }

  /** Cutting one element out of a sequence without duplicates. */
  lemma RemoveAtDistinct(s: seq<PieceId>, k: nat)
    requires k < |s| && Distinct(s)
    ensures Distinct(s[..k] + s[k + 1..])
    ensures forall x | x in s[..k] + s[k + 1..] :: x in s && x != s[k]
  {
    var r := s[..k] + s[k + 1..];
    assert forall i | 0 <= i < |r| :: r[i] == s[if i < k then i else i + 1];
  }

  /** Deleting a child by id keeps the registry invariant and leaves no entry with that id. */
  lemma DeleteChild(s: seq<PieceId>, id: PieceId)
    requires Distinct(s)
    ensures Distinct(DeleteTopmost(s, IsPiece(id)))
    ensures forall x | x in DeleteTopmost(s, IsPiece(id)) :: x in s && x != id
  {
    match LastMatch(s, IsPiece(id))
    case None =>
      assert forall j | 0 <= j < |s| :: s[j] != id;
    case Some(k) =>
      assert s[k] == id;
      RemoveAtDistinct(s, k);
  }

  /** Recording a cleanup keeps the table well formed. */
  lemma RecordCleanup(t: Table, counter: nat, id: PieceId, u: Teardown)
    requires WellFormed(t, counter) && id in t
    ensures WellFormed(t[id := t[id].(cleanup := Some(u))], counter)
  {
    var t' := t[id := t[id].(cleanup := Some(u))];
    forall p, j | p in t' && 0 <= j < |t'[p].childPieces|
      ensures t'[p].childPieces[j] in t' && t'[t'[p].childPieces[j]].parent == Some(p)
      ensures t'[t'[p].childPieces[j]].cleanup.Some?
    {
      assert t'[p].childPieces[j] == t[p].childPieces[j];
    }
  }

  /** Pushing a mounted child onto its parent's registry keeps the table well formed. */
  lemma Register(t: Table, counter: nat, p: PieceId, id: PieceId)
    requires WellFormed(t, counter) && p in t && id in t
    requires t[id].parent == Some(p) && t[id].cleanup.Some? && id !in t[p].childPieces
    ensures WellFormed(t[p := t[p].(childPieces := t[p].childPieces + [id])], counter)
  {
    var cs := t[p].childPieces + [id];
    var t' := t[p := t[p].(childPieces := cs)];
    forall q, j | q in t' && 0 <= j < |t'[q].childPieces|
      ensures t'[q].childPieces[j] in t' && t'[t'[q].childPieces[j]].parent == Some(q)
      ensures t'[t'[q].childPieces[j]].cleanup.Some?
    {
      if q == p && j < |t[p].childPieces| {
        assert cs[j] == t[p].childPieces[j];
      }
    }
    forall q | q in t' ensures Distinct(t'[q].childPieces) {
      if q == p {
        forall i, j | 0 <= i < j < |cs| ensures cs[i] != cs[j] {
          if j == |cs| - 1 {
            assert cs[i] == t[p].childPieces[i];
          }
        }
      }
    }
  }

  /**
   * The table after `[mountKey]`: `t1` records the cleanup of `id`, and `t`
   * then registers `id` on top of its parent's registry.
   */
  lemma MountRecords(t0: Table, t1: Table, t: Table, counter: nat, id: PieceId, u: Teardown)
    requires WellFormed(t0, counter) && id in t0 && t0[id].cleanup.None?
    requires t1 == t0[id := t0[id].(cleanup := Some(u))]
    requires t0[id].parent.None? ==> t == t1
    requires t0[id].parent.Some? ==>
      var p := t0[id].parent.value;
      p in t1 && t == t1[p := t1[p].(childPieces := t1[p].childPieces + [id])]
    ensures WellFormed(t, counter)
    ensures t.Keys == t0.Keys
    ensures t[id] == t0[id].(cleanup := Some(u))
    ensures t0[id].parent.Some? ==>
      var p := t0[id].parent.value;
      t[p] == t0[p].(childPieces := t0[p].childPieces + [id])
    ensures forall k | k in t && k != id && Some(k) != t0[id].parent :: t[k] == t0[k]
  {
    RecordCleanup(t0, counter, id, u);
    if t0[id].parent.Some? {
      var p := t0[id].parent.value;
      assert p != id;
      assert id !in t0[p].childPieces;
      Register(t1, counter, p, id);
    }
  }

  /** Deleting an id from a registry keeps the table well formed. */
  lemma Deregister(t: Table, counter: nat, p: PieceId, id: PieceId)
    requires WellFormed(t, counter) && p in t
    ensures WellFormed(t[p := t[p].(childPieces := DeleteTopmost(t[p].childPieces, IsPiece(id)))], counter)
  {
    var cs := DeleteTopmost(t[p].childPieces, IsPiece(id));
    var t' := t[p := t[p].(childPieces := cs)];
    DeleteChild(t[p].childPieces, id);
    forall q, j | q in t' && 0 <= j < |t'[q].childPieces|
      ensures t'[q].childPieces[j] in t' && t'[t'[q].childPieces[j]].parent == Some(q)
      ensures t'[t'[q].childPieces[j]].cleanup.Some?
    {
      if q == p {
        assert cs[j] in cs;
        assert cs[j] in t[p].childPieces;
      }
    }
  }

  // ---------------------------------------------------------------------------
  // The runtime

  /**
   * The module state (`pieceIdCounter`), every MountedPiece constructed so far,
   * and the effects of the actions run so far.
   */
  class Runtime {
    var counter: nat
    var pieces: Table
    var trace: seq<Event>

    ghost predicate Valid()
      reads this
    {
      WellFormed(pieces, counter)
    }

    constructor ()
      ensures Valid() && counter == 0 && pieces == map[] && trace == []
    {
      counter := 0;
      pieces := map[];
      trace := [];
    }

    /** `generatePieceId`: the next value of the counter. */
    method GeneratePieceId() returns (id: PieceId)
      modifies this`counter
      ensures counter == old(counter) + 1 && id == counter
    {
      counter := counter + 1;
      id := counter;
    }

    /**
     * `new MountedPiece(piece, mountPiece, parent)`: a record with a new id, no
     * children and no cleanup. Its `mountPiece` is `MountPieceFor(id)`.
     */
    method Construct(piece: Piece, parent: Option<PieceId>) returns (id: PieceId)
      requires Valid()
      requires parent.Some? ==> parent.value in pieces
      modifies this
      ensures Valid()
      ensures id == counter == old(counter) + 1
      ensures forall k | k in old(pieces) :: k < id
      ensures pieces == old(pieces)[id := MountedPiece(piece, parent, [], None)]
      ensures trace == old(trace)
    {
      id := GeneratePieceId();
      pieces := pieces[id := MountedPiece(piece, parent, [], None)];
    }

    /** `doMount`: runs every mount action of `m` in order and returns the teardown of them all. */
    method DoMount(m: Spec, target: Target, props: Props) returns (u: Teardown)
      modifies this`trace
      ensures trace == old(trace) + Mounts(Leaves(m), target, props)
      ensures u == TeardownOf(m)
      decreases m
    {
      match m
      case Single(a) =>
        trace := trace + [Mounted(a, target, props)];
        u := Undo(a);
      case Many(ms) =>
        var unmountFns := new Stack<Teardown>();
        ghost var t0 := trace;
        for j := 0 to |ms|
          invariant unmountFns.items == TeardownsOf(ms[..j])
          invariant trace == t0 + Mounts(LeavesOf(ms[..j]), target, props)
        {
          ghost var before := trace;
          var r := DoMount(ms[j], target, props);
          var _ := unmountFns.Push(r);
          MountStep(t0, before, trace, ms, j, target, props);
        }
        assert ms[..|ms|] == ms;
        u := RunStack(unmountFns.items);
    }

    /** Runs a teardown; a combined one iterates its Stack top to bottom. */
    method RunTeardown(u: Teardown)
      modifies this`trace
      ensures trace == old(trace) + TeardownTrace(u)
      decreases u
    {
      match u
      case Undo(a) =>
        trace := trace + [TornDown(a)];
      case RunStack(us) =>
        var i := |us| - 1;
        while i >= 0
          invariant -1 <= i < |us|
          invariant trace == old(trace) + StackTrace(us[i + 1..])
        {
          RunTeardown(us[i]);
          assert us[i..][1..] == us[i + 1..];
          i := i - 1;
        }
        assert us[0..] == us;
    }

    /** `doUpdate`: runs every update action of the specification, in order, with the same props. */
    method DoUpdate(update: Option<Spec>, props: Props)
      modifies this`trace
      ensures update.None? ==> trace == old(trace)
      ensures update.Some? ==> trace == old(trace) + Updates(Leaves(update.value), props)
      decreases if update.Some? then update.value else Single(0)
    {
      if update.None? {
        return;
      }
      match update.value
      case Single(a) =>
        trace := trace + [Updated(a, props)];
      case Many(ms) =>
        ghost var t0 := trace;
        for j := 0 to |ms|
          invariant trace == t0 + Updates(LeavesOf(ms[..j]), props)
        {
          ghost var before := trace;
          DoUpdate(Some(ms[j]), props);
          UpdateStep(t0, before, trace, ms, j, props);
        }
        assert ms[..|ms|] == ms;
    }

    /**
     * `[mountKey](target, props)`: mounts the piece with the injected props,
     * records the teardown, then registers the instance on top of its parent's
     * registry.
     */
    method Mount(id: PieceId, target: Target, props: Option<Props>)
      requires Valid() && id in pieces && pieces[id].cleanup.None?
      modifies this
      ensures Valid() && counter == old(counter)
      ensures trace == old(trace) + Mounts(Leaves(old(pieces)[id].piece.mount), target, WithMountPiece(props, id))
      ensures pieces.Keys == old(pieces).Keys
      ensures pieces[id] == old(pieces)[id].(cleanup := Some(TeardownOf(old(pieces)[id].piece.mount)))
      ensures old(pieces)[id].parent.Some? ==>
        var p := old(pieces)[id].parent.value;
        pieces[p] == old(pieces)[p].(childPieces := old(pieces)[p].childPieces + [id])
      ensures forall k | k in pieces && k != id && Some(k) != old(pieces)[id].parent :: pieces[k] == old(pieces)[k]
    {
      ghost var t0 := pieces;
      var me := pieces[id];
      var cleanup := DoMount(me.piece.mount, target, WithMountPiece(props, id));
      pieces := pieces[id := me.(cleanup := Some(cleanup))];
      ghost var t1 := pieces;
      if me.parent.Some? {
        var p := me.parent.value;
        pieces := pieces[p := pieces[p].(childPieces := pieces[p].childPieces + [id])];
      }
      MountRecords(t0, t1, pieces, counter, id, cleanup);
    }

    /** `update(props)`: the piece's update specification with the props acts given. */
    method Update(id: PieceId, props: Props)
      requires id in pieces
      modifies this`trace
      ensures pieces[id].piece.update.None? ==> trace == old(trace)
      ensures pieces[id].piece.update.Some? ==>
        trace == old(trace) + Updates(Leaves(pieces[id].piece.update.value), props)
    {
      DoUpdate(pieces[id].piece.update, props);
    }

    /**
     * `unmount()`: unmounts the children, runs the recorded cleanup, then
     * deletes this instance from its parent's registry.
     */
    method Unmount(id: PieceId)
      requires Valid() && id in pieces
      modifies this
      ensures counter == old(counter)
      ensures Unmounted(old(pieces), pieces, counter, id)
      ensures trace == old(trace) + UnmountTrace(old(pieces), counter, id)
      decreases counter - id, 1
    {
      ghost var t0, tr0 := pieces, trace;
      UnmountChildren(id);
      ghost var tr1 := trace;
      DetachedAfterChildren(t0, pieces, counter, id);
      assert pieces[id].cleanup == t0[id].cleanup;
      if pieces[id].cleanup.Some? {
        RunTeardown(pieces[id].cleanup.value);
      }
      assert trace == tr1 + CleanupTrace(t0[id].cleanup);
      AppendStep(tr0, tr1, trace, ChildrenTrace(t0, counter, id, 0), CleanupTrace(t0[id].cleanup), UnmountTrace(t0, counter, id));
      pieces := Detached(pieces, id);
    }

    /**
     * The loop of `unmount()` over the registry's default iterator: each child
     * is unmounted in turn from the top down, although each child deletes
     * itself from the registry being iterated.
     */
    method UnmountChildren(id: PieceId)
      requires Valid() && id in pieces
      modifies this
      ensures counter == old(counter)
      ensures UnmountedAbove(old(pieces), pieces, counter, id, 0)
      ensures trace == old(trace) + ChildrenTrace(old(pieces), counter, id, 0)
      decreases counter - id, 0
    {
      ghost var t0 := pieces;
      var children := pieces[id].childPieces;
      var i := |children| - 1;
      assert children[..i + 1] == children;
      while i >= 0
        invariant -1 <= i < |children| && counter == old(counter)
        invariant UnmountedAbove(t0, pieces, counter, id, i + 1)
        invariant trace == old(trace) + ChildrenTrace(t0, counter, id, i + 1)
      {
        var c := pieces[id].childPieces[i];
        ghost var before, tb := pieces, trace;
        BeforeChild(t0, before, counter, id, i);
        Unmount(c);
        AfterChild(t0, before, pieces, counter, id, i);
        AppendStep(old(trace), tb, trace, ChildrenTrace(t0, counter, id, i + 1), UnmountTrace(before, counter, c), ChildrenTrace(t0, counter, id, i));
        i := i - 1;
      }
    }
  }

  lemma AppendStep<T>(s0: seq<T>, s1: seq<T>, s2: seq<T>, a: seq<T>, b: seq<T>, c: seq<T>)
    requires s1 == s0 + a && s2 == s1 + b && c == a + b
    ensures s2 == s0 + c
  {
  }

  /**
   * `t` is `t0` after the children of `id` at index `lo` and above were
   * unmounted: the table is still well formed, only registries changed, the
   * registry of `id` lost exactly those children, every instance their
   * unmounts reached has an empty registry, and nothing else changed.
   */
  ghost predicate UnmountedAbove(t0: Table, t: Table, counter: nat, id: PieceId, lo: nat)
  {
    && WellFormed(t0, counter) && id in t0 && lo <= |t0[id].childPieces|
    && WellFormed(t, counter)
    && SameButRegistries(t0, t)
    && t[id].childPieces == t0[id].childPieces[..lo]
    && (forall k | k in VisitedFrom(t0, counter, id, lo) :: k in t && t[k].childPieces == [])
    && forall k | k in t && k != id && k !in VisitedFrom(t0, counter, id, lo) :: t[k] == t0[k]
  }

  /**
   * `t` is `t0` after `unmount()` on `id`: the table is still well formed,
   * only registries changed, every instance the unmount reached (`id` and
   * everything registered below it) has an empty registry, `id` is no longer
   * in its parent's registry, and no other instance changed.
   */
  ghost predicate Unmounted(t0: Table, t: Table, counter: nat, id: PieceId)
  {
    && WellFormed(t0, counter) && id in t0
    && WellFormed(t, counter)
    && SameButRegistries(t0, t)
    && t[id].childPieces == []
    && (forall k | k in Visited(t0, counter, id) :: k in t && t[k].childPieces == [])
    && (t0[id].parent.Some? ==>
          var p := t0[id].parent.value;
          && p in t0
          && t[p].childPieces == DeleteTopmost(t0[p].childPieces, IsPiece(id))
          && id !in t[p].childPieces)
    && forall k | k in t && k !in Visited(t0, counter, id) && Some(k) != t0[id].parent :: t[k] == t0[k]
  }

  /**
   * The table after `id` deletes itself from its parent's registry with
   * `Stack.delete` (src/MountedPiece.ts:74); unchanged for a top-level piece.
   */
  function Detached(t: Table, id: PieceId): (r: Table)
    requires id in t
    ensures r.Keys == t.Keys
  {
    match t[id].parent
    case None => t
    case Some(p) =>
      if p in t then t[p := t[p].(childPieces := DeleteTopmost(t[p].childPieces, IsPiece(id)))] else t
  }

  /**
   * Once the children of `id` are unmounted, detaching `id` from its parent
   * completes `unmount()` on the table.
   */
  lemma DetachedAfterChildren(t0: Table, t1: Table, counter: nat, id: PieceId)
    requires UnmountedAbove(t0, t1, counter, id, 0)
    ensures Unmounted(t0, Detached(t1, id), counter, id)
  {
    var t2 := Detached(t1, id);
    DetachedRecords(t1, counter, id);
    SameButRegistriesTrans(t0, t1, t2);
    VisitedFromAbove(t0, counter, id, 0);
    assert Visited(t0, counter, id) == {id} + VisitedFrom(t0, counter, id, 0);
    assert t1[id].childPieces == [];
    DetachedElsewhere(t1, id);
    if t0[id].parent.Some? {
      var p := t0[id].parent.value;
      assert p < id && p in t0;
      assert t1[p] == t0[p];
    }
  }

  /**
   * Detaching keeps the table well formed, changes only the parent's registry,
   * and removes `id` from it.
   */
  lemma DetachedRecords(t: Table, counter: nat, id: PieceId)
    requires WellFormed(t, counter) && id in t
    ensures WellFormed(Detached(t, id), counter)
    ensures SameButRegistries(t, Detached(t, id))
    ensures Detached(t, id)[id] == t[id]
    ensures t[id].parent.Some? ==>
      var p := t[id].parent.value;
      && Detached(t, id)[p].childPieces == DeleteTopmost(t[p].childPieces, IsPiece(id))
      && id !in Detached(t, id)[p].childPieces
  {
    match t[id].parent
    case None =>
    case Some(p) =>
      var t' := t[p := t[p].(childPieces := DeleteTopmost(t[p].childPieces, IsPiece(id)))];
      assert Detached(t, id) == t';
      DeleteChild(t[p].childPieces, id);
      Deregister(t, counter, p, id);
  }

  /** Detaching leaves every record but the parent's as it was. */
  lemma DetachedElsewhere(t: Table, id: PieceId)
    requires id in t
    ensures forall k | k in t && Some(k) != t[id].parent :: Detached(t, id)[k] == t[k]
  {
  }

  /**
   * Before the child at index `i` is unmounted: it is on top of the registry,
   * it and its descendants are untouched, so its unmount events are those of
   * the original table.
   */
  lemma BeforeChild(t0: Table, t: Table, counter: nat, id: PieceId, i: nat)
    requires WellFormed(t0, counter) && UnmountedAbove(t0, t, counter, id, i + 1)
    requires i < |t0[id].childPieces|
    ensures t[id].childPieces[i] == t0[id].childPieces[i]
    ensures var c := t0[id].childPieces[i]; c in t && id < c <= counter
    ensures ChildrenTrace(t0, counter, id, i) ==
      ChildrenTrace(t0, counter, id, i + 1) + UnmountTrace(t, counter, t0[id].childPieces[i])
    ensures Visited(t, counter, t0[id].childPieces[i]) == Visited(t0, counter, t0[id].childPieces[i])
  {
    var children := t0[id].childPieces;
    var c := children[i];
    assert c in t0 && t0[c].parent == Some(id) && id < c;
    forall k | k in t0 && Below(t0, k, c) ensures t[k] == t0[k] {
      BelowAtLeast(t0, k, c);
      LaterSiblingsDisjoint(t0, counter, id, children, i, k);
      VisitedFromBelow(t0, counter, id, i + 1, k);
    }
    UnmountTraceFrame(t0, t, counter, c);
  }

  /** After the child at index `i` is unmounted, the loop of `unmount()` goes on with `i - 1`. */
  lemma AfterChild(t0: Table, before: Table, after: Table, counter: nat, id: PieceId, i: nat)
    requires UnmountedAbove(t0, before, counter, id, i + 1)
    requires i < |t0[id].childPieces|
    requires Unmounted(before, after, counter, t0[id].childPieces[i])
    requires Visited(before, counter, t0[id].childPieces[i]) == Visited(t0, counter, t0[id].childPieces[i])
    ensures UnmountedAbove(t0, after, counter, id, i)
  {
    var c := t0[id].childPieces[i];
    AfterChildRegistry(t0, before, after, counter, id, i);
    assert VisitedFrom(t0, counter, id, i) == Visited(t0, counter, c) + VisitedFrom(t0, counter, id, i + 1);
    LaterVisitedDisjoint(t0, counter, id, i);
    assert before[c].parent == Some(id);
    ReachedCompose(before, after, id, VisitedFrom(t0, counter, id, i + 1), Visited(t0, counter, c));
    FrameCompose(t0, before, after, id, VisitedFrom(t0, counter, id, i + 1), Visited(t0, counter, c));
  }

  /** The child at index `i`, on top of the registry, deleted itself from it. */
  lemma AfterChildRegistry(t0: Table, before: Table, after: Table, counter: nat, id: PieceId, i: nat)
    requires UnmountedAbove(t0, before, counter, id, i + 1)
    requires i < |t0[id].childPieces|
    requires Unmounted(before, after, counter, t0[id].childPieces[i])
    ensures after[id].childPieces == t0[id].childPieces[..i]
  {
    var children := t0[id].childPieces;
    var c := children[i];
    assert c in t0 && t0[c].parent == Some(id) && before[c].parent == Some(id);
    DeleteLast(children, i);
  }

  /** Deleting the top element of `cs[..i + 1]` leaves `cs[..i]`. */
  lemma DeleteLast(cs: seq<PieceId>, i: nat)
    requires i < |cs|
    ensures DeleteTopmost(cs[..i + 1], IsPiece(cs[i])) == cs[..i]
  {
    var s := cs[..i + 1];
    assert s[i] == cs[i];
    assert DeleteTopmost(s, IsPiece(cs[i])) == s[..i] + s[i + 1..];
    assert s[..i] + s[i + 1..] == cs[..i];
  }

  /** What a later sibling's unmount reached is out of reach of the child at index `i`. */
  lemma LaterVisitedDisjoint(t0: Table, counter: nat, id: PieceId, i: nat)
    requires WellFormed(t0, counter) && id in t0 && i < |t0[id].childPieces|
    ensures t0[id].childPieces[i] in t0
    ensures forall k | k in VisitedFrom(t0, counter, id, i + 1) ::
      k in t0 && id < k && k !in Visited(t0, counter, t0[id].childPieces[i])
  {
    var children := t0[id].childPieces;
    var c := children[i];
    VisitedFromAbove(t0, counter, id, i + 1);
    forall k | k in VisitedFrom(t0, counter, id, i + 1) ensures k !in Visited(t0, counter, c) {
      VisitedFromBelow(t0, counter, id, i + 1, k);
      LaterSiblingsDisjoint(t0, counter, id, children, i, k);
      VisitedBelow(t0, counter, c, k);
    }
  }

  /**
   * Two unmounts in a row: the second reached `s2` and left the rest alone, so
   * the registries the first emptied (`s1`, out of its reach) stay empty.
   */
  lemma ReachedCompose(t1: Table, t2: Table, id: PieceId, s1: set<PieceId>, s2: set<PieceId>)
    requires t1.Keys == t2.Keys
    requires forall k | k in s1 :: k in t1 && t1[k].childPieces == [] && k != id && k !in s2
    requires forall k | k in s2 :: k in t2 && t2[k].childPieces == []
    requires forall k | k in t2 && k != id && k !in s2 :: t2[k] == t1[k]
    ensures forall k | k in s2 + s1 :: k in t2 && t2[k].childPieces == []
  {
    forall k | k in s2 + s1 ensures k in t2 && t2[k].childPieces == [] {
      if k !in s2 {
        assert t2[k] == t1[k];
      }
    }
  }

  /** Two unmounts in a row change nothing outside what either of them reached. */
  lemma FrameCompose(t0: Table, t1: Table, t2: Table, id: PieceId, s1: set<PieceId>, s2: set<PieceId>)
    requires t0.Keys == t1.Keys == t2.Keys
    requires forall k | k in t1 && k != id && k !in s1 :: t1[k] == t0[k]
    requires forall k | k in t2 && k != id && k !in s2 :: t2[k] == t1[k]
    ensures forall k | k in t2 && k != id && k !in s2 + s1 :: t2[k] == t0[k]
  {
  }

  /** A descendant of the child at index `i` descends from no later sibling. */
  lemma LaterSiblingsDisjoint(t: Table, counter: nat, id: PieceId, children: seq<PieceId>, i: nat, k: PieceId)
    requires WellFormed(t, counter)
    requires id in t && children == t[id].childPieces && i < |children|
    ensures Below(t, k, children[i]) ==> !BelowSome(t, k, children, i + 1)
  {
    var c := children[i];
    assert c in children;
    assert c in t && t[c].parent == Some(id) && id < c;
    forall j | i + 1 <= j < |children| ensures !(Below(t, k, c) && Below(t, k, children[j])) {
      var d := children[j];
      assert d in children;
      assert d in t && t[d].parent == Some(id) && id < d;
      assert c != d;
      SiblingsDisjoint(t, k, c, d, id);
    }
  }

  lemma MountsOne(a: ActionId, target: Target, props: Props)
    ensures Mounts([a], target, props) == [Mounted(a, target, props)]
  {
  }

  /** A parent with one childless child: the child's cleanup runs, then the parent's. */
  lemma UnmountParentOfLeaf(t: Table, counter: nat, p: PieceId, c: PieceId)
    requires WellFormed(t, counter) && p in t && t[p].childPieces == [c]
    requires c in t && t[c].childPieces == []
    ensures UnmountTrace(t, counter, p) == CleanupTrace(t[c].cleanup) + CleanupTrace(t[p].cleanup)
  {
    assert t[p].childPieces[0] == c;
    assert UnmountTrace(t, counter, c) == CleanupTrace(t[c].cleanup);
    assert ChildrenTrace(t, counter, p, 1) == [];
  }

  // ---------------------------------------------------------------------------
  // Scenarios of tests/ut/MountedPiece.test.ts

  /** tests/ut/MountedPiece.test.ts:13-34: a fresh top-level piece is mounted. */
  method MountTopLevel(a: ActionId, target: Target) returns (r: Runtime, id: PieceId)
    ensures fresh(r) && r.Valid() && r.counter == 1 && id == 1
    ensures r.trace == [Mounted(a, target, WithMountPiece(None, 1))]
    ensures id in r.pieces && r.pieces[id] == MountedPiece(Piece(Single(a), None), None, [], Some(Undo(a)))
  {
    r := new Runtime();
    id := r.Construct(Piece(Single(a), None), None);
    MountsOne(a, target, WithMountPiece(None, 1));
    r.Mount(id, target, None);
  }

  /**
   * tests/ut/MountedPiece.test.ts:67-123, first half: a parent is mounted, then
   * a child constructed with it as parent; the child ends up in the parent's
   * registry.
   */
  method MountParentAndChild() returns (r: Runtime, parent: PieceId, child: PieceId)
    ensures fresh(r) && r.Valid() && r.counter == 2 && parent == 1 && child == 2
    ensures r.trace == [Mounted(10, 0, WithMountPiece(None, 1)), Mounted(20, 1, WithMountPiece(None, 2))]
    ensures parent in r.pieces && child in r.pieces
    ensures r.pieces[parent].childPieces == [child] && r.pieces[child].childPieces == []
    ensures r.pieces[parent].cleanup == Some(Undo(10)) && r.pieces[child].cleanup == Some(Undo(20))
  {
    r, parent := MountTopLevel(10, 0);
    child := r.Construct(Piece(Single(20), None), Some(parent));
    MountsOne(20, 1, WithMountPiece(None, 2));
    r.Mount(child, 1, None);
  }

  /**
   * tests/ut/MountedPiece.test.ts:67-123: unmounting the parent unmounts the
   * child, and runs its cleanup, before the parent's own cleanup; the
   * parent's registry ends empty.
   */
  method ParentChildScenario() returns (events: seq<Event>, registry: seq<PieceId>)
    ensures events == [
      Mounted(10, 0, WithMountPiece(None, 1)),
      Mounted(20, 1, WithMountPiece(None, 2)),
      TornDown(20),
      TornDown(10)]
    ensures registry == []
  {
    var r, parent, child := MountParentAndChild();
    UnmountParentOfLeaf(r.pieces, 2, parent, child);
    r.Unmount(parent);
    events := r.trace;
    registry := r.pieces[parent].childPieces;
  }

  /** Unmounting an instance without children only runs its cleanup. */
  lemma UnmountLeaf(t: Table, counter: nat, id: PieceId)
    requires WellFormed(t, counter) && id in t && t[id].childPieces == []
    ensures UnmountTrace(t, counter, id) == CleanupTrace(t[id].cleanup)
    ensures Visited(t, counter, id) == {id}
  {
    assert ChildrenTrace(t, counter, id, 0) == [];
    assert VisitedFrom(t, counter, id, 0) == {};
  }

  /** `[mountKey](target)` on a constructed top-level instance whose piece mounts one action. */
  method MountSingleTopLevel(r: Runtime, id: PieceId, a: ActionId, target: Target)
    requires r.Valid() && id in r.pieces && r.pieces[id] == MountedPiece(Piece(Single(a), None), None, [], None)
    modifies r
    ensures r.Valid() && r.counter == old(r.counter)
    ensures r.trace == old(r.trace) + [Mounted(a, target, WithMountPiece(None, id))]
    ensures r.pieces == old(r.pieces)[id := MountedPiece(Piece(Single(a), None), None, [], Some(Undo(a)))]
  {
    MountsOne(a, target, WithMountPiece(None, id));
    r.Mount(id, target, None);
  }

  /** tests/ut/MountedPiece.test.ts:202-206: two top-level instances constructed one after the other get different ids. */
  method ConstructTwoTopLevel() returns (r: Runtime, first: PieceId, second: PieceId)
    ensures fresh(r) && r.Valid() && r.counter == 2 && r.trace == []
    ensures first == 1 && second == 2
    ensures r.pieces == map[
      1 := MountedPiece(Piece(Single(10), None), None, [], None),
      2 := MountedPiece(Piece(Single(20), None), None, [], None)]
  {
    r := new Runtime();
    first := r.Construct(Piece(Single(10), None), None);
    second := r.Construct(Piece(Single(20), None), None);
  }

  /**
   * tests/ut/MountedPiece.test.ts:192-212: two top-level instances are
   * constructed, getting different ids, and then both are mounted.
   */
  method MountTwoTopLevel() returns (r: Runtime, first: PieceId, second: PieceId)
    ensures fresh(r) && r.Valid() && r.counter == 2 && first == 1 && second == 2
    ensures r.trace == [Mounted(10, 1, WithMountPiece(None, 1)), Mounted(20, 2, WithMountPiece(None, 2))]
    ensures first in r.pieces && r.pieces[first] == MountedPiece(Piece(Single(10), None), None, [], Some(Undo(10)))
    ensures second in r.pieces && r.pieces[second] == MountedPiece(Piece(Single(20), None), None, [], Some(Undo(20)))
  {
    r, first, second := ConstructTwoTopLevel();
    MountSingleTopLevel(r, first, 10, 1);
    MountSingleTopLevel(r, second, 20, 2);
  }

  /**
   * `unmount()` on a top-level instance without children: only its cleanup
   * runs, and the table stays as it was.
   */
  method UnmountTopLevelLeaf(r: Runtime, id: PieceId)
    requires r.Valid() && id in r.pieces && r.pieces[id].childPieces == [] && r.pieces[id].parent == None
    modifies r
    ensures r.Valid() && r.counter == old(r.counter)
    ensures r.trace == old(r.trace) + CleanupTrace(old(r.pieces)[id].cleanup)
    ensures r.pieces == old(r.pieces)
  {
    UnmountLeaf(r.pieces, r.counter, id);
    r.Unmount(id);
  }

  /**
   * tests/ut/MountedPiece.test.ts:192-227: unmounting one top-level instance
   * tears down only its own action and leaves the other one's record alone.
   */
  method TwoTopLevelScenario() returns (afterFirst: seq<Event>, secondRecord: MountedPiece, afterBoth: seq<Event>)
    ensures afterFirst == [
      Mounted(10, 1, WithMountPiece(None, 1)),
      Mounted(20, 2, WithMountPiece(None, 2)),
      TornDown(10)]
    ensures secondRecord == MountedPiece(Piece(Single(20), None), None, [], Some(Undo(20)))
    ensures afterBoth == afterFirst + [TornDown(20)]
  {
    var r, first, second := MountTwoTopLevel();
    UnmountTopLevelLeaf(r, first);
    afterFirst := r.trace;
    secondRecord := r.pieces[second];
    UnmountTopLevelLeaf(r, second);
    afterBoth := r.trace;
  }

  /** `[mountKey](target)` on a constructed child instance whose piece mounts one action. */
  method MountSingleChild(r: Runtime, id: PieceId, p: PieceId, a: ActionId, target: Target)
    requires r.Valid() && id in r.pieces && p in r.pieces
    requires r.pieces[id] == MountedPiece(Piece(Single(a), None), Some(p), [], None)
    modifies r
    ensures r.Valid() && r.counter == old(r.counter)
    ensures r.trace == old(r.trace) + [Mounted(a, target, WithMountPiece(None, id))]
    ensures r.pieces == old(r.pieces)
      [id := MountedPiece(Piece(Single(a), None), Some(p), [], Some(Undo(a)))]
      [p := old(r.pieces)[p].(childPieces := old(r.pieces)[p].childPieces + [id])]
  {
    MountsOne(a, target, WithMountPiece(None, id));
    r.Mount(id, target, None);
  }

  /** The table of three instances 1, 2, 3, each mounted as the only child of the one before. */
  function ChainTable(): Table
  {
    map[
      1 := MountedPiece(Piece(Single(10), None), None, [2], Some(Undo(10))),
      2 := MountedPiece(Piece(Single(20), None), Some(1), [3], Some(Undo(20))),
      3 := MountedPiece(Piece(Single(30), None), Some(2), [], Some(Undo(30)))]
  }

  /** `new MountedPiece(piece, mountPiece, parent)` and `[mountKey](target)` for a child mounting one action. */
  method AddChild(r: Runtime, p: PieceId, a: ActionId) returns (id: PieceId)
    requires r.Valid() && p in r.pieces
    modifies r
    ensures r.Valid() && id == r.counter == old(r.counter) + 1
    ensures r.pieces == old(r.pieces)
      [id := MountedPiece(Piece(Single(a), None), Some(p), [], Some(Undo(a)))]
      [p := old(r.pieces)[p].(childPieces := old(r.pieces)[p].childPieces + [id])]
  {
    id := r.Construct(Piece(Single(a), None), Some(p));
    MountSingleChild(r, id, p, a, 0);
  }

  /** Constructs and mounts a top-level instance and its child. */
  method MountPair() returns (r: Runtime)
    ensures fresh(r) && r.Valid() && r.counter == 2
    ensures r.pieces.Keys == {1, 2}
    ensures r.pieces[1] == MountedPiece(Piece(Single(10), None), None, [2], Some(Undo(10)))
    ensures r.pieces[2] == MountedPiece(Piece(Single(20), None), Some(1), [], Some(Undo(20)))
  {
    r := new Runtime();
    var p := r.Construct(Piece(Single(10), None), None);
    MountSingleTopLevel(r, p, 10, 0);
    var c := AddChild(r, p, 20);
    assert c == 2 && [] + [2] == [2];
  }

  /** Constructs and mounts a top-level instance, its child, and its grandchild. */
  method MountChain() returns (r: Runtime)
    ensures fresh(r) && r.Valid() && r.counter == 3
    ensures r.pieces == ChainTable()
  {
    r := MountPair();
    ghost var t := r.pieces;
    var g := AddChild(r, 2, 30);
    assert g == 3 && [] + [3] == [3];
    assert r.pieces.Keys == {1, 2, 3};
    assert r.pieces[1] == t[1] && r.pieces[2] == t[2].(childPieces := [3]);
  }

  /** `unmount()` on the top of the chain reaches all three instances. */
  lemma ChainVisited()
    requires WellFormed(ChainTable(), 3)
    ensures Visited(ChainTable(), 3, 1) == {1, 2, 3}
  {
    var t := ChainTable();
    UnmountLeaf(t, 3, 3);
    assert VisitedFrom(t, 3, 2, 1) == {};
    assert VisitedFrom(t, 3, 2, 0) == Visited(t, 3, 3);
    assert VisitedFrom(t, 3, 1, 1) == {};
    assert VisitedFrom(t, 3, 1, 0) == Visited(t, 3, 2);
  }

  /** `unmount()` on the top of the chain empties the registries of all three instances. */
  method UnmountChainTop() returns (r: Runtime)
    ensures fresh(r) && r.Valid() && r.counter == 3
    ensures 2 in r.pieces && r.pieces[2] == ChainTable()[2].(childPieces := [])
    ensures 3 in r.pieces && r.pieces[3].childPieces == []
  {
    r := MountChain();
    ChainVisited();
    r.Unmount(1);
  }

  /**
   * Unmounting a parent also empties the registries of the instances below its
   * child: a later `unmount()` on that child runs only the child's own cleanup.
   */
  method ChainScenario() returns (middle: seq<PieceId>, bottom: seq<PieceId>, again: seq<Event>)
    ensures middle == [] && bottom == []
    ensures again == [TornDown(20)]
  {
    var r := UnmountChainTop();
    middle, bottom := r.pieces[2].childPieces, r.pieces[3].childPieces;
    var before := r.trace;
    UnmountLeaf(r.pieces, 3, 2);
    r.Unmount(2);
    again := r.trace[|before|..];
  }

  /** The mount specification `[A, [B, C]]` of tests/ut/MountedPiece.test.ts:154-190. */
  function NestedSpec(): Spec
  {
    Many([Single(1), Many([Single(2), Single(3)])])
  }

  /** `[A, [B, C]]` mounts A, B, C and its combined teardown runs C, B, A. */
  lemma NestedOrder()
    ensures Leaves(NestedSpec()) == [1, 2, 3]
    ensures TeardownTrace(TeardownOf(NestedSpec())) == [TornDown(3), TornDown(2), TornDown(1)]
  {
    var inner := [Single(2), Single(3)];
    assert inner[..1] == [Single(2)];
    assert LeavesOf(inner) == [2, 3];
    var outer := [Single(1), Many(inner)];
    assert outer[..1] == [Single(1)];
    assert Leaves(NestedSpec()) == [1, 2, 3];
    TeardownReversesMount(NestedSpec());
    assert Reversed([1, 2, 3]) == [3, 2, 1];
  }

  /**
   * tests/ut/MountedPiece.test.ts:154-190 in full: mounting `[A, [B, C]]` and
   * running the teardown it returns.
   */
  method NestedScenario(target: Target, props: Props) returns (events: seq<Event>)
    ensures events == [
      Mounted(1, target, props), Mounted(2, target, props), Mounted(3, target, props),
      TornDown(3), TornDown(2), TornDown(1)]
  {
    var r := new Runtime();
    NestedOrder();
    var u := r.DoMount(NestedSpec(), target, props);
    r.RunTeardown(u);
    events := r.trace;
  }
}
