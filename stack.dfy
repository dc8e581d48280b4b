/**
 * The generic LIFO container of src/Stack.ts.
 *
 * The private array `#items` becomes the field `items: seq<T>`. Its first
 * element is the bottom (oldest) of the stack and its last element the top.
 * JavaScript's `undefined` result, returned by `pop` and `peek` on an empty
 * stack, becomes `None`.
 */
module Stacks {

  datatype Option<T> = None | Some(value: T)

  /** `s` read from its last element to its first. */
  function Reversed<T>(s: seq<T>): (r: seq<T>)
    ensures |r| == |s|
    ensures forall i :: 0 <= i < |s| ==> r[i] == s[|s| - 1 - i]
  {
    if s == [] then [] else [s[|s| - 1]] + Reversed(s[..|s| - 1])
  }

  /** Reading a sequence backwards twice gives it back. */
  lemma ReversedTwice<T>(s: seq<T>)
    ensures Reversed(Reversed(s)) == s
  {
    var r := Reversed(Reversed(s));
    assert |r| == |s|;
    forall i | 0 <= i < |s| ensures r[i] == s[i] {
      assert Reversed(s)[|s| - 1 - i] == s[i];
    }
  }

  /** Reversing a concatenation reverses the order of its parts. */
  lemma ReversedAppend<T>(a: seq<T>, b: seq<T>)
    ensures Reversed(a + b) == Reversed(b) + Reversed(a)
  {
    var l, r := Reversed(a + b), Reversed(b) + Reversed(a);
    assert |l| == |r|;
    forall i | 0 <= i < |l| ensures l[i] == r[i] {
      if i < |b| {
        assert r[i] == Reversed(b)[i];
      } else {
        assert r[i] == Reversed(a)[i - |b|];
      }
    }
  }

  /** The top of a stack holding `s`: what `peek` reads and `pop` removes. */
  function LastOf<T>(s: seq<T>): Option<T>
  {
    if s == [] then None else Some(s[|s| - 1])
  }

  /**
   * The index `delete` (src/Stack.ts:90-98) finds: scanning from the top down,
   * the first element that satisfies `p`, that is the one with the highest index.
   */
  function LastMatch<T>(s: seq<T>, p: T -> bool): (r: Option<nat>)
    ensures r.Some? ==> r.value < |s| && p(s[r.value])
    ensures r.Some? ==> forall j :: r.value < j < |s| ==> !p(s[j])
    ensures r.None? <==> forall j :: 0 <= j < |s| ==> !p(s[j])
  {
    if s == [] then None
    else if p(s[|s| - 1]) then Some(|s| - 1)
    else LastMatch(s[..|s| - 1], p)
  }

  /**
   * The contents after `delete(p)`: the topmost element satisfying `p` is cut
   * out and the others keep their order; with no match nothing changes.
   */
  function DeleteTopmost<T>(s: seq<T>, p: T -> bool): (r: seq<T>)
    ensures (forall j :: 0 <= j < |s| ==> !p(s[j])) ==> r == s
    ensures forall k :: 0 <= k < |s| && p(s[k]) && (forall j :: k < j < |s| ==> !p(s[j])) ==>
      r == s[..k] + s[k + 1..]
  {
    match LastMatch(s, p)
    case None => s
    case Some(k) => s[..k] + s[k + 1..]
  }

  /** Deleting removes one element exactly when some element matches. */
  lemma DeleteTopmostSize<T>(s: seq<T>, p: T -> bool)
    ensures |DeleteTopmost(s, p)| == if LastMatch(s, p).Some? then |s| - 1 else |s|
  {
    match LastMatch(s, p)
    case None =>
    case Some(k) =>
      assert DeleteTopmost(s, p) == s[..k] + s[k + 1..];
  }

  class Stack<T> {
    /** The elements, bottom (oldest) first; the top is the last element. */
    var items: seq<T>

    constructor ()
      ensures items == []
    {
      items := [];
    }

    /** `Stack.fromArray`: a new stack holding a copy of `xs`, whose first element is the bottom. */
    static method FromArray(xs: array<T>) returns (s: Stack<T>)
      ensures fresh(s) && s.items == xs[..]
    {
      s := new Stack();
      s.items := xs[..];
    }

    /** Adds `x` on top and returns the new size. */
    method Push(x: T) returns (size: nat)
      modifies this
      ensures items == old(items) + [x]
      ensures size == |old(items)| + 1 == Size()
      ensures Peek() == Some(x)
    {
      items := items + [x];
      size := |items|;
    }

    /** Removes and returns the top element; on an empty stack returns None and changes nothing. */
    method Pop() returns (r: Option<T>)
      modifies this
      ensures r == LastOf(old(items))
      ensures old(items) == [] ==> items == []
      ensures old(items) != [] ==> items == old(items)[..|old(items)| - 1] && old(items) == items + [r.value]
    {
      if items == [] {
        r := None;
      } else {
        r := Some(items[|items| - 1]);
        items := items[..|items| - 1];
      }
    }

    /** The top element without removing it, or None when the stack is empty. */
    function Peek(): (r: Option<T>)
      reads this
      ensures r.None? <==> items == []
      ensures r.Some? ==> r.value == items[|items| - 1]
    {
      if items == [] then None else Some(items[|items| - 1])
    }

    /** Alias of `Peek`. */
    function Top(): (r: Option<T>)
      reads this
      ensures r == Peek()
      ensures r == LastOf(items)
    {
      Peek()
    }

    function IsEmpty(): (b: bool)
      reads this
      ensures b <==> Size() == 0
      ensures b <==> Peek() == None
    {
      |items| == 0
    }

    /** The number of elements held. */
    function Size(): (n: nat)
      reads this
      ensures n == |items|
    {
      |items|
    }

    /** Alias of `Size`. */
    function Length(): (n: nat)
      reads this
      ensures n == Size()
    {
      Size()
    }

    /** Removes every element (the source reassigns `#items` to a new empty array). */
    method Clear()
      modifies this
      ensures items == [] && IsEmpty()
    {
      items := [];
    }

    /**
     * Scans from the top down and splices out the first element that satisfies
     * `p`; reports whether one was removed.
     */
    method Delete(p: T -> bool) returns (removed: bool)
      modifies this
      ensures removed <==> exists j :: 0 <= j < |old(items)| && p(old(items)[j])
      ensures items == DeleteTopmost(old(items), p)
    {
      var i := |items| - 1;
      while i >= 0
        invariant -1 <= i < |items|
        invariant items == old(items)
        invariant forall j :: i < j < |items| ==> !p(items[j])
      {
        if p(items[i]) {
          items := items[..i] + items[i + 1..];
          return true;
        }
        i := i - 1;
      }
      return false;
    }

    /** A fresh array holding the elements bottom first; writing to it cannot change the stack. */
    method ToArray() returns (a: array<T>)
      ensures fresh(a) && a[..] == items
    {
      a := new T[|items|](i requires 0 <= i < |items| reads this => items[i]);
    }

    /** The default iterator (`[Symbol.iterator]`), not yet started. */
    method Iterator() returns (it: TopDownCursor<T>)
      ensures fresh(it) && it.stack == this && !it.started
    {
      it := new TopDownCursor(this);
    }

    /**
     * Drains the default iterator when nothing changes the stack meanwhile,
     * as `Array.from(stack)`, `[...stack]` and `for...of` do: top to bottom.
     */
    method TopToBottom() returns (out: seq<T>)
      ensures out == Reversed(items)
    {
      var it := new TopDownCursor(this);
      out := [];
      var done, v := it.Next();
      while !done
        invariant it.stack == this && it.started
        invariant -1 <= it.index < |items|
        invariant done <==> it.index < 0
        invariant !done ==> v == Some(items[it.index])
        invariant out == Reversed(items)[..|items| - 1 - it.index]
        decreases it.index + 1
      {
        assert Reversed(items)[|items| - 1 - it.index] == items[it.index];
        assert Reversed(items)[..|items| - it.index] == Reversed(items)[..|items| - 1 - it.index] + [items[it.index]];
        out := out + [v.value];
        done, v := it.Next();
      }
    }

    /** `bottomToTop`: a fresh bottom-up generator over this stack, not yet started. */
    method BottomToTop() returns (it: BottomUpCursor<T>)
      ensures fresh(it) && it.stack == this && !it.started && !it.finished
    {
      it := new BottomUpCursor(this);
    }

    /** Drains `bottomToTop` when nothing changes the stack meanwhile: bottom (oldest) first. */
    method DrainBottomToTop() returns (out: seq<T>)
      ensures out == items
    {
      var it := new BottomUpCursor(this);
      out := [];
      var done, v := it.Next();
      while !done
        invariant it.stack == this && it.started && it.finished == done
        invariant 0 <= it.index <= |items|
        invariant done <==> it.index == |items|
        invariant !done ==> v == Some(items[it.index])
        invariant out == items[..it.index]
        decreases |items| - it.index
      {
        assert items[..it.index + 1] == items[..it.index] + [items[it.index]];
        out := out + [v.value];
        done, v := it.Next();
      }
    }
  }

  /**
   * The generator behind `[Symbol.iterator]` (src/Stack.ts:137-141). It is an
   * index cursor over the live stack: the start index is fixed on the first
   * `Next`, and each later `Next` steps one index down and reads whatever the
   * stack holds there now. An index past the current top yields JavaScript's
   * `undefined`, here `None` with `done` false.
   */
  class TopDownCursor<T> {
    const stack: Stack<T>
    var started: bool
    var index: int

    constructor (s: Stack<T>)
      ensures stack == s && !started
    {
      stack := s;
      started := false;
      index := 0;
    }

    method Next() returns (done: bool, value: Option<T>)
      modifies this
      ensures started
      ensures index == if old(started) then old(index) - 1 else |stack.items| - 1
      ensures done <==> index < 0
      ensures value == if 0 <= index < |stack.items| then Some(stack.items[index]) else None
    {
      if started {
        index := index - 1;
      } else {
        started := true;
        index := |stack.items| - 1;
      }
      done := index < 0;
      value := if 0 <= index < |stack.items| then Some(stack.items[index]) else None;
    }
  }

  /**
   * The generator behind `bottomToTop` (src/Stack.ts:148-152). Like
   * `TopDownCursor` it re-reads the live stack on every `Next`: the index starts
   * at 0 and steps one up, and the generator finishes the first time the index
   * is not below the current size. A finished generator stays finished, even
   * if the stack grows afterwards.
   */
  class BottomUpCursor<T> {
    const stack: Stack<T>
    var started: bool
    var finished: bool
    var index: nat

    constructor (s: Stack<T>)
      ensures stack == s && !started && !finished
    {
      stack := s;
      started := false;
      finished := false;
      index := 0;
    }

    method Next() returns (done: bool, value: Option<T>)
      modifies this
      ensures old(finished) ==> done && finished && value == None && index == old(index) && started == old(started)
      ensures !old(finished) ==> started && index == (if old(started) then old(index) + 1 else 0)
      ensures !old(finished) ==> (done <==> index >= |stack.items|) && finished == done
      ensures !old(finished) ==> value == if done then None else Some(stack.items[index])
    {
      if finished {
        done, value := true, None;
        return;
      }
      if started {
        index := index + 1;
      } else {
        started := true;
        index := 0;
      }
      done := index >= |stack.items|;
      finished := done;
      value := if done then None else Some(stack.items[index]);
    }
  }

  /** The default iterator and `bottomToTop` visit the same elements in opposite orders. */
  method IterationOrders<T>(s: Stack<T>) returns (down: seq<T>, up: seq<T>)
    ensures down == Reversed(up) && up == Reversed(down)
  {
    down := s.TopToBottom();
    up := s.DrainBottomToTop();
    ReversedTwice(s.items);
  }

  /**
   * `bottomToTop` re-reads the live stack: an element pushed after the
   * iteration started is still yielded when the index reaches it.
   */
  method BottomUpSeesLaterPushes() returns (first: Option<int>, second: Option<int>, third: Option<int>, finished: bool)
    ensures first == Some(1) && second == Some(2) && third == Some(3) && finished
  {
    var s := new Stack<int>();
    var _ := s.Push(1);
    var _ := s.Push(2);
    var it := s.BottomToTop();
    var _, v1 := it.Next();
    var _ := s.Push(3);
    var _, v2 := it.Next();
    var _, v3 := it.Next();
    var done, _ := it.Next();
    first, second, third, finished := v1, v2, v3, done;
  }

  /** `push(x)` then `pop()` gives back `x` and the contents from before the push. */
  method PushThenPop<T>(s: Stack<T>, x: T) returns (size: nat, r: Option<T>)
    modifies s
    ensures size == |old(s.items)| + 1
    ensures r == Some(x) && s.items == old(s.items)
  {
    size := s.Push(x);
    r := s.Pop();
  }

  /** `fromArray(xs).toArray()` equals `xs`, and the new stack's top is the last of `xs`. */
  method FromArrayRoundTrip<T>(xs: array<T>) returns (ys: array<T>, top: Option<T>)
    ensures ys[..] == xs[..]
    ensures top == LastOf(xs[..])
  {
    var s := Stack.FromArray(xs);
    ys := s.ToArray();
    top := s.Peek();
  }

  /**
   * tests/ut/Stack.test.ts:256-264: changing the array `toArray` returned
   * leaves the stack alone. The test pushes onto that array; a Dafny array
   * cannot grow, so a write into it stands in for the push.
   */
  method ToArrayIsACopy() returns (size: nat, contents: seq<int>)
    ensures size == 2 && contents == [1, 2]
  {
    var s := new Stack<int>();
    var _ := s.Push(1);
    var _ := s.Push(2);
    var a := s.ToArray();
    a[0] := 3;
    size := s.Size();
    var b := s.ToArray();
    contents := b[..];
  }

  /**
   * tests/ut/Stack.test.ts:392-404: the default iterator keeps its own index,
   * so a push or a pop between two `next` calls does not restart it.
   */
  method IteratorKeepsItsIndex() returns (first: Option<int>, second: Option<int>, third: Option<int>)
    ensures first == Some(3) && second == Some(2) && third == Some(1)
  {
    var s := new Stack<int>();
    var _ := s.Push(1);
    var _ := s.Push(2);
    var _ := s.Push(3);
    var it := s.Iterator();
    var _, v1 := it.Next();
    var _ := s.Push(4);
    var _, v2 := it.Next();
    var _ := s.Pop();
    var _, v3 := it.Next();
    first, second, third := v1, v2, v3;
  }

  /** tests/ut/Stack.test.ts:208-218: with duplicates the topmost match is the one removed. */
  lemma DeleteRemovesTopmostDuplicate()
    ensures DeleteTopmost([1, 2, 3, 2], (x: int) => x == 2) == [1, 2, 3]
  {
    var s := [1, 2, 3, 2];
    assert s[..3] + s[4..] == [1, 2, 3];
  }
}
