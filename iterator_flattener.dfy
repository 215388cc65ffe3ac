/**
 * The iterator flattener: presents the elements of a root iterator of
 * sub-iterators depth-first, in order, skipping null and exhausted
 * sub-iterators lazily in `HasNext`.
 *
 * The root iterator is modelled by the sequence of its elements (`subs`,
 * a null element being `None`) and its cursor (`root`); `present` is the
 * flattener's `presentIterator`, `None` when that reference is null.
 */
module Flattening {
  import opened Wrappers
  import opened Exceptions
  import opened ListIterators

  /** What one element of the root iterator has still to deliver: nothing when it is null. */
  ghost function Contribution<E>(o: Option<ListIterator<E>>): seq<E>
    requires o.Some? ==> o.value.Valid()
  {
    if o.None? then [] else o.value.Remaining()
  }

  /** Everything the sub-iterators in `s` have still to deliver, in order. */
  ghost function Pending<E>(s: seq<Option<ListIterator<E>>>): seq<E>
    requires AllValid(s)
  {
    if s == [] then [] else Contribution(s[0]) + Pending(s[1..])
  }

  /** The reference meaning of flattening: the concatenation of the non-null lists, in order. */
  function Concat<E>(lists: seq<Option<seq<E>>>): seq<E> {
    if lists == [] then []
    else (if lists[0].None? then [] else lists[0].value) + Concat(lists[1..])
  }

  /** Fresh iterators over `lists`, null entries kept null. */
  function IterateAll<E>(lists: seq<Option<seq<E>>>): (s: seq<Option<ListIterator<E>>>)
    ensures |s| == |lists| && AllValid(s)
    ensures forall k :: 0 <= k < |s| ==> s[k] == (if lists[k].None? then None else Some(Iterate(lists[k].value)))
  {
    if lists == [] then []
    else [if lists[0].None? then None else Some(Iterate(lists[0].value))] + IterateAll(lists[1..])
  }

  /** Flattening fresh iterators delivers exactly the concatenation of the non-null lists. */
  lemma {:induction false} PendingOfFresh<E>(lists: seq<Option<seq<E>>>)
    ensures Pending(IterateAll(lists)) == Concat(lists)
  {
    if lists != [] {
      var s := IterateAll(lists);
      assert s[1..] == IterateAll(lists[1..]);
      PendingOfFresh(lists[1..]);
    }
  }

  lemma PendingUnfold<E>(s: seq<Option<ListIterator<E>>>, i: nat)
    requires AllValid(s) && i < |s|
    ensures Pending(s[i..]) == Contribution(s[i]) + Pending(s[i + 1..])
  {
    assert s[i..][1..] == s[i + 1..];
  }

  /** If nothing is left in `s[from..]`, every non-null sub-iterator there is exhausted. */
  lemma {:induction false} ExhaustedInEmptySuffix<E>(s: seq<Option<ListIterator<E>>>, from: nat, k: nat)
    requires AllValid(s) && from <= k < |s| && s[k].Some? && Pending(s[from..]) == []
    ensures !s[k].value.HasNext()
    decreases k - from
  {
    PendingUnfold(s, from);
    if from < k {
      ExhaustedInEmptySuffix(s, from + 1, k);
    }
  }

  lemma AllValidAppend<E>(a: seq<Option<ListIterator<E>>>, b: seq<Option<ListIterator<E>>>)
    requires AllValid(a) && AllValid(b)
    ensures AllValid(a + b)
  {
    forall k | 0 <= k < |a + b| && (a + b)[k].Some? ensures (a + b)[k].value.Valid() {
      if k < |a| {
        assert (a + b)[k] == a[k];
      } else {
        assert (a + b)[k] == b[k - |a|];
      }
    }
  }

  /** Delivery distributes over concatenation of roots. */
  lemma {:induction false} PendingAppend<E>(a: seq<Option<ListIterator<E>>>, b: seq<Option<ListIterator<E>>>)
    requires AllValid(a) && AllValid(b)
    ensures AllValid(a + b) && Pending(a + b) == Pending(a) + Pending(b)
  {
    AllValidAppend(a, b);
    if a == [] {
      assert a + b == b;
    } else {
      var t := a + b;
      assert t[0] == a[0] && t[1..] == a[1..] + b;
      PendingAppend(a[1..], b);
      assert Pending(t) == Contribution(a[0]) + (Pending(a[1..]) + Pending(b));
    }
  }

  /** One sub-iterator placed between two roots delivers its own part between theirs. */
  lemma PendingInsert<E>(a: seq<Option<ListIterator<E>>>, o: Option<ListIterator<E>>, b: seq<Option<ListIterator<E>>>)
    requires AllValid(a) && AllValid(b) && (o.Some? ==> o.value.Valid())
    ensures AllValid(a + [o] + b) && Pending(a + [o] + b) == Pending(a) + Contribution(o) + Pending(b)
  {
    assert AllValid([o]);
    PendingAppend(a, [o]);
    PendingAppend(a + [o], b);
    assert [o][1..] == [];
    assert Pending([o]) == Contribution(o);
  }

  /** A null sub-iterator contributes nothing: removing it from the root changes nothing that is delivered. */
  lemma NullContributesNothing<E>(a: seq<Option<ListIterator<E>>>, b: seq<Option<ListIterator<E>>>)
    requires AllValid(a) && AllValid(b)
    ensures AllValid(a + [None] + b) && Pending(a + [None] + b) == Pending(a + b)
  {
    PendingInsert(a, None, b);
    PendingAppend(a, b);
  }

  /** An exhausted (for instance empty) sub-iterator contributes nothing. */
  lemma ExhaustedContributesNothing<E>(a: seq<Option<ListIterator<E>>>, it: ListIterator<E>, b: seq<Option<ListIterator<E>>>)
    requires AllValid(a) && AllValid(b) && it.Valid() && !it.HasNext()
    ensures AllValid(a + [Some(it)] + b) && Pending(a + [Some(it)] + b) == Pending(a + b)
  {
    assert Contribution(Some(it)) == Contribution(None);
    PendingInsert(a, Some(it), b);
    PendingInsert(a, None, b);
    NullContributesNothing(a, b);
  }

  /** Nothing is left to deliver exactly when no non-null sub-iterator has a next element. */
  lemma {:induction false} PendingEmptyIff<E>(s: seq<Option<ListIterator<E>>>)
    requires AllValid(s)
    ensures Pending(s) == [] <==> forall k :: 0 <= k < |s| && s[k].Some? ==> !s[k].value.HasNext()
  {
    if s != [] {
      PendingEmptyIff(s[1..]);
      if Pending(s) == [] {
        forall k | 0 <= k < |s| && s[k].Some? ensures !s[k].value.HasNext() {
          if k > 0 { assert s[1..][k - 1] == s[k]; }
        }
      } else {
        if Contribution(s[0]) == [] {
          var j :| 0 <= j < |s[1..]| && s[1..][j].Some? && s[1..][j].value.HasNext();
          assert s[j + 1] == s[1..][j];
        }
      }
    }
  }

  /**
   * The flattener's invariant, on the values of its three fields: the root
   * cursor is in range, the current sub-iterator is one the root has handed
   * out, and every other sub-iterator the root has handed out is exhausted.
   */
  ghost predicate Consistent<E>(subs: seq<Option<ListIterator<E>>>, root: nat, present: Option<nat>) {
    && root <= |subs|
    && AllValid(subs)
    && (present.Some? ==> present.value < root && subs[present.value].Some?)
    && (forall k :: 0 <= k < root && subs[k].Some? && present != Some(k) ==> !subs[k].value.HasNext())
  }

  /** `presentIterator != null && presentIterator.hasNext()` */
  predicate CurrentHasNext<E>(subs: seq<Option<ListIterator<E>>>, present: Option<nat>)
    requires present.Some? ==> present.value < |subs| && subs[present.value].Some?
  {
    present.Some? && subs[present.value].value.HasNext()
  }

  /** What the flattener has still to deliver: the rest of the current sub-iterator, then the rest of the root. */
  ghost function Left<E>(subs: seq<Option<ListIterator<E>>>, root: nat, present: Option<nat>): seq<E>
    requires Consistent(subs, root, present)
  {
    (if present.None? then [] else subs[present.value].value.Remaining()) + Pending(subs[root..])
  }

  /** `rootIterator.next()` as `presentIterator`: null when the root hands out null. */
  function HandOut<E>(subs: seq<Option<ListIterator<E>>>, root: nat): Option<nat>
    requires root < |subs|
  {
    if subs[root].None? then None else Some(root)
  }

  /** Moving past an exhausted or null current sub-iterator to the root's next one loses nothing. */
  lemma MoveOn<E>(subs: seq<Option<ListIterator<E>>>, root: nat, present: Option<nat>)
    requires Consistent(subs, root, present) && root < |subs| && !CurrentHasNext(subs, present)
    ensures Consistent(subs, root + 1, HandOut(subs, root))
    ensures Left(subs, root + 1, HandOut(subs, root)) == Left(subs, root, present)
  {
    PendingUnfold(subs, root);
  }

  /** Once the root is exhausted and the current sub-iterator has no next element, nothing is left. */
  lemma NothingLeft<E>(subs: seq<Option<ListIterator<E>>>, present: Option<nat>)
    requires Consistent(subs, |subs|, present) && !CurrentHasNext(subs, present)
    ensures Left(subs, |subs|, present) == []
  {
    assert subs[|subs|..] == [];
  }

  /** Replacing the current sub-iterator by another valid one changes only its own part of what is left. */
  lemma ReplaceCurrent<E>(subs: seq<Option<ListIterator<E>>>, root: nat, p: nat, it: ListIterator<E>)
    requires Consistent(subs, root, Some(p)) && it.Valid()
    ensures Consistent(subs[p := Some(it)], root, Some(p))
    ensures Left(subs, root, Some(p)) == subs[p].value.Remaining() + Pending(subs[root..])
    ensures Left(subs[p := Some(it)], root, Some(p)) == it.Remaining() + Pending(subs[root..])
  {
    assert subs[p := Some(it)][root..] == subs[root..];
  }

  class IteratorFlattener<E> {
    /** The elements of the root iterator, as sub-iterators whose state the flattener advances. */
    var subs: seq<Option<ListIterator<E>>>
    /** The root iterator's cursor: how many of `subs` it has handed out. */
    var root: nat
    /** `presentIterator`: the index of the current sub-iterator, `None` when the reference is null. */
    var present: Option<nat>

    ghost predicate Valid()
      reads this
    {
      Consistent(subs, root, present)
    }

    /** The current sub-iterator is non-null and has a next element. */
    predicate PresentHasNext()
      reads this
      requires Valid()
    {
      CurrentHasNext(subs, present)
    }

    /** The elements the flattener has still to deliver, in order. */
    ghost function Remaining(): seq<E>
      reads this
      requires Valid()
    {
      Left(subs, root, present)
    }

    /**
     * With nothing left to deliver, a sub-iterator whose cursor is still at
     * its start has an empty list.
     */
    lemma EmptyOnceDrained(k: nat)
      requires Valid() && Remaining() == [] && k < |subs| && subs[k].Some? && subs[k].value.cursor == 0
      ensures subs[k].value.items == []
    {
      if k >= root {
        ExhaustedInEmptySuffix(subs, root, k);
      }
    }

    /** The constructor for a non-null root; `Create` models the null check. */
    constructor (rootIterator: seq<Option<ListIterator<E>>>)
      requires AllValid(rootIterator)
      ensures Valid() && Remaining() == Pending(rootIterator)
      ensures subs == rootIterator && root == 0 && present == None
    {
      subs := rootIterator;
      root := 0;
      present := None;
      new;
      assert subs[0..] == subs;
    }

    /**
     * `presentIterator = rootIterator.next()`, once the current sub-iterator
     * is null or exhausted: the root's next element becomes current, and
     * nothing that is left is lost.
     */
    method TakeFromRoot()
      requires Valid() && !PresentHasNext() && root < |subs|
      modifies this`root, this`present
      ensures Valid() && Remaining() == old(Remaining())
      ensures root == old(root) + 1 && 0 < root && present == HandOut(subs, root - 1)
      ensures present.Some? ==> present.value == root - 1
    {
      MoveOn(subs, root, present);
      present := HandOut(subs, root);
      root := root + 1;
    }

    /** `getNextAvailableIterator()`: the current sub-iterator if it has a next element, else the first later one that has. */
    method GetNextAvailableIterator() returns (r: Option<nat>)
      requires Valid()
      modifies this`root, this`present
      ensures Valid() && Remaining() == old(Remaining())
      ensures r.Some? <==> old(Remaining()) != []
      ensures r.Some? ==> r == present && PresentHasNext()
      ensures r.None? ==> root == |subs|
      ensures old(PresentHasNext()) ==> root == old(root) && present == old(present)
      // having moved on, the root cursor stands just past the sub-iterator returned
      ensures r.Some? && !old(PresentHasNext()) ==> root == present.value + 1
      // on null, the current sub-iterator is the last one the root handed out, if any
      ensures r.None? ==> present == (if old(root) < |subs| then HandOut(subs, |subs| - 1) else old(present))
    {
      if PresentHasNext() {
        return present;
      }
      r := NextFromRoot();
    }

    /**
     * The loop of `getNextAvailableIterator()`, entered when the current
     * sub-iterator is null or exhausted: takes the root's next element as
     * the current sub-iterator until one has a next element or the root is
     * exhausted.
     */
    method NextFromRoot() returns (r: Option<nat>)
      requires Valid() && !PresentHasNext()
      modifies this`root, this`present
      ensures Valid() && Remaining() == old(Remaining())
      ensures r.Some? <==> old(Remaining()) != []
      ensures r.Some? ==> r == present && PresentHasNext() && root == present.value + 1
      ensures r.None? ==> root == |subs| && present == (if old(root) < |subs| then HandOut(subs, |subs| - 1) else old(present))
    {
      ghost var root0, present0, left0 := root, present, Remaining();
      while root < |subs|
        invariant Valid() && !PresentHasNext()
        invariant Remaining() == left0
        invariant root0 <= root
        invariant present == if root == root0 then present0 else HandOut(subs, root - 1)
        decreases |subs| - root
      {
        TakeFromRoot();
        if PresentHasNext() {
          subs[present.value].value.HasNextIff();
          return present;
        }
      }
      NothingLeft(subs, present);
      return None;
    }

    /** `hasNext()`: true exactly when some element is left to deliver; it never changes what is left. */
    method HasNext() returns (b: bool)
      requires Valid()
      modifies this`root, this`present
      ensures Valid() && Remaining() == old(Remaining())
      ensures b <==> old(Remaining()) != []
      ensures b ==> PresentHasNext()
      ensures old(PresentHasNext()) ==> root == old(root) && present == old(present)
      ensures b && !old(PresentHasNext()) ==> root == present.value + 1
      ensures !b ==> root == |subs| && present == (if old(root) < |subs| then HandOut(subs, |subs| - 1) else old(present))
    {
      var it := GetNextAvailableIterator();
      b := it.Some?;
    }

    /**
     * `next()`: delegates to the current sub-iterator, without moving to a
     * later one; throws when the reference is null or that sub-iterator is
     * exhausted.
     */
    method Next() returns (r: Result<E, Exception>)
      requires Valid()
      modifies this`subs
      ensures Valid() && root == old(root) && present == old(present)
      ensures r.Success? <==> old(PresentHasNext())
      ensures present.None? ==> r == Failure(NullPointer)
      ensures present.Some? && !old(PresentHasNext()) ==> r == Failure(NoSuchElement)
      ensures r.Failure? ==> subs == old(subs)
      ensures r.Success? ==> old(Remaining()) == [r.value] + Remaining()
      ensures r.Success? ==>
                var p := present.value;
                var it := old(subs)[p].value;
                subs == old(subs)[p := Some(ListIterator(it.items, it.cursor + 1, true))]
    {
      if present.None? {
        return Failure(NullPointer);
      }
      var p := present.value;
      var step := subs[p].value.Next();
      if step.Failure? {
        return Failure(step.error);
      }
      ReplaceCurrent(subs, root, p, step.value.1);
      subs := subs[p := Some(step.value.1)];
      r := Success(step.value.0);
    }

    /**
     * `next()` as its documentation promises it: it first moves to the next
     * available sub-iterator, exactly as `hasNext()` does, so it returns the
     * next element whenever one is left, whether or not `hasNext()` was
     * called, and throws NoSuchElementException only when nothing is left.
     */
    method NextAvailable() returns (r: Result<E, Exception>)
      requires Valid()
      modifies this`subs, this`root, this`present
      ensures Valid()
      ensures r.Success? <==> old(Remaining()) != []
      ensures r.Failure? ==> r.error == NoSuchElement && Remaining() == []
      ensures r.Success? ==> old(Remaining()) == [r.value] + Remaining()
      ensures r.Failure? ==> subs == old(subs)
      // the root cursor and the current sub-iterator stand where `getNextAvailableIterator()` left them
      ensures r.Success? ==> present.Some? && root == (if old(PresentHasNext()) then old(root) else present.value + 1)
      ensures r.Failure? ==> root == |subs| && present == (if old(root) < |subs| then HandOut(subs, |subs| - 1) else old(present))
      // only the sub-iterator that delivered has moved: it is now current, with its element removable
      ensures r.Success? ==>
                (&& present.Some? && |subs| == |old(subs)| && old(subs)[present.value].Some?
                 && var p := present.value;
                    var it := old(subs)[p].value;
                    subs == old(subs)[p := Some(ListIterator(it.items, it.cursor + 1, true))])
    {
      var available := GetNextAvailableIterator();
      if available.None? {
        return Failure(NoSuchElement);
      }
      r := Next();
    }

    /**
     * `remove()`: delegates to the current sub-iterator, which deletes the
     * element it returned last; does nothing while the reference is null.
     */
    method Remove() returns (r: Outcome<Exception>)
      requires Valid()
      modifies this`subs
      ensures Valid() && root == old(root) && present == old(present)
      ensures Remaining() == old(Remaining())
      ensures r.Fail? <==> present.Some? && !old(subs)[present.value].value.canRemove
      ensures r.Fail? ==> r.error == IllegalState
      ensures r.Fail? || present.None? ==> subs == old(subs)
      ensures r.Pass? && present.Some? ==>
                var p := present.value;
                var it := old(subs)[p].value;
                subs == old(subs)[p := Some(ListIterator(it.items[..it.cursor - 1] + it.items[it.cursor..], it.cursor - 1, false))]
    {
      if present.None? {
        return Pass;
      }
      var p := present.value;
      var step := subs[p].value.Remove();
      if step.Failure? {
        return Fail(step.error);
      }
      ReplaceCurrent(subs, root, p, step.value);
      subs := subs[p := Some(step.value)];
      r := Pass;
    }
  }

  /**
   * The constructor with its null check: a null root is rejected with
   * IllegalArgumentException and no flattener is produced.
   */
  method Create<E>(rootIterator: Option<seq<Option<ListIterator<E>>>>) returns (r: Result<IteratorFlattener<E>, Exception>)
    requires rootIterator.Some? ==> AllValid(rootIterator.value)
    ensures r.Failure? <==> rootIterator.None?
    ensures r.Failure? ==> r.error == IllegalArgument
    ensures r.Success? ==>
              && fresh(r.value) && r.value.Valid()
              && r.value.subs == rootIterator.value && r.value.root == 0 && r.value.present == None
              && r.value.Remaining() == Pending(rootIterator.value)
  {
    if rootIterator.None? {
      return Failure(IllegalArgument);
    }
    var f := new IteratorFlattener(rootIterator.value);
    r := Success(f);
  }

  /** `while (flat.hasNext()) list.add(flat.next())`: collects exactly what was left to deliver. */
  method Drain<E>(f: IteratorFlattener<E>) returns (out: seq<E>)
    requires f.Valid()
    modifies f
    ensures f.Valid() && out == old(f.Remaining()) && f.Remaining() == []
    // iterating only moves cursors: every underlying list is as it was
    ensures Lists(f.subs) == Lists(old(f.subs))
  {
    ghost var total := f.Remaining();
    ghost var lists := Lists(f.subs);
    out := [];
    var more := f.HasNext();
    while more
      invariant f.Valid() && total == out + f.Remaining()
      invariant Lists(f.subs) == lists
      invariant more <==> f.Remaining() != []
      invariant more ==> f.PresentHasNext()
      decreases |f.Remaining()|
    {
      var x;
      x, more := NextThenHasNext(f);
      assert total == (out + [x]) + f.Remaining();
      out := out + [x];
    }
  }

  /**
   * `flat.next(); flat.hasNext();` when the current sub-iterator has an
   * element: that element is the head of what is left, and `hasNext()`
   * reports whether anything is left after it.
   */
  method NextThenHasNext<E>(f: IteratorFlattener<E>) returns (x: E, more: bool)
    requires f.Valid() && f.PresentHasNext()
    modifies f
    ensures f.Valid() && old(f.Remaining()) == [x] + f.Remaining()
    ensures more <==> f.Remaining() != []
    ensures more ==> f.PresentHasNext()
    ensures Lists(f.subs) == Lists(old(f.subs))
  {
    ghost var before := f.subs;
    var r := f.Next();
    x := r.value;
    ListsOfAdvanced(before, f.present.value);
    more := f.HasNext();
  }

  /** No sub-iterator in `s` has been advanced. */
  ghost predicate Unadvanced<E>(s: seq<Option<ListIterator<E>>>) {
    forall k :: 0 <= k < |s| && s[k].Some? ==> s[k].value.cursor == 0
  }

  /** Where `s` holds a non-null sub-iterator. */
  function Shape<E>(s: seq<Option<ListIterator<E>>>): seq<bool> {
    seq(|s|, k requires 0 <= k < |s| => s[k].Some?)
  }

  /** Replacing a non-null sub-iterator by another keeps the shape and, if the new one is unadvanced, unadvancedness. */
  lemma UpdateKeepsUnadvanced<E>(s: seq<Option<ListIterator<E>>>, p: nat, it: ListIterator<E>)
    requires Unadvanced(s) && p < |s| && s[p].Some? && it.cursor == 0
    ensures Unadvanced(s[p := Some(it)]) && Shape(s[p := Some(it)]) == Shape(s)
  {
  }

  /**
   * `while (flat.hasNext()) { flat.next(); flat.remove(); }` over sub-iterators
   * that have not been advanced: every remove succeeds and every underlying
   * list ends up empty.
   */
  method DrainRemoving<E>(f: IteratorFlattener<E>)
    requires f.Valid() && Unadvanced(f.subs)
    modifies f
    ensures f.Valid() && f.Remaining() == []
    // the root still holds null exactly where it did, and every underlying list is empty
    ensures Shape(f.subs) == Shape(old(f.subs))
    ensures forall k :: 0 <= k < |f.subs| && f.subs[k].Some? ==> f.subs[k].value.items == []
  {
    ghost var shape := f.subs;
    var more := f.HasNext();
    while more
      invariant f.Valid() && Unadvanced(f.subs) && Shape(f.subs) == Shape(shape)
      invariant more <==> f.Remaining() != []
      invariant more ==> f.PresentHasNext()
      decreases |f.Remaining()|
    {
      NextThenRemove(f);
      more := f.HasNext();
    }
    forall k | 0 <= k < |f.subs| && f.subs[k].Some?
      ensures f.subs[k].value.items == []
    {
      f.EmptyOnceDrained(k);
    }
  }

  /**
   * `flat.next(); flat.remove();` while the current sub-iterator has a next
   * element: the element delivered is deleted from its list, so the
   * sub-iterator is back at its start with one element fewer.
   */
  method NextThenRemove<E>(f: IteratorFlattener<E>)
    requires f.Valid() && Unadvanced(f.subs) && f.PresentHasNext()
    modifies f
    ensures f.Valid() && Unadvanced(f.subs) && Shape(f.subs) == Shape(old(f.subs))
    ensures f.root == old(f.root) && f.present == old(f.present)
    ensures f.Remaining() == old(f.Remaining())[1..]
  {
    ghost var left := f.Remaining();
    ghost var before := f.subs;
    ghost var p := f.present.value;
    var x := f.Next();
    assert x.Success? && |f.Remaining()| < |left|;
    ghost var mid := f.subs;
    ghost var afterNext := f.Remaining();
    var y := f.Remove();
    assert y.Pass? && f.Remaining() == afterNext;
    ghost var it := f.subs[p].value;
    assert f.subs == mid[p := Some(it)];
    assert mid == before[p := mid[p]];
    assert f.subs == before[p := Some(it)];
    UpdateKeepsUnadvanced(before, p, it);
    assert left == [x.value] + afterNext;
  }

  /**
   * Flattening fresh iterators over `lists` and draining the flattener with
   * `while (flat.hasNext()) out.add(flat.next())` collects the non-null lists
   * one after the other, null entries and empty lists contributing nothing.
   */
  method Flatten<E>(lists: seq<Option<seq<E>>>) returns (out: seq<E>)
    ensures out == Concat(lists)
  {
    var f := new IteratorFlattener(IterateAll(lists));
    PendingOfFresh(lists);
    out := Drain(f);
  }

  /** The lists the sub-iterators in `s` iterate over, null entries kept null. */
  function Lists<E>(s: seq<Option<ListIterator<E>>>): seq<Option<seq<E>>> {
    seq(|s|, k requires 0 <= k < |s| => if s[k].None? then None else Some(s[k].value.items))
  }

  /** Advancing the cursor of one sub-iterator leaves every list as it was. */
  lemma ListsOfAdvanced<E>(s: seq<Option<ListIterator<E>>>, p: nat)
    requires p < |s| && s[p].Some?
    ensures var it := s[p].value; Lists(s[p := Some(ListIterator(it.items, it.cursor + 1, true))]) == Lists(s)
  {
  }

  /** Fresh iterators go over exactly the given lists: iterating leaves the lists themselves untouched. */
  lemma ListsOfFresh<E>(lists: seq<Option<seq<E>>>)
    ensures Lists(IterateAll(lists)) == lists
  {
    var s := IterateAll(lists);
    assert |Lists(s)| == |lists|;
    forall k | 0 <= k < |lists| ensures Lists(s)[k] == lists[k] {
      assert s[k] == (if lists[k].None? then None else Some(Iterate(lists[k].value)));
    }
  }

  /**
   * Flattening fresh iterators over `lists` and draining the flattener with
   * `while (flat.hasNext()) { flat.next(); flat.remove(); }`: every remove
   * deletes what the preceding next returned, so every non-null list ends up
   * empty and null entries stay null.
   */
  method FlattenRemoving<E>(lists: seq<Option<seq<E>>>) returns (after: seq<Option<seq<E>>>)
    ensures |after| == |lists|
    ensures forall k :: 0 <= k < |lists| ==> after[k] == (if lists[k].None? then None else Some([]))
  {
    var f := new IteratorFlattener(IterateAll(lists));
    DrainRemoving(f);
    var subs := f.subs;
    after := Lists(subs);
    forall k | 0 <= k < |lists|
      ensures after[k] == (if lists[k].None? then None else Some([]))
    {
      assert Shape(subs)[k] == Shape(IterateAll(lists))[k];
    }
  }

  /** A fresh flattener over the one list [1]: `next()` before any `hasNext()` throws NullPointerException, with 1 still to deliver. */
  method NextBeforeHasNext() returns (f: IteratorFlattener<int>, r: Result<int, Exception>)
    ensures fresh(f) && f.Valid() && f.Remaining() == [1]
    ensures r == Failure(NullPointer)
  {
    f := new IteratorFlattener(IterateAll([Some([1])]));
    PendingOfFresh([Some([1])]);
    r := f.Next();
  }

  /**
   * Over the lists [1] and [2]: after `next()` returns 1 from the first list,
   * crossing to the second one with `next()` alone throws
   * NoSuchElementException although 2 is still to deliver.
   */
  method NextAcrossLists() returns (f: IteratorFlattener<int>, r: Result<int, Exception>)
    ensures fresh(f) && f.Valid() && f.Remaining() == [2]
    ensures r == Failure(NoSuchElement)
  {
    f := new IteratorFlattener(IterateAll([Some([1]), Some([2])]));
    PendingOfFresh([Some([1]), Some([2])]);
    var b := f.HasNext();
    var x := f.Next();
    r := f.Next();
  }

  /** The corrected `next()` on the same two lists delivers both elements without any `hasNext()`. */
  method NextAvailableAcrossLists() returns (x: Result<int, Exception>, y: Result<int, Exception>, z: Result<int, Exception>)
    ensures x == Success(1) && y == Success(2) && z == Failure(NoSuchElement)
  {
    var f := new IteratorFlattener(IterateAll([Some([1]), Some([2])]));
    PendingOfFresh([Some([1]), Some([2])]);
    ghost var left := f.Remaining();
    assert left == [1, 2];
    x := f.NextAvailable();
    assert left[1..] == f.Remaining() == [2] by {
      assert left == [x.value] + f.Remaining();
    }
    left := f.Remaining();
    y := f.NextAvailable();
    assert left[1..] == f.Remaining() == [] by {
      assert left == [y.value] + f.Remaining();
    }
    z := f.NextAvailable();
  }

  /**
   * Over the lists [1] and [2]: `next()` returns 1, then a `hasNext()` moves
   * on to the second list, so a following `remove()` is delegated to an
   * iterator that has returned nothing and throws IllegalStateException.
   */
  method RemoveAfterMovingOn() returns (r: Outcome<Exception>)
    ensures r == Fail(IllegalState)
  {
    var f := new IteratorFlattener(IterateAll([Some([1]), Some([2])]));
    var b := f.HasNext();
    var x := f.Next();
    b := f.HasNext();
    r := f.Remove();
  }

  /**
   * Over the one list [1]: after `next()` returns 1, a `hasNext()` that finds
   * nothing keeps that sub-iterator current, so `remove()` still deletes 1
   * from its list.
   */
  method RemoveAfterExhausting() returns (r: Outcome<Exception>, after: seq<Option<seq<int>>>)
    ensures r == Pass && after == [Some([])]
  {
    var f := new IteratorFlattener(IterateAll([Some([1])]));
    var b := f.HasNext();
    var x := f.Next();
    b := f.HasNext();
    r := f.Remove();
    var subs := f.subs;
    after := Lists(subs);
  }

  /**
   * Over [1] followed by a null entry: once 1 is delivered, a `hasNext()`
   * that moves on makes the null entry current, so `next()` throws
   * NullPointerException.
   */
  method NextAfterNullEntry() returns (b: bool, r: Result<int, Exception>)
    ensures !b && r == Failure(NullPointer)
  {
    var f, x;
    f, x, b := DeliverThenMoveToNull();
    r := f.Next();
  }

  /**
   * Over [1] followed by a null entry: the corrected `next()` delivers 1 from
   * the first sub-iterator, then a `hasNext()` moves on to the null entry,
   * so the `next()` as written throws NullPointerException.
   */
  method NextAvailableThenNullEntry() returns (x: Result<int, Exception>, b: bool, r: Result<int, Exception>)
    ensures x == Success(1) && !b && r == Failure(NullPointer)
  {
    var f := new IteratorFlattener(IterateAll([Some([1]), None]));
    PendingOfFresh([Some([1]), None]);
    ghost var left := f.Remaining();
    assert left == [1];
    x := f.NextAvailable();
    assert left == [x.value] + f.Remaining();
    assert x == Success(1) && f.Remaining() == [] && f.root == 1;
    b := f.HasNext();
    assert !b && f.present == HandOut(f.subs, 1) == None;
    r := f.Next();
  }

  /**
   * Over [1] followed by a null entry: once the corrected `next()` has
   * delivered 1 and then failed, the null entry is current, so `remove()`
   * does nothing and the list [1] keeps its element.
   */
  method NextAvailableTwiceThenRemove() returns (y: Result<int, Exception>, r: Outcome<Exception>, after: seq<Option<seq<int>>>)
    ensures y == Failure(NoSuchElement) && r == Pass && after == [Some([1]), None]
  {
    var f := new IteratorFlattener(IterateAll([Some([1]), None]));
    PendingOfFresh([Some([1]), None]);
    ghost var left := f.Remaining();
    var x := f.NextAvailable();
    assert left == [x.value] + f.Remaining();
    y := f.NextAvailable();
    assert f.present == HandOut(f.subs, 1) == None;
    r := f.Remove();
    var subs := f.subs;
    after := Lists(subs);
  }

  /**
   * Over [1] followed by a null entry: `hasNext(); next(); hasNext();`
   * delivers 1, and the second `hasNext()` moves on, making the null entry
   * current, and returns false. The lists are as they were.
   */
  method DeliverThenMoveToNull() returns (f: IteratorFlattener<int>, x: Result<int, Exception>, b: bool)
    ensures fresh(f) && f.Valid() && f.present == None
    ensures x == Success(1) && !b && Lists(f.subs) == [Some([1]), None]
  {
    f := new IteratorFlattener(IterateAll([Some([1]), None]));
    PendingOfFresh([Some([1]), None]);
    ghost var left := f.Remaining();
    assert left == [1];
    b := f.HasNext();
    x := f.Next();
    assert left == [x.value] + f.Remaining();
    assert f.Remaining() == [] && f.root == 1 && f.subs[0].value.items == [1] && f.subs[1] == None;
    b := f.HasNext();
    assert !b && f.present == HandOut(f.subs, 1) == None;
  }

  /**
   * Over [1] followed by a null entry: after `next()` returns 1, a `hasNext()`
   * that moves on makes the null entry current, so `remove()` does nothing
   * and 1 stays in its list.
   */
  method RemoveAfterNullEntry() returns (b: bool, r: Outcome<Exception>, after: seq<Option<seq<int>>>)
    ensures !b && r == Pass && after == [Some([1]), None]
  {
    var f, x;
    f, x, b := DeliverThenMoveToNull();
    r := f.Remove();
    var subs := f.subs;
    after := Lists(subs);
  }

  /** `remove()` on a fresh flattener does nothing, as no sub-iterator is current. */
  method RemoveBeforeNext() returns (f: IteratorFlattener<int>, r: Outcome<Exception>)
    ensures fresh(f) && f.Valid() && f.Remaining() == [1]
    ensures r == Pass
  {
    f := new IteratorFlattener(IterateAll([Some([1])]));
    PendingOfFresh([Some([1])]);
    r := f.Remove();
  }

  /** The example of the class comment: [1, 2], [3] and [4, 5] flatten to 1, 2, 3, 4, 5. */
  method DocExample() returns (out: seq<int>)
    ensures out == [1, 2, 3, 4, 5]
  {
    out := Flatten([Some([1, 2]), Some([3]), Some([4, 5])]);
  }

  /** The scenario of testStringsFlattener: a null entry among three lists. */
  method StringsExample() returns (out: seq<string>)
    ensures out == ["val1", "val2", "val3", "val4", "val5", "val5", "val6", "val7"]
  {
    out := Flatten([Some(["val1", "val2", "val3"]), None, Some(["val4", "val5"]), Some(["val5", "val6", "val7"])]);
  }

  /** The scenario of testIntegersFlattener: an empty list among four. */
  method IntegersExample() returns (out: seq<int>)
    ensures out == [1, 2, 3, 5, 6, 7, 8, 10, 20]
  {
    out := Flatten([Some([1, 2, 3]), Some([5, 6, 7, 8]), Some([]), Some([10, 20])]);
  }

  /** The scenario of testRemoveItemFromFlattener: all three lists end up empty. */
  method RemoveExample() returns (after: seq<Option<seq<string>>>)
    ensures after == [Some([]), None, Some([]), Some([])]
  {
    after := FlattenRemoving([Some(["val1", "val2", "val3"]), None, Some(["val4", "val5"]), Some(["val5", "val6", "val7"])]);
  }
}
