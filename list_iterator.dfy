/**
 * A value model of the iterator of a removable list (java.util.ArrayList's
 * iterator), the kind of sub-iterator the flattener delegates to.
 *
 * The iterator owns its list: `items` is the list's current content,
 * `cursor` the index of the next element to return, and `canRemove` says
 * whether `remove` may delete the element last returned, which is always
 * the one at `cursor - 1`.
 */
module ListIterators {
  import opened Wrappers
  import opened Exceptions

  datatype ListIterator<E> = ListIterator(items: seq<E>, cursor: nat, canRemove: bool) {

    /** The iterator's own invariant. */
    ghost predicate Valid() {
      cursor <= |items| && (canRemove ==> 0 < cursor)
    }

    /** `hasNext()`: the cursor has not reached the end of the list. */
    predicate HasNext() {
      cursor != |items|
    }

    /** A valid iterator has a next element exactly when something remains to return. */
    lemma HasNextIff()
      requires Valid()
      ensures HasNext() <==> Remaining() != []
    {
    }

    /** The elements this iterator has still to return. */
    ghost function Remaining(): seq<E>
      requires Valid()
    {
      items[cursor..]
    }

    /** `next()`: the element under the cursor and the advanced iterator, or NoSuchElementException. */
    function Next(): (r: Result<(E, ListIterator<E>), Exception>)
      requires Valid()
      ensures r.Success? <==> Remaining() != []
      ensures r.Failure? ==> r.error == NoSuchElement
      ensures r.Success? ==>
                && r.value.0 == Remaining()[0]
                && r.value.1.Valid()
                && r.value.1.Remaining() == Remaining()[1..]
                && r.value.1.items == items
                && r.value.1.canRemove
    {
      if cursor >= |items| then Failure(NoSuchElement)
      else Success((items[cursor], ListIterator(items, cursor + 1, true)))
    }

    /**
     * `remove()`: deletes the element last returned by `Next` from the list,
     * or IllegalStateException when there is none (no `next` yet, or `remove`
     * already called since the last `next`).
     */
    function Remove(): (r: Result<ListIterator<E>, Exception>)
      requires Valid()
      ensures r.Success? <==> canRemove
      ensures r.Failure? ==> r.error == IllegalState
      ensures r.Success? ==>
                && r.value.Valid()
                && r.value.Remaining() == Remaining()
                && |r.value.items| == |items| - 1
                && r.value.items == items[..cursor - 1] + items[cursor..]
                && !r.value.canRemove
    {
      if !canRemove then Failure(IllegalState)
      else
        var rest := items[..cursor - 1] + items[cursor..];
        assert rest[cursor - 1..] == items[cursor..];
        Success(ListIterator(rest, cursor - 1, false))
    }
  }

  /** A fresh iterator over `list`, as `list.iterator()` returns it. */
  function Iterate<E>(list: seq<E>): (it: ListIterator<E>)
    ensures it.Valid() && it.Remaining() == list && it.items == list
  {
    ListIterator(list, 0, false)
  }

  /** Every non-null iterator in `s` satisfies its invariant. */
  ghost predicate AllValid<E>(s: seq<Option<ListIterator<E>>>) {
    forall k :: 0 <= k < |s| && s[k].Some? ==> s[k].value.Valid()
  }
}
