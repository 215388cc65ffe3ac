# Iterator flattener and palindrome check

A model of two sequential components of `oracle.test`:

- **`IteratorFlattener<E>`** presents the elements of a root iterator of
  sub-iterators depth-first. `hasNext()` skips null and exhausted
  sub-iterators lazily. `next()` and `remove()` delegate to the current
  sub-iterator.
- **`PalindromeUtil.isPalindrome`** removes every non-word character from a
  string and lower-cases the rest. It then compares mirrored characters in
  a loop that exits early.

The files are:

- `wrappers.dfy`: `Option` (a possibly null reference), `Result` (a call
  that returns or throws), `Outcome` (a `void` call that returns or
  throws), and the Java exceptions involved.
- `list_iterator.dfy`: the sub-iterators, as values modelled on
  `ArrayList`'s iterator.
  - `items` is the underlying list and `cursor` the next index.
  - `canRemove` is whether the last returned element may still be removed.
- `iterator_flattener.dfy`: the flattener as a class with three fields.
  - `subs` is the root iterator's elements, with `None` for null.
  - `root` is the root iterator's cursor.
  - `present` is the index of `presentIterator`, or `None` while that
    reference is null.
  - Its invariant `Valid()` says every sub-iterator the root has handed
    out, other than the current one, is exhausted.
  - Its abstract state `Remaining()` is the rest of the current
    sub-iterator followed by the rest of every sub-iterator the root has
    not yet handed out.
  - Each method is proved against these two. Client methods restate the
    scenarios of the repository's tests.
- `palindrome_util.dfy`: normalisation as functions, `isPalindrome` as a
  method with its index loop, and lemmas about both.

Behaviour that the model pins down beyond the findings below:

- `remove()` is delegated to whichever sub-iterator is current. So after
  `next()`, a `hasNext()` that moves on to a later non-null sub-iterator
  that has returned nothing makes a following `remove()` throw
  IllegalStateException (`RemoveAfterMovingOn`).
- If that `hasNext()` moves on to a null entry instead, `remove()` silently
  does nothing and the element stays in its list (`RemoveAfterNullEntry`).
- Before any sub-iterator is current, `remove()` does nothing
  (`RemoveBeforeNext`), although the comment on it mentions an
  IllegalStateException in that case.

All three contradict the comment on `remove()` (IteratorFlattener.java:59-67).
The model states only the code as written. A `remove()` that behaves as
that comment promises is not modelled (see "## Left out").

## Model

| member | source | states |
|---|---|---|
| ListIterators.ListIterator.Next | src/oracle/test/IteratorFlattener.java:55-57 | The sub-iterator's `next()` succeeds exactly when an element remains. It returns that element, and only the cursor advances. Otherwise it throws NoSuchElementException. |
| ListIterators.ListIterator.Remove | src/oracle/test/IteratorFlattener.java:69-73 | The sub-iterator's `remove()` succeeds exactly when an element was returned and not yet removed. It deletes that element from the list and leaves what remains to iterate unchanged. Otherwise it throws IllegalStateException. |
| ListIterators.ListIterator.HasNext | src/oracle/test/IteratorFlattener.java:27 | The sub-iterator's `hasNext()`: the cursor has not reached the end of the list. `HasNextIff` proves this means something remains to return. |
| ListIterators.ListIterator.HasNextIff | src/oracle/test/IteratorFlattener.java:27 | A valid sub-iterator has a next element exactly when something remains to return. |
| ListIterators.Iterate | test/oracle/test/IteratorFlattenerTest.java:21 | `list.iterator()` starts before the first element and has the whole list to deliver. |
| Flattening.IterateAll | test/oracle/test/IteratorFlattenerTest.java:35 | A root of fresh iterators over the given lists keeps null entries null. |
| Flattening.PendingOfFresh | src/oracle/test/IteratorFlattener.java:7-13 | Fresh sub-iterators deliver exactly the concatenation of the non-null lists, in order. |
| Flattening.PendingAppend | src/oracle/test/IteratorFlattener.java:30-35 | What a root delivers distributes over concatenating roots. |
| Flattening.PendingInsert | src/oracle/test/IteratorFlattener.java:30-35 | A sub-iterator placed between two roots delivers its own elements between theirs. |
| Flattening.NullContributesNothing | src/oracle/test/IteratorFlattener.java:31-32 | A null sub-iterator contributes nothing: removing it from the root changes nothing that is delivered. |
| Flattening.ExhaustedContributesNothing | src/oracle/test/IteratorFlattener.java:32-34 | An exhausted or empty sub-iterator contributes nothing. |
| Flattening.PendingEmptyIff | src/oracle/test/IteratorFlattener.java:30-36 | A root has nothing to deliver exactly when none of its non-null sub-iterators has a next element. |
| Flattening.ExhaustedInEmptySuffix | src/oracle/test/IteratorFlattener.java:30-36 | When the rest of a root has nothing to deliver, each non-null sub-iterator in it is exhausted. |
| Flattening.HandOut | src/oracle/test/IteratorFlattener.java:31 | `rootIterator.next()` as the new `presentIterator`: the index of the root's next entry, or null when that entry is null. It has no contract; its body is the definition. `TakeFromRoot` and the contracts of `getNextAvailableIterator()`, `hasNext()` and `next()` rely on it. |
| Flattening.CurrentHasNext | src/oracle/test/IteratorFlattener.java:27 | `presentIterator != null && presentIterator.hasNext()`, the test of lines 27 and 32. It needs no contract; `PresentHasNext` and the methods above rely on it. |
| Flattening.MoveOn | src/oracle/test/IteratorFlattener.java:30-32 | Taking the root's next element as the current sub-iterator (null or not) keeps the invariant and loses nothing still to deliver. |
| Flattening.NothingLeft | src/oracle/test/IteratorFlattener.java:36 | Once the root is exhausted and the current sub-iterator has no next element, nothing is left. |
| Flattening.ReplaceCurrent | src/oracle/test/IteratorFlattener.java:55-57 | Changing the state of the current sub-iterator changes only that sub-iterator's part of what is left. |
| Flattening.IteratorFlattener.constructor | src/oracle/test/IteratorFlattener.java:19-24 | A new flattener has no current sub-iterator and a root cursor at the start. It has everything the root's sub-iterators hold still to deliver. |
| Flattening.Create | src/oracle/test/IteratorFlattener.java:20-22 | A null root is rejected with IllegalArgumentException and no flattener is produced. A non-null root gives a fresh flattener. |
| Flattening.IteratorFlattener.GetNextAvailableIterator | src/oracle/test/IteratorFlattener.java:26-37 | Returns a current sub-iterator that has a next element exactly when something is left, leaving what is left unchanged. It moves nothing when the current sub-iterator still has elements. Having moved on, the root cursor stands just past the sub-iterator returned. It returns null only once the root is exhausted. The current sub-iterator is then the last one the root handed out, or unchanged if the root was already exhausted. |
| Flattening.IteratorFlattener.NextFromRoot | src/oracle/test/IteratorFlattener.java:30-36 | The loop: stops at the first sub-iterator handed out that has a next element, with the root cursor just past it. It returns null exactly when nothing is left, with the root exhausted and the last handed-out sub-iterator current. |
| Flattening.IteratorFlattener.TakeFromRoot | src/oracle/test/IteratorFlattener.java:31 | `presentIterator = rootIterator.next()`: the root's next element becomes current (null stays null), and the root cursor advances by one. A non-null current sub-iterator is the entry just handed out. Nothing left is lost. |
| Flattening.IteratorFlattener.HasNext | src/oracle/test/IteratorFlattener.java:44-46 | True exactly when an element is left in the current or any later non-null sub-iterator. It never changes what is left. It is idempotent: once true, a repeated call moves nothing and is true again. It leaves the root cursor and the current sub-iterator where `getNextAvailableIterator()` leaves them. |
| Flattening.IteratorFlattener.Next | src/oracle/test/IteratorFlattener.java:55-57 | Succeeds exactly when the current sub-iterator has a next element. It then returns the head of what is left and advances only that sub-iterator. It never moves to a later sub-iterator. While the reference is null it throws NullPointerException; on an exhausted current sub-iterator it throws NoSuchElementException. |
| Flattening.IteratorFlattener.NextAvailable | src/oracle/test/IteratorFlattener.java:48-54 | `next()` as documented: returns the head of what is left whenever something is left, and throws NoSuchElementException only when nothing is. On success only the delivering sub-iterator has advanced, and it is current with its element removable. The root cursor is unchanged if that sub-iterator was already current, and otherwise stands just past it. On failure no list has changed and the root is exhausted. The current sub-iterator is then the last one the root handed out, or unchanged if the root was already exhausted. |
| Flattening.IteratorFlattener.Remove | src/oracle/test/IteratorFlattener.java:69-73 | Deletes from the current sub-iterator's list the element it returned last, and leaves what is left to deliver unchanged. It throws IllegalStateException when that sub-iterator has none to remove. It does nothing while the reference is null. |
| Flattening.IteratorFlattener.EmptyOnceDrained | test/oracle/test/IteratorFlattenerTest.java:42-44 | With nothing left to deliver, any one non-null sub-iterator whose cursor is still at its start has an empty list. `DrainRemoving` applies it to each sub-iterator in turn. |
| Flattening.Drain | test/oracle/test/IteratorFlattenerTest.java:24-26 | `while (hasNext()) add(next())` collects exactly what was left to deliver, in order, and leaves nothing. Every underlying list is as it was: iterating only moves cursors. |
| Flattening.Flatten | src/oracle/test/IteratorFlattener.java:7-13 | Draining a flattener over fresh iterators yields the concatenation of the non-null lists. |
| Flattening.NextThenHasNext | test/oracle/test/IteratorFlattenerTest.java:24-26 | One round of that loop, `add(next())` then `hasNext()`, when the current sub-iterator has a next element: the element delivered is the head of what was left, and `hasNext()` answers whether anything is left after it. Every underlying list is as it was. |
| Flattening.DrainRemoving | test/oracle/test/IteratorFlattenerTest.java:37-40 | `while (hasNext()) { next(); remove(); }` over unused sub-iterators leaves every underlying list empty. Null entries stay where they were. |
| Flattening.NextThenRemove | test/oracle/test/IteratorFlattenerTest.java:38-39 | The loop body `next(); remove();` on a current sub-iterator with a next element: the element delivered is deleted, so every sub-iterator stays at its start. What is left loses exactly its head, and the root cursor and the current sub-iterator stay put. |
| Flattening.FlattenRemoving | test/oracle/test/IteratorFlattenerTest.java:31-45 | After that loop over fresh iterators, every non-null list is empty and every null entry is still null. |
| Flattening.ListsOfFresh | test/oracle/test/IteratorFlattenerTest.java:35-36 | Fresh iterators go over exactly the given lists, with null entries kept. |
| Flattening.DocExample | src/oracle/test/IteratorFlattener.java:11-13 | The class comment's example: the sub-iterators {1,2}, {3} and {4,5} present 1, 2, 3, 4, 5. |
| Flattening.StringsExample | test/oracle/test/IteratorFlattenerTest.java:16-27 | A null entry among three lists of strings flattens to the expected eight strings. |
| Flattening.IntegersExample | test/oracle/test/IteratorFlattenerTest.java:47-62 | An empty list among four lists of integers flattens to the expected nine integers. |
| Flattening.RemoveExample | test/oracle/test/IteratorFlattenerTest.java:31-45 | Draining with `remove()` empties all three lists of the test. |
| Flattening.NextBeforeHasNext | src/oracle/test/IteratorFlattener.java:55-57 | On a fresh flattener over the list [1], `next()` without `hasNext()` throws NullPointerException while 1 is still left. |
| Flattening.NextAcrossLists | src/oracle/test/IteratorFlattener.java:55-57 | Over [1] and [2], a second `next()` without `hasNext()` throws NoSuchElementException while 2 is still left. |
| Flattening.NextAvailableAcrossLists | src/oracle/test/IteratorFlattener.java:48-54 | The documented `next()` delivers 1, then 2, then throws NoSuchElementException. |
| Flattening.RemoveAfterMovingOn | src/oracle/test/IteratorFlattener.java:69-73 | Over [1] and [2], `next()` then a `hasNext()` that moves on makes `remove()` throw IllegalStateException. |
| Flattening.RemoveAfterExhausting | src/oracle/test/IteratorFlattener.java:69-73 | Over [1], after `next()` a `hasNext()` that finds nothing keeps the sub-iterator current, so `remove()` deletes 1 from its list. |
| Flattening.DeliverThenMoveToNull | src/oracle/test/IteratorFlattener.java:30-36 | Over [1] and a null entry, `hasNext(); next(); hasNext();` delivers 1. The second `hasNext()` returns false with the null entry current, and both lists are as they were. |
| Flattening.NextAfterNullEntry | src/oracle/test/IteratorFlattener.java:30-36 | Over [1] and a null entry, a `hasNext()` after 1 makes the null entry current and returns false. A following `next()` then throws NullPointerException. |
| Flattening.NextAvailableThenNullEntry | src/oracle/test/IteratorFlattener.java:26-36 | Over [1] and a null entry, the documented `next()` delivers 1. A following `hasNext()` makes the null entry current and returns false, so the `next()` as written throws NullPointerException. |
| Flattening.NextAvailableTwiceThenRemove | src/oracle/test/IteratorFlattener.java:69-73 | Over [1] and a null entry, the documented `next()` delivers 1 and then fails. The null entry is then current, so `remove()` does nothing and [1] keeps its element. |
| Flattening.RemoveAfterNullEntry | src/oracle/test/IteratorFlattener.java:69-73 | Over [1] and a null entry, `next()` returns 1 and a `hasNext()` that moves on makes the null entry current and returns false. `remove()` then does nothing, and the list still holds 1. |
| Flattening.RemoveBeforeNext | src/oracle/test/IteratorFlattener.java:70-72 | `remove()` on a fresh flattener does nothing and loses nothing. |
| PalindromeUtil.IsWordChar | src/oracle/test/PalindromeUtil.java:25 | The class `\w` = `[a-zA-Z_0-9]` that `[\W]` complements. Its role in normalisation is proved by `NormalizeContents`, `NormalizeKeepsWordChars` and `NormalizeIgnoresNonWord`. |
| PalindromeUtil.RemoveNonWord | src/oracle/test/PalindromeUtil.java:25 | `replaceAll("[\\W]", "")`: never longer than its input. What it keeps and removes is proved by `NormalizeContents`, `NormalizeKeepsWordChars` and `NormalizeIgnoresNonWord`. |
| PalindromeUtil.Lowercase | src/oracle/test/PalindromeUtil.java:25 | `toLowerCase()`: keeps the length. `LowercaseAt` proves it lower-cases each position. |
| PalindromeUtil.LowercaseAt | src/oracle/test/PalindromeUtil.java:25 | Each character of the lower-cased string is the input's character at that position, lower-cased. |
| PalindromeUtil.Normalize | src/oracle/test/PalindromeUtil.java:25 | `str.replaceAll("[\\W]", "").toLowerCase()`. Its meaning is proved by the `Normalize...` lemmas below: contents, emptiness, idempotence, and the case and punctuation it ignores. |
| PalindromeUtil.CharAt | src/oracle/test/PalindromeUtil.java:27 | `str.charAt(i)`: the character at an index in range, and StringIndexOutOfBoundsException otherwise. It has no contract; its body is the definition. `IsPalindrome` relies on it. |
| PalindromeUtil.ToLower | src/oracle/test/PalindromeUtil.java:25 | ASCII lower-casing: an upper-case letter moves by 32 and anything else is unchanged. The result is never upper-case and is a word character exactly when the input is. |
| PalindromeUtil.PalindromicIff | src/oracle/test/PalindromeUtil.java:26-30 | A string equals its reverse exactly when every character matches its mirror image. |
| PalindromeUtil.HalfSuffices | src/oracle/test/PalindromeUtil.java:26-27 | Comparing the first half with its mirror decides palindromicity. So the loop's extra comparison at `i == len/2` cannot change the answer. That is the middle character, or a repeat of the previous pair when the length is even. |
| PalindromeUtil.SingleWordCharIsPalindromic | src/oracle/test/PalindromeUtil.java:26-27 | A single word character normalises to one character, which is a palindrome. |
| PalindromeUtil.NormalizeAppend | src/oracle/test/PalindromeUtil.java:25 | Normalisation distributes over concatenation. |
| PalindromeUtil.NormalizeChar | src/oracle/test/PalindromeUtil.java:25 | One character normalises to itself lower-cased if it is a word character, and to nothing otherwise. |
| PalindromeUtil.NormalizeIgnoresNonWord | src/oracle/test/PalindromeUtil.java:6-8 | Whitespace and punctuation (any non-word character) anywhere in the input are ignored. |
| PalindromeUtil.NormalizeKeepsWordChars | src/oracle/test/PalindromeUtil.java:25 | Letters, digits and `_` are kept in place, lower-cased. |
| PalindromeUtil.NormalizeIgnoresCase | src/oracle/test/PalindromeUtil.java:6-8 | Case is ignored: lower-casing the input first changes nothing. |
| PalindromeUtil.NormalizeIdempotent | src/oracle/test/PalindromeUtil.java:25 | Normalising twice is the same as normalising once. |
| PalindromeUtil.NormalizeEmptyIff | src/oracle/test/PalindromeUtil.java:24-27 | Normalisation leaves nothing exactly when the input has no word character. |
| PalindromeUtil.NormalizeContents | src/oracle/test/PalindromeUtil.java:25 | A character is in the normalised string exactly when some word character of the input lower-cases to it. |
| PalindromeUtil.NormalizedIsLowerWord | src/oracle/test/PalindromeUtil.java:25 | The normalised string holds only lower-case word characters. |
| PalindromeUtil.IsPalindrome | src/oracle/test/PalindromeUtil.java:19-33 | Null gives false and the empty string gives true. Otherwise it returns true exactly when the normalised string equals its reverse. Non-empty input with no word character throws StringIndexOutOfBoundsException. |
| PalindromeUtil.IsPalindromeCorrected | src/oracle/test/PalindromeUtil.java:24-30 | The check as intended: true exactly when the input is non-null and its normalised form equals its reverse. |
| PalindromeUtil.NormalizeTriple | src/oracle/test/PalindromeUtil.java:25 | A three-character string normalises to the normal forms of its characters, joined: each word character lower-cased, each other character dropped. |
| PalindromeUtil.NormalizePieces | src/oracle/test/PalindromeUtil.java:25 | A string cut into six pieces normalises to the pieces' normal forms, joined. |
| PalindromeUtil.MadamNormalizes | src/oracle/test/PalindromeUtil.java:6-8 | "Madam, I'm Adam." normalises to "madamimadam": case, the comma, the apostrophe, the spaces and the full stop are dropped. |
| PalindromeUtil.MadamimadamPalindromic | src/oracle/test/PalindromeUtil.java:6-8 | "madamimadam" equals its reverse. |
| PalindromeUtil.MadamPalindromic | src/oracle/test/PalindromeUtil.java:6-8 | "Madam, I'm Adam." has word characters, and its normal form equals its reverse. |
| PalindromeUtil.MadamExample | src/oracle/test/PalindromeUtil.java:6-8 | The class comment's example is a palindrome: the check as written returns true, and so does the corrected check. |
| PalindromeUtil.PunctuationOnly | src/oracle/test/PalindromeUtil.java:24-27 | "!!" makes the check as written throw StringIndexOutOfBoundsException; the corrected check returns true. |

## Left out

- `BlockingQueue` and its test are not part of this model. Their behaviour is thread coordination through `synchronized`, `wait` and `notifyAll`, which a sequential model cannot express.
- The root and the sub-iterators are general `java.util.Iterator`s in the source. The model fixes the sub-iterators to `ArrayList`-style list iterators and the root to a sequence with a cursor.
- Other iterator kinds are not modelled. For example, `Arrays.asList` iterators throw UnsupportedOperationException on `remove()`.
- Aliasing is not modelled: every sub-iterator owns its list as a value. A root holding the same iterator twice, or two iterators over one list, are not captured.
- Fail-fast ConcurrentModificationException is not modelled.
- Flattening.IteratorFlattener.constructor: a Dafny constructor cannot throw, so the null check of the root is modelled by `Flattening.Create` around it.
- A `remove()` that behaves as its comment promises is not modelled. Such a `remove()` would, after `next()`, delete the element from the sub-iterator that returned it, even once `hasNext()` has moved on. Before any `next()` it would throw IllegalStateException. It would need a field that the source does not have, recording which sub-iterator returned last.
- The O(1) extra memory and O(n) time requirements in the comments are not stated.
- Normalisation is modelled on ASCII: `\W` without the Unicode flag keeps only `[A-Za-z0-9_]`. Lower-casing is ASCII, not the locale-dependent `String.toLowerCase`.
- The regular-expression engine behind `replaceAll` is not modelled.

## Findings

| source | as written | input that shows it | evidently intended | confidence | as-written member | corrected member |
|---|---|---|---|---|---|---|
| src/oracle/test/PalindromeUtil.java:24-27 | Any non-empty input enters the loop. The loop runs while `i <= length/2`, so it reads `charAt(0)` even when normalisation left the empty string. | "!!" throws StringIndexOutOfBoundsException | true, as for the empty string: with no word characters it reads the same both ways | high, not executed | PalindromeUtil.IsPalindrome | PalindromeUtil.IsPalindromeCorrected |
| src/oracle/test/IteratorFlattener.java:55-57 | `next()` calls `presentIterator.next()` without first moving to the next available sub-iterator. | Flattener over [[1]]: `next()` before `hasNext()` throws NullPointerException. Over [[1],[2]]: `hasNext(); next(); next()` throws NoSuchElementException. The scenarios `Flattening.NextBeforeHasNext` and `Flattening.NextAcrossLists` state both. | `next()` returns the next element whenever one is left, and throws NoSuchElementException only when none is (lines 48-54) | high, not executed | Flattening.IteratorFlattener.Next | Flattening.IteratorFlattener.NextAvailable |
