/** The editor's edits of the question list: drag-and-drop reordering,
    deletion and saving. Each is one or two `Array.prototype.splice` calls
    or an index assignment on the list; they are written here for any
    element type. */
module QuestionList {

  /** Removing one element with `splice` at a valid index: the list
      without its element at `i`. */
  function RemoveAt<T>(xs: seq<T>, i: nat): (r: seq<T>)
    requires i < |xs|
    ensures |r| == |xs| - 1
    ensures forall k :: 0 <= k < i ==> r[k] == xs[k]
    ensures forall k :: i <= k < |r| ==> r[k] == xs[k + 1]
    ensures multiset(r) + multiset{xs[i]} == multiset(xs)
  {
    assert xs == xs[..i] + [xs[i]] + xs[i + 1..];
    xs[..i] + xs[i + 1..]
  }

  /** Inserting with `splice` at a valid index: `x` placed at `i`, the elements
      from `i` on shifted up by one. */
  function InsertAt<T>(xs: seq<T>, i: nat, x: T): (r: seq<T>)
    requires i <= |xs|
    ensures |r| == |xs| + 1 && r[i] == x
    ensures forall k :: 0 <= k < i ==> r[k] == xs[k]
    ensures forall k :: i < k < |r| ==> r[k] == xs[k - 1]
    ensures multiset(r) == multiset(xs) + multiset{x}
  {
    assert xs == xs[..i] + xs[i..];
    xs[..i] + [x] + xs[i..]
  }

  /** Inserting and then removing at the same place gives the list back. */
  lemma RemoveInsert<T>(xs: seq<T>, i: nat, x: T)
    requires i <= |xs|
    ensures RemoveAt(InsertAt(xs, i, x), i) == xs
  {
  }

  /** Removing and then putting the element back gives the list back. */
  lemma InsertRemove<T>(xs: seq<T>, i: nat)
    requires i < |xs|
    ensures InsertAt(RemoveAt(xs, i), i, xs[i]) == xs
  {
  }

  /** `handleDrop`: dropping the item rendered at `src` onto the item
      rendered at `target`. When they are different items the dragged one
      is cut out and inserted at `target` of the shortened list; dropping
      an item onto itself does nothing. Rendered indices are always
      positions of the current list. */
  function Drop<T>(xs: seq<T>, src: nat, target: nat): (r: seq<T>)
    requires src < |xs| && target < |xs|
    ensures |r| == |xs| && multiset(r) == multiset(xs)
    ensures r[target] == xs[src]
    ensures RemoveAt(r, target) == RemoveAt(xs, src)
    ensures src == target ==> r == xs
  {
    if src == target then xs
    else
      var rest := RemoveAt(xs, src);
      RemoveInsert(rest, target, xs[src]);
      InsertAt(rest, target, xs[src])
  }

  /** Dragging the item back to where it came from restores the list. */
  lemma DropUndo<T>(xs: seq<T>, src: nat, target: nat)
    requires src < |xs| && target < |xs|
    ensures Drop(Drop(xs, src, target), target, src) == xs
  {
    var moved := Drop(xs, src, target);
    if src != target {
      InsertRemove(xs, src);
    }
  }

  /** Where `splice` starts on a list of length `len`: a negative
      start counts from the end (but not before 0), a start past the end is
      the end. */
  function SpliceStart(start: int, len: nat): (k: nat)
    ensures k <= len
    ensures 0 <= start ==> k == if start <= len then start else len
    ensures start < 0 ==> k == if len + start >= 0 then len + start else 0
  {
    if start < 0 then (if len + start < 0 then 0 else len + start)
    else if start > len then len
    else start
  }

  /** `deleteQuestion`: when the user confirms, a one-element `splice`
      removes the element at the (normalised) index if there is one. */
  function Delete<T>(xs: seq<T>, index: int, confirmed: bool): (r: seq<T>)
    ensures !confirmed ==> r == xs
    ensures confirmed && 0 <= index < |xs| ==> |r| == |xs| - 1 && r == RemoveAt(xs, index)
    ensures confirmed && index >= |xs| ==> r == xs
    ensures confirmed && index < 0 && |xs| > 0 ==> |r| == |xs| - 1 && r == RemoveAt(xs, SpliceStart(index, |xs|))
  {
    var k := SpliceStart(index, |xs|);
    if confirmed && k < |xs| then RemoveAt(xs, k) else xs
  }

  /** The upsert at the end of the question form's submit handler: an edit
      index of 0 or more overwrites that slot, a negative one (the form was
      opened with "add") appends. The edit index is always -1 or the
      rendered index of the question being edited. */
  function Save<T>(xs: seq<T>, editIndex: int, x: T): (r: seq<T>)
    requires editIndex < |xs|
    ensures editIndex >= 0 ==> |r| == |xs| && r[editIndex] == x
    ensures editIndex >= 0 ==> forall k :: 0 <= k < |xs| && k != editIndex ==> r[k] == xs[k]
    ensures editIndex < 0 ==> |r| == |xs| + 1 && r[|xs|] == x && r[..|xs|] == xs
  {
    if editIndex >= 0 then xs[editIndex := x] else xs + [x]
  }

  /** Saving an element over itself leaves the list as it was. */
  lemma SaveUnchanged<T>(xs: seq<T>, i: nat)
    requires i < |xs|
    ensures Save(xs, i, xs[i]) == xs
  {
  }

  /** Deleting the element just appended gives the list back. */
  lemma DeleteUndoesAppend<T>(xs: seq<T>, x: T)
    ensures Delete(Save(xs, -1, x), |xs|, true) == xs
  {
    assert Save(xs, -1, x)[..|xs|] == xs;
  }

  /** Overwriting a slot and then deleting it is the same as deleting it. */
  lemma DeleteAfterReplace<T>(xs: seq<T>, i: nat, x: T)
    requires i < |xs|
    ensures Delete(Save(xs, i, x), i, true) == Delete(xs, i, true)
  {
  }
}
