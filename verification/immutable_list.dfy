/**
 * Reversal and palindrome check under the class's own rule that a `List` is
 * immutable and every operation returns new instances: the reversal builds a
 * new chain of cells and leaves the receiver untouched, so the palindrome
 * check can compare every mirrored pair.
 */
module ImmutableList {
  import opened Options
  import opened Sequences
  import opened Heap
  import List

  /**
   * Walks the receiver once and, for each value, allocates a new cell in
   * front of the copy built so far. The receiver's cells are not written.
   */
  method Reverse<T>(h: Heap<T>, self: Ref, ghost refs: seq<Ref>) returns (h': Heap<T>, r: Ref, ghost copy: seq<Ref>)
    requires Valid(h) && IsList(h, self, refs)
    ensures Valid(h') && Preserves(h, h')
    ensures IsList(h', self, refs) && Values(h', refs) == Values(h, refs)
    ensures IsList(h', r, copy) && Values(h', copy) == Reversed(Values(h, refs))
    ensures forall i :: 0 <= i < |copy| ==> copy[i] !in h.cells
  {
    ghost var vals := Values(h, refs);
    var cells := h.cells;
    var limit := h.limit;
    var current := self;
    var past := limit;
    cells := cells[past := Cell(cells[current].value, None)];
    limit := limit + 1;
    ghost var k := 0;
    copy := [past];
    assert vals[..1] == [vals[0]];
    while cells[current].next != None
      invariant 0 <= k < |refs| && current == refs[k]
      invariant limit == h.limit + k + 1
      invariant Valid(Heap(cells, limit)) && Preserves(h, Heap(cells, limit))
      invariant IsList(Heap(cells, limit), past, copy)
      invariant Values(Heap(cells, limit), copy) == Reversed(vals[..k + 1])
      invariant forall i :: 0 <= i < |copy| ==> h.limit <= copy[i]
      decreases |refs| - k
    {
      Step(h, self, refs, k);
      ghost var before := Heap(cells, limit);
      current := cells[current].next.value;
      k := k + 1;
      var cell := limit;
      cells := cells[cell := Cell(cells[current].value, Some(past))];
      limit := limit + 1;
      Cons(before, Heap(cells, limit), cell, vals[k], past, copy);
      ReversedExtend(vals, k);
      copy := [cell] + copy;
      past := cell;
    }
    Step(h, self, refs, k);
    assert vals[..k + 1] == vals;
    h' := Heap(cells, limit);
    r := past;
    ListPreserved(h, h', self, refs);
  }

  /**
   * The palindrome check the class's rules call for: reverse into a new list,
   * then compare the value at every index of the receiver with the value at
   * the same index of the reversed copy, stopping at the first mismatch.
   */
  method IsPalindrome<T(==)>(h: Heap<T>, self: Ref, ghost refs: seq<Ref>) returns (h': Heap<T>, b: bool)
    requires Valid(h) && IsList(h, self, refs)
    ensures Valid(h') && Preserves(h, h')
    ensures b <==> Values(h, refs) == Reversed(Values(h, refs))
  {
    ghost var vals := Values(h, refs);
    var truthValue := true;
    var reversedList;
    ghost var copy;
    h', reversedList, copy := Reverse(h, self, refs);
    var i := 0;
    var length := List.Length(h', self, refs);
    while i < length
      invariant length == |refs| && 0 <= i <= length
      invariant truthValue
      invariant forall j :: 0 <= j < i ==> vals[j] == Reversed(vals)[j]
    {
      var forwardValue := List.At(h', self, refs, i);
      var reverseValue := List.At(h', reversedList, copy, i);
      if forwardValue.Some? && reverseValue.Some? {
        if forwardValue.value != reverseValue.value {
          truthValue := false;
          break;
        }
      }
      i := i + 1;
      length := List.Length(h', self, refs);
    }
    b := truthValue;
  }
}
