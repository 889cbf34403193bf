/**
 * The generic singly linked `List<T>` class and its traversals, reversal and
 * palindrome check, as written.
 *
 * Each operation takes the heap and the reference of the receiver, plus the
 * ghost sequence of cells that the receiver's `nextItem` chain visits. An
 * operation that relinks cells returns the new heap.
 */
module List {
  import opened Options
  import opened Sequences
  import opened Heap

  /** A heap together with the object `init?` returned, or `None` for `nil`. */
  datatype Built<T> = Built(heap: Heap<T>, head: Option<Ref>)

  /**
   * The failable initialiser `List(values)`. The object for the first value is
   * allocated before its initialiser runs, and its `nextItem` is the list
   * built from the remaining values, or `nil` when none remain.
   */
  function Build<T>(h: Heap<T>, values: seq<T>): (b: Built<T>)
    requires Valid(h)
    ensures Valid(b.heap) && Preserves(h, b.heap)
    ensures forall x :: x in b.heap.cells && x !in h.cells ==> h.limit <= x
    ensures b.heap.limit == h.limit + |values|
    ensures b.head == None <==> values == []
    ensures values == [] ==> b.heap == h
    ensures b.head.Some? ==>
      && b.head.value == h.limit
      && IsList(b.heap, h.limit, Span(h.limit, |values|))
      && Values(b.heap, Span(h.limit, |values|)) == values
    decreases |values|
  {
    if values == [] then
      Built(h, None)
    else
      var t := Build(Heap(h.cells, h.limit + 1), values[1..]);
      var h' := Heap(t.heap.cells[h.limit := Cell(values[0], t.head)], t.heap.limit);
      BuildLink(h, t.heap, h', values[0], values[1..], t.head);
      assert values == [values[0]] + values[1..];
      Built(h', Some(h.limit))
  }

  /**
   * The step of `init?`: storing the first value at the reserved reference
   * `self`, linked to the list built from the remaining values (or to `nil`),
   * gives the whole list.
   */
  lemma BuildLink<T>(h: Heap<T>, tail: Heap<T>, h': Heap<T>, v: T, rest: seq<T>, next: Option<Ref>)
    requires Valid(h) && Valid(tail)
    requires Preserves(Heap(h.cells, h.limit + 1), tail)
    requires forall x :: x in tail.cells && x !in h.cells ==> h.limit + 1 <= x
    requires rest == [] ==> next == None
    requires rest != [] ==>
      && next == Some(h.limit + 1)
      && IsList(tail, h.limit + 1, Span(h.limit + 1, |rest|))
      && Values(tail, Span(h.limit + 1, |rest|)) == rest
    requires tail.limit == h.limit + 1 + |rest|
    requires h' == Heap(tail.cells[h.limit := Cell(v, next)], tail.limit)
    ensures Valid(h') && Preserves(h, h')
    ensures forall x :: x in h'.cells && x !in h.cells ==> h.limit <= x
    ensures IsList(h', h.limit, Span(h.limit, |rest| + 1))
    ensures Values(h', Span(h.limit, |rest| + 1)) == [v] + rest
  {
    var self := h.limit;
    assert self !in tail.cells;
    forall x | x in h.cells
      ensures x in h'.cells && h'.cells[x] == h.cells[x]
    {
      assert x != self;
    }
    if rest == [] {
      assert Span(self, 1) == [self];
    } else {
      assert Span(self, |rest| + 1) == [self] + Span(self + 1, |rest|);
      Cons(tail, h', self, v, self + 1, Span(self + 1, |rest|));
    }
  }

  /** The `last` property: the value of the cell whose `nextItem` is `nil`. */
  method Last<T>(h: Heap<T>, self: Ref, ghost refs: seq<Ref>) returns (v: Option<T>)
    requires IsList(h, self, refs)
    ensures v == Some(Values(h, refs)[|refs| - 1])
  {
    var currentList := self;
    ghost var k := 0;
    while h.cells[currentList].next != None
      invariant 0 <= k < |refs| && currentList == refs[k]
      decreases |refs| - k
    {
      Step(h, self, refs, k);
      currentList := h.cells[currentList].next.value;
      k := k + 1;
    }
    Step(h, self, refs, k);
    v := Some(h.cells[currentList].value);
  }

  /** The `pennultimate` property: the value before the last one, `nil` for one cell. */
  method Pennultimate<T>(h: Heap<T>, self: Ref, ghost refs: seq<Ref>) returns (v: Option<T>)
    requires IsList(h, self, refs)
    ensures |refs| >= 2 ==> v == Some(Values(h, refs)[|refs| - 2])
    ensures |refs| == 1 ==> v == None
  {
    var currentList := self;
    var value: Option<T> := None;
    ghost var k := 0;
    while h.cells[currentList].next != None
      invariant 0 <= k < |refs| && currentList == refs[k]
      invariant value == if k == 0 then None else Some(Values(h, refs)[k - 1])
      decreases |refs| - k
    {
      Step(h, self, refs, k);
      value := Some(h.cells[currentList].value);
      currentList := h.cells[currentList].next.value;
      k := k + 1;
    }
    Step(h, self, refs, k);
    v := value;
  }

  /**
   * The subscript `self[index]`: walks forward while the index is not reached
   * and a next cell exists, then answers only if the walk reached the index.
   */
  method At<T>(h: Heap<T>, self: Ref, ghost refs: seq<Ref>, index: int) returns (v: Option<T>)
    requires IsList(h, self, refs)
    ensures 0 <= index < |refs| ==> v == Some(Values(h, refs)[index])
    ensures index < 0 || |refs| <= index ==> v == None
  {
    var currentList := self;
    var currentIndex := 0;
    while currentIndex < index && h.cells[currentList].next != None
      invariant 0 <= currentIndex < |refs| && currentList == refs[currentIndex]
      invariant currentIndex == 0 || currentIndex <= index
      decreases |refs| - currentIndex
    {
      Step(h, self, refs, currentIndex);
      currentList := h.cells[currentList].next.value;
      currentIndex := currentIndex + 1;
    }
    Step(h, self, refs, currentIndex);
    if currentIndex == index {
      v := Some(h.cells[currentList].value);
    } else {
      v := None;
    }
  }

  /** The `length` property: the number of cells, counting the receiver. */
  method Length<T>(h: Heap<T>, self: Ref, ghost refs: seq<Ref>) returns (n: int)
    requires IsList(h, self, refs)
    ensures n == |refs| && n >= 1
  {
    var currentList := self;
    var valueCount := 1;
    while h.cells[currentList].next != None
      invariant 0 <= valueCount - 1 < |refs| && currentList == refs[valueCount - 1]
      decreases |refs| - valueCount
    {
      Step(h, self, refs, valueCount - 1);
      currentList := h.cells[currentList].next.value;
      valueCount := valueCount + 1;
    }
    Step(h, self, refs, valueCount - 1);
    n := valueCount;
  }

  /**
   * The state of `reverse()` after relinking the first `k` cells of `refs`:
   * each of them points back to its predecessor (the first one to `nil`),
   * every other cell is as it was, and no value has moved.
   */
  ghost predicate Relinked<T>(h: Heap<T>, cells: map<Ref, Cell<T>>, refs: seq<Ref>, k: nat)
    requires InHeap(h, refs) && k <= |refs|
  {
    && cells.Keys == h.cells.Keys
    && (forall x :: x in h.cells ==> cells[x].value == h.cells[x].value)
    && (forall x :: x in h.cells && x !in refs ==> cells[x] == h.cells[x])
    && (forall i :: k <= i < |refs| ==> cells[refs[i]] == h.cells[refs[i]])
    && (0 < k ==> cells[refs[0]].next == None)
    && (forall i :: 0 < i < k ==> cells[refs[i]].next == Some(refs[i - 1]))
  }

  /** Relinking cell `k` to its predecessor extends the relinked prefix by one. */
  lemma RelinkStep<T>(h: Heap<T>, cells: map<Ref, Cell<T>>, self: Ref, refs: seq<Ref>, k: nat)
    requires IsList(h, self, refs) && k < |refs| && Relinked(h, cells, refs, k)
    requires forall i, j :: 0 <= i < j < |refs| ==> refs[i] != refs[j]
    ensures Relinked(h, cells[refs[k] := Cell(cells[refs[k]].value, if k == 0 then None else Some(refs[k - 1]))], refs, k + 1)
  {
  }

  /** Once every cell is relinked, the last cell heads the reversed list and the first is alone. */
  lemma RelinkDone<T>(h: Heap<T>, cells: map<Ref, Cell<T>>, self: Ref, refs: seq<Ref>)
    requires IsList(h, self, refs) && Relinked(h, cells, refs, |refs|)
    ensures IsList(Heap(cells, h.limit), refs[|refs| - 1], Reversed(refs))
    ensures Values(Heap(cells, h.limit), Reversed(refs)) == Reversed(Values(h, refs))
    ensures IsList(Heap(cells, h.limit), self, [self])
  {
  }

  /**
   * `reverse()`: relinks the receiver's own cells with the three pointers
   * `past`, `current` and `future`, and returns the former last cell. No cell
   * is allocated and no value moves; the receiver, the former head, ends up
   * as the last cell, with `nextItem == nil`.
   */
  method Reverse<T>(h: Heap<T>, self: Ref, ghost refs: seq<Ref>) returns (h': Heap<T>, r: Ref)
    requires IsList(h, self, refs)
    ensures r == refs[|refs| - 1]
    ensures IsList(h', r, Reversed(refs))
    ensures Values(h', Reversed(refs)) == Reversed(Values(h, refs))
    ensures IsList(h', self, [self])
    ensures h'.limit == h.limit && h'.cells.Keys == h.cells.Keys
    ensures forall x :: x in h.cells ==> h'.cells[x].value == h.cells[x].value
    ensures forall x :: x in h.cells && x !in refs ==> h'.cells[x] == h.cells[x]
    ensures forall v :: IsList(h', self, v) ==> v == [self]
    ensures Valid(h) ==> Valid(h')
  {
    ChainDistinct(h, self, refs);
    var cells := h.cells;
    var current := self;
    var past: Option<Ref> := None;
    ghost var k := 0;
    while cells[current].next != None
      invariant 0 <= k < |refs| && current == refs[k]
      invariant past == if k == 0 then None else Some(refs[k - 1])
      invariant Relinked(h, cells, refs, k)
      decreases |refs| - k
    {
      Step(h, self, refs, k);
      RelinkStep(h, cells, self, refs, k);
      var future := cells[current].next;
      cells := cells[current := Cell(cells[current].value, past)];
      past := Some(current);
      current := future.value;
      k := k + 1;
    }
    Step(h, self, refs, k);
    RelinkStep(h, cells, self, refs, k);
    cells := cells[current := Cell(cells[current].value, past)];
    RelinkDone(h, cells, self, refs);
    h' := Heap(cells, h.limit);
    r := current;
    forall v | IsList(h', self, v)
      ensures v == [self]
    {
      SingletonView(h', self, v);
    }
    if Valid(h) {
      forall x | x in h'.cells && h'.cells[x].next.Some?
        ensures h'.cells[x].next.value in h'.cells
      {
        if x in refs {
          var i :| 0 <= i < |refs| && refs[i] == x;
          assert i > 0 && h'.cells[x].next == Some(refs[i - 1]);
        }
      }
    }
  }

  /**
   * `isPalindrome()` as written: it reverses the receiver in place, so when
   * the loop asks for `self.length` the receiver is a one-cell list, the loop
   * runs once, and only the first value is compared with the last. The heap
   * it leaves behind is the reversed one.
   */
  method IsPalindrome<T(==)>(h: Heap<T>, self: Ref, ghost refs: seq<Ref>) returns (h': Heap<T>, b: bool)
    requires IsList(h, self, refs)
    ensures b <==> Values(h, refs)[0] == Values(h, refs)[|refs| - 1]
    ensures IsList(h', refs[|refs| - 1], Reversed(refs))
    ensures Values(h', Reversed(refs)) == Reversed(Values(h, refs))
    ensures IsList(h', self, [self])
    ensures forall v :: IsList(h', self, v) ==> v == [self]
    ensures h'.limit == h.limit && h'.cells.Keys == h.cells.Keys
    ensures forall x :: x in h.cells ==> h'.cells[x].value == h.cells[x].value
    ensures forall x :: x in h.cells && x !in refs ==> h'.cells[x] == h.cells[x]
    ensures Valid(h) ==> Valid(h')
  {
    var truthValue := true;
    var reversedList;
    h', reversedList := Reverse(h, self, refs);
    var i := 0;
    var length := Length(h', self, [self]);
    while i < length
      invariant length == 1 && 0 <= i <= 1
      invariant truthValue
      invariant i == 1 ==> Values(h, refs)[0] == Values(h, refs)[|refs| - 1]
    {
      var forwardValue := At(h', self, [self], i);
      var reverseValue := At(h', reversedList, Reversed(refs), i);
      if forwardValue.Some? && reverseValue.Some? {
        if forwardValue.value != reverseValue.value {
          truthValue := false;
          break;
        }
      }
      i := i + 1;
      length := Length(h', self, [self]);
    }
    b := truthValue;
  }

  /**
   * Reversing the returned list again relinks every cell back: the heap is
   * restored exactly and the original head is returned.
   */
  method ReverseTwice<T>(h: Heap<T>, self: Ref, ghost refs: seq<Ref>) returns (h'': Heap<T>, r: Ref)
    requires IsList(h, self, refs)
    ensures h'' == h && r == self
  {
    var h', last := Reverse(h, self, refs);
    h'', r := Reverse(h', last, Reversed(refs));
    ReversedTwice(refs);
    assert IsList(h'', self, refs);
    forall x | x in h.cells && x !in refs
      ensures h''.cells[x] == h.cells[x]
    {
      ReversedMembers(refs, x);
    }
    SameChainSameCells(h, h'', self, refs);
  }

  /**
   * Reversing `List(1, 2, 3)` leaves its receiver, the former head, as a
   * one-cell list: the receiver's `length` drops from 3 to 1.
   */
  method ReverseShortensReceiver() returns (before: int, after: int)
    ensures before == 3 && after == 1
  {
    var b := Build(Heap(map[], 0), [1, 2, 3]);
    var self := b.head.value;
    before := Length(b.heap, self, Span(0, 3));
    var h', _ := Reverse(b.heap, self, Span(0, 3));
    after := Length(h', self, [self]);
  }

  /**
   * `isPalindrome()` on `List(1, 2, 3, 1)` answers true although the values
   * read backwards are `3, 2` in the middle: only the ends are compared.
   */
  method PalindromeMisjudged() returns (values: seq<int>, b: bool)
    ensures values == [1, 2, 3, 1] && values != Reversed(values)
    ensures b
  {
    values := [1, 2, 3, 1];
    var built := Build(Heap(map[], 0), values);
    var _, answer := IsPalindrome(built.heap, built.head.value, Span(0, 4));
    assert Reversed(values)[1] == 3;
    b := answer;
  }
}
