/**
 * The object heap on which `List<T>` instances live.
 *
 * A Swift `List<T>` is a class: each instance is a heap object holding a
 * `value` and a `nextItem` reference, and two variables can name the same
 * object. The heap is modelled here as a value, a finite map from references
 * to cells, so that every operation that relinks cells returns the new heap
 * and every alias remains visible in the contracts.
 */
module Heap {
  import opened Options

  /** The name of one heap object, as a Swift object reference. */
  type Ref = nat

  /** One `List<T>` object: its `value` and its `nextItem` link. */
  datatype Cell<T> = Cell(value: T, next: Option<Ref>)

  /** The objects allocated so far; `limit` is the next reference to hand out. */
  datatype Heap<T> = Heap(cells: map<Ref, Cell<T>>, limit: nat)

  /** Every allocated reference lies below `limit`, and no link dangles. */
  ghost predicate Valid<T>(h: Heap<T>)
  {
    forall x :: x in h.cells ==>
      x < h.limit && (h.cells[x].next.Some? ==> h.cells[x].next.value in h.cells)
  }

  /** Every reference of `refs` names an allocated object. */
  ghost predicate InHeap<T>(h: Heap<T>, refs: seq<Ref>)
  {
    forall i :: 0 <= i < |refs| ==> refs[i] in h.cells
  }

  /**
   * `refs` are the objects met when walking `nextItem` from `head` until a
   * `nil` link: the list as seen from `head`. It is never empty, because
   * a `List<T>` object always holds a value.
   */
  ghost predicate IsList<T>(h: Heap<T>, head: Ref, refs: seq<Ref>)
  {
    && |refs| >= 1
    && refs[0] == head
    && InHeap(h, refs)
    && (forall i :: 0 <= i < |refs| - 1 ==> h.cells[refs[i]].next == Some(refs[i + 1]))
    && h.cells[refs[|refs| - 1]].next == None
  }

  /** The values stored in the objects `refs`, in order. */
  ghost function Values<T>(h: Heap<T>, refs: seq<Ref>): (vs: seq<T>)
    requires InHeap(h, refs)
    ensures |vs| == |refs|
  {
    seq(|refs|, i requires 0 <= i < |refs| => h.cells[refs[i]].value)
  }

  /** The link out of the `k`-th cell of a list: its successor, or `nil` for the last cell. */
  lemma Step<T>(h: Heap<T>, head: Ref, refs: seq<Ref>, k: nat)
    requires IsList(h, head, refs) && k < |refs|
    ensures h.cells[refs[k]].next == if k == |refs| - 1 then None else Some(refs[k + 1])
  {
  }

  /** `h'` extends `h`: every object of `h` is still there with the same contents. */
  ghost predicate Preserves<T>(h: Heap<T>, h': Heap<T>)
  {
    forall x :: x in h.cells ==> x in h'.cells && h'.cells[x] == h.cells[x]
  }

  /** Two positions of a walk that name the same cell agree on every later step of it. */
  lemma {:induction false} SameFromHere<T>(h: Heap<T>, head: Ref, refs: seq<Ref>, i: nat, j: nat, d: nat)
    requires IsList(h, head, refs)
    requires i < j && j + d < |refs|
    ensures refs[i] == refs[j] ==> refs[i + d] == refs[j + d]
  {
    if d > 0 {
      SameFromHere(h, head, refs, i, j, d - 1);
      assert h.cells[refs[i + d - 1]].next == Some(refs[i + d]);
      assert h.cells[refs[j + d - 1]].next == Some(refs[j + d]);
    }
  }

  /**
   * A walk that ends in `nil` visits no object twice: the list is acyclic,
   * so relinking one of its cells leaves the others untouched.
   */
  lemma {:induction false} ChainDistinct<T>(h: Heap<T>, head: Ref, refs: seq<Ref>)
    requires IsList(h, head, refs)
    ensures forall i, j :: 0 <= i < j < |refs| ==> refs[i] != refs[j]
  {
    forall i, j | 0 <= i < j < |refs|
      ensures refs[i] != refs[j]
    {
      var d := |refs| - 1 - j;
      SameFromHere(h, head, refs, i, j, d);
      assert h.cells[refs[i + d]].next == Some(refs[i + d + 1]);
    }
  }

  /** The walk from `head` is determined by the heap: a list has one view. */
  lemma {:induction false} ChainUnique<T>(h: Heap<T>, head: Ref, a: seq<Ref>, b: seq<Ref>)
    requires IsList(h, head, a) && IsList(h, head, b)
    ensures a == b
    decreases |a|
  {
    assert |b| > 1 ==> h.cells[b[0]].next == Some(b[1]);
    assert |a| > 1 ==> h.cells[a[0]].next == Some(a[1]);
    if |a| > 1 && |b| > 1 {
      Tail(h, head, a);
      Tail(h, head, b);
      ChainUnique(h, a[1], a[1..], b[1..]);
      assert a == [a[0]] + a[1..] && b == [b[0]] + b[1..];
    }
  }

  /** Dropping the head of a list of two or more cells leaves the list from its successor. */
  lemma Tail<T>(h: Heap<T>, head: Ref, refs: seq<Ref>)
    requires IsList(h, head, refs) && |refs| > 1
    ensures IsList(h, refs[1], refs[1..])
    ensures Values(h, refs[1..]) == Values(h, refs)[1..]
  {
  }

  /** Storing a fresh cell that links to `head` yields a list one cell longer. */
  lemma Cons<T>(h: Heap<T>, h': Heap<T>, x: Ref, v: T, head: Ref, refs: seq<Ref>)
    requires IsList(h, head, refs) && x !in h.cells
    requires h'.cells == h.cells[x := Cell(v, Some(head))]
    ensures IsList(h', x, [x] + refs)
    ensures Values(h', [x] + refs) == [v] + Values(h, refs)
  {
  }

  /** A list of `h` is unchanged, with the same values, in any heap that extends `h`. */
  lemma ListPreserved<T>(h: Heap<T>, h': Heap<T>, head: Ref, refs: seq<Ref>)
    requires IsList(h, head, refs) && Preserves(h, h')
    ensures IsList(h', head, refs)
    ensures Values(h', refs) == Values(h, refs)
  {
  }

  /** A cell whose link is `nil` is seen from itself as a one-cell list. */
  lemma SingletonView<T>(h: Heap<T>, head: Ref, refs: seq<Ref>)
    requires IsList(h, head, refs) && h.cells[head].next == None
    ensures refs == [head]
  {
    ChainUnique(h, head, refs, [head]);
  }

  /**
   * Two heaps with the same objects, the same values and the same cells
   * outside a list, in which that list has the same chain, are the same heap.
   */
  lemma SameChainSameCells<T>(h: Heap<T>, h': Heap<T>, head: Ref, refs: seq<Ref>)
    requires IsList(h, head, refs) && IsList(h', head, refs)
    requires h'.cells.Keys == h.cells.Keys
    requires forall x :: x in h.cells ==> h'.cells[x].value == h.cells[x].value
    requires forall x :: x in h.cells && x !in refs ==> h'.cells[x] == h.cells[x]
    ensures h'.cells == h.cells
  {
    forall x | x in h.cells
      ensures h'.cells[x] == h.cells[x]
    {
      if x in refs {
        var i :| 0 <= i < |refs| && refs[i] == x;
        Step(h, head, refs, i);
        Step(h', head, refs, i);
      }
    }
  }
}
