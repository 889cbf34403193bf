# A verified model of the generic linked `List<T>` class

The Swift repository 99SwiftProblems defines a generic singly linked list,
`List<T>`, in `DataStructuresAndAlgorithms/List.swift`. It is a class: every
instance is a heap object with a `value` and an optional `nextItem` reference.
A list always has at least one value. Building one from an empty array gives
`nil`, and `nil` is the only way the class represents "no list". This project
models the class's failable initialiser, its four traversals (`last`,
`pennultimate`, the index subscript and `length`), the in-place three-pointer
`reverse()` and `isPalindrome()`. It proves what each of them returns.

## How the model is laid out

- `options.dfy` (`Options`): Swift's `Optional`, as `None | Some(value)`.
- `sequences.dfy` (`Sequences`): `Reversed` and `Span` on sequences, with two
  small lemmas about them.
- `heap.dfy` (`Heap`): the object heap, written as a value
  `Heap(cells: map<Ref, Cell<T>>, limit)`. A `Cell` is one `List<T>` object.
  `IsList(h, head, refs)` says that walking `nextItem` from `head` visits the
  cells `refs` and ends at `nil`. `Values(h, refs)` reads their values. The
  lemmas prove that such a walk never visits a cell twice (`ChainDistinct`) and
  that the walk from a given head is unique (`ChainUnique`).
- `list.dfy` (`List`): the operations of `List.swift` as written. Each takes
  the heap, the receiver `self` and, as a ghost argument, the cells of the
  receiver's chain. `reverse()` and `isPalindrome()` also return the heap they
  leave behind, so the aliasing stays visible. After either call, the
  receiver's cell is still there, but it now ends the chain.
- `immutable_list.dfy` (`ImmutableList`): the corrected reversal and
  palindrome check described under "Findings".

The header comment of `List.swift` (line 15) says lists are immutable and every
method returns new instances. `reverse()` does not follow that rule: it relinks
the receiver's cells. The model follows the code. The consequences are proved,
not hidden.

References are natural numbers, and `limit` is the next one to hand out. The
initialiser reserves the head's reference before it builds the tail, because
Swift allocates an object before its initialiser runs. So a list built from
`n` values occupies references `limit .. limit + n - 1`, in order.

## Model

| member | source | states |
|---|---|---|
| List.Build | DataStructuresAndAlgorithms/List.swift:28-38 | An empty array gives `nil` and leaves the heap unchanged. A non-empty array gives a head whose chain holds the array's values in order, in newly allocated cells. Every existing object is left as it was. |
| List.Last | DataStructuresAndAlgorithms/List.swift:43-51 | The result is never `nil`. It is the value of the final cell. |
| List.Pennultimate | DataStructuresAndAlgorithms/List.swift:57-66 | For two or more cells, the result is the value at position length − 2. For a one-cell list, it is `nil`. |
| List.At | DataStructuresAndAlgorithms/List.swift:72-84 | For 0 ≤ index < length, the result is the value at that index. For a negative index or an index ≥ length, it is `nil`. |
| List.Length | DataStructuresAndAlgorithms/List.swift:89-99 | The result is the number of cells in the chain, which is at least 1. |
| List.Reverse | DataStructuresAndAlgorithms/List.swift:104-117 | The former last cell heads a chain of the same cells in reverse order, holding the reversed values. Nothing is allocated, and no value moves. The receiver is left as a one-cell list, because its `nextItem` is now `nil`, and that is the only list seen from it. Cells outside the list are unchanged, and a well-formed heap stays well-formed. |
| List.ReverseTwice | DataStructuresAndAlgorithms/List.swift:104-117 | Reversing the returned list again restores the original heap exactly and returns the original head. |
| List.IsPalindrome | DataStructuresAndAlgorithms/List.swift:122-136 | The result is true exactly when the first value equals the last. So it is true for a one-cell list and for every real palindrome, and false when the ends differ. The receiver is left reversed in place, as a one-cell list. Nothing is allocated, no value moves, and cells outside the receiver's chain are unchanged. |
| List.ReverseShortensReceiver | DataStructuresAndAlgorithms/List.swift:110-115 | On `List(1, 2, 3)`, the receiver's length is 3 before `reverse()` and 1 after. |
| List.PalindromeMisjudged | DataStructuresAndAlgorithms/List.swift:124-136 | On `List(1, 2, 3, 1)`, which is not a palindrome, `isPalindrome()` returns true. |
| ImmutableList.Reverse | DataStructuresAndAlgorithms/List.swift:102-117 | The returned chain is made of newly allocated cells and holds the receiver's values reversed. The receiver and every other existing object are untouched, as line 15 requires. |
| ImmutableList.IsPalindrome | DataStructuresAndAlgorithms/List.swift:120-136 | The result is true exactly when the values read the same backwards. The receiver is left intact. |
| Heap.ChainDistinct | DataStructuresAndAlgorithms/List.swift:24-26 | A `nextItem` chain that ends in `nil` never visits the same object twice. |
| Heap.ChainUnique | DataStructuresAndAlgorithms/List.swift:24-26 | The chain reached from a given object is uniquely determined by the heap. So "the list seen from the receiver" has one meaning. |

## Findings

| source | as written | input that shows it | evidently intended | confidence | as-written member | corrected member |
|---|---|---|---|---|---|---|
| DataStructuresAndAlgorithms/List.swift:104-117 | `reverse()` relinks the receiver's own cells (lines 111 and 115). Afterwards the receiver is the tail of the reversed chain, with `nextItem == nil`. | `List(1, 2, 3)`: the receiver's `length` is 3 before and 1 after. | Return a new reversed list and leave the receiver unchanged. Lines 15 and 105 require this. | not executed | List.ReverseShortensReceiver | ImmutableList.Reverse |
| DataStructuresAndAlgorithms/List.swift:122-136 | After `self.reverse()` (line 124), `self.length` is 1, so the loop at line 126 compares only the first value with the last. | `List(1, 2, 3, 1)` returns true. | Return true exactly when the values read the same backwards. | not executed | List.PalindromeMisjudged | ImmutableList.IsPalindrome |

## Left out

- `flatten()` (List.swift:139-177) is unfinished in the source. Line 170 is truncated, the function has no `return` statement, so the file does not compile, and it depends on a runtime `as? List` downcast of the generic `T`. There is no behaviour to model.
- `compress`, `pack`, the run-length `encode`/`decode` family, `duplicate`, `drop(every:)`, `split`, `slice`, `rotate` and `removeAt` are called by the tests, but they are not defined in `List.swift`, the file this model covers, so they are outside the modelled class.
- The variadic initialiser `init?(_ values: T...)` (List.swift:28-30) only forwards to the array initialiser. It is modelled by the same `List.Build`.
- Swift's 64-bit `Int` is modelled as an unbounded integer. The only counters are a list index and a length, which cannot get near the 64-bit limit for a list that fits in memory.
- Memory management is not modelled: cells are never freed. Reference counting cannot change what any of the modelled operations return.
- The heap invariant `Heap.Valid` is required only by `List.Build` (and its step lemma `List.BuildLink`), `ImmutableList.Reverse` and `ImmutableList.IsPalindrome`; the first two allocate and the third calls the second. It is how the model knows that `limit` names an object that does not exist yet. Swift's allocator guarantees this.
- The test suite's concrete element types (`Int`, `Double`, `Character`) appear only as opaque values. The element type is a type parameter, with equality where `isPalindrome()` needs it; that equality is reflexive, as the two lines below record.
- List.IsPalindrome: assumes that element equality is reflexive, as Dafny's equality is. Swift's `Double` equality is not: for `List(Double.nan)` the source's `!=` test (List.swift:128) is true and it returns false, while the model returns true. NaN elements are not modelled.
- ImmutableList.IsPalindrome: assumes that element equality is reflexive, for the same reason. NaN elements are not modelled.
- Only lists whose `nextItem` chain ends in `nil` are modelled: every operation requires `Heap.IsList`. Swift's `nextItem` is a settable `var` (List.swift:26), so a caller could make a cycle, and then `last`, `pennultimate`, `length` and `isPalindrome()` never return; `reverse()` does return the receiver, with the cycle reversed, but that case is not modelled. No modelled operation creates a cycle: the initialiser allocates fresh cells and `reverse()` keeps the chain ending in `nil`.
