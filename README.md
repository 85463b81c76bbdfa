# s21_containers in Dafny

A model of the core of the s21_containers library. This C++ library re-implements part of the standard containers:

- the red-black tree skeleton `RBTree` that `map` is built on: construction, copying, moving, swap, clear, the head node with its cached extremes, and the minimum and maximum searches;
- `map`;
- the fixed-size `array`;
- `vector`;
- the doubly linked `List` with its iterator;
- the adaptors `stack` and `queue`.

Each core file is one module:

| module | source file |
|---|---|
| `Tree` | `s21_tree.h` |
| `Maps` | `s21_map.h` |
| `Arrays` | `s21_array.h` |
| `Vectors` | `s21_vector.h` |
| `Lists` | `s21_list.cpp` and the node of `s21_list.h` |
| `ListIterators` | `iterators/s21_list_iterator.h` |
| `Stacks` | `s21_stack.h` |
| `Queues` | `s21_queue.h` |

`Wrappers` holds `Option`, `Result` and the two exception kinds the library throws: `out_of_range` and `logic_error`.

How the C++ is represented:

- **Exceptions.** A function that can throw returns a `Result`. The C++ `throw` becomes `Err(OutOfRange)` or `Err(LogicError)`.
- **Objects updated in place.** Objects whose members update their fields become classes with `modifies` clauses.
- **Pointer structures.** Each tree or list keeps its nodes in an arena, a `seq` of nodes. A pointer is the index of a node in that arena, and a null pointer is `None`.
- **Tree shape.** A ghost `Shape` value gives the abstract shape of a tree. `Represents` ties the arena to that shape, including the parent links and the disjointness of the subtrees.
- **List order.** The ghost sequence `cells` lists the list's nodes in order. `Linked` states the next/prev links, the `end_` sentinel and `begin_` that this order requires.
- **Map contents.** The map is modelled by its contents: a sequence of key/value pairs with unique keys. The tree search (`Find`) and insertion (`UniqueInsert`) it calls are called by `s21_map.h` and declared nowhere in the core files. The model gives them the meaning their names and the map's comments state.
- **Stack and queue contents.** The underlying list of a stack or queue is modelled by its contents, front to back.

## Model

| member | source | states |
|---|---|---|
| Tree.InOrder | src/s21_containers/s21_tree.h:74-76 | the in-order key sequence of a tree shape has one entry per node |
| Tree.MinIndex | src/s21_containers/s21_tree.h:172-177 | the leftmost node of a represented subtree has no left child, is one of the subtree's cells, and holds the first key in order |
| Tree.MaxIndex | src/s21_containers/s21_tree.h:179-184 | the rightmost node has no right child and holds the last key in order |
| Tree.CopiedAsWritten | src/s21_containers/s21_tree.h:156-170 | the as-written copy fails on a node with a right child and no left child; a copy it makes has the same key and colour, and a right child equal to its left one |
| Tree.FrameRepresents | src/s21_containers/s21_tree.h:156-170 | writing nodes outside a subtree's cells keeps the subtree, its cells and its extremes |
| Tree.CopiedAsWrittenFaithfulIff | src/s21_containers/s21_tree.h:156-170 | the as-written copytree reproduces a tree exactly when every right subtree mirrors its sibling's shape and keys, and fails otherwise |
| Tree.CopiedAsWrittenCounterexamples | src/s21_containers/s21_tree.h:161-162 | a root with only a right child makes the as-written copy dereference null; a root with two children gets its left subtree copied into the right slot |
| Tree.RBTree.Root | src/s21_containers/s21_tree.h:133-135 | the root is the head's parent; it is null exactly for the empty shape, and its parent is the head |
| Tree.RBTree.MostLeft | src/s21_containers/s21_tree.h:140-142 | for a non-empty tree the head's left link is a node holding the first key in order |
| Tree.RBTree.MostRight | src/s21_containers/s21_tree.h:148-150 | for a non-empty tree the head's right link is a node holding the last key in order |
| Tree.RBTree.constructor | src/s21_containers/s21_tree.h:35-37 | a new tree is empty and valid, with no root and no cached extremes |
| Tree.RBTree.Copy | src/s21_containers/s21_tree.h:40-44 | with the corrected copytree, the copy is a valid tree with the same shape and size, and it takes the comparator of a non-empty original |
| Tree.RBTree.Move | src/s21_containers/s21_tree.h:46-48 | the new tree takes over the other's arena, shape, size and comparator; the other is left empty and valid |
| Tree.RBTree.CopyAssign | src/s21_containers/s21_tree.h:51-59 | with the corrected copytree, the tree gets the other's shape and size; an empty source clears it instead |
| Tree.RBTree.MoveAssign | src/s21_containers/s21_tree.h:61-65 | the tree takes over the other's contents, and the other is left cleared; self-assignment clears the tree |
| Tree.RBTree.Size | src/s21_containers/s21_tree.h:74-76 | the size is the number of keys in order |
| Tree.RBTree.IsEmpty | src/s21_containers/s21_tree.h:95-97 | the tree is empty exactly when the head has no parent, which is exactly when the shape is empty |
| Tree.RBTree.Swap | src/s21_containers/s21_tree.h:82-86 | the two trees exchange arena, head, shape, size and comparator, and both stay valid |
| Tree.RBTree.SwapTwice | src/s21_containers/s21_tree.h:82-86 | swapping twice restores both trees |
| Tree.RBTree.Clear | src/s21_containers/s21_tree.h:88-92 | a cleared tree is valid and empty, and the head is reset to point at itself |
| Tree.RBTree.InitializerHead | src/s21_containers/s21_tree.h:127-131 | the head loses its parent, its left and right links point at itself, and nothing else changes |
| Tree.RBTree.MinimumSearch | src/s21_containers/s21_tree.h:172-177 | following left links from a node ends at the subtree's minimum: no left child, and the first key in order |
| Tree.RBTree.MaximumSearch | src/s21_containers/s21_tree.h:179-184 | following right links ends at the subtree's maximum: no right child, and the last key in order |
| Tree.RBTree.CopyTreeAsWritten | src/s21_containers/s21_tree.h:156-170 | the as-written copy appends nodes only; it fails exactly when the as-written shape function does, and otherwise it places that function's shape at the old arena length |
| Tree.RBTree.CopyInto | src/s21_containers/s21_tree.h:156-170 | the corrected copy appends a faithful copy of the subtree, rooted at the old arena length and parented as asked, and leaves the existing nodes alone |
| Tree.RBTree.CopyFromOther | src/s21_containers/s21_tree.h:186-195 | with the corrected copytree, copying a non-empty tree gives a valid tree with the other's shape, size and comparator, under the same head |
| Tree.RBTree.HangUnderHead | src/s21_containers/s21_tree.h:186-195 | hanging a copied root under the head and caching its extremes gives a well-formed tree |
| Maps.MapCmprt | src/s21_containers/s21_map.h:25-29 | the pair comparator compares the keys only |
| Maps.EquivalentIffSameKey | src/s21_containers/s21_map.h:23-29 | under a strict total order on keys, two pairs are equivalent (neither is less) exactly when their keys are equal |
| Maps.Find | src/s21_containers/s21_map.h:72-80 | the search finds the first pair with the key, or reports that no pair has it |
| Maps.UniqueInsert | src/s21_containers/s21_map.h:143-145 | a unique insert keeps the existing pairs, grows by one exactly when the key is absent, and leaves a pair with the key |
| Maps.Assign | src/s21_containers/s21_map.h:156-164 | insert-or-assign grows by one exactly when the key is absent, keeps every pair with another key, and leaves the pair (key, value) |
| Maps.Build | src/s21_containers/s21_map.h:46-48 | the initializer-list map holds at most as many pairs as the list, each taken from the list |
| Maps.LookupUniqueInsert | src/s21_containers/s21_map.h:143-145 | after a unique insert, the key maps to its old value if it was present, and to the new value otherwise; other keys are unchanged |
| Maps.UniqueInsertKeepsUnique | src/s21_containers/s21_map.h:143-145 | a unique insert keeps keys unique, and grows the map only when the key is new |
| Maps.LookupAssign | src/s21_containers/s21_map.h:156-164 | after insert-or-assign the key maps to the new value, and other keys are unchanged |
| Maps.AssignKeepsUnique | src/s21_containers/s21_map.h:156-164 | insert-or-assign keeps keys unique, and grows the map only when the key is new |
| Maps.LookupBuild | src/s21_containers/s21_map.h:46-48 | building from a list maps each key to its first occurrence in the list |
| Maps.BuildUnique | src/s21_containers/s21_map.h:46-48 | a map built from any list has unique keys |
| Maps.Map.constructor | src/s21_containers/s21_map.h:42 | a new map is empty |
| Maps.Map.FromList | src/s21_containers/s21_map.h:46-48 | the map holds the list inserted in order, so each key gets its first value |
| Maps.Map.Copy | src/s21_containers/s21_map.h:51 | with the corrected tree copy, the copy has the same pairs |
| Maps.Map.Move | src/s21_containers/s21_map.h:54 | the new map takes the other's pairs, and the other is left empty |
| Maps.Map.CopyAssign | src/s21_containers/s21_map.h:57-60 | with the corrected tree copy, the map gets the other's pairs |
| Maps.Map.At | src/s21_containers/s21_map.h:72-80 | returns the value stored for a present key, and out_of_range exactly when the key is absent |
| Maps.Map.Index | src/s21_containers/s21_map.h:89-98 | returns the stored value of a present key and changes nothing; an absent key is inserted with the default value, which is returned |
| Maps.Map.Size | src/s21_containers/s21_map.h:113 | the number of pairs |
| Maps.Map.Empty | src/s21_containers/s21_map.h:116 | empty exactly when the size is zero; a non-empty map contains its first key |
| Maps.Map.Clear | src/s21_containers/s21_map.h:122 | the map is left with no pairs |
| Maps.Map.Swap | src/s21_containers/s21_map.h:128 | the two maps exchange their pairs |
| Maps.Map.Contains | src/s21_containers/s21_map.h:135-139 | true exactly when some pair has the key |
| Maps.Map.Insert | src/s21_containers/s21_map.h:143-145 | inserts the pair exactly when its key is absent, and reports whether it did; the returned position holds the key, and a refused insert changes nothing |
| Maps.Map.InsertKeyValue | src/s21_containers/s21_map.h:149-152 | the same as insert of the pair (key, obj) |
| Maps.Map.InsertOrAssign | src/s21_containers/s21_map.h:156-164 | the key ends up mapped to obj, and the result says whether it was new; other keys keep their values |
| Arrays.Array.constructor | src/s21_containers/s21_array.h:21 | every element holds the value-initialised default |
| Arrays.Array.FromList | src/s21_containers/s21_array.h:23-28 | a list of the wrong length is refused with logic_error; otherwise the array holds the list |
| Arrays.Array.Sized | src/s21_containers/s21_array.h:23-28 | the storage the initializer-list constructor fills: a fresh, valid buffer of size_ elements |
| Arrays.Array.Copy | src/s21_containers/s21_array.h:30-32 | the copy holds the same elements in a fresh buffer |
| Arrays.Array.CopyAssign | src/s21_containers/s21_array.h:34-37 | the elements become the other's, and the other is unchanged |
| Arrays.Array.MoveAssign | src/s21_containers/s21_array.h:39-46 | the elements become the other's |
| Arrays.Array.At | src/s21_containers/s21_array.h:57-69 | returns the element at an index below the size, and out_of_range otherwise |
| Arrays.Array.Index | src/s21_containers/s21_array.h:71-73 | the same checked access as at |
| Arrays.Array.Front | src/s21_containers/s21_array.h:75-87 | the first element, or logic_error for a zero-size array |
| Arrays.Array.Back | src/s21_containers/s21_array.h:89-101 | the last element, or logic_error for a zero-size array |
| Arrays.Array.FrontBackAgreeWithAt | src/s21_containers/s21_array.h:57-101 | front and back are at(0) and at(size-1); on a zero-size array they throw logic_error while at throws out_of_range |
| Arrays.Array.Size | src/s21_containers/s21_array.h:119-121 | the distance from begin to end is the buffer length |
| Arrays.Array.MaxSize | src/s21_containers/s21_array.h:127-129 | the maximum size equals the size |
| Arrays.Array.Empty | src/s21_containers/s21_array.h:123-125 | empty exactly when the size is zero, which is exactly when at(0) fails |
| Arrays.Array.Swap | src/s21_containers/s21_array.h:132-139 | the two arrays exchange their elements |
| Arrays.Array.SwapTwice | src/s21_containers/s21_array.h:132-139 | swapping twice restores both arrays |
| Arrays.Array.Fill | src/s21_containers/s21_array.h:141-145 | every element reads back as the fill value |
| Vectors.Vector.constructor | src/s21_containers/s21_vector.h:20-21 | no elements, no capacity, no buffer |
| Vectors.Vector.Sized | src/s21_containers/s21_vector.h:23-30 | size and capacity are n; a buffer is allocated exactly when n > 0 |
| Vectors.Vector.FromList | src/s21_containers/s21_vector.h:32-36 | the elements are the list's, and the size and capacity are its length |
| Vectors.Vector.Move | src/s21_containers/s21_vector.h:48-52 | the new vector takes size, capacity and buffer, and the other is left empty with no buffer |
| Vectors.Vector.StealAssign | src/s21_containers/s21_vector.h:58-65 | assigning from another vector steals its contents and leaves it empty; self-assignment changes nothing |
| Vectors.Vector.At | src/s21_containers/s21_vector.h:81-88 | returns the element at an index below the size, and logic_error otherwise |
| Vectors.Vector.Index | src/s21_containers/s21_vector.h:98-103 | operator[] is the checked at |
| Vectors.Vector.ConstAtAsWritten | src/s21_containers/s21_vector.h:89-96 | as written, the const at throws only for an index above the size; index = size passes the guard, and reads outside the buffer when the vector is full |
| Vectors.Vector.ConstAtAsWrittenAcceptsSize | src/s21_containers/s21_vector.h:90 | index = size is not rejected by the as-written const at, though the non-const at rejects it |
| Vectors.Vector.ConstAtAgrees | src/s21_containers/s21_vector.h:81-96 | the as-written const at agrees with at on every index except size_, where at throws and the as-written one does not |
| Vectors.Vector.RemoveVector | src/s21_containers/s21_vector.h:112-119 | reallocation to capacity c keeps the size and the elements in a fresh buffer |
| Lists.Values | src/s21_containers/s21_list.h:8-17 | the contents read off the nodes in list order |
| Lists.InsertBefore | src/s21_containers/s21_list.cpp:49-58 | the new node holds the value, with next = pos and prev = the old predecessor of pos |
| Lists.InsertAsWrittenLinks | src/s21_containers/s21_list.cpp:38-62 | the as-written insert adds one node holding the value before pos; at end_ of a non-empty list it leaves end_->prev_ unchanged and returns the old last node, now linked to the new one |
| Lists.InsertBeforeSplices | src/s21_containers/s21_list.cpp:38-62 | inserting before the k-th position of a well-linked list gives a well-linked list, with the new node at index k and the value spliced into the contents at k |
| Lists.InsertedLinks | src/s21_containers/s21_list.cpp:38-62 | the same splice, stated for the links a relinking step returns |
| Lists.InsertAsWrittenAgrees | src/s21_containers/s21_list.cpp:38-62 | the as-written insert agrees with the corrected one everywhere except at end_ of a non-empty list |
| Lists.AppendAsWrittenBreaksLinks | src/s21_containers/s21_list.cpp:46-47 | as written, inserting at end_ of a non-empty list links the new node forward only: end_->prev_ still names the old last node, the returned node is the old last one, and the list is no longer well-linked |
| Lists.AppendAsWrittenExample | src/s21_containers/s21_list.cpp:46-47 | the same on a one-element list |
| Lists.List.AsWritten | src/s21_containers/s21_list.cpp:2-7 | as written, the default list has no elements but a size of 1, so empty() is false |
| Lists.List.constructor | src/s21_containers/s21_list.cpp:2-7 | the corrected default list is empty, valid, and reports empty |
| Lists.List.SizedAsWritten | src/s21_containers/s21_list.cpp:8-13 | as written, List(n) counts 1 + 2n elements; for n >= 2 its as-written push_backs leave no well-linked order, and every node between the first and the last is orphaned |
| Lists.AsWrittenChainStep | src/s21_containers/s21_list.cpp:8-13 | one as-written push_back takes the arena List(n) has after i rounds to the arena after i + 1 rounds |
| Lists.AsWrittenChainBroken | src/s21_containers/s21_list.cpp:46-47 | after two or more as-written appends no order of cells is well-linked, begin_ leads to the newest node and then end_, and the nodes in between are unreachable; after at most one append the list is correct |
| Lists.List.Sized | src/s21_containers/s21_list.cpp:8-13 | with size_ counted once and the corrected push_back, List(n) holds exactly n default values and its size agrees |
| Lists.List.Empty | src/s21_containers/s21_list.cpp:30-32 | on a valid list, empty exactly when there are no elements |
| Lists.List.InsertAsWritten | src/s21_containers/s21_list.cpp:38-62 | the links after the as-written insert at any node, including the end_ branch that leaves end_->prev_ stale |
| Lists.List.PushBackAsWritten | src/s21_containers/s21_list.cpp:64-66 | push_back as written is the as-written insert before end_ |
| Lists.List.Insert | src/s21_containers/s21_list.cpp:38-62 | with the corrected end_ branch, the list stays well-linked, the size grows by one, the value is spliced in before position k, and the result is the new node |
| Lists.List.RelinkBefore | src/s21_containers/s21_list.cpp:49-58 | allocates the node before pos and relinks its neighbours, or begin_ when pos was first |
| Lists.List.PushBack | src/s21_containers/s21_list.cpp:64-66 | with the corrected insert, the value is appended to the contents of a well-linked list |
| Lists.List.PushFront | src/s21_containers/s21_list.cpp:68-74 | on a well-linked list, the value is appended when size_ is 0 and prepended otherwise, and size_ grows by one |
| ListIterators.StepNext | src/s21_containers/iterators/s21_list_iterator.h:53-58 | ++ moves to the successor if there is one, and stays put otherwise |
| ListIterators.StepPrev | src/s21_containers/iterators/s21_list_iterator.h:60-65 | -- moves to the predecessor if there is one, and stays put otherwise |
| ListIterators.AdvanceWalksList | src/s21_containers/iterators/s21_list_iterator.h:53-58 | on a well-linked list, i steps of ++ from position j reach position j + i, and stop at end_ |
| ListIterators.StepsInverse | src/s21_containers/iterators/s21_list_iterator.h:53-65 | ++ and -- undo each other between neighbouring positions; -- at the first element and ++ at end_ stay put |
| ListIterators.ListIterator.Create | src/s21_containers/iterators/s21_list_iterator.h:12-17 | out_of_range exactly when the list has no begin_; otherwise an iterator at begin_ |
| ListIterators.ListIterator.At | src/s21_containers/iterators/s21_list_iterator.h:12-17 | an iterator at the given node of the list |
| ListIterators.ListIterator.Next | src/s21_containers/iterators/s21_list_iterator.h:53-58 | the iterator makes one ++ step |
| ListIterators.ListIterator.Prev | src/s21_containers/iterators/s21_list_iterator.h:60-65 | the iterator makes one -- step |
| ListIterators.ListIterator.Deref | src/s21_containers/iterators/s21_list_iterator.h:26-31 | the node's value, and out_of_range exactly for a null node; at the i-th element of a well-linked list, the i-th element of the contents |
| ListIterators.ListIterator.Equal | src/s21_containers/iterators/s21_list_iterator.h:33-39 | out_of_range if either node is null; otherwise whether the nodes coincide |
| ListIterators.ListIterator.NotEqual | src/s21_containers/iterators/s21_list_iterator.h:41-47 | the same errors as ==, with the negated answer |
| ListIterators.CreateAtFirst | src/s21_containers/iterators/s21_list_iterator.h:12-31 | an iterator created on a non-empty list dereferences to the first element |
| Stacks.Pushed | src/s21_containers/s21_stack.h:82-84 | a push adds the value on top and keeps everything below |
| Stacks.Popped | src/s21_containers/s21_stack.h:93-95 | a pop removes the top and keeps the rest |
| Stacks.TopOf | src/s21_containers/s21_stack.h:67-69 | the top is the last element, and pushing it back after a pop restores the stack |
| Stacks.PushPop | src/s21_containers/s21_stack.h:82-95 | a pushed value is the top, and popping it restores the stack |
| Stacks.LastInFirstOut | src/s21_containers/s21_stack.h:67-95 | pops yield what was pushed last first: pushing xs onto s pops xs reversed, then what s pops |
| Stacks.EmplacedAsWritten | src/s21_containers/s21_stack.h:88-90 | the as-written emplace puts the value at the front of the list, below the old elements |
| Stacks.EmplacedAsWrittenMissesTop | src/s21_containers/s21_stack.h:88-90 | the as-written emplace leaves the old top on top of a non-empty stack; on [1], emplacing 2 gives top 1 where push gives 2 |
| Stacks.Stack.constructor | src/s21_containers/s21_stack.h:17 | a new stack is empty |
| Stacks.Stack.FromList | src/s21_containers/s21_stack.h:42 | the items in order, with the last one on top |
| Stacks.Stack.Copy | src/s21_containers/s21_stack.h:39 | the copy has the same elements |
| Stacks.Stack.Move | src/s21_containers/s21_stack.h:45 | the new stack takes the elements, and the other is left empty |
| Stacks.Stack.CopyAssign | src/s21_containers/s21_stack.h:48-53 | the elements become the other's, and the other is unchanged |
| Stacks.Stack.MoveAssign | src/s21_containers/s21_stack.h:56-61 | the elements become the other's, and the other is left empty |
| Stacks.Stack.Top | src/s21_containers/s21_stack.h:67-69 | the last element pushed |
| Stacks.Stack.Empty | src/s21_containers/s21_stack.h:72-74 | empty exactly when there are no elements |
| Stacks.Stack.Size | src/s21_containers/s21_stack.h:77-79 | the number of elements, which is zero exactly when the stack is empty |
| Stacks.Stack.Push | src/s21_containers/s21_stack.h:82-84 | the value goes on top, and the size grows by one |
| Stacks.Stack.EmplaceAsWritten | src/s21_containers/s21_stack.h:88-90 | as written, emplace puts the value at the bottom |
| Stacks.Stack.Emplace | src/s21_containers/s21_stack.h:88-90 | the corrected emplace puts the value on top, like push |
| Stacks.Stack.Pop | src/s21_containers/s21_stack.h:93-95 | the top is removed, and the size shrinks by one |
| Stacks.Stack.Swap | src/s21_containers/s21_stack.h:98-100 | the two stacks exchange their elements |
| Queues.Enqueued | src/s21_containers/s21_queue.h:88-90 | a push adds the value at the back and keeps the rest in order |
| Queues.Dequeued | src/s21_containers/s21_queue.h:93-95 | a pop removes the front and keeps the rest |
| Queues.PopOrder | src/s21_containers/s21_queue.h:68-95 | the sequence of successive fronts has one entry per element |
| Queues.FirstInFirstOut | src/s21_containers/s21_queue.h:68-95 | pops yield the elements in the order they were pushed |
| Queues.PushPopCommute | src/s21_containers/s21_queue.h:88-95 | a push does not change a non-empty queue's front, and push and pop commute |
| Queues.PushJoinsPopOrder | src/s21_containers/s21_queue.h:88-90 | a pushed value comes out after everything already queued |
| Queues.Queue.constructor | src/s21_containers/s21_queue.h:17 | a new queue is empty |
| Queues.Queue.Copy | src/s21_containers/s21_queue.h:40 | the copy has the same elements |
| Queues.Queue.FromList | src/s21_containers/s21_queue.h:43 | the items in order, with the first at the front |
| Queues.Queue.Move | src/s21_containers/s21_queue.h:46 | the new queue takes the elements, and the other is left empty |
| Queues.Queue.CopyAssign | src/s21_containers/s21_queue.h:49-54 | the elements become the other's, and the other is unchanged |
| Queues.Queue.MoveAssign | src/s21_containers/s21_queue.h:57-62 | the elements become the other's, and the other is left empty |
| Queues.Queue.Front | src/s21_containers/s21_queue.h:68-70 | the element that will be popped next |
| Queues.Queue.Back | src/s21_containers/s21_queue.h:73-75 | the element pushed last |
| Queues.Queue.Empty | src/s21_containers/s21_queue.h:78-80 | empty exactly when there are no elements |
| Queues.Queue.Size | src/s21_containers/s21_queue.h:83-85 | the number of elements, which is zero exactly when the queue is empty |
| Queues.Queue.Push | src/s21_containers/s21_queue.h:88-90 | the value joins at the back, and the size grows by one |
| Queues.Queue.EmplaceBack | src/s21_containers/s21_queue.h:104-106 | the value joins at the back, like push |
| Queues.Queue.Pop | src/s21_containers/s21_queue.h:93-95 | the front is removed, and the size shrinks by one |
| Queues.Queue.Swap | src/s21_containers/s21_queue.h:98-100 | the two queues exchange their elements |

## Left out

- Memory management is not modelled: destructors, `destroy`, `delete`, and the iterator destructor that deletes its node. Nodes stay in the arena, and a dangling pointer cannot be expressed.
- Not modelled: `set`, `multiset`, and the tree members that `s21_map.h` calls but that no core file declares: `Find`, `UniqueInsert`, `Erase`, `UniqueMerge`, `begin_`, `end_`, `maxSize`, `UniqEmplace`. The map's use of `Find` and `UniqueInsert` is modelled by their evident meaning over a sequence of pairs with unique keys.
- The tree's red-black rebalancing is not modelled, because no code for it exists in the core files. The colours are copied and carried, but not checked.
- Map members that forward to undefined tree members are not modelled: `erase`, `merge`, `emplace`, `max_size`, `begin`, `end`. The const `at(const key_type *)` is not modelled either, because it passes a pointer where a key is expected.
- Maps.Map: the map's order by key is not modelled. Positions returned by the insertions are indices into the pair sequence, not tree iterators.
- Not modelled for `vector`: the copy constructor, which tests the undeclared name `size` instead of `size_` (s21_vector.h:42), and the assignment `operator=(const vector &)`, which reads the undeclared members `mcv.size` and `mcv.capacity` (s21_vector.h:75-76). Neither compiles as written.
- Not modelled for `array`: `data`, `begin` and `end`, which only expose pointers. The array's move constructor has the same effect as Copy.
- `iterators/s21_list_iterator.cpp` repeats the operators of `iterators/s21_list_iterator.h`. They are modelled once, with rows citing the header.
- Not modelled for `List`: the initializer-list, copy and move constructors, whose bodies are empty, and every member declared in `s21_list.cpp` without a body (`front`, `back`, `clear`, `erase`, `pop_back`, `swap`, `merge` and so on).
- Lists.List.PushBack, Lists.List.Insert and Lists.List.PushFront require a well-linked list but not a consistent `size_`, because the source's own constructors leave `size_` inconsistent. Lists.List.PushFront also requires that a non-zero `size_` comes with at least one element: on a list like Lists.List.AsWritten (`size_` 1, no elements) the source calls `insert(begin(), …)` with a null `begin_`, which the model does not follow.
- Lists.List.Insert, Lists.List.PushBack, Lists.List.Sized and Lists.List.PushFront use the corrected insert, which relinks end_ like any other position. Their contracts do not describe the as-written insert at end_ (s21_list.cpp:46-47); Lists.List.InsertAsWritten, Lists.List.PushBackAsWritten and Lists.List.SizedAsWritten do.
- Tree.RBTree.Copy, Tree.RBTree.CopyAssign, Tree.RBTree.CopyFromOther, Maps.Map.Copy and Maps.Map.CopyAssign use the corrected copytree. With the as-written copytree (s21_tree.h:161-162) they would dereference null on some trees, or copy the wrong shape while taking the other's `size_`; Tree.RBTree.CopyTreeAsWritten states what that copy yields.
- Lists.List.AsWritten, Lists.List.constructor, Lists.List.Sized and Lists.List.SizedAsWritten make an `end_` sentinel at arena index 0. In the source the sentinel set-up is commented out (s21_list.cpp:3-5), and `begin_` and `end_` are left uninitialised.
- Maps.Map compares keys with `==`. `MapCmprt` equivalence is the same relation only for a strict total order on keys (Maps.EquivalentIffSameKey); other comparators are not modelled.
- Tree.RBTree.CopyTreeAsWritten models the null-pointer dereference as a `None` result. It does not model what happens to the nodes allocated before the failure.
- Writes through references returned by `at`, `operator[]`, `front`, `back` and `top` are not modelled. The accessors return values.
- Stacks.Stack.MoveAssign, Stacks.Stack.Move, Queues.Queue.MoveAssign and Queues.Queue.Move promise that the moved-from adaptor is left empty. The source does not define this. The list's move constructor has an empty body (s21_list.cpp:18-19), and its assignment is declared without a body (s21_list.cpp:23). The model takes the usual meaning of a move instead: the new adaptor gets the elements, and the old one is left empty.
- Stack and queue members model their underlying list by its contents, not by its linked nodes.
- Stacks.Stack.Emplace, Stacks.Stack.EmplaceAsWritten and Queues.Queue.EmplaceBack take one ready-made value, not a pack of constructor arguments.
- Pointers are arena indices. Allocation appends to the arena, and the width of `size_type` is not modelled: sizes are unbounded naturals.

## Findings

| source | as written | input that shows it | evidently intended | confidence | as-written member | corrected member |
|---|---|---|---|---|---|---|
| src/s21_containers/s21_tree.h:161-162 | copytree builds the right child from the source node's left subtree | a root whose only child is a right child (null dereference); a root with two different children (left subtree copied twice) | the right child is copied from the right subtree | not executed | Tree.CopiedAsWrittenCounterexamples, Tree.RBTree.CopyTreeAsWritten | Tree.RBTree.CopyInto |
| src/s21_containers/s21_vector.h:90 | const at throws only when ind > size_ | ind == size_ on a full vector reads one past the buffer | throw when ind >= size_, as the non-const at does | not executed | Vectors.Vector.ConstAtAsWrittenAcceptsSize | Vectors.Vector.At, Vectors.Vector.ConstAtAgrees |
| src/s21_containers/s21_list.cpp:46-47 | insert at end_ of a non-empty list sets only old_last->next_, and returns old_last | a one-element list, then push_back | also set end_->prev_ to the new node, and return the new node | not executed | Lists.AppendAsWrittenBreaksLinks, Lists.AsWrittenChainBroken | Lists.InsertBeforeSplices, Lists.List.Insert |
| src/s21_containers/s21_list.cpp:6 | the default constructor sets size_ = 1 | List() reports empty() == false | size_ = 0 | not executed | Lists.List.AsWritten | Lists.List.constructor |
| src/s21_containers/s21_list.cpp:8-13 | List(n) increments size_ after push_back, which already counts the element, on top of the initial 1 | List(2) reports size 5 | size n | not executed | Lists.List.SizedAsWritten | Lists.List.Sized |
| src/s21_containers/s21_stack.h:89 | emplace calls emplace_front, so the element goes to the bottom | the stack [1], then emplace(2): top() is still 1 | emplace_back, so the element becomes the top | not executed | Stacks.EmplacedAsWrittenMissesTop | Stacks.Stack.Emplace |
