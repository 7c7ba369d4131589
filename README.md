# ERPriorityQueue in Dafny

This project models `ERPriorityQueue`, an emergency-room queue. It is an indexed binary min-heap of uniquely named patients, where a lower priority score means more urgent.

The queue keeps two stores in step:

- `patients`, a 1-based array list whose slot 0 holds a `"dummy"` sentinel;
- `nameToIndex`, a hash map from each name to its slot.

Swaps, sift-up (`upHeap`), sift-down (`downHeap`), insertion, removal, priority change and the two threshold bulk removals all update both stores.

## Structure

- `patients.dfy` (module `Patients`): the priority type, `Patient` and `compareTo`.
  - A priority is a finite real score or +infinity. +infinity is the priority `add(name)` uses.
- `heap_shape.dfy` (module `HeapShape`): the parts stated on plain values.
  - The index arithmetic.
  - The index-consistency invariant, and the abstract contents: a map from each name to its priority.
  - Heap order, and the "ready" states that one sift step repairs.
  - The lemmas showing that each primitive step keeps the index consistent and moves a heap violation by one slot.
- `er_priority_queue.dfy` (module `ERQueue`): the class `ERPriorityQueue`.
  - Its fields are `patients: seq<Patient>` and `nameToIndex: map<string, int>`, and its methods update them in place as the Java code does.
  - `Valid()` is index consistency: slot 0 holds the sentinel and every name maps to its slot. That property also makes names unique.
  - Heap order is a separate predicate (`HeapOrdered`). `remove` does not always keep it, so each method states when it is preserved.
- `scenarios.dfy` (module `Scenarios`): client code using the public operations.
  - A concrete run in which `remove` breaks heap order.
  - Draining by repeated `removeMin`, which yields names sorted by priority.
  - An add/remove round trip.

`remove(name)` moves the last patient into the freed slot and then only sifts it down. It never sifts up. A sift-up before the sift-down would repair this; the code does not do one. The model follows the code:

- heap order after `Remove` is promised only when the freed slot is the root or the last slot, or when the moved patient is no smaller than its new parent (`RemovalKeepsOrder`);
- `Scenarios.RemoveCanBreakHeapOrder` shows a concrete heap in which `legalHeap` holds before a removal and fails after it.

## Model

| member | source | states |
|---|---|---|
| Patients.CompareTo | ERPriorityQueue.java:288-295 | the result is -1, 0 or 1; negative exactly when this priority is less, zero exactly when the priorities are equal, positive exactly when the other priority is less |
| Patients.OrderFacts | ERPriorityQueue.java:288-295 | with NaN excluded the priority order is a total order: `<=` is the negation of the reversed `<`, trichotomy and transitivity hold, and every priority is at most +infinity |
| HeapShape.Parent | ERPriorityQueue.java:18-20 | a slot of index 2 or more has a parent in [1, i), and the slot is that parent's left or right child |
| HeapShape.LeftChild | ERPriorityQueue.java:22-24 | the parent of the left child is the slot |
| HeapShape.RightChild | ERPriorityQueue.java:26-28 | the parent of the right child is the slot, and the right child sits just after the left one |
| HeapShape.ChildrenOf | ERPriorityQueue.java:18-28 | the only slots whose parent is k are the two children of k |
| HeapShape.NamesUnique | ERPriorityQueue.java:6-7 | under index consistency, two slots holding the same name are the same slot |
| HeapShape.EmptyIff | ERPriorityQueue.java:42-46 | only the sentinel slot is left exactly when the queue holds no entries |
| HeapShape.EntriesAt | ERPriorityQueue.java:113-117 | every populated slot's name is an entry whose priority is that slot's priority |
| HeapShape.Swapped | ERPriorityQueue.java:57-59 | the two slots are exchanged and every other slot is unchanged |
| HeapShape.SwapKeepsIndex | ERPriorityQueue.java:48-60 | after exchanging two slots and the two names' map values, the index is consistent again and the entries are unchanged |
| HeapShape.AppendKeepsIndex | ERPriorityQueue.java:157-159 | appending a patient under a fresh name and mapping the name to the new last slot keeps index consistency and adds exactly that entry |
| HeapShape.DropLastKeepsIndex | ERPriorityQueue.java:176-177 | dropping the last slot and its name keeps index consistency and removes exactly that entry |
| HeapShape.SetPriorityKeepsIndex | ERPriorityQueue.java:204 | changing one slot's priority keeps index consistency and changes only that name's entry |
| HeapShape.MoveLastKeepsIndex | ERPriorityQueue.java:181-183 | swapping slot i with the last slot, dropping the last slot and erasing the name that was in slot i keeps index consistency and removes exactly that name's entry |
| HeapShape.RootLeq | ERPriorityQueue.java:119-123 | in a heap, slot 1's priority is at most every slot's priority |
| HeapShape.MinAtRoot | ERPriorityQueue.java:141-145 | in a heap, the name in slot 1 is an entry of least priority |
| HeapShape.AppendInfKeepsOrder | ERPriorityQueue.java:164-170 | a heap stays a heap when a patient of priority +infinity is appended without sifting |
| HeapShape.AppendUpReady | ERPriorityQueue.java:157-160 | a heap with one appended patient is in the state that sift-up from the new slot repairs |
| HeapShape.UpDone | ERPriorityQueue.java:73 | the sift-up state at the root, or at a slot no smaller than its parent, is heap order |
| HeapShape.UpStep | ERPriorityQueue.java:73-76 | swapping a slot with a strictly larger parent moves the sift-up state to the parent |
| HeapShape.DownDone | ERPriorityQueue.java:80-81 | the sift-down state at a slot that no child undercuts is heap order |
| HeapShape.SmallerChild | ERPriorityQueue.java:83-89 | the child that `downHeap` picks (the right one only when it is strictly smaller than the left) is no larger than any child |
| HeapShape.DownStep | ERPriorityQueue.java:90-92 | swapping a slot with its strictly smaller chosen child moves the sift-down state to that child |
| HeapShape.DecreaseUpReady | ERPriorityQueue.java:204-206 | lowering one slot's priority in a heap gives the state sift-up repairs |
| HeapShape.IncreaseDownReady | ERPriorityQueue.java:204-209 | raising one slot's priority in a heap gives the state sift-down repairs |
| HeapShape.RemovalDownReady | ERPriorityQueue.java:180-184 | when the freed slot is the root or the last slot, or the moved patient is no smaller than its new parent, the shape left by `remove` is the state sift-down repairs |
| ERQueue.EntryMapKeys | ERPriorityQueue.java:220 | the names of the returned patients are exactly the keys of their entry map |
| ERQueue.MoveToRemoved | ERPriorityQueue.java:220-222 | moving one entry from the queue onto the end of the returned list keeps the original contents split, each name exactly once, between queue and list |
| ERQueue.TakeMinimum | ERPriorityQueue.java:218-222 | taking a least entry keeps the returned list sorted by priority and no larger than what stays in the queue |
| ERQueue.ERPriorityQueue.constructor | ERPriorityQueue.java:9-16 | a new queue holds only the sentinel, has no entries, is index-consistent and is a heap |
| ERQueue.ERPriorityQueue.HasLeft | ERPriorityQueue.java:34-36 | a slot with a left child is itself populated, and a slot of index 1 or more has one exactly when some slot has it as its parent |
| ERQueue.ERPriorityQueue.HasRight | ERPriorityQueue.java:38-40 | a right child implies a left child, and a slot of index 1 or more has one exactly when two distinct slots have it as their parent |
| ERQueue.ERPriorityQueue.IsLeaf | ERPriorityQueue.java:30-32 | true exactly when no slot has this slot as its parent |
| ERQueue.ERPriorityQueue.IsEmpty | ERPriorityQueue.java:42-46 | true exactly when the queue holds no entries |
| ERQueue.ERPriorityQueue.Contains | ERPriorityQueue.java:107-111 | true exactly when the name is an entry, and exactly when some populated slot holds it |
| ERQueue.ERPriorityQueue.GetPriority | ERPriorityQueue.java:113-117 | the entry's priority for a present name; the sentinel -1 for an empty queue |
| ERQueue.ERPriorityQueue.GetMinPriority | ERPriorityQueue.java:119-123 | -1 when empty; otherwise the priority of some entry, and in a heap the least priority |
| ERQueue.ERPriorityQueue.PeekMin | ERPriorityQueue.java:141-145 | no name (null) exactly when empty; otherwise an entry's name, and in a heap a least one |
| ERQueue.ERPriorityQueue.GetIndex | ERPriorityQueue.java:62-70 | -1 exactly when no slot holds the name; otherwise the first slot holding it, which under index consistency is the map's value for the name |
| ERQueue.ERPriorityQueue.LegalHeap | ERPriorityQueue.java:99-105 | true exactly when every slot's priority is at least its parent's |
| ERQueue.ERPriorityQueue.Swap | ERPriorityQueue.java:48-60 | the slots are exchanged, the two names trade map values and nothing else changes; index consistency and the entries are kept |
| ERQueue.ERPriorityQueue.UpHeap | ERPriorityQueue.java:72-77 | index consistency, size and entries are kept; from the sift-up state it ends in heap order; the moved patient only rises; nothing moves when the slot is the root or not strictly below its parent |
| ERQueue.ERPriorityQueue.DownHeap | ERPriorityQueue.java:79-97 | index consistency, size and entries are kept; from the sift-down state it ends in heap order; the moved patient only sinks; nothing moves when no child is strictly smaller |
| ERQueue.ERPriorityQueue.Add | ERPriorityQueue.java:154-162 | added exactly when the name is absent; then the name enters with the given priority and the size grows by one; otherwise nothing changes; heap order and index consistency are kept |
| ERQueue.ERPriorityQueue.AddDefault | ERPriorityQueue.java:164-170 | as `Add` with priority +infinity; the patient lands in the new last slot unsifted, and heap order is still kept |
| ERQueue.ERPriorityQueue.SwapOutLast | ERPriorityQueue.java:181-183 | the last patient takes slot i, the last slot is dropped, and the index is the swap's index without the removed name |
| ERQueue.ERPriorityQueue.Remove | ERPriorityQueue.java:172-186 | true exactly when the name was present; then only that entry leaves and the size shrinks by one; otherwise nothing changes; heap order is kept when `RemovalKeepsOrder` holds; nothing is sifted when the moved patient has no smaller child |
| ERQueue.ERPriorityQueue.RemoveMin | ERPriorityQueue.java:125-139 | no name exactly when empty, with nothing changed; otherwise the root's name, whose entry alone leaves; in a heap that entry is a least one and heap order is kept |
| ERQueue.ERPriorityQueue.ChangePriority | ERPriorityQueue.java:194-212 | false exactly when the name is absent; otherwise only that name's priority becomes the new one; nothing changes when it equals the old; a decrease only moves the patient up, an increase only down; heap order is kept |
| ERQueue.ERPriorityQueue.RemoveAndUnmap | ERPriorityQueue.java:221-222 | `remove` of a present name followed by the redundant map removal erases exactly that entry, and keeps a heap when the name was at the root |
| ERQueue.ERPriorityQueue.RemoveUrgentPatients | ERPriorityQueue.java:214-228 | the original contents are split between the queue and the returned patients, and every returned priority is at most t; the queue ends empty or with a root above t; in a heap the result is sorted, every remaining entry is above t, and heap order is kept |
| ERQueue.ERPriorityQueue.RemoveNonUrgentPatients | ERPriorityQueue.java:230-247 | the original contents are split between the queue and the returned patients; every returned priority is at least t, and every remaining one is below t |
| Scenarios.RemoveCanBreakHeapOrder | ERPriorityQueue.java:172-186 | after adding a:1, b:5, c:2, d:20, e:21, f:3, `legalHeap` holds; after removing d it fails |
| Scenarios.DrainStep | ERPriorityQueue.java:125-139 | taking a least entry out extends a drained prefix: names once each, in non-decreasing priority, none larger than what is left |
| Scenarios.DrainByRemoveMin | ERPriorityQueue.java:125-139 | removing the minimum until a heap is empty returns every original name once, in non-decreasing priority |
| Scenarios.AddThenRemove | ERPriorityQueue.java:154-186 | adding a fresh name and then removing it restores the contents and the size |

## Left out

- Java `double` is not modelled bit for bit. Priorities are a real score or +infinity. NaN and -infinity are not modelled, because with NaN `compareTo` is no total order. Priorities are only compared and never computed, so rounding does not arise.
- `ArrayList` and `HashMap` are not modelled as library classes. Their growth and hashing are replaced by a Dafny `seq` and `map` that the methods reassign.
- Object identity of `Patient` is not modelled. `changePriority` calls `setPriority` on the stored object, and the bulk removals return the live objects. The model stores patients as values and returns copies. No returned patient is still in the queue, so no aliasing is observable.
- The copy constructor `Patient(Patient)`, `toString` and `equals` are not modelled. They are formatting and identity only, and no queue operation uses them.
- getPriority on an absent name when the queue is not empty is not modelled. Java unboxes a null there and throws. The model requires the name to be present or the queue to be empty, and keeps the -1 sentinel for the empty case.
- Java `int` overflow of `2 * i` and `2 * i + 1` is not modelled. It needs more than 2^30 slots.
- ERQueue.ERPriorityQueue.UpHeap and ERQueue.ERPriorityQueue.DownHeap: both are public in Java, but the model requires an existing slot (or slot 0 or 1 for `upHeap`, slot 1 or more for `downHeap`). Java throws `IndexOutOfBoundsException` for `upHeap(i)` with `1 < i` beyond the last slot. `downHeap(0)` would compare the sentinel with slot 1: when slot 1's priority is below the sentinel's 0.0 it calls `swap(0, 1)`, which throws a `NullPointerException` unboxing the absent map value for "dummy" (or, if a patient is named "dummy", moves the sentinel into slot 1), and otherwise it changes nothing. Neither call is modelled. Every call inside the class meets these requirements.
- ERQueue.ERPriorityQueue.Remove: heap order is promised only under `RemovalKeepsOrder`, because the code only sifts down and can leave a patient smaller than its new parent (see `Scenarios.RemoveCanBreakHeapOrder`).
- ERQueue.ERPriorityQueue.RemoveNonUrgentPatients: heap order is not promised, because the loop calls `remove` on arbitrary slots, which can break it as above.
- ERQueue.ERPriorityQueue.RemoveUrgentPatients: the sorted order, and the statement that every remaining entry is above t, are promised only for a queue that starts in heap order. In any other queue the loop only looks at the root.
