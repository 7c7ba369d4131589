/** Index arithmetic of the 1-based binary heap and the invariants that tie
    the slot sequence to the name index, stated on values so that the
    queue's methods can discharge them one step at a time. */
module HeapShape {
  import opened Patients

  // ---------------------------------------------------------------------
  // Index arithmetic (`parent`, `leftChild`, `rightChild`)
  // ---------------------------------------------------------------------

  function Parent(i: nat): (p: nat)
    ensures 2 <= i ==> 1 <= p < i
    ensures i == 2 * p || i == 2 * p + 1
  {
    i / 2
  }

  function LeftChild(i: nat): (c: nat)
    ensures Parent(c) == i
  {
    2 * i
  }

  function RightChild(i: nat): (c: nat)
    ensures Parent(c) == i && c == LeftChild(i) + 1
  {
    2 * i + 1
  }

  /** The only slots whose parent is `k` are its two children. */
  lemma ChildrenOf(j: nat, k: nat)
    requires Parent(j) == k
    ensures j == LeftChild(k) || j == RightChild(k)
  {
  }

  // ---------------------------------------------------------------------
  // Index consistency and the abstract contents
  // ---------------------------------------------------------------------

  /** Slot 0 holds the sentinel; every populated slot's name maps to that
      slot; every key of the index names the slot it maps to. Together these
      also make names unique across slots. */
  ghost predicate IndexConsistent(ps: seq<Patient>, idx: map<string, int>) {
    && 1 <= |ps| && ps[0] == Dummy
    && (forall k :: 1 <= k < |ps| ==> ps[k].name in idx && idx[ps[k].name] == k)
    && (forall n :: n in idx ==> 1 <= idx[n] < |ps| && ps[idx[n]].name == n)
  }

  /** What the queue holds: each name with its priority. */
  ghost function Entries(ps: seq<Patient>, idx: map<string, int>): map<string, Prio>
    requires IndexConsistent(ps, idx)
  {
    map n | n in idx :: ps[idx[n]].priority
  }

  lemma {:induction false} NamesUnique(ps: seq<Patient>, idx: map<string, int>, a: nat, b: nat)
    requires IndexConsistent(ps, idx)
    requires 1 <= a < |ps| && 1 <= b < |ps| && ps[a].name == ps[b].name
    ensures a == b
  {
    assert idx[ps[a].name] == a;
  }

  /** The queue is empty exactly when only the sentinel slot is left. */
  lemma EmptyIff(ps: seq<Patient>, idx: map<string, int>)
    requires IndexConsistent(ps, idx)
    ensures |ps| == 1 <==> Entries(ps, idx) == map[]
  {
    if |ps| == 1 {
      assert forall n :: n !in idx;
    } else {
      assert ps[1].name in Entries(ps, idx);
    }
  }

  /** Every entry's priority is the priority stored in its slot. */
  lemma EntriesAt(ps: seq<Patient>, idx: map<string, int>, k: nat)
    requires IndexConsistent(ps, idx) && 1 <= k < |ps|
    ensures ps[k].name in Entries(ps, idx) && Entries(ps, idx)[ps[k].name] == ps[k].priority
  {
  }

  function Swapped(ps: seq<Patient>, i: nat, j: nat): (r: seq<Patient>)
    requires i < |ps| && j < |ps|
    ensures |r| == |ps| && r[i] == ps[j] && r[j] == ps[i]
    ensures forall k :: 0 <= k < |ps| && k != i && k != j ==> r[k] == ps[k]
  {
    ps[i := ps[j]][j := ps[i]]
  }

  /** Exchanging two slots and the two names' positions keeps the index
      consistent and the contents unchanged. */
  lemma SwapKeepsIndex(ps: seq<Patient>, idx: map<string, int>, i: nat, j: nat)
    requires IndexConsistent(ps, idx) && 1 <= i < |ps| && 1 <= j < |ps|
    ensures IndexConsistent(Swapped(ps, i, j), idx[ps[i].name := j][ps[j].name := i])
    ensures Entries(Swapped(ps, i, j), idx[ps[i].name := j][ps[j].name := i]) == Entries(ps, idx)
  {
    var ps', idx' := Swapped(ps, i, j), idx[ps[i].name := j][ps[j].name := i];
    forall k | 1 <= k < |ps'|
      ensures ps'[k].name in idx' && idx'[ps'[k].name] == k
    {
      if k != i && k != j {
        assert idx[ps[k].name] == k;
      }
    }
    assert IndexConsistent(ps', idx');
    forall n | n in idx'
      ensures ps'[idx'[n]].priority == ps[idx[n]].priority
    {
    }
  }

  /** Appending a patient under a fresh name at the end registers it. */
  lemma AppendKeepsIndex(ps: seq<Patient>, idx: map<string, int>, e: Patient)
    requires IndexConsistent(ps, idx) && e.name !in idx
    ensures IndexConsistent(ps + [e], idx[e.name := |ps|])
    ensures Entries(ps + [e], idx[e.name := |ps|]) == Entries(ps, idx)[e.name := e.priority]
  {
    var ps', idx' := ps + [e], idx[e.name := |ps|];
    forall k | 1 <= k < |ps'|
      ensures ps'[k].name in idx' && idx'[ps'[k].name] == k
    {
      if k < |ps| {
        assert ps'[k] == ps[k];
      }
    }
  }

  /** Dropping the last slot and its name from the index removes exactly
      that entry. */
  lemma DropLastKeepsIndex(ps: seq<Patient>, idx: map<string, int>)
    requires IndexConsistent(ps, idx) && 2 <= |ps|
    ensures IndexConsistent(ps[..|ps| - 1], idx - {ps[|ps| - 1].name})
    ensures Entries(ps[..|ps| - 1], idx - {ps[|ps| - 1].name})
         == Entries(ps, idx) - {ps[|ps| - 1].name}
  {
    var last := |ps| - 1;
    var ps', idx' := ps[..last], idx - {ps[last].name};
    forall k | 1 <= k < |ps'|
      ensures ps'[k].name in idx' && idx'[ps'[k].name] == k
    {
      assert idx[ps[k].name] == k;
    }
    forall n | n in idx'
      ensures 1 <= idx'[n] < |ps'| && ps'[idx'[n]].name == n
    {
      assert idx[n] != last;
    }
  }

  /** Setting a slot's priority changes only that name's entry. */
  lemma SetPriorityKeepsIndex(ps: seq<Patient>, idx: map<string, int>, i: nat, p: Prio)
    requires IndexConsistent(ps, idx) && 1 <= i < |ps|
    ensures IndexConsistent(ps[i := Patient(ps[i].name, p)], idx)
    ensures Entries(ps[i := Patient(ps[i].name, p)], idx) == Entries(ps, idx)[ps[i].name := p]
  {
    var ps' := ps[i := Patient(ps[i].name, p)];
    forall n | n in idx
      ensures ps'[idx[n]].priority == (if n == ps[i].name then p else ps[idx[n]].priority)
    {
    }
  }

  // ---------------------------------------------------------------------
  // Heap order
  // ---------------------------------------------------------------------

  /** Heap order: no slot has a strictly smaller priority than its parent. */
  ghost predicate HeapOrdered(ps: seq<Patient>) {
    forall j :: 2 <= j < |ps| ==> LessEq(ps[Parent(j)].priority, ps[j].priority)
  }

  /** `name` has the least priority of `m`. */
  ghost predicate IsMinEntry(m: map<string, Prio>, name: string) {
    name in m && forall n :: n in m ==> LessEq(m[name], m[n])
  }

  /** Order holds except possibly between slot `k` and its parent, and `k`'s
      children are no smaller than `k`'s parent: the state sift-up repairs. */
  ghost predicate UpReady(ps: seq<Patient>, k: nat) {
    && (forall j :: 2 <= j < |ps| && j != k ==> LessEq(ps[Parent(j)].priority, ps[j].priority))
    && (2 <= k ==> forall j :: 2 <= j < |ps| && Parent(j) == k ==>
                      LessEq(ps[Parent(k)].priority, ps[j].priority))
  }

  /** Order holds except possibly between slot `k` and its children, and `k`'s
      children are no smaller than `k`'s parent: the state sift-down repairs. */
  ghost predicate DownReady(ps: seq<Patient>, k: nat) {
    && 1 <= k
    && (forall j :: 2 <= j < |ps| && Parent(j) != k ==> LessEq(ps[Parent(j)].priority, ps[j].priority))
    && (2 <= k ==> forall j :: 2 <= j < |ps| && Parent(j) == k ==>
                      LessEq(ps[Parent(k)].priority, ps[j].priority))
  }

  /** No child of slot `k` is strictly smaller than it, so sift-down at `k`
      does nothing. */
  ghost predicate DownSettled(ps: seq<Patient>, k: nat) {
    forall j :: 2 <= j < |ps| && Parent(j) == k ==> !Less(ps[j].priority, ps[k].priority)
  }

  /** The shape `remove` leaves before sifting: the last patient moved into
      slot `i` and the last slot dropped. */
  ghost function MoveLastInto(ps: seq<Patient>, i: nat): (r: seq<Patient>)
    requires 1 <= i < |ps|
    ensures |r| == |ps| - 1
  {
    Swapped(ps, i, |ps| - 1)[..|ps| - 1]
  }

  /** The conditions under which the Java code's `remove` keeps heap order even
      though it only sifts down: the removed slot is the root or the last
      slot, or the relocated patient is no smaller than its new parent. */
  ghost predicate RemovalKeepsOrder(ps: seq<Patient>, i: nat) {
    && 1 <= i < |ps|
    && (i == 1 || i == |ps| - 1 || LessEq(ps[Parent(i)].priority, ps[|ps| - 1].priority))
  }

  /** In a heap, the root is no larger than any slot. */
  lemma {:induction false} RootLeq(ps: seq<Patient>, j: nat)
    requires HeapOrdered(ps) && 1 <= j < |ps|
    ensures LessEq(ps[1].priority, ps[j].priority)
    decreases j
  {
    if j > 1 {
      RootLeq(ps, Parent(j));
      OrderFacts(ps[1].priority, ps[Parent(j)].priority, ps[j].priority);
    }
  }

  /** In a heap, the patient in slot 1 has the least priority of all. */
  lemma MinAtRoot(ps: seq<Patient>, idx: map<string, int>)
    requires IndexConsistent(ps, idx) && 2 <= |ps|
    ensures HeapOrdered(ps) ==> IsMinEntry(Entries(ps, idx), ps[1].name)
  {
    if HeapOrdered(ps) {
      var m := Entries(ps, idx);
      forall n | n in m
        ensures LessEq(m[ps[1].name], m[n])
      {
        RootLeq(ps, idx[n]);
      }
    }
  }

  /** A heap stays a heap with a new last slot of priority +infinity. */
  lemma AppendInfKeepsOrder(ps: seq<Patient>, e: Patient)
    requires HeapOrdered(ps) && e.priority == Inf
    ensures HeapOrdered(ps + [e])
  {
    var ps' := ps + [e];
    forall j | 2 <= j < |ps'|
      ensures LessEq(ps'[Parent(j)].priority, ps'[j].priority)
    {
      if j < |ps| {
        assert ps'[j] == ps[j] && ps'[Parent(j)] == ps[Parent(j)];
      }
    }
  }

  /** A heap with a new last slot is ready for sift-up from that slot. */
  lemma AppendUpReady(ps: seq<Patient>, e: Patient)
    requires HeapOrdered(ps) && 1 <= |ps|
    ensures UpReady(ps + [e], |ps|)
  {
    var ps' := ps + [e];
    forall j | 2 <= j < |ps'| && j != |ps|
      ensures LessEq(ps'[Parent(j)].priority, ps'[j].priority)
    {
      assert ps'[j] == ps[j] && ps'[Parent(j)] == ps[Parent(j)];
    }
    if 2 <= |ps| {
      forall j | 2 <= j < |ps'| && Parent(j) == |ps|
        ensures false
      {
      }
    }
  }

  /** UpReady at the root, or at a slot no smaller than its parent, is heap
      order. */
  lemma UpDone(ps: seq<Patient>, k: nat)
    requires UpReady(ps, k)
    requires k <= 1 || (k < |ps| && LessEq(ps[Parent(k)].priority, ps[k].priority))
    ensures HeapOrdered(ps)
  {
  }

  /** One sift-up step: swapping slot `k` with a strictly larger parent moves
      the possible violation to the parent. */
  lemma UpStep(ps: seq<Patient>, k: nat)
    requires UpReady(ps, k) && 2 <= k < |ps|
    requires Less(ps[k].priority, ps[Parent(k)].priority)
    ensures UpReady(Swapped(ps, k, Parent(k)), Parent(k))
  {
    var p := Parent(k);
    var ps' := Swapped(ps, k, p);
    forall j | 2 <= j < |ps'| && j != p
      ensures LessEq(ps'[Parent(j)].priority, ps'[j].priority)
    {
      if j == k {
      } else if Parent(j) == k {
        // a child of k: its new parent is k's old parent
      } else if Parent(j) == p {
        // k's sibling: its parent got k's smaller priority
        OrderFacts(ps[k].priority, ps[p].priority, ps[j].priority);
      } else {
        assert ps'[j] == ps[j] && ps'[Parent(j)] == ps[Parent(j)];
      }
    }
    if 2 <= p {
      forall j | 2 <= j < |ps'| && Parent(j) == p
        ensures LessEq(ps'[Parent(p)].priority, ps'[j].priority)
      {
        assert ps'[Parent(p)] == ps[Parent(p)];
        if j != k {
          OrderFacts(ps[Parent(p)].priority, ps[p].priority, ps[j].priority);
        }
      }
    }
  }

  /** DownReady at a slot whose children are all no smaller than it is heap
      order. */
  lemma DownDone(ps: seq<Patient>, k: nat)
    requires DownReady(ps, k)
    requires forall j :: 2 <= j < |ps| && Parent(j) == k ==> LessEq(ps[k].priority, ps[j].priority)
    ensures HeapOrdered(ps)
  {
  }

  /** The chosen child `c` of `k` (the right one only when it is strictly
      smaller than the left) is no larger than any child of `k`. */
  lemma SmallerChild(ps: seq<Patient>, k: nat, c: nat)
    requires 1 <= k && LeftChild(k) < |ps|
    requires c == LeftChild(k) || (c == RightChild(k) && c < |ps|)
    requires c == LeftChild(k) && RightChild(k) < |ps| ==>
               !Less(ps[RightChild(k)].priority, ps[LeftChild(k)].priority)
    requires c == RightChild(k) ==> Less(ps[RightChild(k)].priority, ps[LeftChild(k)].priority)
    ensures forall j :: 2 <= j < |ps| && Parent(j) == k ==> LessEq(ps[c].priority, ps[j].priority)
  {
    forall j | 2 <= j < |ps| && Parent(j) == k
      ensures LessEq(ps[c].priority, ps[j].priority)
    {
      ChildrenOf(j, k);
    }
  }

  /** One sift-down step: swapping slot `k` with its smaller, strictly
      smaller child moves the possible violation to that child. */
  lemma DownStep(ps: seq<Patient>, k: nat, c: nat)
    requires DownReady(ps, k) && c < |ps| && Parent(c) == k
    requires forall j :: 2 <= j < |ps| && Parent(j) == k ==> LessEq(ps[c].priority, ps[j].priority)
    requires Less(ps[c].priority, ps[k].priority)
    ensures DownReady(Swapped(ps, k, c), c)
  {
    var ps' := Swapped(ps, k, c);
    forall j | 2 <= j < |ps'| && Parent(j) != c
      ensures LessEq(ps'[Parent(j)].priority, ps'[j].priority)
    {
      if j == c {
      } else if Parent(j) == k {
        // c's sibling
      } else if j == k {
        // k's parent against c's old priority: the bridge of DownReady
      } else {
        assert ps'[j] == ps[j] && ps'[Parent(j)] == ps[Parent(j)];
      }
    }
    forall j | 2 <= j < |ps'| && Parent(j) == c
      ensures LessEq(ps'[Parent(c)].priority, ps'[j].priority)
    {
      assert ps'[j] == ps[j];
    }
  }

  /** Lowering slot `i`'s priority in a heap leaves it ready for sift-up. */
  lemma DecreaseUpReady(ps: seq<Patient>, i: nat, p: Prio)
    requires HeapOrdered(ps) && 1 <= i < |ps| && Less(p, ps[i].priority)
    ensures UpReady(ps[i := Patient(ps[i].name, p)], i)
  {
    var ps' := ps[i := Patient(ps[i].name, p)];
    forall j | 2 <= j < |ps'| && j != i
      ensures LessEq(ps'[Parent(j)].priority, ps'[j].priority)
    {
      if Parent(j) == i {
        OrderFacts(p, ps[i].priority, ps[j].priority);
      }
    }
    if 2 <= i {
      forall j | 2 <= j < |ps'| && Parent(j) == i
        ensures LessEq(ps'[Parent(i)].priority, ps'[j].priority)
      {
        OrderFacts(ps[Parent(i)].priority, ps[i].priority, ps[j].priority);
      }
    }
  }

  /** Raising slot `i`'s priority in a heap leaves it ready for sift-down. */
  lemma IncreaseDownReady(ps: seq<Patient>, i: nat, p: Prio)
    requires HeapOrdered(ps) && 1 <= i < |ps| && Less(ps[i].priority, p)
    ensures DownReady(ps[i := Patient(ps[i].name, p)], i)
  {
    var ps' := ps[i := Patient(ps[i].name, p)];
    forall j | 2 <= j < |ps'| && Parent(j) != i
      ensures LessEq(ps'[Parent(j)].priority, ps'[j].priority)
    {
      if j == i {
        OrderFacts(ps[Parent(i)].priority, ps[i].priority, p);
      }
    }
    if 2 <= i {
      forall j | 2 <= j < |ps'| && Parent(j) == i
        ensures LessEq(ps'[Parent(i)].priority, ps'[j].priority)
      {
        OrderFacts(ps[Parent(i)].priority, ps[i].priority, ps[j].priority);
      }
    }
  }

  /** Moving the last patient into slot `i` of a heap leaves it ready for
      sift-down from `i` when `RemovalKeepsOrder` holds. */
  lemma RemovalDownReady(ps: seq<Patient>, i: nat)
    requires HeapOrdered(ps) && RemovalKeepsOrder(ps, i)
    ensures DownReady(MoveLastInto(ps, i), i)
  {
    var last := |ps| - 1;
    var ps' := MoveLastInto(ps, i);
    assert forall k :: 0 <= k < |ps'| ==> ps'[k] == (if k == i then ps[last] else ps[k]);
    forall j | 2 <= j < |ps'| && Parent(j) != i
      ensures LessEq(ps'[Parent(j)].priority, ps'[j].priority)
    {
      if j == i {
        assert i != 1 && i != last;
      }
    }
    if 2 <= i {
      forall j | 2 <= j < |ps'| && Parent(j) == i
        ensures LessEq(ps'[Parent(i)].priority, ps'[j].priority)
      {
        OrderFacts(ps[Parent(i)].priority, ps[i].priority, ps[j].priority);
      }
    }
  }

  /** The index after slot `i` was swapped with the last slot and the name
      that was in slot `i` was erased. */
  function DropIndex(ps: seq<Patient>, idx: map<string, int>, i: nat): map<string, int>
    requires 1 <= i < |ps|
  {
    idx[ps[i].name := |ps| - 1][ps[|ps| - 1].name := i] - {ps[i].name}
  }

  /** Moving the last patient into slot `i` (and updating the index as the
      swap does) removes exactly the entry that was in slot `i`. */
  lemma MoveLastKeepsIndex(ps: seq<Patient>, idx: map<string, int>, i: nat)
    requires IndexConsistent(ps, idx) && 1 <= i < |ps|
    ensures IndexConsistent(MoveLastInto(ps, i), DropIndex(ps, idx, i))
    ensures Entries(MoveLastInto(ps, i), DropIndex(ps, idx, i)) == Entries(ps, idx) - {ps[i].name}
  {
    var last := |ps| - 1;
    var ps', idx' := MoveLastInto(ps, i), DropIndex(ps, idx, i);
    var gone, moved := ps[i].name, ps[last].name;
    assert forall k :: 0 <= k < |ps'| ==> ps'[k] == (if k == i then ps[last] else ps[k]);
    assert forall n :: n in idx' <==> n in idx && n != gone;
    assert forall n :: n in idx' ==> idx'[n] == if n == moved then i else idx[n];
    forall k | 1 <= k < |ps'|
      ensures ps'[k].name in idx' && idx'[ps'[k].name] == k
    {
      if k != i {
        assert idx[ps[k].name] == k;
      }
    }
    forall n | n in idx'
      ensures 1 <= idx'[n] < |ps'| && ps'[idx'[n]].name == n
    {
      if n != moved {
        assert idx[n] != last;
      }
    }
    assert IndexConsistent(ps', idx');
    forall n | n in idx'
      ensures ps'[idx'[n]].priority == ps[idx[n]].priority
    {
    }
    EntriesWithout(ps, idx, ps', idx', gone);
  }

  /** Two consistent states whose indexes differ only by `gone` and agree on
      every other name's priority hold the same entries but `gone`. */
  lemma EntriesWithout(ps: seq<Patient>, idx: map<string, int>,
                       ps': seq<Patient>, idx': map<string, int>, gone: string)
    requires IndexConsistent(ps, idx) && IndexConsistent(ps', idx')
    requires forall n :: n in idx' <==> n in idx && n != gone
    requires forall n :: n in idx' ==> ps'[idx'[n]].priority == ps[idx[n]].priority
    ensures Entries(ps', idx') == Entries(ps, idx) - {gone}
  {
    var e, e' := Entries(ps, idx), Entries(ps', idx');
    assert e'.Keys == e.Keys - {gone};
  }
}
