/** The indexed binary min-heap of named patients (`ERPriorityQueue`). */
module ERQueue {
  import opened Patients
  import opened HeapShape
  import opened Optional

  /** The order in which removed patients are returned: non-decreasing
      priority. */
  ghost predicate SortedByPriority(rs: seq<Patient>) {
    forall a, b :: 0 <= a < b < |rs| ==> LessEq(rs[a].priority, rs[b].priority)
  }

  /** Every patient of `rs` is no more urgent than every entry left in `m`. */
  ghost predicate AllAtMost(rs: seq<Patient>, m: map<string, Prio>) {
    forall k, n :: 0 <= k < |rs| && n in m ==> LessEq(rs[k].priority, m[n])
  }

  ghost predicate DistinctNames(rs: seq<Patient>) {
    forall a, b :: 0 <= a < b < |rs| ==> rs[a].name != rs[b].name
  }

  /** The removed patients as name/priority entries (later ones win). */
  ghost function EntryMap(rs: seq<Patient>): map<string, Prio> {
    if rs == [] then map[] else EntryMap(rs[..|rs| - 1])[rs[|rs| - 1].name := rs[|rs| - 1].priority]
  }

  /** The keys of `EntryMap(rs)` are exactly the names in `rs`. */
  lemma {:induction false} EntryMapKeys(rs: seq<Patient>)
    ensures EntryMap(rs).Keys == set k | 0 <= k < |rs| :: rs[k].name
  {
    if rs != [] {
      var init := rs[..|rs| - 1];
      EntryMapKeys(init);
      assert forall k :: 0 <= k < |init| ==> init[k] == rs[k];
    }
  }

  /** The original contents `orig` are split between what is left in the
      queue (`rest`) and the removed patients `rs`, each name exactly once. */
  ghost predicate Partitioned(orig: map<string, Prio>, rest: map<string, Prio>, rs: seq<Patient>) {
    && orig == rest + EntryMap(rs)
    && rest.Keys !! EntryMap(rs).Keys
    && DistinctNames(rs)
  }

  /** Moving one entry of the queue onto the end of the removed list keeps
      the partition of the original contents. */
  lemma MoveToRemoved(orig: map<string, Prio>, c: map<string, Prio>, rs: seq<Patient>, e: Patient)
    requires Partitioned(orig, c, rs)
    requires e.name in c && c[e.name] == e.priority
    ensures Partitioned(orig, c - {e.name}, rs + [e])
  {
    assert (rs + [e])[..|rs|] == rs;
    assert EntryMap(rs + [e]) == EntryMap(rs)[e.name := e.priority];
    EntryMapKeys(rs);
    forall k | 0 <= k < |rs|
      ensures rs[k].name != e.name
    {
      assert rs[k].name in EntryMap(rs).Keys;
    }
    assert (c - {e.name}) + EntryMap(rs + [e]) == c + EntryMap(rs);
  }

  /** Removing the least entry keeps the removed list sorted and no larger
      than what is left. */
  lemma TakeMinimum(c: map<string, Prio>, rs: seq<Patient>, e: Patient)
    requires SortedByPriority(rs) && AllAtMost(rs, c)
    requires IsMinEntry(c, e.name) && c[e.name] == e.priority
    ensures SortedByPriority(rs + [e]) && AllAtMost(rs + [e], c - {e.name})
  {
  }

  class ERPriorityQueue {
    /** Slot 0 holds the sentinel; slots 1.. hold the heap. */
    var patients: seq<Patient>
    var nameToIndex: map<string, int>

    /** Index consistency (which makes names unique). Heap order is kept
        apart, because `Remove` does not always preserve it. */
    ghost predicate Valid()
      reads this
    {
      IndexConsistent(patients, nameToIndex)
    }

    ghost function Contents(): map<string, Prio>
      reads this
      requires Valid()
    {
      Entries(patients, nameToIndex)
    }

    constructor ()
      ensures Valid() && Contents() == map[] && HeapOrdered(patients)
      ensures patients == [Dummy]
    {
      patients := [Dummy];
      nameToIndex := map[];
    }

    // -------------------------------------------------------------------
    // Slot queries
    // -------------------------------------------------------------------

    /** A slot with a left child is itself populated; a heap slot has one
        exactly when some slot has it as its parent. */
    function HasLeft(i: nat): (b: bool)
      reads this
      ensures b ==> i < |patients|
      ensures 1 <= i ==> (b <==> exists j :: 1 <= j < |patients| && Parent(j) == i)
    {
      assert LeftChild(i) < |patients| ==> Parent(LeftChild(i)) == i;
      LeftChild(i) < |patients|
    }

    /** A slot with a right child also has a left child, so a heap slot has
        one exactly when two distinct slots have it as their parent. */
    function HasRight(i: nat): (b: bool)
      reads this
      ensures b ==> HasLeft(i)
      ensures 1 <= i ==> (b <==> exists j, k :: 1 <= j < k < |patients| && Parent(j) == i && Parent(k) == i)
    {
      assert RightChild(i) < |patients| ==> Parent(LeftChild(i)) == i && Parent(RightChild(i)) == i;
      RightChild(i) < |patients|
    }

    /** A leaf is a slot that is nobody's parent. */
    function IsLeaf(i: nat): (b: bool)
      reads this
      requires 1 <= i
      ensures b <==> forall j :: 1 <= j < |patients| ==> Parent(j) != i
    {
      assert HasLeft(i) ==> Parent(LeftChild(i)) == i;
      !HasLeft(i) && !HasRight(i)
    }

    function IsEmpty(): (empty: bool)
      reads this
      requires Valid()
      ensures empty <==> Contents() == map[]
    {
      EmptyIff(patients, nameToIndex);
      |patients| == 1
    }

    function Contains(name: string): (b: bool)
      reads this
      requires Valid()
      ensures b <==> name in Contents()
      ensures b <==> exists k :: 1 <= k < |patients| && patients[k].name == name
    {
      assert name in nameToIndex ==> patients[nameToIndex[name]].name == name;
      if IsEmpty() then false else name in nameToIndex
    }

    /** The priority of `name`; -1 when the queue is empty (the call on an
        absent name of a non-empty queue throws and is excluded). */
    function GetPriority(name: string): (p: Prio)
      reads this
      requires Valid() && (Contents() == map[] || name in Contents())
      ensures name in Contents() ==> p == Contents()[name]
      ensures Contents() == map[] ==> p == Fin(-1.0)
    {
      assert Contents().Keys == nameToIndex.Keys;
      if |nameToIndex| == 0 then Fin(-1.0) else patients[nameToIndex[name]].priority
    }

    /** The root's priority, which in a heap is the least; -1 when empty. */
    function GetMinPriority(): (p: Prio)
      reads this
      requires Valid()
      ensures Contents() == map[] ==> p == Fin(-1.0)
      ensures Contents() != map[] ==> exists n :: n in Contents() && Contents()[n] == p
      ensures Contents() != map[] && HeapOrdered(patients) ==>
                forall n :: n in Contents() ==> LessEq(p, Contents()[n])
    {
      if IsEmpty() then Fin(-1.0)
      else
        EntriesAt(patients, nameToIndex, 1);
        MinAtRoot(patients, nameToIndex);
        patients[1].priority
    }

    /** The root's name, which in a heap has the least priority; `None` for
        Java's null when empty. */
    function PeekMin(): (r: Option<string>)
      reads this
      requires Valid()
      ensures r.None? <==> Contents() == map[]
      ensures r.Some? ==> r.value in Contents()
      ensures r.Some? && HeapOrdered(patients) ==> IsMinEntry(Contents(), r.value)
    {
      if IsEmpty() then None
      else
        EntriesAt(patients, nameToIndex, 1);
        MinAtRoot(patients, nameToIndex);
        Some(patients[1].name)
    }

    /** Linear scan for the first slot holding `name`; -1 when there is none. */
    method GetIndex(name: string) returns (index: int)
      ensures index == -1 <==> forall k :: 1 <= k < |patients| ==> patients[k].name != name
      ensures index != -1 ==> 1 <= index < |patients| && patients[index].name == name
      ensures index != -1 ==> forall k :: 1 <= k < index ==> patients[k].name != name
      ensures Valid() ==> index == if name in nameToIndex then nameToIndex[name] else -1
    {
      var i := 1;
      while i < |patients|
        invariant 1 <= i
        invariant forall k :: 1 <= k < i && k < |patients| ==> patients[k].name != name
      {
        if patients[i].name == name {
          assert Valid() ==> nameToIndex[patients[i].name] == i;
          return i;
        }
        i := i + 1;
      }
      assert Valid() ==> name !in nameToIndex;
      return -1;
    }

    /** Checks every parent against each of its children. */
    method LegalHeap() returns (legal: bool)
      ensures legal <==> HeapOrdered(patients)
    {
      var i := 1;
      while i <= (|patients| - 1) / 2
        invariant 1 <= i
        invariant forall j :: 2 <= j < |patients| && Parent(j) < i ==>
                    LessEq(patients[Parent(j)].priority, patients[j].priority)
      {
        if Less(patients[i * 2].priority, patients[i].priority) {
          assert Parent(i * 2) == i;
          return false;
        }
        if |patients| - 1 >= i * 2 + 1 && Less(patients[i * 2 + 1].priority, patients[i].priority) {
          assert Parent(i * 2 + 1) == i;
          return false;
        }
        forall j | 2 <= j < |patients| && Parent(j) == i
          ensures LessEq(patients[Parent(j)].priority, patients[j].priority)
        {
          ChildrenOf(j, i);
        }
        i := i + 1;
      }
      return true;
    }

    // -------------------------------------------------------------------
    // Restructuring primitives
    // -------------------------------------------------------------------

    /** Exchanges slots `i` and `j` and the two names' recorded positions. */
    method Swap(i: nat, j: nat)
      requires Valid() && 1 <= i < |patients| && 1 <= j < |patients|
      modifies this
      ensures Valid() && Contents() == old(Contents())
      ensures patients == Swapped(old(patients), i, j)
      ensures nameToIndex == old(nameToIndex)[old(patients[i].name) := j][old(patients[j].name) := i]
    {
      SwapKeepsIndex(patients, nameToIndex, i, j);
      var name1 := patients[i].name;
      var name2 := patients[j].name;
      var temp := nameToIndex[name1];
      nameToIndex := nameToIndex[name1 := nameToIndex[name2]];
      nameToIndex := nameToIndex[name2 := temp];
      var tmp := patients[i];
      patients := patients[i := patients[j]];
      patients := patients[j := tmp];
    }

    /** Sift-up from slot `i`: swaps with the parent while strictly smaller. */
    method UpHeap(i: nat)
      requires Valid() && (i <= 1 || i < |patients|)
      modifies this
      ensures Valid() && |patients| == old(|patients|) && Contents() == old(Contents())
      ensures old(UpReady(patients, i)) ==> HeapOrdered(patients)
      ensures 1 <= i < |patients| ==>
                old(patients[i].name) in nameToIndex && nameToIndex[old(patients[i].name)] <= i
      ensures i <= 1 || !Less(old(patients[i].priority), old(patients[Parent(i)].priority)) ==>
                patients == old(patients) && nameToIndex == old(nameToIndex)
    {
      ghost var ready := UpReady(patients, i);
      var j: nat := i;
      while j > 1 && CompareTo(patients[j], patients[Parent(j)]) < 0
        invariant Valid() && |patients| == old(|patients|) && Contents() == old(Contents())
        invariant j <= i && (j <= 1 || j < |patients|) && (1 <= i ==> 1 <= j)
        invariant 1 <= i < |patients| ==> patients[j] == old(patients[i])
        invariant ready ==> UpReady(patients, j)
        invariant j == i ==> patients == old(patients) && nameToIndex == old(nameToIndex)
        invariant i <= 1 || !Less(old(patients[i].priority), old(patients[Parent(i)].priority)) ==> j == i
        decreases j
      {
        if ready {
          UpStep(patients, j);
        }
        Swap(j, Parent(j));
        j := Parent(j);
      }
      if ready {
        UpDone(patients, j);
      }
    }

    /** Sift-down from slot `i`: swaps with the smaller child (the right one
        only when strictly smaller) while that child is strictly smaller. */
    method DownHeap(i: nat)
      requires Valid() && 1 <= i
      modifies this
      ensures Valid() && |patients| == old(|patients|) && Contents() == old(Contents())
      ensures old(DownReady(patients, i)) ==> HeapOrdered(patients)
      ensures i < |patients| ==>
                old(patients[i].name) in nameToIndex && nameToIndex[old(patients[i].name)] >= i
      ensures old(DownSettled(patients, i)) ==> patients == old(patients) && nameToIndex == old(nameToIndex)
    {
      ghost var ready := DownReady(patients, i);
      ghost var settled := DownSettled(patients, i);
      if IsLeaf(i) {
        if ready {
          DownDone(patients, i);
        }
        return;
      }
      var j := i;
      while HasLeft(j)
        invariant Valid() && |patients| == old(|patients|) && Contents() == old(Contents())
        invariant i <= j < |patients| && patients[j] == old(patients[i])
        invariant ready ==> DownReady(patients, j)
        invariant settled ==> j == i && patients == old(patients) && nameToIndex == old(nameToIndex)
        decreases |patients| - j
      {
        var child := LeftChild(j);
        if child < |patients| - 1 {
          if HasRight(j) && Less(patients[RightChild(j)].priority, patients[LeftChild(j)].priority) {
            child := child + 1;
          }
        }
        SmallerChild(patients, j, child);
        if Less(patients[child].priority, patients[j].priority) {
          if ready {
            DownStep(patients, j, child);
          }
          Swap(j, child);
          j := child;
        } else {
          if ready {
            DownDone(patients, j);
          }
          return;
        }
      }
      if ready {
        DownDone(patients, j);
      }
    }

    // -------------------------------------------------------------------
    // Public mutators
    // -------------------------------------------------------------------

    /** `add(name, priority)`: refuses a name already present; otherwise
        appends the patient and sifts it up. */
    method Add(name: string, priority: Prio) returns (added: bool)
      requires Valid()
      modifies this
      ensures Valid()
      ensures added <==> name !in old(Contents())
      ensures added ==> Contents() == old(Contents())[name := priority]
      ensures added ==> |patients| == old(|patients|) + 1
      ensures !added ==> patients == old(patients) && nameToIndex == old(nameToIndex)
      ensures old(HeapOrdered(patients)) ==> HeapOrdered(patients)
      ensures added && (old(|patients|) == 1 ||
                        !Less(priority, old(patients)[Parent(old(|patients|))].priority)) ==>
                patients == old(patients) + [Patient(name, priority)]
    {
      if Contains(name) {
        return false;
      }
      ghost var heap := HeapOrdered(patients);
      if heap {
        AppendUpReady(patients, Patient(name, priority));
      }
      AppendKeepsIndex(patients, nameToIndex, Patient(name, priority));
      ghost var size := |patients|;
      patients := patients + [Patient(name, priority)];
      var lastIndex := |patients| - 1;
      assert lastIndex == size;
      nameToIndex := nameToIndex[name := lastIndex];
      UpHeap(lastIndex);
      return true;
    }

    /** `add(name)`: appends with priority +infinity and, as the Java
        code does, without sifting; heap order survives because +infinity is the
        maximum. */
    method AddDefault(name: string) returns (added: bool)
      requires Valid()
      modifies this
      ensures Valid()
      ensures added <==> name !in old(Contents())
      ensures added ==> Contents() == old(Contents())[name := Inf]
      ensures added ==> patients == old(patients) + [Patient(name, Inf)]
      ensures !added ==> patients == old(patients) && nameToIndex == old(nameToIndex)
      ensures old(HeapOrdered(patients)) ==> HeapOrdered(patients)
    {
      if Contains(name) {
        return false;
      }
      if HeapOrdered(patients) {
        AppendInfKeepsOrder(patients, Patient(name, Inf));
      }
      AppendKeepsIndex(patients, nameToIndex, Patient(name, Inf));
      ghost var size := |patients|;
      patients := patients + [Patient(name, Inf)];
      assert |patients| - 1 == size;
      nameToIndex := nameToIndex[name := |patients| - 1];
      return true;
    }

    /** The step `remove` and `removeMin` share: swap slot `i` with the last
        slot, drop the last slot, and erase the removed name from the index. */
    method SwapOutLast(i: nat)
      requires Valid() && 1 <= i < |patients|
      modifies this
      ensures patients == MoveLastInto(old(patients), i)
      ensures nameToIndex == DropIndex(old(patients), old(nameToIndex), i)
    {
      var name := patients[i].name;
      Swap(i, |patients| - 1);
      patients := patients[..|patients| - 1];
      nameToIndex := nameToIndex - {name};
    }

    /** `remove(name)`: moves the last patient into the removed slot and
        sifts it DOWN only. Heap order is therefore promised only under
        `RemovalKeepsOrder`. */
    method Remove(name: string) returns (removed: bool)
      requires Valid()
      modifies this
      ensures Valid()
      ensures removed <==> name in old(Contents())
      ensures Contents() == old(Contents()) - {name}
      ensures !removed ==> patients == old(patients) && nameToIndex == old(nameToIndex)
      ensures removed ==> |patients| == old(|patients|) - 1
      ensures removed && old(HeapOrdered(patients) && RemovalKeepsOrder(patients, nameToIndex[name])) ==>
                HeapOrdered(patients)
      ensures removed && old(DownSettled(MoveLastInto(patients, nameToIndex[name]), nameToIndex[name])) ==>
                patients == old(MoveLastInto(patients, nameToIndex[name]))
    {
      if !Contains(name) {
        return false;
      }
      ghost var i0 := nameToIndex[name];
      if HeapOrdered(patients) && RemovalKeepsOrder(patients, i0) {
        RemovalDownReady(patients, i0);
      }
      if |patients| == 2 {
        DropLastKeepsIndex(patients, nameToIndex);
        assert MoveLastInto(patients, 1) == patients[..1];
        patients := patients[..1];
        nameToIndex := nameToIndex - {name};
        return true;
      }
      var i := GetIndex(name);
      MoveLastKeepsIndex(patients, nameToIndex, i);
      SwapOutLast(i);
      DownHeap(i);
      return true;
    }

    /** `removeMin()`: takes the root out; `None` (Java's null) when empty. */
    method RemoveMin() returns (min: Option<string>)
      requires Valid()
      modifies this
      ensures Valid()
      ensures min.None? <==> old(Contents()) == map[]
      ensures min.None? ==> patients == old(patients) && nameToIndex == old(nameToIndex)
      ensures min.Some? ==> 2 <= old(|patients|) && min.value == old(patients[1].name)
      ensures min.Some? ==> min.value in old(Contents()) && Contents() == old(Contents()) - {min.value}
      ensures min.Some? ==> |patients| == old(|patients|) - 1
      ensures min.Some? && old(HeapOrdered(patients)) ==>
                IsMinEntry(old(Contents()), min.value) && HeapOrdered(patients)
    {
      if IsEmpty() {
        return None;
      }
      var removed := patients[1];
      EntriesAt(patients, nameToIndex, 1);
      MinAtRoot(patients, nameToIndex);
      if HeapOrdered(patients) {
        RemovalDownReady(patients, 1);
      }
      if |patients| == 2 {
        DropLastKeepsIndex(patients, nameToIndex);
        patients := patients[..|patients| - 1];
        nameToIndex := nameToIndex - {removed.name};
        return Some(removed.name);
      }
      MoveLastKeepsIndex(patients, nameToIndex, 1);
      SwapOutLast(1);
      DownHeap(1);
      return Some(removed.name);
    }

    /** `changePriority(name, p)`: false when absent; no change when `p` is
        the current priority; otherwise sets it and sifts up on a decrease,
        down on an increase. */
    method ChangePriority(name: string, newPriority: Prio) returns (found: bool)
      requires Valid()
      modifies this
      ensures Valid() && |patients| == old(|patients|)
      ensures found <==> name in old(Contents())
      ensures found ==> Contents() == old(Contents())[name := newPriority]
      ensures !found || old(Contents()[name]) == newPriority ==>
                patients == old(patients) && nameToIndex == old(nameToIndex)
      ensures old(HeapOrdered(patients)) ==> HeapOrdered(patients)
      ensures found && Less(newPriority, old(Contents()[name])) ==>
                name in nameToIndex && nameToIndex[name] <= old(nameToIndex[name])
      ensures found && Less(old(Contents()[name]), newPriority) ==>
                name in nameToIndex && nameToIndex[name] >= old(nameToIndex[name])
    {
      if !Contains(name) {
        return false;
      }
      var i := nameToIndex[name];
      var current := patients[i];
      var oldPriority := current.priority;
      if oldPriority == newPriority {
        return true;
      }
      ghost var heap := HeapOrdered(patients);
      SetPriorityKeepsIndex(patients, nameToIndex, i, newPriority);
      if heap && Less(newPriority, oldPriority) {
        DecreaseUpReady(patients, i, newPriority);
      }
      if heap && !Less(newPriority, oldPriority) {
        OrderFacts(newPriority, oldPriority, newPriority);
        IncreaseDownReady(patients, i, newPriority);
      }
      patients := patients[i := Patient(current.name, newPriority)];
      if Less(newPriority, oldPriority) {
        UpHeap(i);
      } else {
        DownHeap(i);
      }
      return true;
    }

    /** `remove(name)` followed by the redundant `nameToIndex.remove(name)`,
        as both bulk loops do it; the second step changes nothing. */
    method RemoveAndUnmap(name: string)
      requires Valid() && name in Contents()
      modifies this
      ensures Valid()
      ensures Contents() == old(Contents()) - {name}
      ensures |patients| == old(|patients|) - 1
      ensures old(2 <= |patients| && HeapOrdered(patients) && patients[1].name == name) ==>
                HeapOrdered(patients)
    {
      assert 2 <= |patients| && patients[1].name == name ==> nameToIndex[name] == 1;
      var ok := Remove(name);
      assert name !in nameToIndex;
      assert nameToIndex - {name} == nameToIndex;
      nameToIndex := nameToIndex - {name};
    }

    // -------------------------------------------------------------------
    // Threshold bulk removal
    // -------------------------------------------------------------------

    /** `removeUrgentPatients(t)`: removes the root while its priority is at
        most `t`. In a heap this returns exactly the entries at most `t`,
        in non-decreasing priority. */
    method RemoveUrgentPatients(threshold: Prio) returns (removed: seq<Patient>)
      requires Valid()
      modifies this
      ensures Valid()
      ensures Partitioned(old(Contents()), Contents(), removed)
      ensures forall k :: 0 <= k < |removed| ==> LessEq(removed[k].priority, threshold)
      ensures IsEmpty() || Less(threshold, patients[1].priority)
      ensures old(HeapOrdered(patients)) ==> HeapOrdered(patients) && SortedByPriority(removed)
      ensures old(HeapOrdered(patients)) ==> forall n :: n in Contents() ==> Less(threshold, Contents()[n])
    {
      ghost var heap := HeapOrdered(patients);
      ghost var orig := Contents();
      removed := [];
      while !IsEmpty()
        invariant Valid()
        invariant Partitioned(orig, Contents(), removed)
        invariant forall k :: 0 <= k < |removed| ==> LessEq(removed[k].priority, threshold)
        invariant heap ==> HeapOrdered(patients) && SortedByPriority(removed) && AllAtMost(removed, Contents())
        decreases |patients|
      {
        var i := 1;
        var current := patients[i];
        if LessEq(current.priority, threshold) {
          ghost var before := Contents();
          EntriesAt(patients, nameToIndex, 1);
          MoveToRemoved(orig, before, removed, current);
          if heap {
            MinAtRoot(patients, nameToIndex);
            TakeMinimum(before, removed, current);
          }
          removed := removed + [current];
          RemoveAndUnmap(current.name);
        }
        if Less(threshold, current.priority) {
          break;
        }
      }
      if heap && !IsEmpty() {
        EntriesAt(patients, nameToIndex, 1);
        MinAtRoot(patients, nameToIndex);
        forall n | n in Contents()
          ensures Less(threshold, Contents()[n])
        {
          OrderFacts(threshold, patients[1].priority, Contents()[n]);
        }
      }
    }

    /** `removeNonUrgentPatients(t)`: scans from slot 1, removes the first
        patient whose priority is at least `t`, and restarts the scan. */
    method RemoveNonUrgentPatients(threshold: Prio) returns (removed: seq<Patient>)
      requires Valid()
      modifies this
      ensures Valid()
      ensures Partitioned(old(Contents()), Contents(), removed)
      ensures forall k :: 0 <= k < |removed| ==> LessEq(threshold, removed[k].priority)
      ensures forall n :: n in Contents() ==> Less(Contents()[n], threshold)
    {
      ghost var orig := Contents();
      removed := [];
      var i := 1;
      while !IsEmpty() || i < |patients|
        invariant Valid()
        invariant 1 <= i <= |patients|
        invariant forall k :: 1 <= k < i ==> Less(patients[k].priority, threshold)
        invariant Partitioned(orig, Contents(), removed)
        invariant forall k :: 0 <= k < |removed| ==> LessEq(threshold, removed[k].priority)
        decreases |patients|, |patients| - i
      {
        if i == |patients| {
          break;
        }
        var current := patients[i];
        if LessEq(threshold, current.priority) {
          ghost var before := Contents();
          EntriesAt(patients, nameToIndex, i);
          MoveToRemoved(orig, before, removed, current);
          removed := removed + [current];
          RemoveAndUnmap(current.name);
          i := 0;
        } else {
          OrderFacts(threshold, current.priority, threshold);
          assert Less(patients[i].priority, threshold);
        }
        i := i + 1;
      }
      forall n | n in Contents()
        ensures Less(Contents()[n], threshold)
      {
        assert patients[nameToIndex[n]].name == n;
      }
    }
  }
}
