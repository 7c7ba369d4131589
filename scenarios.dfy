/** Concrete runs of the queue that pin down behaviour the contracts allow. */
module Scenarios {
  import opened Patients
  import opened HeapShape
  import opened ERQueue

  /** One `add` of a name not yet in the queue and no smaller than the
      parent of the new slot: it lands in the new last slot. */
  method AddAtEnd(q: ERPriorityQueue, name: string, p: Prio)
    requires q.Valid()
    requires name !in q.Contents()
    requires |q.patients| == 1 || !Less(p, q.patients[Parent(|q.patients|)].priority)
    modifies q
    ensures q.Valid() && |q.patients| == old(|q.patients|) + 1
    ensures q.patients[old(|q.patients|)] == Patient(name, p)
    ensures forall k :: 0 <= k < old(|q.patients|) ==> q.patients[k] == old(q.patients[k])
    ensures q.Contents() == old(q.Contents())[name := p]
  {
    var added := q.Add(name, p);
  }

  /** The first three `add` calls: a:1, b:5, c:2 in slots 1 to 3. */
  method BuildTop() returns (q: ERPriorityQueue)
    ensures fresh(q) && q.Valid() && |q.patients| == 4
    ensures q.patients[1] == Patient("a", Fin(1.0)) && q.patients[2] == Patient("b", Fin(5.0))
    ensures q.patients[3] == Patient("c", Fin(2.0))
    ensures q.Contents() == map["a" := Fin(1.0), "b" := Fin(5.0), "c" := Fin(2.0)]
  {
    q := new ERPriorityQueue();
    AddAtEnd(q, "a", Fin(1.0));
    AddAtEnd(q, "b", Fin(5.0));
    AddAtEnd(q, "c", Fin(2.0));
  }

  /** Builds, by six `add` calls, the heap a:1, b:5, c:2, d:20, e:21, f:3
      (slots 1 to 6): no add sifts, since each new patient is no smaller
      than the parent of its slot. */
  method BuildSample() returns (q: ERPriorityQueue)
    ensures fresh(q) && q.Valid() && |q.patients| == 7
    ensures q.patients[1] == Patient("a", Fin(1.0)) && q.patients[2] == Patient("b", Fin(5.0))
    ensures q.patients[3] == Patient("c", Fin(2.0)) && q.patients[4] == Patient("d", Fin(20.0))
    ensures q.patients[5] == Patient("e", Fin(21.0)) && q.patients[6] == Patient("f", Fin(3.0))
  {
    q := BuildTop();
    AddAtEnd(q, "d", Fin(20.0));
    AddAtEnd(q, "e", Fin(21.0));
    AddAtEnd(q, "f", Fin(3.0));
  }

  /** `remove` sifts the moved patient down only, so it can leave a heap
      that `legalHeap` rejects: removing "d" from slot 4 moves f:3 into
      slot 4, under b:5 in slot 2. */
  method RemoveCanBreakHeapOrder() returns (before: bool, after: bool)
    ensures before && !after
  {
    var q := BuildSample();
    forall j | 2 <= j < |q.patients|
      ensures LessEq(q.patients[Parent(j)].priority, q.patients[j].priority)
    {
      assert j == 2 || j == 3 || j == 4 || j == 5 || j == 6;
    }
    before := q.LegalHeap();
    assert q.nameToIndex["d"] == 4;
    var ok := q.Remove("d");
    assert q.patients[4] == Patient("f", Fin(3.0)) && q.patients[2] == Patient("b", Fin(5.0));
    assert Less(q.patients[4].priority, q.patients[Parent(4)].priority);
    after := q.LegalHeap();
  }

  /** What draining has established: `names` were taken from `orig` in
      non-decreasing priority, once each, none of them is left in `c`, none
      is larger than what is left, and `c` is the rest of `orig`. */
  ghost predicate Drained(orig: map<string, Prio>, c: map<string, Prio>, names: seq<string>) {
    && (forall n :: n in c ==> n in orig && c[n] == orig[n])
    && (forall n :: n in orig ==> n in c || n in names)
    && (forall k :: 0 <= k < |names| ==> names[k] in orig && names[k] !in c)
    && (forall a, b :: 0 <= a < b < |names| ==> names[a] != names[b])
    && (forall a, b :: 0 <= a < b < |names| ==> LessEq(orig[names[a]], orig[names[b]]))
    && (forall k, n :: 0 <= k < |names| && n in c ==> LessEq(orig[names[k]], c[n]))
  }

  /** Taking a least entry `m` out of `c` extends the drained prefix. */
  lemma DrainStep(orig: map<string, Prio>, c: map<string, Prio>, names: seq<string>, m: string)
    requires Drained(orig, c, names) && m in c && IsMinEntry(c, m)
    ensures Drained(orig, c - {m}, names + [m])
  {
    var names' := names + [m];
    forall a, b | 0 <= a < b < |names'|
      ensures LessEq(orig[names'[a]], orig[names'[b]])
    {
      if b == |names| {
        assert orig[names'[b]] == c[m];
      }
    }
    forall k, n | 0 <= k < |names'| && n in c - {m}
      ensures LessEq(orig[names'[k]], (c - {m})[n])
    {
      if k == |names| {
        assert orig[m] == c[m];
      }
    }
  }

  /** Repeated `removeMin` on a heap yields every name once, in
      non-decreasing priority. */
  method DrainByRemoveMin(q: ERPriorityQueue) returns (names: seq<string>)
    requires q.Valid() && HeapOrdered(q.patients)
    modifies q
    ensures q.Valid() && q.Contents() == map[]
    ensures Drained(old(q.Contents()), map[], names)
  {
    ghost var orig := q.Contents();
    names := [];
    while !q.IsEmpty()
      invariant q.Valid() && HeapOrdered(q.patients)
      invariant Drained(orig, q.Contents(), names)
      decreases |q.patients|
    {
      ghost var before := q.Contents();
      var m := q.RemoveMin();
      DrainStep(orig, before, names, m.value);
      names := names + [m.value];
    }
  }

  /** `add` of a fresh name followed by `remove` of it restores the
      contents and the size. */
  method AddThenRemove(q: ERPriorityQueue, name: string, p: Prio)
    requires q.Valid() && name !in q.Contents()
    modifies q
    ensures q.Valid() && q.Contents() == old(q.Contents()) && |q.patients| == old(|q.patients|)
  {
    RemoveUndoesAdd(q.Contents(), name, p);
    var added := q.Add(name, p);
    var removed := q.Remove(name);
  }

  /** Erasing a fresh key right after inserting it gives the map back. */
  lemma RemoveUndoesAdd(c: map<string, Prio>, name: string, p: Prio)
    requires name !in c
    ensures c[name := p] - {name} == c
  {
    assert (c[name := p] - {name}).Keys == c.Keys;
  }
}
