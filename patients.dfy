/** Priorities, patients and their comparison (the nested class `Patient`). */
module Patients {

  /** A patient's urgency: a finite score or +infinity, the priority of a
      patient added without one. A lower score is more urgent. */
  datatype Prio = Fin(value: real) | Inf

  /** Strict order on priorities: Java's `<` on doubles that are not NaN. */
  predicate Less(a: Prio, b: Prio) {
    a.Fin? && (b.Inf? || a.value < b.value)
  }

  /** Java's `<=` on doubles that are not NaN. */
  predicate LessEq(a: Prio, b: Prio) {
    b.Inf? || (a.Fin? && a.value <= b.value)
  }

  /** `Less` is a strict total order and `LessEq` is its reflexive closure,
      which is what makes `compareTo` a total order once NaN is excluded. */
  lemma OrderFacts(a: Prio, b: Prio, c: Prio)
    ensures LessEq(a, b) <==> !Less(b, a)
    ensures Less(a, b) || a == b || Less(b, a)
    ensures LessEq(a, b) && LessEq(b, c) ==> LessEq(a, c)
    ensures Less(a, b) && LessEq(b, c) ==> Less(a, c)
    ensures LessEq(a, b) && Less(b, c) ==> Less(a, c)
    ensures LessEq(a, Inf)
  {
  }

  datatype Patient = Patient(name: string, priority: Prio)

  /** The sentinel stored in slot 0 so that the heap is indexed from 1. */
  const Dummy := Patient("dummy", Fin(0.0))

  /** `Patient.compareTo`: the sign says how the two priorities are ordered. */
  function CompareTo(p: Patient, o: Patient): (c: int)
    ensures c == -1 || c == 0 || c == 1
    ensures c < 0 <==> Less(p.priority, o.priority)
    ensures c == 0 <==> p.priority == o.priority
    ensures c > 0 <==> Less(o.priority, p.priority)
  {
    if Less(o.priority, p.priority) then 1
    else if p.priority == o.priority then 0
    else -1
  }
}
