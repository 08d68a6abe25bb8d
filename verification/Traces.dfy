/** What a process did, as a list of events with the latest last, and the discipline such a list may follow. */
module Traces {

  datatype Trace<E> = Nothing | Then(before: Trace<E>, event: E)

  /** `prefix` is what `t` was at some earlier moment, or is `t`. */
  predicate Extends<E(==)>(t: Trace<E>, prefix: Trace<E>) {
    t == prefix || (t.Then? && Extends(t.before, prefix))
  }

  /** Every event is justified by what came before it. */
  ghost predicate Disciplined<E>(t: Trace<E>, justified: (Trace<E>, E) -> bool) {
    t.Then? ==> justified(t.before, t.event) && Disciplined(t.before, justified)
  }

  function Count<E>(t: Trace<E>, p: E -> bool): nat {
    if t.Nothing? then 0 else (if p(t.event) then 1 else 0) + Count(t.before, p)
  }

  /** At every moment of a disciplined trace the latest event was justified. */
  lemma {:induction false} DisciplinedThroughout<E>(
    t: Trace<E>, prefix: Trace<E>, justified: (Trace<E>, E) -> bool)
    requires Disciplined(t, justified) && Extends(t, prefix) && prefix.Then?
    ensures justified(prefix.before, prefix.event)
  {
    if t != prefix { DisciplinedThroughout(t.before, prefix, justified); }
  }

  lemma {:induction false} ExtendsBefore<E>(t: Trace<E>, prefix: Trace<E>)
    requires Extends(t, prefix) && prefix.Then?
    ensures Extends(t, prefix.before)
  {
    if t != prefix { ExtendsBefore(t.before, prefix); }
  }
}
