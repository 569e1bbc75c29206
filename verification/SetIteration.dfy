/** Loops that visit every element of a set once, in whatever order the set yields them. */
module SetIteration {

  /** `all` is split into what the loop has done and what it still has to do. */
  predicate Split<T(==)>(all: set<T>, done: set<T>, todo: set<T>) {
    && (forall n :: n in all ==> n in done || n in todo)
    && (forall n :: n in done ==> n in all && n !in todo)
    && (forall n :: n in todo ==> n in all && n !in done)
  }

  lemma TakeOne<T>(all: set<T>, done: set<T>, todo: set<T>, name: T)
    requires Split(all, done, todo) && name in todo
    ensures Split(all, done + {name}, todo - {name}) && name !in done && name in all
  {}

  lemma AllDone<T>(all: set<T>, done: set<T>)
    requires Split(all, done, {})
    ensures done == all
  {}
}
