/**
 * Regrouping facts about sequence concatenation. Stated once over plain
 * variables, they spare the solver from rediscovering associativity for
 * concatenations of large recursive terms.
 */
module SeqFacts {
  lemma AppendNil<T>(a: seq<T>)
    ensures a + [] == a && [] + a == a
  {
  }

  lemma Assoc<T>(a: seq<T>, b: seq<T>, c: seq<T>)
    ensures (a + b) + c == a + (b + c)
  {
  }

  lemma Regroup<T>(a: seq<T>, b: seq<T>, c: seq<T>, d: seq<T>)
    ensures ((a + b) + c) + d == a + (b + (c + d))
  {
  }

  lemma SnocThree<T>(p: seq<T>, a: T, b: T, c: T)
    ensures p + [a, b, c] == ((p + [a]) + [b]) + [c]
  {
  }
}
