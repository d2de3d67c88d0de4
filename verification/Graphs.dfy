/** Paths in a graph given by its edge relation. */
module Graphs {

  ghost predicate IsPath<V(!new)>(edge: (V, V) -> bool, p: seq<V>) {
    p != [] && forall i | 0 <= i < |p| - 1 :: edge(p[i], p[i + 1])
  }

  /** `b` is in the reflexive and transitive closure of the edges from `a`. */
  ghost predicate Connected<V(!new)>(edge: (V, V) -> bool, a: V, b: V) {
    exists p :: IsPath(edge, p) && p[0] == a && p[|p| - 1] == b
  }

  ghost predicate Symmetric<V(!new)>(edge: (V, V) -> bool) {
    forall a, b :: edge(a, b) ==> edge(b, a)
  }

  lemma ConnectedToItself<V(!new)>(edge: (V, V) -> bool, a: V)
    ensures Connected(edge, a, a)
  {
    assert IsPath(edge, [a]);
  }

  lemma ConnectedStep<V(!new)>(edge: (V, V) -> bool, a: V, b: V, c: V)
    requires Connected(edge, a, b) && edge(b, c)
    ensures Connected(edge, a, c)
  {
    var p :| IsPath(edge, p) && p[0] == a && p[|p| - 1] == b;
    assert IsPath(edge, p + [c]);
  }

  /** Whatever contains the start and is closed under edges contains everything connected to it. */
  lemma ClosedContains<V(!new)>(edge: (V, V) -> bool, inside: V -> bool, a: V, b: V)
    requires Connected(edge, a, b) && inside(a)
    requires forall x, y | inside(x) && edge(x, y) :: inside(y)
    ensures inside(b)
  {
    var p :| IsPath(edge, p) && p[0] == a && p[|p| - 1] == b;
    for i := 0 to |p| - 1
      invariant inside(p[i])
    {
      assert edge(p[i], p[i + 1]);
    }
  }

  lemma ConnectedThrough<V(!new)>(edge: (V, V) -> bool, a: V, b: V, c: V)
    requires Connected(edge, a, b) && Connected(edge, b, c)
    ensures Connected(edge, a, c)
  {
    forall x, y | Connected(edge, a, x) && edge(x, y)
      ensures Connected(edge, a, y)
    {
      ConnectedStep(edge, a, x, y);
    }
    var inside := x => Connected(edge, a, x);
    ClosedContains(edge, inside, b, c);
  }

  lemma ConnectedBack<V(!new)>(edge: (V, V) -> bool, a: V, b: V)
    requires Connected(edge, a, b) && Symmetric(edge)
    ensures Connected(edge, b, a)
  {
    var inside := x => Connected(edge, x, a);
    forall x, y | inside(x) && edge(x, y)
      ensures inside(y)
    {
      ConnectedToItself(edge, y);
      ConnectedStep(edge, y, y, x);
      ConnectedThrough(edge, y, x, a);
    }
    ConnectedToItself(edge, a);
    ClosedContains(edge, inside, a, b);
  }

  /** A path that leaves a set crosses its border. */
  lemma Crossing<V(!new)>(edge: (V, V) -> bool, s: set<V>, a: V, b: V) returns (x: V, y: V)
    requires Connected(edge, a, b) && a in s && b !in s
    ensures x in s && y !in s && edge(x, y)
  {
    if forall x, y | x in s && edge(x, y) :: y in s {
      ClosedContains(edge, z => z in s, a, b);
      assert false;
    }
    x, y :| x in s && y !in s && edge(x, y);
  }
}
