/** Facts about sequences that the verifier does not find by itself. */
module Sequences {

  lemma Associative<T>(a: seq<T>, b: seq<T>, c: seq<T>)
    ensures (a + b) + c == a + (b + c)
  {
  }

  /** What stands before the first delimiter, and what follows it. */
  lemma FirstDelimiter<T>(p: seq<T>, u: seq<T>, q: seq<T>, v: seq<T>, d: T)
    requires d !in p && d !in q && p + [d] + u == q + [d] + v
    ensures p == q && u == v
  {
    var s, t := p + [d] + u, q + [d] + v;
    assert s[|p|] == d && t[|q|] == d;
    assert forall i :: 0 <= i < |p| ==> s[i] == p[i];
    assert forall i :: 0 <= i < |q| ==> t[i] == q[i];
    assert s[..|p|] == p && t[..|q|] == q;
    assert s[|p| + 1..] == u && t[|q| + 1..] == v;
  }
}
