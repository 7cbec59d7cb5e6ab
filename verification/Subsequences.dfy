/** Deleting characters from a text, and counting those of one kind. */
module Subsequences {

  /** `a` is `b` with some characters deleted. */
  predicate Subsequence(a: string, b: string) {
    if a == "" then true
    else if b == "" then false
    else (a[0] == b[0] && Subsequence(a[1..], b[1..])) || Subsequence(a, b[1..])
  }

  /** Deleting the first character of `b` as well. */
  lemma Weaken(a: string, b: string)
    requires b != "" && Subsequence(a, b[1..])
    ensures Subsequence(a, b)
  {
  }

  lemma {:induction false} Reflexive(a: string)
    ensures Subsequence(a, a)
  {
    if a != "" { Reflexive(a[1..]); }
  }

  lemma {:induction false} Transitive(a: string, b: string, c: string)
    requires Subsequence(a, b) && Subsequence(b, c)
    ensures Subsequence(a, c)
  {
    if a != "" {
      if b[0] == c[0] && Subsequence(b[1..], c[1..]) {
        if a[0] == b[0] && Subsequence(a[1..], b[1..]) {
          Transitive(a[1..], b[1..], c[1..]);
        } else {
          Transitive(a, b[1..], c[1..]);
        }
      } else {
        Transitive(a, b, c[1..]);
      }
    }
  }

  lemma {:induction false} Concat(a: string, b: string, c: string, d: string)
    requires Subsequence(a, b) && Subsequence(c, d)
    ensures Subsequence(a + c, b + d)
  {
    if b == "" {
      assert a + c == c && b + d == d;
    } else {
      assert (b + d)[1..] == b[1..] + d;
      if a != "" && a[0] == b[0] && Subsequence(a[1..], b[1..]) {
        assert (a + c)[1..] == a[1..] + c;
        Concat(a[1..], b[1..], c, d);
      } else {
        Concat(a, b[1..], c, d);
        Weaken(a + c, b + d);
      }
    }
  }

  lemma {:induction false} Deleted(b: string)
    ensures Subsequence("", b)
  {
  }

  /** Keeping only a stretch of a text. */
  lemma Stretch(b: string, i: nat, j: nat)
    requires i <= j <= |b|
    ensures Subsequence(b[i..j], b)
  {
    hide Subsequence;
    Around(b[..i], b[i..j], b[j..]);
    assert b[..i] + (b[i..j] + b[j..]) == b;
  }

  lemma Around(a: string, b: string, c: string)
    ensures Subsequence(b, a + (b + c))
  {
    hide Subsequence;
    Reflexive(b);
    Deleted(a);
    Deleted(c);
    Concat(b, b, "", c);
    assert b + "" == b;
    Concat("", a, b, b + c);
    assert "" + b == b;
  }

  /** The characters of `a` stand in `b` at these places, one after the other. */
  predicate Places(a: string, b: string, at: seq<nat>) {
    && |at| == |a| && (forall i :: 0 <= i < |a| ==> at[i] < |b| && b[at[i]] == a[i])
    && forall i, j :: 0 <= i < j < |a| ==> at[i] < at[j]
  }

  function Moved(at: seq<nat>): (r: seq<nat>)
    ensures |r| == |at| && forall i :: 0 <= i < |at| ==> r[i] == at[i] + 1
  {
    seq(|at|, i requires 0 <= i < |at| => at[i] + 1)
  }

  lemma {:induction false} PlacesFound(a: string, b: string) returns (at: seq<nat>)
    requires Subsequence(a, b)
    ensures Places(a, b, at)
  {
    if a == "" {
      at := [];
    } else if a[0] == b[0] && Subsequence(a[1..], b[1..]) {
      var rest := PlacesFound(a[1..], b[1..]);
      at := [0] + Moved(rest);
    } else {
      var rest := PlacesFound(a, b[1..]);
      at := Moved(rest);
    }
  }

  lemma PlacesTail(a: string, b: string, at: seq<nat>) returns (rest: seq<nat>)
    requires Places(a, b, at) && a != ""
    ensures at[0] == 0 ==> b != "" && a[0] == b[0] && Places(a[1..], b[1..], rest)
    ensures at[0] > 0 ==> b != "" && Places(a, b[1..], rest)
  {
    forall i | 0 < i < |a| ensures at[i] > at[0] {
    }
    if at[0] == 0 {
      rest := seq(|a| - 1, i requires 0 <= i < |a| - 1 => at[i + 1] - 1);
    } else {
      rest := seq(|a|, i requires 0 <= i < |a| => at[i] - 1);
    }
  }

  lemma {:induction false} PlacesRead(a: string, b: string, at: seq<nat>)
    requires Places(a, b, at)
    ensures Subsequence(a, b)
    decreases |b|
  {
    hide Places;
    if a != "" {
      var rest := PlacesTail(a, b, at);
      assert |at| > 0 by { SomePlace(a, b, at); }
      if at[0] == 0 { PlacesRead(a[1..], b[1..], rest); } else { PlacesRead(a, b[1..], rest); }
    }
  }

  lemma SomePlace(a: string, b: string, at: seq<nat>)
    requires Places(a, b, at) && a != ""
    ensures |at| > 0
  {
  }

  /** Deleting characters is keeping the others in their places. */
  lemma SubsequenceExactly(a: string, b: string)
    ensures Subsequence(a, b) <==> exists at :: Places(a, b, at)
  {
    hide Subsequence, Places;
    if Subsequence(a, b) { var at := PlacesFound(a, b); }
    if at :| Places(a, b, at) { PlacesRead(a, b, at); }
  }
}
