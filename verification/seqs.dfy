/** Order-preserving selection from a listing. */
module Seqs {

  /** `a` can be obtained from `b` by deleting elements: nothing is invented
      and the order is kept. */
  predicate IsSubsequence<T(==)>(a: seq<T>, b: seq<T>)
    decreases |b|
  {
    if a == [] then true
    else if b == [] then false
    else (a[0] == b[0] && IsSubsequence(a[1..], b[1..])) || IsSubsequence(a, b[1..])
  }

  /** The key of every record, in order. */
  function Keys<T>(xs: seq<T>, key: T -> string): (r: seq<string>)
    ensures |r| == |xs|
    ensures forall i :: 0 <= i < |xs| ==> r[i] == key(xs[i])
  {
    if xs == [] then [] else [key(xs[0])] + Keys(xs[1..], key)
  }

  /** The list comprehension `[key(x) for x in xs if keep(x)]`. */
  function Select<T>(xs: seq<T>, keep: T -> bool, key: T -> string): (r: seq<string>)
    ensures IsSubsequence(r, Keys(xs, key))
    ensures forall k :: k in r <==> exists i :: 0 <= i < |xs| && keep(xs[i]) && key(xs[i]) == k
  {
    if xs == [] then []
    else
      var rest := Select(xs[1..], keep, key);
      assert Keys(xs, key)[1..] == Keys(xs[1..], key);
      assert forall i :: 0 < i < |xs| ==> xs[1..][i - 1] == xs[i];
      if keep(xs[0]) then
        assert ([key(xs[0])] + rest)[1..] == rest;
        [key(xs[0])] + rest
      else rest
  }

  /** One record contributes its key exactly when it is kept. */
  lemma SelectOne<T>(x: T, keep: T -> bool, key: T -> string)
    ensures Select([x], keep, key) == if keep(x) then [key(x)] else []
  {
    assert [x][1..] == [];
  }

  /** Selection works record by record: the selection from a concatenation is
      the selection from each part, in order. With SelectOne this fixes the
      result exactly, repeated keys included. */
  lemma {:induction false} SelectAppend<T>(a: seq<T>, b: seq<T>, keep: T -> bool, key: T -> string)
    ensures Select(a + b, keep, key) == Select(a, keep, key) + Select(b, keep, key)
  {
    if a == [] {
      assert a + b == b;
    } else {
      assert (a + b)[0] == a[0];
      assert (a + b)[1..] == a[1..] + b;
      SelectAppend(a[1..], b, keep, key);
    }
  }
}
