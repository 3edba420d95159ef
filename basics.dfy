/** Small building blocks shared by the EDSO model: an optional value and an
    order-preserving filter on sequences. */
module Basics {

  datatype Option<+T> = None | Some(value: T)

  /** The elements of `s` that satisfy `keep`, in their original order.
      Nothing is deduplicated: every kept element keeps its multiplicity. */
  function Select<T>(s: seq<T>, keep: T -> bool): (r: seq<T>)
    ensures |r| <= |s|
  {
    if s == [] then []
    else (if keep(s[0]) then [s[0]] else []) + Select(s[1..], keep)
  }

  /** Only elements satisfying `keep` survive. */
  lemma {:induction false} SelectKeeps<T>(s: seq<T>, keep: T -> bool)
    ensures forall x :: x in Select(s, keep) ==> keep(x)
  {
    if s != [] {
      SelectKeeps(s[1..], keep);
    }
  }

  /** Nothing is deduplicated: a kept value occurs in the result exactly as
      often as in the input, a dropped value not at all. */
  lemma {:induction false} SelectCount<T>(s: seq<T>, keep: T -> bool, x: T)
    ensures multiset(Select(s, keep))[x] == if keep(x) then multiset(s)[x] else 0
  {
    if s != [] {
      assert s == [s[0]] + s[1..];
      SelectCount(s[1..], keep, x);
    }
  }

  /** Filtering distributes over concatenation, so the order of what is kept is
      the order of the input. */
  lemma {:induction false} SelectAppend<T>(a: seq<T>, b: seq<T>, keep: T -> bool)
    ensures Select(a + b, keep) == Select(a, keep) + Select(b, keep)
  {
    if a == [] {
      assert a + b == b;
    } else {
      var head := if keep(a[0]) then [a[0]] else [];
      assert (a + b)[0] == a[0] && (a + b)[1..] == a[1..] + b;
      assert Select(a + b, keep) == head + Select(a[1..] + b, keep);
      SelectAppend(a[1..], b, keep);
      AppendAssoc(head, Select(a[1..], keep), Select(b, keep));
    }
  }

  /** A sequence is the part before index `n`, the element at `n`, and the
      part after it. */
  lemma SplitAround<T>(s: seq<T>, n: nat)
    requires n < |s|
    ensures s == s[..n] + ([s[n]] + s[n + 1..])
  {
    assert s[n..] == [s[n]] + s[n + 1..];
    assert s == s[..n] + s[n..];
  }

  lemma AppendAssoc<T>(a: seq<T>, b: seq<T>, c: seq<T>)
    ensures a + (b + c) == (a + b) + c
  {
  }
}
