/** Sequence helpers used by the store models: the filter behind every SQL
    `select ... where` and list comprehension, and character searches. */
module Seqs {
  import opened Outcomes

  /** The elements of `s` that satisfy `p`, in their original order. */
  function Where<T>(s: seq<T>, p: T -> bool): (r: seq<T>)
    ensures |r| <= |s|
    ensures forall i :: 0 <= i < |r| ==> r[i] in s && p(r[i])
    ensures forall i :: 0 <= i < |s| && p(s[i]) ==> s[i] in r
    decreases |s|
  {
    if s == [] then []
    else if p(s[0]) then [s[0]] + Where(s[1..], p)
    else Where(s[1..], p)
  }

  /** Filtering distributes over concatenation, so the filter keeps the order
      of the elements it selects. */
  lemma {:induction false} WhereConcat<T>(a: seq<T>, b: seq<T>, p: T -> bool)
    ensures Where(a + b, p) == Where(a, p) + Where(b, p)
    decreases |a|
  {
    if a == [] {
      assert a + b == b;
    } else {
      assert (a + b)[0] == a[0];
      assert (a + b)[1..] == a[1..] + b;
      WhereConcat(a[1..], b, p);
    }
  }

  /** A filter that keeps nothing is empty, and one that keeps everything is the identity. */
  lemma {:induction false} WhereTrivial<T>(s: seq<T>, p: T -> bool)
    ensures (forall i :: 0 <= i < |s| ==> !p(s[i])) ==> Where(s, p) == []
    ensures (forall i :: 0 <= i < |s| ==> p(s[i])) ==> Where(s, p) == s
    decreases |s|
  {
    if s != [] {
      assert forall i :: 0 <= i < |s| - 1 ==> s[1..][i] == s[i + 1];
      WhereTrivial(s[1..], p);
    }
  }

  /** The index of the first occurrence of `x` in `s`, as Python's `str.find`. */
  function IndexOf<T(==)>(s: seq<T>, x: T): (r: Option<nat>)
    ensures r.Some? ==> r.value < |s| && s[r.value] == x
    ensures r.Some? ==> forall k :: 0 <= k < r.value ==> s[k] != x
    ensures r.None? <==> forall k :: 0 <= k < |s| ==> s[k] != x
    decreases |s|
  {
    if s == [] then None
    else if s[0] == x then Some(0)
    else match IndexOf(s[1..], x)
      case None => None
      case Some(i) => Some(i + 1)
  }

  /** The index of the last occurrence of `x` in `s`, as Python's `str.rfind`. */
  function LastIndexOf<T(==)>(s: seq<T>, x: T): (r: Option<nat>)
    ensures r.Some? ==> r.value < |s| && s[r.value] == x
    ensures r.Some? ==> forall k :: r.value < k < |s| ==> s[k] != x
    ensures r.None? <==> forall k :: 0 <= k < |s| ==> s[k] != x
    decreases |s|
  {
    if s == [] then None
    else if s[|s| - 1] == x then Some(|s| - 1)
    else LastIndexOf(s[..|s| - 1], x)
  }
}
