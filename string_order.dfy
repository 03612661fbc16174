/** Python's ordering of `str` values: lexicographic by code point, a proper
    prefix before any longer string. Classroom_API.py and gruppkod2.py compare
    their booking times with it, as raw strings. */
module StringOrder {

  /** Python's `a < b` on strings. */
  predicate Less(a: string, b: string)
    decreases |a|
  {
    if |b| == 0 then false
    else if |a| == 0 then true
    else if a[0] != b[0] then a[0] < b[0]
    else Less(a[1..], b[1..])
  }

  /** Python's `a <= b` on strings. */
  predicate LessEq(a: string, b: string)
  {
    a == b || Less(a, b)
  }

  lemma {:induction false} Irreflexive(a: string)
    ensures !Less(a, a)
    decreases |a|
  {
    if |a| > 0 {
      Irreflexive(a[1..]);
    }
  }

  /** Exactly one of `a < b`, `a == b`, `b < a` holds. */
  lemma {:induction false} Trichotomy(a: string, b: string)
    ensures Less(a, b) || a == b || Less(b, a)
    ensures !(Less(a, b) && Less(b, a))
    ensures a == b ==> !Less(a, b)
    decreases |a|
  {
    if a == b {
      Irreflexive(a);
    } else if |a| > 0 && |b| > 0 && a[0] == b[0] {
      Trichotomy(a[1..], b[1..]);
    }
  }

  lemma {:induction false} Transitive(a: string, b: string, c: string)
    requires Less(a, b) && Less(b, c)
    ensures Less(a, c)
    decreases |a|
  {
    if |a| > 0 && a[0] == b[0] && b[0] == c[0] {
      Transitive(a[1..], b[1..], c[1..]);
    }
  }

  /** So `not (a <= b)` is `b < a`: the order is total. */
  lemma NotLessEq(a: string, b: string)
    ensures !LessEq(a, b) <==> Less(b, a)
  {
    Trichotomy(a, b);
  }

  /** Times written without zero padding, which `strptime` accepts, are not
      compared chronologically: 10:00 sorts before 9:00 on the same day. */
  lemma UnpaddedHourSortsFirst(day: string)
    ensures Less(day + "10:00", day + "9:00")
  {
    CommonPrefixLess(day, "10:00", "9:00");
  }

  /** A common prefix does not change the order. */
  lemma {:induction false} CommonPrefixLess(p: string, a: string, b: string)
    requires Less(a, b)
    ensures Less(p + a, p + b)
    decreases |p|
  {
    if |p| > 0 {
      assert (p + a)[0] == p[0] == (p + b)[0];
      assert (p + a)[1..] == p[1..] + a;
      assert (p + b)[1..] == p[1..] + b;
      CommonPrefixLess(p[1..], a, b);
    } else {
      assert p + a == a && p + b == b;
    }
  }
}
