/** Searching a sequence for the first occurrence of an element. */
module Text {

  /** The position of the first `x` in `s`, or `|s|` when there is none. */
  function IndexOf<T(==)>(s: seq<T>, x: T): (i: nat)
    ensures i <= |s|
  {
    if s == [] || s[0] == x then 0 else 1 + IndexOf(s[1..], x)
  }

  /** `IndexOf` stops at the first occurrence. */
  lemma {:induction false} IndexOfFirst<T>(s: seq<T>, x: T)
    ensures IndexOf(s, x) < |s| ==> s[IndexOf(s, x)] == x
    ensures forall k :: 0 <= k < IndexOf(s, x) ==> s[k] != x
  {
    if s != [] && s[0] != x {
      IndexOfFirst(s[1..], x);
    }
  }

  /** `IndexOf` finds nothing exactly when `x` is absent. */
  lemma {:induction false} IndexOfAbsent<T>(s: seq<T>, x: T)
    ensures IndexOf(s, x) == |s| <==> x !in s
  {
    IndexOfFirst(s, x);
    if IndexOf(s, x) == |s| {
      assert forall k :: 0 <= k < |s| ==> s[k] != x;
    } else {
      assert s[IndexOf(s, x)] == x;
    }
  }

  /** In `a + [x] + rest` with no `x` in `a`, the first `x` is the one after `a`. */
  lemma {:induction false} IndexOfAfter<T>(a: seq<T>, x: T, rest: seq<T>)
    requires x !in a
    ensures IndexOf(a + [x] + rest, x) == |a|
  {
    if a != [] {
      assert (a + [x] + rest)[1..] == a[1..] + [x] + rest;
      IndexOfAfter(a[1..], x, rest);
    }
  }
}
