/** Order-preserving filtering of sequences, shared by the finder's
    selection of accepted classes and of files that can hold classes. */
module Seqs {

  /** The elements of `s` that satisfy `p`, in their order. */
  function Keep<T>(p: T -> bool, s: seq<T>): (r: seq<T>)
    ensures |r| <= |s|
  {
    if s == [] then [] else (if p(s[0]) then [s[0]] else []) + Keep(p, s[1..])
  }

  /** Filtering distributes over concatenation, which is what keeps the
      order. */
  lemma {:induction false} KeepAppend<T>(p: T -> bool, a: seq<T>, b: seq<T>)
    ensures Keep(p, a + b) == Keep(p, a) + Keep(p, b)
  {
    if a == [] {
      assert a + b == b;
    } else {
      var ab := a + b;
      var head := if p(a[0]) then [a[0]] else [];
      var ka, kb := Keep(p, a[1..]), Keep(p, b);
      assert ab[0] == a[0];
      assert ab[1..] == a[1..] + b;
      KeepAppend(p, a[1..], b);
      calc {
        Keep(p, ab);
        head + Keep(p, a[1..] + b);
        head + (ka + kb);
        (head + ka) + kb;
      }
    }
  }

  /** An element is kept exactly when it occurs and satisfies `p`. */
  lemma {:induction false} KeepMember<T>(p: T -> bool, s: seq<T>, x: T)
    ensures x in Keep(p, s) <==> x in s && p(x)
  {
    if s != [] {
      KeepMember(p, s[1..], x);
      assert s == [s[0]] + s[1..];
    }
  }

  /** Everything is kept when everything satisfies `p`. */
  lemma {:induction false} KeepAll<T>(p: T -> bool, s: seq<T>)
    requires forall i | 0 <= i < |s| :: p(s[i])
    ensures Keep(p, s) == s
  {
    if s != [] {
      KeepAll(p, s[1..]);
    }
  }

  /** A non-empty sequence is its front followed by its last element. */
  lemma SplitLast<T>(s: seq<T>)
    requires s != []
    ensures s == s[..|s| - 1] + [s[|s| - 1]]
  {}

  /** Membership in a sequence with one element appended. */
  lemma InSnoc<T>(s: seq<T>, x: T, y: T)
    ensures y in s + [x] <==> y in s || y == x
  {
    if y in s + [x] && y != x {
      var i :| 0 <= i < |s + [x]| && (s + [x])[i] == y;
      assert s[i] == y;
    }
  }
}
