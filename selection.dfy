/** Selecting the elements of a sequence that satisfy a predicate, keeping
    their order: the one operation that both the library's filter view and
    its search are built from. */
module Selection {

  /** The elements of s that satisfy p, in the order they have in s. */
  function Keep<T>(s: seq<T>, p: T -> bool): (r: seq<T>)
    ensures |r| <= |s|
  {
    if s == [] then [] else (if p(s[0]) then [s[0]] else []) + Keep(s[1..], p)
  }

  /** Reference meaning of "r is s with some elements left out, the rest
      in their original order". */
  ghost predicate IsSubsequence<T>(r: seq<T>, s: seq<T>) {
    if r == [] then true
    else if s == [] then false
    else (r[0] == s[0] && IsSubsequence(r[1..], s[1..])) || IsSubsequence(r, s[1..])
  }

  /** The pointwise conjunction of two predicates. */
  function Both<T>(p: T -> bool, q: T -> bool): T -> bool {
    x => p(x) && q(x)
  }

  /** An element is kept exactly when it is in s and satisfies p. */
  lemma {:induction false} KeepMembers<T>(s: seq<T>, p: T -> bool, x: T)
    ensures x in Keep(s, p) <==> x in s && p(x)
  {
    if s != [] {
      KeepMembers(s[1..], p, x);
      assert s == [s[0]] + s[1..];
    }
  }

  /** Every element of the selection satisfies p, position by position. */
  lemma {:induction false} KeepSatisfies<T>(s: seq<T>, p: T -> bool, k: int)
    requires 0 <= k < |Keep(s, p)|
    ensures p(Keep(s, p)[k])
  {
    if s != [] {
      if p(s[0]) {
        if k > 0 { KeepSatisfies(s[1..], p, k - 1); }
      } else {
        KeepSatisfies(s[1..], p, k);
      }
    }
  }

  /** The selection keeps each kept value as many times as s holds it. */
  lemma {:induction false} KeepMultiplicity<T>(s: seq<T>, p: T -> bool, x: T)
    ensures multiset(Keep(s, p))[x] == if p(x) then multiset(s)[x] else 0
  {
    if s != [] {
      KeepMultiplicity(s[1..], p, x);
      assert s == [s[0]] + s[1..];
      assert multiset(s) == multiset([s[0]]) + multiset(s[1..]);
    }
  }

  /** The selection is an order-preserving subsequence of s. */
  lemma {:induction false} KeepIsSubsequence<T>(s: seq<T>, p: T -> bool)
    ensures IsSubsequence(Keep(s, p), s)
  {
    if s != [] {
      KeepIsSubsequence(s[1..], p);
      if p(s[0]) {
        assert Keep(s, p) == [s[0]] + Keep(s[1..], p);
      } else {
        assert Keep(s, p) == Keep(s[1..], p);
        SubsequenceOfTail(Keep(s, p), s);
      }
    }
  }

  /** A subsequence of the tail of s is a subsequence of s. */
  lemma SubsequenceOfTail<T>(r: seq<T>, s: seq<T>)
    requires s != [] && IsSubsequence(r, s[1..])
    ensures IsSubsequence(r, s)
  {
  }

  /** Selecting with a predicate every element satisfies keeps all of s. */
  lemma {:induction false} KeepAll<T>(s: seq<T>, p: T -> bool)
    requires forall k :: 0 <= k < |s| ==> p(s[k])
    ensures Keep(s, p) == s
  {
    if s != [] {
      KeepAll(s[1..], p);
      assert s == [s[0]] + s[1..];
    }
  }

  /** The selection is all of s only when every element satisfies p. */
  lemma {:induction false} KeepAllOnly<T>(s: seq<T>, p: T -> bool)
    requires Keep(s, p) == s
    ensures forall k :: 0 <= k < |s| ==> p(s[k])
  {
    if s != [] {
      assert p(s[0]);
      assert Keep(s[1..], p) == Keep(s, p)[1..];
      KeepAllOnly(s[1..], p);
      assert forall k :: 1 <= k < |s| ==> s[k] == s[1..][k - 1];
    }
  }

  /** A selection as long as s has kept every element. */
  lemma {:induction false} KeepFullLength<T>(s: seq<T>, p: T -> bool)
    requires |Keep(s, p)| == |s|
    ensures Keep(s, p) == s
  {
    if s != [] {
      assert p(s[0]);
      KeepFullLength(s[1..], p);
      assert s == [s[0]] + s[1..];
    }
  }

  /** The selection is as long as s exactly when every element satisfies p. */
  lemma KeepLengthIff<T>(s: seq<T>, p: T -> bool)
    ensures |Keep(s, p)| == |s| <==> forall k :: 0 <= k < |s| ==> p(s[k])
  {
    if |Keep(s, p)| == |s| {
      KeepFullLength(s, p);
      KeepAllOnly(s, p);
    }
    if forall k :: 0 <= k < |s| ==> p(s[k]) {
      KeepAll(s, p);
    }
  }

  /** Predicates that agree everywhere select the same elements. */
  lemma {:induction false} KeepAgree<T>(s: seq<T>, p: T -> bool, q: T -> bool)
    requires forall x :: p(x) == q(x)
    ensures Keep(s, p) == Keep(s, q)
  {
    if s != [] {
      KeepAgree(s[1..], p, q);
    }
  }

  /** Selecting twice is selecting once with the conjunction. */
  lemma {:induction false} KeepKeep<T>(s: seq<T>, p: T -> bool, q: T -> bool)
    ensures Keep(Keep(s, p), q) == Keep(s, Both(p, q))
  {
    if s != [] {
      KeepKeep(s[1..], p, q);
      assert Both(p, q)(s[0]) == (p(s[0]) && q(s[0]));
      var both := Both(p, q);
      if p(s[0]) {
        var k := [s[0]] + Keep(s[1..], p);
        assert k != [] && k[0] == s[0] && k[1..] == Keep(s[1..], p);
        calc {
          Keep(Keep(s, p), q);
          Keep(k, q);
          (if q(s[0]) then [s[0]] else []) + Keep(Keep(s[1..], p), q);
          (if both(s[0]) then [s[0]] else []) + Keep(s[1..], both);
          Keep(s, both);
        }
      } else {
        assert Keep(s, p) == Keep(s[1..], p);
        assert Keep(s, both) == Keep(s[1..], both);
      }
    }
  }

  /** Selection distributes over concatenation. */
  lemma {:induction false} KeepConcat<T>(a: seq<T>, b: seq<T>, p: T -> bool)
    ensures Keep(a + b, p) == Keep(a, p) + Keep(b, p)
  {
    if a == [] {
      assert a + b == b;
    } else {
      KeepConcat(a[1..], b, p);
      var head := if p(a[0]) then [a[0]] else [];
      calc {
        Keep(a + b, p);
        { assert (a + b)[0] == a[0] && (a + b)[1..] == a[1..] + b; }
        head + Keep(a[1..] + b, p);
        head + (Keep(a[1..], p) + Keep(b, p));
        (head + Keep(a[1..], p)) + Keep(b, p);
      }
    }
  }

  /** Appending one element extends the selection by that element if it
      qualifies: what a loop that appends matches one by one computes. */
  lemma KeepSnoc<T>(s: seq<T>, x: T, p: T -> bool)
    ensures Keep(s + [x], p) == Keep(s, p) + (if p(x) then [x] else [])
  {
    KeepConcat(s, [x], p);
  }
}
