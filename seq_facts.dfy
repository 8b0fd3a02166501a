/** Facts about sequences of element numbers without repetitions, shared by the traversals. */
module SeqFacts {
  /** No element occurs twice. */
  predicate Distinct(s: seq<nat>)
  {
    forall i, j :: 0 <= i < j < |s| ==> s[i] != s[j]
  }

  /** Concatenating repetition-free sequences with no element in common gives one. */
  lemma DistinctAppend(a: seq<nat>, b: seq<nat>)
    requires Distinct(a) && Distinct(b) && forall x :: x in b ==> x !in a
    ensures Distinct(a + b)
  {
    var c := a + b;
    forall i, j | 0 <= i < j < |c| ensures c[i] != c[j] {
      if j < |a| {
        assert c[i] == a[i] && c[j] == a[j];
      } else if i >= |a| {
        assert c[i] == b[i - |a|] && c[j] == b[j - |a|];
      } else {
        assert c[j] == b[j - |a|] && c[i] == a[i] && a[i] in a;
      }
    }
  }

  /** The elements of a sequence, as a set. */
  function Elems(s: seq<nat>): (r: set<nat>)
    ensures forall x :: x in r <==> x in s
  {
    set x | x in s
  }

  /** A sequence has at least as many positions as distinct elements. */
  lemma {:induction false} ElemsBound(s: seq<nat>)
    ensures |Elems(s)| <= |s|
  {
    if s != [] {
      ElemsBound(s[1..]);
      assert Elems(s) == Elems(s[1..]) + {s[0]};
    }
  }

  /** Without repetitions, the number of distinct elements is the length. */
  lemma {:induction false} DistinctElems(s: seq<nat>)
    requires Distinct(s)
    ensures |Elems(s)| == |s|
  {
    if s != [] {
      assert Distinct(s[1..]) by {
        forall i, j | 0 <= i < j < |s[1..]| ensures s[1..][i] != s[1..][j] {
          assert s[1..][i] == s[i + 1] && s[1..][j] == s[j + 1];
        }
      }
      DistinctElems(s[1..]);
      assert s[0] !in Elems(s[1..]) by {
        forall k | 0 <= k < |s[1..]| ensures s[1..][k] != s[0] {
          assert s[1..][k] == s[k + 1];
        }
      }
      assert Elems(s) == Elems(s[1..]) + {s[0]};
    }
  }

  /** A repetition-free sequence drawn from `t` is no longer than `t`. */
  lemma DistinctSubseqBound(s: seq<nat>, t: seq<nat>)
    requires Distinct(s)
    requires forall x :: x in s ==> x in t
    ensures |s| <= |t|
  {
    DistinctElems(s);
    ElemsBound(t);
    assert Elems(s) <= Elems(t);
    SubsetCard(Elems(s), Elems(t));
  }

  /** A subset is no larger than its superset. */
  lemma {:induction false} SubsetCard(a: set<nat>, b: set<nat>)
    requires a <= b
    ensures |a| <= |b|
  {
    if a != {} {
      var x :| x in a;
      SubsetCard(a - {x}, b - {x});
    }
  }

  /** The positions whose tag is still clear. */
  function Untagged(tag: seq<bool>): (r: set<nat>)
    ensures forall x: nat :: x in r <==> x < |tag| && !tag[x]
  {
    set x: nat | x < |tag| && !tag[x]
  }

  /** Setting the tags of the positions in `s`, and no others, takes `s` out of the untagged ones. */
  lemma UntaggedMinus(before: seq<bool>, after: seq<bool>, s: set<nat>)
    requires |before| == |after|
    requires forall x :: 0 <= x < |after| ==> after[x] == (before[x] || x in s)
    ensures Untagged(after) == Untagged(before) - s
  {
  }

  /** The elements in the opposite order (`s[::-1]`). */
  function Reverse(s: seq<nat>): (r: seq<nat>)
    ensures |r| == |s|
    ensures forall i :: 0 <= i < |s| ==> r[i] == s[|s| - 1 - i]
  {
    seq(|s|, i requires 0 <= i < |s| => s[|s| - 1 - i])
  }

  /** A non-empty sequence is its front and its last element. */
  lemma Snoc<T>(s: seq<T>)
    requires s != []
    ensures s[..|s| - 1] + [s[|s| - 1]] == s
  {
  }

  /** Taking every element gives the sequence back. */
  lemma TakeAll<T>(s: seq<T>)
    ensures s[..|s|] == s
  {
  }

  /** A sequence around position `i`. */
  lemma SplitAt<T>(s: seq<T>, i: nat)
    requires i < |s|
    ensures s == (s[..i] + [s[i]]) + s[i + 1..]
  {
    assert s[..i] + [s[i]] == s[..i + 1];
    assert s[..i + 1] + s[i + 1..] == s;
  }

  /** Regrouping a buffer around one of its middle pieces. */
  lemma Regroup<T>(p: seq<T>, a: seq<T>, b: seq<T>, post: seq<T>)
    ensures p + (a + b) + post == p + a + (b + post)
    ensures p + (a + b) + post == (p + a) + b + post
  {
  }

  /** The middle piece of a concatenation, sliced back out. */
  lemma SliceMiddle<T>(pre: seq<T>, x: seq<T>, post: seq<T>)
    ensures (pre + x + post)[|pre|..|pre| + |x|] == x
  {
  }

  /*
   * `x` occurs in `buf` from position `off` on. The definition runs through
   * three mutually recursive predicates, so that the verifier looks at the
   * elements of an occurrence only where a proof asks for them (AtIndex):
   * an occurrence of a long byte string then costs nothing where it is only
   * passed along.
   */
  ghost predicate At<T>(buf: seq<T>, off: nat, x: seq<T>)
    decreases |x|, 2
  {
    if |x| == 0 then off <= |buf| else AtNonEmpty(buf, off, x)
  }

  /** A non-empty `x` fits in `buf` from `off` on and starts there. */
  ghost predicate AtNonEmpty<T>(buf: seq<T>, off: nat, x: seq<T>)
    requires |x| > 0
    decreases |x|, 1
  {
    off + |x| <= |buf| && AtHead(buf, off, x)
  }

  /** The first element of `x` is at `off`, and the rest of `x` occurs right after it. */
  ghost predicate AtHead<T>(buf: seq<T>, off: nat, x: seq<T>)
    requires 0 < |x| && off + |x| <= |buf|
    decreases |x|, 0
  {
    buf[off] == x[0] && At(buf, off + 1, x[1..])
  }

  /** An occurrence, element by element. */
  lemma {:induction false} AtIndex<T>(buf: seq<T>, off: nat, x: seq<T>)
    ensures At(buf, off, x) <==> off + |x| <= |buf| && forall i :: 0 <= i < |x| ==> buf[off + i] == x[i]
    decreases |x|
  {
    if |x| > 0 {
      var y := x[1..];
      AtIndex(buf, off + 1, y);
      assert At(buf, off, x) == AtNonEmpty(buf, off, x);
      if off + |x| <= |buf| {
        assert AtNonEmpty(buf, off, x) == AtHead(buf, off, x);
        assert AtHead(buf, off, x) == (buf[off] == x[0] && At(buf, off + 1, y));
        assert forall i :: 0 <= i < |y| ==> y[i] == x[i + 1];
        if buf[off] == x[0] && forall i :: 0 <= i < |y| ==> buf[off + 1 + i] == y[i] {
          forall i | 0 <= i < |x|
            ensures buf[off + i] == x[i]
          {
            if i > 0 {
              assert buf[off + 1 + (i - 1)] == y[i - 1];
            }
          }
        }
      }
    }
  }

  /** An occurrence is a slice of the buffer equal to `x`. */
  lemma AtSlice<T>(buf: seq<T>, off: nat, x: seq<T>)
    ensures At(buf, off, x) <==> off + |x| <= |buf| && buf[off..off + |x|] == x
  {
    AtIndex(buf, off, x);
    if off + |x| <= |buf| && buf[off..off + |x|] == x {
      forall i | 0 <= i < |x|
        ensures buf[off + i] == x[i]
      {
        assert buf[off..off + |x|][i] == buf[off + i];
      }
    }
  }

  /** Every sequence occurs in itself at 0. */
  lemma AtSelf<T>(x: seq<T>)
    ensures At(x, 0, x)
  {
    AtIndex(x, 0, x);
  }

  /** An occurrence of `a + b` is an occurrence of `a` followed by one of `b`. */
  lemma AtSplit<T>(buf: seq<T>, off: nat, a: seq<T>, b: seq<T>)
    requires At(buf, off, a + b)
    ensures At(buf, off, a) && At(buf, off + |a|, b)
  {
    AtIndex(buf, off, a + b);
    AtIndex(buf, off, a);
    AtIndex(buf, off + |a|, b);
    forall i | 0 <= i < |a|
      ensures buf[off + i] == a[i]
    {
      assert (a + b)[i] == a[i];
    }
    forall i | 0 <= i < |b|
      ensures buf[off + |a| + i] == b[i]
    {
      assert (a + b)[|a| + i] == b[i];
    }
  }

  /** Occurrences of `a` and, right after it, of `b` make an occurrence of `a + b`. */
  lemma AtJoin<T>(buf: seq<T>, off: nat, a: seq<T>, b: seq<T>)
    requires At(buf, off, a) && At(buf, off + |a|, b)
    ensures At(buf, off, a + b)
  {
    AtIndex(buf, off, a + b);
    AtIndex(buf, off, a);
    AtIndex(buf, off + |a|, b);
    forall i | 0 <= i < |a + b|
      ensures buf[off + i] == (a + b)[i]
    {
      if i >= |a| {
        assert buf[off + |a| + (i - |a|)] == b[i - |a|];
      }
    }
  }
}
