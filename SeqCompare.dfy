/**
  The two standard algorithms the relational operators of Vec.h are built
  from, on sequences of integers: std::equal over one range and the start of
  a second, and std::lexicographical_compare over two ranges, with the
  meaning [alg.equal] and [alg.lex.comparison] of ISO/IEC 14882 give them.
*/
module SeqCompare {

  /** std::equal(first1, last1, first2): every element of `a` equals the
      element of `b` at the same position; `b` must be at least as long. */
  function EqualRange(a: seq<int>, b: seq<int>): bool
    requires |a| <= |b|
    decreases |a|
  {
    |a| == 0 || (a[0] == b[0] && EqualRange(a[1..], b[1..]))
  }

  /** std::lexicographical_compare(first1, last1, first2, last2): walk both
      ranges together; the first position where they differ decides, and when
      one range runs out first, it is the lesser exactly if the other has not
      run out too. */
  function LexCompare(a: seq<int>, b: seq<int>): bool
    decreases |a|
  {
    if |b| == 0 then false
    else if |a| == 0 then true
    else if a[0] < b[0] then true
    else if b[0] < a[0] then false
    else LexCompare(a[1..], b[1..])
  }

  /** Reference meaning of "a is lexicographically less than b": either the
      two agree up to a position where a's element is the smaller, or a is a
      strict prefix of b. */
  ghost predicate LexicallyBefore(a: seq<int>, b: seq<int>)
  {
    || (exists k :: 0 <= k < |a| && k < |b| && a[..k] == b[..k] && a[k] < b[k])
    || (|a| < |b| && a == b[..|a|])
  }

  lemma {:induction false} EqualRangeIsPrefix(a: seq<int>, b: seq<int>)
    requires |a| <= |b|
    ensures EqualRange(a, b) <==> a == b[..|a|]
    decreases |a|
  {
    if |a| > 0 {
      EqualRangeIsPrefix(a[1..], b[1..]);
      assert b[..|a|] == [b[0]] + b[1..][..|a| - 1];
      assert a == [a[0]] + a[1..];
    }
  }

  lemma {:induction false} LexCompareMeansBefore(a: seq<int>, b: seq<int>)
    ensures LexCompare(a, b) <==> LexicallyBefore(a, b)
    decreases |a|
  {
    if |b| == 0 {
      assert !LexicallyBefore(a, b);
    } else if |a| == 0 {
      assert a == b[..0];
    } else if a[0] < b[0] {
      assert a[..0] == b[..0];
    } else if b[0] < a[0] {
      forall k | 0 < k <= |a| && k <= |b|
        ensures a[..k] != b[..k]
      {
        assert a[..k][0] != b[..k][0];
      }
      assert a[..|a|] == a;
    } else {
      LexCompareMeansBefore(a[1..], b[1..]);
      TailBefore(a, b);
    }
  }

  /** With equal first elements, the order of two sequences is that of their
      tails. */
  lemma TailBefore(a: seq<int>, b: seq<int>)
    requires |a| > 0 && |b| > 0 && a[0] == b[0]
    ensures LexicallyBefore(a, b) <==> LexicallyBefore(a[1..], b[1..])
  {
    var a', b' := a[1..], b[1..];
    if LexicallyBefore(a, b) {
      if k :| 0 <= k < |a| && k < |b| && a[..k] == b[..k] && a[k] < b[k] {
        assert k > 0;
        assert a'[..k - 1] == a[..k][1..] == b[..k][1..] == b'[..k - 1];
        assert a'[k - 1] < b'[k - 1];
      } else {
        assert |a'| < |b'| && a' == a[..|a|][1..] == b[..|a|][1..] == b'[..|a'|];
      }
    }
    if LexicallyBefore(a', b') {
      if k :| 0 <= k < |a'| && k < |b'| && a'[..k] == b'[..k] && a'[k] < b'[k] {
        assert a[..k + 1] == [a[0]] + a'[..k] && b[..k + 1] == [b[0]] + b'[..k];
        assert a[k + 1] < b[k + 1];
      } else {
        assert a == [a[0]] + a' && b[..|a|] == [b[0]] + b'[..|a'|];
      }
    }
  }

  /** No sequence is less than itself. */
  lemma {:induction false} LexCompareIrreflexive(a: seq<int>)
    ensures !LexCompare(a, a)
    decreases |a|
  {
    if |a| > 0 {
      LexCompareIrreflexive(a[1..]);
    }
  }

  /** Of two sequences, exactly one of "less", "equal" and "greater" holds. */
  lemma {:induction false} LexCompareTrichotomy(a: seq<int>, b: seq<int>)
    ensures LexCompare(a, b) || a == b || LexCompare(b, a)
    ensures !(LexCompare(a, b) && LexCompare(b, a))
    decreases |a|
  {
    if |a| > 0 && |b| > 0 && a[0] == b[0] {
      LexCompareTrichotomy(a[1..], b[1..]);
      if a[1..] == b[1..] {
        assert a == [a[0]] + a[1..] && b == [b[0]] + b[1..];
      }
    }
  }

  lemma {:induction false} LexCompareTransitive(a: seq<int>, b: seq<int>, c: seq<int>)
    requires LexCompare(a, b) && LexCompare(b, c)
    ensures LexCompare(a, c)
    decreases |a|
  {
    if |a| > 0 && a[0] == b[0] && b[0] == c[0] {
      LexCompareTransitive(a[1..], b[1..], c[1..]);
    }
  }
}
