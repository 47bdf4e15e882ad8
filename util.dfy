/** Small building blocks shared by the rest of the model: an optional value
    (JavaScript's `null`/`undefined`) and the order-preserving filter that the
    editor uses everywhere it calls `Array.prototype.filter`. */
module Util {

  datatype Option<+T> = None | Some(value: T)

  /** `a` is a sub-list of `b`: `a` can be obtained from `b` by dropping
      elements, without reordering what is left. */
  predicate SubSeq<T(==)>(a: seq<T>, b: seq<T>)
    decreases |b|
  {
    if |a| == 0 then true
    else if |b| == 0 then false
    else if a[0] == b[0] then SubSeq(a[1..], b[1..])
    else SubSeq(a, b[1..])
  }

  /** `s.filter(keep)`: the elements of `s` that satisfy `keep`, in order. */
  function Filter<T(!new)>(s: seq<T>, keep: T -> bool): (r: seq<T>)
    ensures |r| <= |s|
    ensures forall x :: x in r <==> x in s && keep(x)
    decreases |s|
  {
    if |s| == 0 then []
    else if keep(s[0]) then [s[0]] + Filter(s[1..], keep)
    else Filter(s[1..], keep)
  }

  /** The filter keeps the order of what it keeps. */
  lemma {:induction false} FilterIsSubSeq<T(!new)>(s: seq<T>, keep: T -> bool)
    ensures SubSeq(Filter(s, keep), s)
    decreases |s|
  {
    if |s| > 0 {
      FilterIsSubSeq(s[1..], keep);
      var r := Filter(s[1..], keep);
      if keep(s[0]) {
        assert Filter(s, keep) == [s[0]] + r;
        assert ([s[0]] + r)[1..] == r;
      } else {
        SubSeqDropHead(Filter(s, keep), s);
      }
    }
  }

  /** Every list is a sub-list of itself. */
  lemma {:induction false} SubSeqRefl<T>(s: seq<T>)
    ensures SubSeq(s, s)
    decreases |s|
  {
    if |s| > 0 {
      SubSeqRefl(s[1..]);
    }
  }

  /** Helper for `FilterIsSubSeq`: skipping the first element of `b` is allowed
      when `a` is already a sub-list of the rest. */
  lemma SubSeqDropHead<T>(a: seq<T>, b: seq<T>)
    requires |b| > 0 && SubSeq(a, b[1..])
    ensures SubSeq(a, b)
    decreases |b|, 0
  {
    if |a| > 0 && a[0] == b[0] {
      SubSeqTail(a, b[1..]);
    }
  }

  /** Dropping the first element of a sub-list keeps it a sub-list. */
  lemma SubSeqTail<T>(a: seq<T>, b: seq<T>)
    requires |a| > 0 && SubSeq(a, b)
    ensures SubSeq(a[1..], b)
    decreases |b|, 1
  {
    if |b| > 0 && a[0] != b[0] {
      SubSeqTail(a, b[1..]);
      SubSeqDropHead(a[1..], b);
    } else if |b| > 0 {
      SubSeqDropHead(a[1..], b);
    }
  }

  /** No element occurs twice. */
  predicate Distinct<T(==)>(s: seq<T>)
  {
    forall i, j :: 0 <= i < j < |s| ==> s[i] != s[j]
  }

  /** The elements of a sub-list are elements of the list. */
  lemma {:induction false} SubSeqIn<T>(a: seq<T>, b: seq<T>, x: T)
    requires SubSeq(a, b) && x in a
    ensures x in b
    decreases |b|
  {
    if a[0] == b[0] {
      if x != a[0] {
        SubSeqIn(a[1..], b[1..], x);
      }
    } else {
      SubSeqIn(a, b[1..], x);
      var k :| 0 <= k < |b[1..]| && b[1..][k] == x;
      assert b[k + 1] == x;
    }
  }

  /** In a list without repetitions, a sub-list is determined by its
      elements: two sub-lists with the same elements are equal. */
  lemma {:induction false} SubSeqDetermined<T>(a: seq<T>, b: seq<T>, s: seq<T>)
    requires Distinct(s) && SubSeq(a, s) && SubSeq(b, s)
    requires forall x :: x in a <==> x in b
    ensures a == b
    decreases |s|
  {
    if |s| > 0 {
      var t := s[1..];
      assert Distinct(t) by {
        forall i, j | 0 <= i < j < |t| ensures t[i] != t[j] {
          assert t[i] == s[i + 1] && t[j] == s[j + 1];
        }
      }
      assert s[0] !in t by {
        forall i | 0 <= i < |t| ensures t[i] != s[0] {
          assert t[i] == s[i + 1];
        }
      }
      if |a| > 0 && a[0] == s[0] {
        assert s[0] in b;
        if b[0] != s[0] {
          SubSeqIn(b, t, s[0]);
        }
        forall x | x in a[1..] ensures x in b[1..] {
          SubSeqIn(a[1..], t, x);
          assert x in b && x != b[0];
        }
        forall x | x in b[1..] ensures x in a[1..] {
          SubSeqIn(b[1..], t, x);
          assert x in a && x != a[0];
        }
        SubSeqDetermined(a[1..], b[1..], t);
        assert a == [a[0]] + a[1..] && b == [b[0]] + b[1..];
      } else {
        if s[0] in a {
          SubSeqIn(a, t, s[0]);
        }
        assert s[0] !in b;
        SubSeqDetermined(a, b, t);
      }
    }
  }

  /** Filtering distributes over concatenation. */
  lemma {:induction false} FilterAppend<T(!new)>(a: seq<T>, b: seq<T>, keep: T -> bool)
    ensures Filter(a + b, keep) == Filter(a, keep) + Filter(b, keep)
    decreases |a|
  {
    if |a| == 0 {
      assert a + b == b;
    } else {
      assert (a + b)[0] == a[0];
      assert (a + b)[1..] == a[1..] + b;
      FilterAppend(a[1..], b, keep);
    }
  }

  /** Appending a non-empty list is appending its head, then its tail. */
  lemma AppendHead<T>(a: seq<T>, b: seq<T>)
    requires |b| > 0
    ensures a + b == (a + [b[0]]) + b[1..]
  {
    assert b == [b[0]] + b[1..];
  }

  /** A filter that keeps the first element keeps it in front. */
  lemma FilterKeepsHead<T(!new)>(s: seq<T>, keep: T -> bool)
    requires |s| > 0 && keep(s[0])
    ensures |Filter(s, keep)| > 0 && Filter(s, keep)[0] == s[0]
  {
  }

  /** A filter that keeps everything is the identity. */
  lemma {:induction false} FilterAll<T(!new)>(s: seq<T>, keep: T -> bool)
    requires forall i :: 0 <= i < |s| ==> keep(s[i])
    ensures Filter(s, keep) == s
    decreases |s|
  {
    if |s| > 0 {
      FilterAll(s[1..], keep);
    }
  }

  /** A filter that keeps nothing yields the empty list. */
  lemma {:induction false} FilterNone<T(!new)>(s: seq<T>, keep: T -> bool)
    requires forall i :: 0 <= i < |s| ==> !keep(s[i])
    ensures Filter(s, keep) == []
    decreases |s|
  {
    if |s| > 0 {
      FilterNone(s[1..], keep);
    }
  }
}
