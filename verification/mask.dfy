/** Boolean-mask selection over a table, the way pandas filters a data frame
    with `frame[condition]` and then takes `.values[0]` of the selection.
    Both the reference lookup and the write-back use this pattern. */
module Mask {
  import opened Wrappers

  /** The rows of `s` that satisfy `p`, in table order. */
  function Where<T>(s: seq<T>, p: T -> bool): (r: seq<T>)
    ensures |r| <= |s|
    ensures forall x :: x in r ==> x in s && p(x)
    ensures forall i :: 0 <= i < |s| && p(s[i]) ==> s[i] in r
  {
    if |s| == 0 then []
    else if p(s[0]) then [s[0]] + Where(s[1..], p)
    else Where(s[1..], p)
  }

  /** Selection distributes over concatenation: it keeps the rows in table
      order, repeated rows included. */
  lemma {:induction false} WhereAppend<T>(s: seq<T>, t: seq<T>, p: T -> bool)
    ensures Where(s + t, p) == Where(s, p) + Where(t, p)
  {
    if |s| > 0 {
      assert (s + t)[0] == s[0];
      assert (s + t)[1..] == s[1..] + t;
      WhereAppend(s[1..], t, p);
    } else {
      assert s + t == t;
    }
  }

  /** Row `i` is the first row of `s` that satisfies `p`. */
  ghost predicate IsFirst<T>(s: seq<T>, p: T -> bool, i: int) {
    && 0 <= i < |s|
    && p(s[i])
    && forall j :: 0 <= j < i ==> !p(s[j])
  }

  /** The selection starts with the first satisfying row. */
  lemma {:induction false} WhereStartsAtFirst<T>(s: seq<T>, p: T -> bool, i: int)
    requires IsFirst(s, p, i)
    ensures |Where(s, p)| > 0 && Where(s, p)[0] == s[i]
  {
    if i > 0 {
      assert !p(s[0]);
      assert IsFirst(s[1..], p, i - 1) by {
        forall j | 0 <= j < i - 1
          ensures !p(s[1..][j])
        {
          assert s[1..][j] == s[j + 1];
        }
      }
      WhereStartsAtFirst(s[1..], p, i - 1);
    }
  }

  /** Whenever some row satisfies `p`, a first such row exists. */
  lemma {:induction false} FirstExists<T>(s: seq<T>, p: T -> bool, k: int)
    requires 0 <= k < |s| && p(s[k])
    ensures exists i :: IsFirst(s, p, i)
  {
    if p(s[0]) {
      assert IsFirst(s, p, 0);
    } else {
      assert s[1..][k - 1] == s[k];
      FirstExists(s[1..], p, k - 1);
      var i :| IsFirst(s[1..], p, i);
      assert IsFirst(s, p, i + 1) by {
        forall j | 0 < j < i + 1
          ensures !p(s[j])
        {
          assert s[j] == s[1..][j - 1];
        }
      }
    }
  }

  /** A non-empty selection starts with the first satisfying row. */
  lemma SelectionHead<T>(s: seq<T>, p: T -> bool)
    requires |Where(s, p)| > 0
    ensures exists i :: IsFirst(s, p, i) && Where(s, p)[0] == s[i]
  {
    var hits := Where(s, p);
    assert hits[0] in hits;
    var k :| 0 <= k < |s| && s[k] == hits[0];
    FirstExists(s, p, k);
    var i :| IsFirst(s, p, i);
    WhereStartsAtFirst(s, p, i);
  }

  /** `frame[p].values[0]` when the selection is not empty, None otherwise. */
  function Head<T>(s: seq<T>, p: T -> bool): (r: Option<T>)
    ensures r.None? <==> forall i :: 0 <= i < |s| ==> !p(s[i])
    ensures r.Some? ==> exists i :: IsFirst(s, p, i) && r.value == s[i]
    ensures forall i :: IsFirst(s, p, i) ==> r == Some(s[i])
  {
    var hits := Where(s, p);
    if |hits| == 0 then
      None
    else
      SelectionHead(s, p);
      Some(hits[0])
  }

  /** Two conditions that agree on every row select the same first row. */
  lemma HeadAgrees<T>(s: seq<T>, p: T -> bool, q: T -> bool)
    requires forall i :: 0 <= i < |s| ==> p(s[i]) == q(s[i])
    ensures Head(s, p) == Head(s, q)
  {
    if Head(s, p).Some? {
      var i :| IsFirst(s, p, i) && Head(s, p).value == s[i];
      assert IsFirst(s, q, i);
    }
  }
}
