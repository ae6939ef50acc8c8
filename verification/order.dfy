/**
 The order Python's `sorted` uses on site names: `str` comparison, which is
 lexicographic on code points, a proper prefix coming first.
 */
module Lexicographic {

  /** `a < b` on Python strings. */
  predicate Less(a: string, b: string)
    decreases |a|
  {
    if |a| == 0 then |b| > 0
    else if |b| == 0 then false
    else a[0] < b[0] || (a[0] == b[0] && Less(a[1..], b[1..]))
  }

  lemma {:induction false} LessIrreflexive(a: string)
    ensures !Less(a, a)
    decreases |a|
  {
    if |a| > 0 {
      LessIrreflexive(a[1..]);
    }
  }

  lemma {:induction false} LessTransitive(a: string, b: string, c: string)
    requires Less(a, b) && Less(b, c)
    ensures Less(a, c)
    decreases |a|
  {
    if |a| > 0 {
      if a[0] == b[0] && b[0] == c[0] {
        LessTransitive(a[1..], b[1..], c[1..]);
      }
    }
  }

  /** Any two distinct strings are ordered one way or the other. */
  lemma {:induction false} LessTotal(a: string, b: string)
    requires a != b
    ensures Less(a, b) || Less(b, a)
    decreases |a|
  {
    if |a| > 0 && |b| > 0 && a[0] == b[0] {
      assert a == [a[0]] + a[1..] && b == [b[0]] + b[1..];
      LessTotal(a[1..], b[1..]);
    }
  }

  lemma {:induction false} LessAsymmetric(a: string, b: string)
    requires Less(a, b)
    ensures !Less(b, a)
  {
    if Less(b, a) {
      LessTransitive(a, b, a);
      LessIrreflexive(a);
    }
  }

  /** Ascending with no repeated element, as `sorted` returns the keys of a dict. */
  predicate StrictlySorted(s: seq<string>) {
    forall i, j :: 0 <= i < j < |s| ==> Less(s[i], s[j])
  }

  /** Puts `x` into its place in an ascending sequence (a no-op when it is already there). */
  function Insert(s: seq<string>, x: string): (r: seq<string>)
    requires StrictlySorted(s)
    ensures StrictlySorted(r)
    ensures forall y :: y in r <==> y in s || y == x
    ensures |r| == if x in s then |s| else |s| + 1
    decreases |s|
  {
    if |s| == 0 then [x]
    else if s[0] == x then s
    else if Less(x, s[0]) then
      InsertHead(s, x);
      [x] + s
    else
      LessTotal(x, s[0]);
      var t := Insert(s[1..], x);
      assert forall y :: y in s <==> y == s[0] || y in s[1..];
      InsertTail(s[0], t);
      [s[0]] + t
  }

  lemma InsertHead(s: seq<string>, x: string)
    requires StrictlySorted(s) && |s| > 0 && Less(x, s[0])
    ensures StrictlySorted([x] + s)
    ensures x !in s
  {
    forall j | 0 <= j < |s| ensures Less(x, s[j]) {
      if j > 0 {
        LessTransitive(x, s[0], s[j]);
      }
    }
    if x in s {
      var j :| 0 <= j < |s| && s[j] == x;
      LessIrreflexive(x);
    }
  }

  lemma InsertTail(h: string, t: seq<string>)
    requires StrictlySorted(t)
    requires forall y :: y in t ==> Less(h, y)
    ensures StrictlySorted([h] + t)
  {
    forall j | 0 <= j < |t| ensures Less(h, t[j]) {
      assert t[j] in t;
    }
  }

  /** The head of an ascending sequence is its least element. */
  lemma HeadIsLeast(s: seq<string>, y: string)
    requires StrictlySorted(s) && y in s
    ensures y == s[0] || Less(s[0], y)
  {
  }

  /** A set of strings has exactly one strictly ascending listing. */
  lemma {:induction false} SortedUnique(a: seq<string>, b: seq<string>)
    requires StrictlySorted(a) && StrictlySorted(b)
    requires forall y :: y in a <==> y in b
    ensures a == b
    decreases |a|
  {
    assert |b| > 0 ==> b[0] in a;
    if |a| > 0 {
      assert a[0] in b;
      HeadIsLeast(a, b[0]);
      HeadIsLeast(b, a[0]);
      if Less(a[0], b[0]) {
        LessAsymmetric(a[0], b[0]);
      }
      forall y ensures y in a[1..] <==> y in b[1..] {
        if y in a[1..] {
          var i :| 1 <= i < |a| && a[i] == y;
          assert Less(a[0], y);
          LessIrreflexive(y);
          assert y in b;
        }
        if y in b[1..] {
          var j :| 1 <= j < |b| && b[j] == y;
          assert Less(b[0], y);
          LessIrreflexive(y);
          assert y in a;
        }
      }
      SortedUnique(a[1..], b[1..]);
      assert a == [a[0]] + a[1..] && b == [b[0]] + b[1..];
    }
  }
}
