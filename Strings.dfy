/** The few `java.lang.String` operations the core relies on. */
module Strings {

  /** `s.indexOf(c)`: the first position of c in s, or -1 if c does not occur. */
  function IndexOf(s: string, c: char): (i: int)
    ensures -1 <= i < |s|
    ensures i >= 0 ==> s[i] == c
    ensures i == -1 ==> forall k :: 0 <= k < |s| ==> s[k] != c
    ensures forall k :: 0 <= k < i ==> s[k] != c
  {
    if s == [] then -1
    else if s[0] == c then 0
    else
      var k := IndexOf(s[1..], c);
      if k == -1 then -1 else k + 1
  }

  /** `s.replace(a, b)`: every a replaced by b. */
  function Replace(s: string, a: char, b: char): (r: string)
    ensures |r| == |s|
    ensures forall i :: 0 <= i < |s| ==> r[i] == if s[i] == a then b else s[i]
  {
    if s == [] then []
    else [if s[0] == a then b else s[0]] + Replace(s[1..], a, b)
  }

  /** Replacing a character that does not occur changes nothing. */
  lemma ReplaceAbsent(s: string, a: char, b: char)
    requires forall k :: 0 <= k < |s| ==> s[k] != a
    ensures Replace(s, a, b) == s
  {
  }

  /** Searching a concatenation whose first part lacks c searches the second part. */
  lemma IndexOfAppend(a: string, b: string, c: char)
    requires forall k :: 0 <= k < |a| ==> a[k] != c
    ensures IndexOf(a + b, c) == if IndexOf(b, c) == -1 then -1 else |a| + IndexOf(b, c)
  {
    var s := a + b;
    var j := IndexOf(b, c);
    if j == -1 {
      assert forall k | 0 <= k < |s| :: s[k] == if k < |a| then a[k] else b[k - |a|];
    } else {
      assert s[|a| + j] == c;
      assert s[..|a| + j] == a + b[..j];
    }
  }

  /** The pieces of a concatenation around a three-character window in its second part. */
  lemma SlicesOfAppend(a: string, b: string, j: int)
    requires 0 <= j && j + 3 <= |b|
    ensures (a + b)[..|a| + j] == a + b[..j]
    ensures (a + b)[|a| + j + 1..|a| + j + 3] == b[j + 1..j + 3]
    ensures (a + b)[|a| + j + 3..] == b[j + 3..]
  {
  }
}
