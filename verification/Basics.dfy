/** What several parts of the model share. */
module Basics {

  datatype Option<+T> = None | Some(value: T)

  /** Sign of the lexicographic comparison of two strings. */
  function StrCmp(a: string, b: string): (r: int)
    ensures r == 0 <==> a == b
  {
    if a == [] then (if b == [] then 0 else -1)
    else if b == [] then 1
    else if a[0] < b[0] then -1
    else if a[0] > b[0] then 1
    else
      assert a == [a[0]] + a[1..] && b == [b[0]] + b[1..];
      StrCmp(a[1..], b[1..])
  }

  /** s comes before t in the dictionary: they agree up to some place, where s ends or has the
      smaller character. */
  predicate Before(s: string, t: string) {
    exists k :: 0 <= k <= |s| && k < |t| && s[..k] == t[..k] && (k == |s| || s[k] < t[k])
  }

  lemma {:induction false} StrCmpBefore(s: string, t: string)
    ensures StrCmp(s, t) < 0 <==> Before(s, t)
    ensures StrCmp(s, t) > 0 <==> Before(t, s)
  {
    if s == [] {
      if t != [] { assert s[..0] == t[..0]; }
    } else if t == [] {
      assert t[..0] == s[..0];
    } else if s[0] == t[0] {
      StrCmpBefore(s[1..], t[1..]);
      BeforeTail(s, t);
      BeforeTail(t, s);
    } else {
      assert s[..0] == t[..0];
      assert forall k :: 0 < k <= |s| && k <= |t| ==> s[..k][0] != t[..k][0];
    }
  }

  lemma BeforeTail(s: string, t: string)
    requires s != [] && t != [] && s[0] == t[0]
    ensures Before(s, t) <==> Before(s[1..], t[1..])
  {
    if Before(s, t) {
      var k :| 0 <= k <= |s| && k < |t| && s[..k] == t[..k] && (k == |s| || s[k] < t[k]);
      assert s[1..][..k - 1] == s[..k][1..] && t[1..][..k - 1] == t[..k][1..];
    }
    if Before(s[1..], t[1..]) {
      var k :| 0 <= k <= |s[1..]| && k < |t[1..]| && s[1..][..k] == t[1..][..k]
               && (k == |s[1..]| || s[1..][k] < t[1..][k]);
      assert s[..k + 1] == [s[0]] + s[1..][..k] && t[..k + 1] == [t[0]] + t[1..][..k];
    }
  }
}
