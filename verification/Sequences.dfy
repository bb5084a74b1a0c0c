/** What the list operations of common/list.c do to the sequence of their elements. */
module Sequences {
  /** All but the element at position `k`. */
  function Without<T>(s: seq<T>, k: nat): seq<T>
    requires k < |s|
  {
    s[..k] + s[k + 1..]
  }

  /** `list_remove_element`: the list without the first occurrence of `x`. */
  function Dropped<T(==)>(s: seq<T>, x: T): (r: seq<T>) {
    if s == [] then [] else if s[0] == x then s[1..] else [s[0]] + Dropped(s[1..], x)
  }

  lemma {:induction false} DroppedAt<T>(s: seq<T>, k: nat)
    requires k < |s| && forall i :: 0 <= i < k ==> s[i] != s[k]
    ensures Dropped(s, s[k]) == Without(s, k)
  {
    if k > 0 {
      var t := s[1..];
      assert t[k - 1] == s[k] && s[0] != s[k];
      DroppedAt(t, k - 1);
      assert [s[0]] + Without(t, k - 1) == Without(s, k);
    }
  }

  lemma WithoutAt<T>(s: seq<T>, k: nat, d: T)
    requires k < |s| && forall i :: 0 <= i < |s| && i != k ==> s[i] != s[k]
    ensures d in Without(s, k) <==> d in s && d != s[k]
  {
    var rest := Without(s, k);
    if d in s && d != s[k] {
      var i :| 0 <= i < |s| && s[i] == d;
      assert d == rest[if i < k then i else i - 1];
    }
    assert forall i :: 0 <= i < |rest| ==> rest[i] == s[if i < k then i else i + 1];
  }
}
