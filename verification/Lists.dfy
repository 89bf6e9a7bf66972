/** Lists without repetition, and optional values. */
module Lists {

  datatype Option<+T> = None | Some(value: T)

  predicate Distinct(s: seq<nat>) {
    forall i, j :: 0 <= i < j < |s| ==> s[i] != s[j]
  }

  function Members(s: seq<nat>): set<nat> { set i | 0 <= i < |s| :: s[i] }

  lemma MembersIn(s: seq<nat>)
    ensures forall a :: a in Members(s) <==> a in s
  {
  }

  lemma DistinctConcat(a: seq<nat>, b: seq<nat>)
    requires Distinct(a) && Distinct(b) && forall x :: x in b ==> x !in a
    ensures Distinct(a + b)
  {
    forall i, j | 0 <= i < j < |a + b| ensures (a + b)[i] != (a + b)[j] {
      if i < |a| <= j { assert a[i] in a && b[j - |a|] in b; }
    }
  }

  lemma Around<T>(l: seq<T>, a: seq<T>, b: seq<T>, r: seq<T>)
    ensures l + (a + b) + r == (l + a) + b + r == l + a + (b + r)
  {
  }

  lemma Regroup<T>(a: seq<T>, b: seq<T>, c: seq<T>, d: seq<T>, e: seq<T>, f: seq<T>, g: seq<T>)
    ensures a + b + (c + d + e) + f + g == (a + b + c) + d + (e + f + g)
    ensures a + b + ((c + d + e) + f + g) == (a + b + c) + d + (e + f + g)
  {
  }

  lemma Regroup4<T>(a: seq<T>, b: seq<T>, c: seq<T>, d: seq<T>)
    ensures a + b + (c + d) == (a + b + c) + d && (a + b) + c + d == a + (b + c + d)
  {
  }

  lemma Regroup5<T>(a: seq<T>, b: seq<T>, c: seq<T>, d: seq<T>, e: seq<T>)
    ensures a + b + (c + d + e) == (a + b + c) + d + e
  {
  }

  /** r_list_delete_data: drop the first occurrence. */
  function Without(s: seq<nat>, x: nat): seq<nat> {
    if s == [] then [] else if s[0] == x then s[1..] else [s[0]] + Without(s[1..], x)
  }

  lemma {:induction false} WithoutMembers(s: seq<nat>, x: nat)
    requires Distinct(s)
    ensures Distinct(Without(s, x)) && forall y :: y in Without(s, x) <==> y in s && y != x
    ensures x !in s ==> Without(s, x) == s
    ensures |Without(s, x)| == |s| - (if x in s then 1 else 0)
  {
    if s != [] {
      forall i | 0 < i < |s| ensures s[i] != s[0] {}
      if s[0] != x {
        WithoutMembers(s[1..], x);
        assert s == [s[0]] + s[1..];
        DistinctConcat([s[0]], Without(s[1..], x));
      } else {
        assert forall y :: y in s <==> y == x || y in s[1..];
      }
    }
  }
}
