/** Shared by the other modules. */
module Common {
  datatype Option<T> = None | Some(value: T)

  ghost function Lookup<K>(m: map<K, int>, k: K): Option<int> {
    if k in m then Some(m[k]) else None
  }

  ghost predicate Distinct<T>(s: seq<T>) {
    forall i, j | 0 <= i < j < |s| :: s[i] != s[j]
  }

  /** Where n stands first in s; |s| when it does not. */
  function IndexOf(s: seq<int>, n: int): (k: int)
    ensures 0 <= k <= |s|
    ensures k < |s| ==> s[k] == n
    ensures forall i | 0 <= i < k :: s[i] != n
    ensures n in s ==> k < |s|
  {
    if s == [] || s[0] == n then 0 else 1 + IndexOf(s[1..], n)
  }

  lemma AnyOf(s: set<int>) returns (x: int)
    requires s != {}
    ensures x in s
  {
    assert (forall y :: y !in s) ==> s == {};
    x :| x in s;
  }

  /** A number greater than all in a set: the identity of a new task. */
  lemma {:induction false} NewNumber(s: set<int>) returns (t: int)
    ensures t !in s && forall x | x in s :: x < t
    decreases |s|
  {
    if x :| x in s {
      var u := NewNumber(s - {x});
      t := if u <= x then x + 1 else u;
      assert forall y | y in s :: y == x || y in s - {x};
    } else {
      t := 0;
    }
  }

  lemma Divides(x: int, d: int, q: int, r: int)
    requires x == d * q + r && 0 <= r < d
    ensures x / d == q && x % d == r
  {
    var e := x / d - q;
    assert d * (x / d) + x % d == x;
    assert d * e == r - x % d;
    SmallMultiple(d, e);
  }

  lemma SmallMultiple(d: int, e: int)
    requires -d < d * e < d
    ensures e == 0
  {
    assert e >= 1 ==> d * e >= d;
    assert e <= -1 ==> d * e <= -d;
  }
}
