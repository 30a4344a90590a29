/** What several models say about sequences. */
module Sequences {

  predicate Distinct<T(==)>(s: seq<T>)
  {
    forall i, j | 0 <= i < j < |s| :: s[i] != s[j]
  }

  function InsertAt<T>(s: seq<T>, k: nat, x: T): (r: seq<T>)
    requires k <= |s|
    ensures |r| == |s| + 1 && r[k] == x
    ensures forall i | 0 <= i < k :: r[i] == s[i]
    ensures forall i | k < i < |r| :: r[i] == s[i - 1]
  {
    s[..k] + [x] + s[k..]
  }

  function RemoveAt<T>(s: seq<T>, k: nat): (r: seq<T>)
    requires k < |s|
    ensures |r| == |s| - 1
    ensures forall i | 0 <= i < k :: r[i] == s[i]
    ensures forall i | k <= i < |r| :: r[i] == s[i + 1]
  {
    s[..k] + s[k + 1..]
  }

  function Join<T>(parts: seq<seq<T>>): seq<T>
  {
    if parts == [] then [] else parts[0] + Join(parts[1..])
  }

  function Sum(ns: seq<nat>): nat
  {
    if ns == [] then 0 else ns[0] + Sum(ns[1..])
  }

  lemma {:induction false} JoinConcat<T>(a: seq<seq<T>>, b: seq<seq<T>>)
    ensures Join(a + b) == Join(a) + Join(b)
  {
    if a == [] {
      assert a + b == b;
    } else {
      assert (a + b)[1..] == a[1..] + b;
      JoinConcat(a[1..], b);
      Assoc(a[0], Join(a[1..]), Join(b));
    }
  }

  lemma JoinLast<T>(parts: seq<seq<T>>)
    requires parts != []
    ensures var n := |parts| - 1; Join(parts) == Join(parts[..n]) + parts[n]
  {
    var n := |parts| - 1;
    JoinConcat(parts[..n], [parts[n]]);
    assert parts == parts[..n] + [parts[n]] && [parts[n]][1..] == [];
    assert Join([parts[n]]) == parts[n];
  }

  lemma Assoc<T>(a: seq<T>, b: seq<T>, c: seq<T>)
    ensures (a + b) + c == a + (b + c)
  {
  }
}
