/** The numbers below n that satisfy a predicate, in ascending order. */
module Ascending {

  function Below(n: nat, keep: nat -> bool): seq<nat> {
    if n == 0 then [] else Below(n - 1, keep) + if keep(n - 1) then [n - 1] else []
  }

  lemma {:induction false} BelowIs(n: nat, keep: nat -> bool)
    ensures |Below(n, keep)| <= n
    ensures forall x: nat :: x in Below(n, keep) <==> x < n && keep(x)
  {
    if n > 0 { BelowIs(n - 1, keep); }
  }

  lemma {:induction false} BelowAscends(n: nat, keep: nat -> bool)
    ensures forall a, b :: 0 <= a < b < |Below(n, keep)| ==> Below(n, keep)[a] < Below(n, keep)[b]
  {
    if n > 0 {
      BelowAscends(n - 1, keep);
      BelowIs(n - 1, keep);
      var s := Below(n - 1, keep);
      assert forall a :: 0 <= a < |s| ==> s[a] in s;
    }
  }

  lemma BelowNext(n: nat, keep: nat -> bool)
    ensures Below(0, keep) == []
    ensures Below(n + 1, keep) == if keep(n) then Below(n, keep) + [n] else Below(n, keep)
  {
  }

  lemma {:induction false} BelowGap(a: nat, b: nat, keep: nat -> bool)
    requires a <= b && forall k: nat :: a <= k < b ==> !keep(k)
    ensures Below(b, keep) == Below(a, keep)
    decreases b
  {
    if a < b { BelowGap(a, b - 1, keep); }
  }

  lemma {:induction false} BelowPrefix(a: nat, b: nat, keep: nat -> bool)
    requires a <= b
    ensures Below(a, keep) <= Below(b, keep)
    ensures forall i :: |Below(a, keep)| <= i < |Below(b, keep)| ==> Below(b, keep)[i] >= a
    decreases b
  {
    if a < b { BelowPrefix(a, b - 1, keep); }
  }

  /** An element stands at the position that counts the elements before it. */
  lemma BelowAt(x: nat, n: nat, keep: nat -> bool)
    requires x < n && keep(x)
    ensures |Below(x, keep)| < |Below(n, keep)| && Below(n, keep)[|Below(x, keep)|] == x
  {
    BelowNext(x, keep);
    BelowPrefix(x + 1, n, keep);
  }

  lemma {:induction false} BelowPositions(n: nat, keep: nat -> bool)
    ensures forall i :: 0 <= i < |Below(n, keep)| ==>
              Below(n, keep)[i] < n && keep(Below(n, keep)[i]) && |Below(Below(n, keep)[i], keep)| == i
  {
    if n > 0 { BelowPositions(n - 1, keep); }
  }
}
