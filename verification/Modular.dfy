/** The arithmetic of indices that wrap at the capacity. */
module Modular {

  /** The slot of counter `k`: `k % cap`, by repeated subtraction (see WrapIsMod). */
  function Wrap(k: nat, cap: nat): (i: nat)
    requires cap > 0
    ensures i < cap
    decreases k
  {
    if k < cap then k else Wrap(k - cap, cap)
  }

  /** The source's index increment. */
  function NextIndex(i: nat, cap: nat): (n: nat)
    requires cap > 0
    ensures i < cap ==> n == if i + 1 == cap then 0 else i + 1
    ensures n < cap
  {
    (i + 1) % cap
  }

  lemma {:induction false} WrapIsMod(k: nat, cap: nat)
    requires cap > 0
    ensures Wrap(k, cap) == k % cap
    decreases k
  {
    if k >= cap {
      WrapIsMod(k - cap, cap);
      ModMinusOne(k, cap);
    }
  }

  lemma ModMinusOne(k: nat, cap: nat)
    requires 0 < cap <= k
    ensures (k - cap) % cap == k % cap
  {
    var q, r := (k - cap) / cap, (k - cap) % cap;
    var q', r' := k / cap, k % cap;
    assert cap * (q' - q - 1) == r - r' by {
      assert k == cap * q' + r' && k - cap == cap * q + r;
    }
    MultipleGrows(q' - q - 1, cap);
  }

  lemma MultipleGrows(d: int, cap: int)
    requires cap > 0
    ensures d >= 1 ==> cap * d >= cap
    ensures d <= -1 ==> cap * d <= -cap
  {
  }

  /** Incrementing the index follows incrementing the counter. */
  lemma {:induction false} WrapNext(k: nat, cap: nat)
    requires cap > 0
    ensures NextIndex(Wrap(k, cap), cap) == Wrap(k + 1, cap)
    decreases k
  {
    if k >= cap {
      WrapNext(k - cap, cap);
    }
  }

  /** Two counters less than the capacity apart share an index only when they are equal. */
  lemma {:induction false} WrapInjective(a: nat, b: nat, cap: nat)
    requires cap > 0 && a <= b < a + cap
    ensures Wrap(a, cap) == Wrap(b, cap) ==> a == b
    decreases a
  {
    if a >= cap {
      WrapInjective(a - cap, b - cap, cap);
    } else if b >= cap {
      assert Wrap(b, cap) == b - cap < a;
    }
  }
}
