/** Facts about Dafny's Euclidean `%` used to state cyclic navigation in closed form. */
module Modular {

  /** The quotient and remainder of a division are unique. */
  lemma ModUnique(x: int, n: int, q: int, r: int)
    requires n > 0
    requires 0 <= r < n
    requires x == q * n + r
    ensures x % n == r
    ensures x / n == q
  {
    var q', r' := x / n, x % n;
    assert x == q' * n + r';
    assert (q - q') * n == r' - r;
    OnlyZeroMultipleIsSmall(q - q', n);
  }

  /** The only multiple of `n` strictly between `-n` and `n` is zero. */
  lemma OnlyZeroMultipleIsSmall(d: int, n: int)
    requires n > 0
    requires -n < d * n < n
    ensures d == 0
  {
  }

  /** Adding whole turns of `n` does not change the remainder. */
  lemma ModAddMultiple(x: int, n: int, q: int)
    requires n > 0
    ensures (x + q * n) % n == x % n
  {
    var r := x % n;
    assert x == (x / n) * n + r;
    assert x + q * n == (x / n + q) * n + r;
    ModUnique(x + q * n, n, x / n + q, r);
  }

  /** Adding one whole turn does not change the remainder. */
  lemma ModAddTurn(x: int, n: int)
    requires n > 0
    ensures (x + n) % n == x % n
  {
    ModAddMultiple(x, n, 1);
  }

  /** A value already in `[0, n)` is its own remainder. */
  lemma ModInRange(x: int, n: int)
    requires 0 <= x < n
    ensures x % n == x
  {
    ModUnique(x, n, 0, x);
  }

  /** Going `c` steps forward and `n - c mod n` steps back end at the same place. */
  lemma ForwardBackwardSameTurn(k: int, c: int, n: int)
    requires n > 0
    ensures (k + c) % n == (k - (n - c % n)) % n
  {
    var q, r := c / n, c % n;
    assert c == q * n + r;
    ModAddTurn(k + r - n, n);
    ModAddMultiple(k + r, n, q);
    assert k + c == k + r + q * n;
  }

  /** One more makes an even count odd and an odd count even. */
  lemma OddAfterOneMore(t: int)
    ensures ((t + 1) % 2 == 1) == (t % 2 != 1)
  {
  }

  /** The position reached from `k` after `c` wrapping steps forward in `[0, n)`. */
  function StepsForward(k: int, c: nat, n: int): (r: int)
    requires 0 <= k < n
    ensures 0 <= r < n
    decreases c
  {
    if c == 0 then k else StepsForward(if k + 1 < n then k + 1 else 0, c - 1, n)
  }

  /** The position reached from `k` after `c` wrapping steps back in `[0, n)`. */
  function StepsBack(k: int, c: nat, n: int): (r: int)
    requires 0 <= k < n
    ensures 0 <= r < n
    decreases c
  {
    if c == 0 then k else StepsBack(if k >= 1 then k - 1 else n - 1, c - 1, n)
  }

  /** Walking forward step by step is adding modulo `n`. */
  lemma {:induction false} StepsForwardIsMod(k: int, c: nat, n: int)
    requires 0 <= k < n
    ensures StepsForward(k, c, n) == (k + c) % n
    decreases c
  {
    if c == 0 {
      ModInRange(k, n);
    } else {
      var k' := if k + 1 < n then k + 1 else 0;
      StepsForwardIsMod(k', c - 1, n);
      if k + 1 == n {
        ModAddTurn(c - 1, n);
      }
    }
  }

  /** Walking back step by step is subtracting modulo `n`. */
  lemma {:induction false} StepsBackIsMod(k: int, c: nat, n: int)
    requires 0 <= k < n
    ensures StepsBack(k, c, n) == (k - c) % n
    decreases c
  {
    if c == 0 {
      ModInRange(k, n);
    } else {
      var k' := if k >= 1 then k - 1 else n - 1;
      StepsBackIsMod(k', c - 1, n);
      if k == 0 {
        ModAddTurn(k - c, n);
      }
    }
  }

  /** `n` steps forward come back to the start. */
  lemma FullTurnForward(k: int, n: int)
    requires 0 <= k < n
    ensures StepsForward(k, n, n) == k
  {
    StepsForwardIsMod(k, n, n);
    ModAddTurn(k, n);
    ModInRange(k, n);
  }

  /** `c` steps forward and `n - c mod n` steps back reach the same position. */
  lemma ForwardMeetsBackward(k: int, c: nat, n: int)
    requires 0 <= k < n
    ensures StepsForward(k, c, n) == StepsBack(k, n - c % n, n)
  {
    StepsForwardIsMod(k, c, n);
    StepsBackIsMod(k, n - c % n, n);
    ForwardBackwardSameTurn(k, c, n);
  }
}
