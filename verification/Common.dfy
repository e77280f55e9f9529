/** Shared vocabulary of the models. */
module Common {
  datatype Option<+T> = None | Some(value: T)

  // IM_STATUS
  const NOERROR := 2
  const SUCCESS := 1
  const FAILED := 0
  const NOT_SUPPORTED := -1
  const INVALID_PARAM := -3
  const ILLEGAL_PARAM := -4
  const ERROR_VERSION := -5

  /** The first refusal of two checks made in turn, if any. */
  function Then(first: int, second: int): int { if first != SUCCESS then first else second }
}

/** Facts about products that several proofs share. */
module Arithmetic {
  lemma Unique(n: int, d: nat, q: int, r: int)
    requires n == d * q + r && 0 <= r < d
    ensures n / d == q && n % d == r
  {
    var q', r' := n / d, n % d;
    var e := q - q';
    assert d * e == r' - r by {
      assert n == d * q' + r';
      assert d * e == d * q - d * q';
    }
    assert d * -e == -(d * e);
    if e >= 1 {
      AtLeastOnce(d, e);
    } else if e <= -1 {
      AtLeastOnce(d, -e);
    }
  }

  lemma AtLeastOnce(d: nat, k: nat)
    requires k >= 1
    ensures d * k >= d
  {
    assert d * k == d + d * (k - 1);
  }

  lemma ProductPositive(x: real, y: real)
    requires x > 0.0 && y > 0.0
    ensures x * y > 0.0 && x / y > 0.0
  {
  }
}
