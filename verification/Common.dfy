/** Small value types and sums shared by the models. */
module Common {
  datatype Option<+T> = None | Some(value: T) {
    function GetOr(default: T): T {
      if Some? then value else default
    }
  }

  datatype Result<+T, +E> = Ok(value: T) | Err(error: E)

  function Max(a: real, b: real): real {
    if a < b then b else a
  }

  function Min(a: real, b: real): real {
    if b < a then b else a
  }

  function MaxInt(a: int, b: int): int {
    if a < b then b else a
  }

  function MinInt(a: int, b: int): int {
    if b < a then b else a
  }

  /** The Unicode White_Space property, which trimming goes by. */
  predicate WhiteSpace(c: char) {
    var n := c as int;
    9 <= n <= 13 || n == 0x20 || n == 0x85 || n == 0xA0 || n == 0x1680 || 0x2000 <= n <= 0x200A
    || n == 0x2028 || n == 0x2029 || n == 0x202F || n == 0x205F || n == 0x3000
  }

  /** Nothing is left after trimming. */
  predicate Blank(s: string) {
    forall c <- s :: WhiteSpace(c)
  }

  lemma AppendAssociates<T>(a: seq<T>, b: seq<T>, c: seq<T>)
    ensures (a + b) + c == a + (b + c)
  {}

  /** The first element and the tail of a concatenation. */
  lemma HeadAndTail<T>(a: seq<T>, b: seq<T>)
    requires a != []
    ensures (a + b)[0] == a[0] && (a + b)[1..] == a[1..] + b
  {}

  /** The last element and what precedes it. */
  lemma InitAndLast<T>(a: seq<T>, x: T)
    ensures (a + [x])[..|a|] == a && (a + [x])[|a|] == x
  {}

  lemma NonNegativeProduct(a: real, b: real)
    requires a >= 0.0 && b >= 0.0
    ensures a * b >= 0.0
  {}

  lemma AtLeastOnce(a: int, b: nat)
    requires a >= 1
    ensures a * b >= b
  {}

  lemma PositiveFactor(d: real, step: real)
    requires step > 0.0
    ensures d > 0.0 <==> d * step > 0.0
  {
    if d <= 0.0 {
      NonNegativeProduct(-d, step);
      assert (-d) * step == -(d * step);
    }
  }

  /** Scaling by a positive factor keeps the order; the products are named to stay linear. */
  lemma ProductOrdered(a: real, b: real, step: real, x: real, y: real)
    requires step > 0.0 && a * step == x && b * step == y
    ensures a < b <==> x < y
  {
    assert (b - a) * step == y - x;
    PositiveFactor(b - a, step);
  }
}
