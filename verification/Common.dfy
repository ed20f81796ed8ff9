/** Values and arithmetic shared by the other modules. */
module Common {

  datatype Option<+T> = None | Some(value: T)

  datatype Result<+T, +E> = Ok(value: T) | Err(error: E)

  function Min(a: int, b: int): int {
    if a <= b then a else b
  }

  function Max(a: int, b: int): int {
    if a >= b then a else b
  }

  function Abs(x: int): nat {
    if x < 0 then -x else x
  }

  lemma MulMono(m: nat, a: int, b: int)
    requires a >= b
    ensures m * a >= m * b
  {
  }

  lemma QuotientUnique(v: nat, m: nat, q: nat, r: nat)
    requires m > 0 && v == m * q + r && r < m
    ensures v / m == q && v % m == r
  {
    var k := v / m;
    if k > q { MulMono(m, k, q + 1); } else if k < q { MulMono(m, q, k + 1); }
  }
}
