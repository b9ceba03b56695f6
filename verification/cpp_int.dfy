/** C++ integer arithmetic on unbounded integers: `/` truncates toward zero
    and `%` takes the sign of the dividend. */
module CppInt {
  /** C++ integer division, truncating toward zero. */
  function TruncDiv(a: int, b: int): int
    requires b != 0
  {
    var q := Abs(a) / Abs(b);
    if (a < 0) == (b < 0) then q else -q
  }

  /** C++ `%`: the remainder takes the sign of the dividend. */
  function TruncMod(a: int, b: int): int
    requires b != 0
  {
    a - b * TruncDiv(a, b)
  }

  function Abs(a: int): nat {
    if a < 0 then -a else a
  }

  lemma MulMono(a: nat, b: nat, c: nat)
    requires a <= b
    ensures a * c <= b * c
  {
  }

  /** Division is determined by any quotient and remainder pair. */
  lemma DivUnique(x: int, s: int, q: int, r: int)
    requires s > 0 && x == q * s + r && 0 <= r < s
    ensures x / s == q && x % s == r
  {
    var q' := x / s;
    var r' := x % s;
    assert (q - q') * s == r' - r;
    if q > q' {
      assert (q - q') * s >= s by { MulMono(1, q - q', s); }
    } else if q < q' {
      assert (q' - q) * s >= s by { MulMono(1, q' - q, s); }
    }
  }
}
