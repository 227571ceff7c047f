/** Facts about division and multiples that the partition arithmetic rests on. */
module Arith {

  function Min(a: int, b: int): int {
    if a < b then a else b
  }

  /** Go's integer division: it truncates toward zero, where Dafny's rounds down for a
      negative dividend. */
  function GoDiv(a: int, b: int): int
    requires b > 0
  {
    if a >= 0 then a / b else -((-a) / b)
  }

  /** What is left over has the sign of the dividend and is smaller than the divisor. */
  lemma {:induction false} GoDivTruncates(a: int, b: int)
    requires b > 0
    ensures var rest := a - GoDiv(a, b) * b;
            && -b < rest < b && (a >= 0 ==> rest >= 0) && (a <= 0 ==> rest <= 0)
  {
    if a >= 0 {
      assert a == (a / b) * b + a % b;
    } else {
      assert -a == ((-a) / b) * b + (-a) % b;
      assert (-((-a) / b)) * b == -(((-a) / b) * b);
    }
  }

  lemma {:induction false} DivBound(n: nat, total: int, size: int)
    requires size > 0 && total >= 0
    ensures n <= total / size <==> n * size <= total
  {
    var q := total / size;
    assert total == q * size + total % size;
    if n <= q {
      assert n * size <= q * size;
    } else {
      assert n * size >= (q + 1) * size;
    }
  }

  /** The truncated quotient bounds a count exactly as the true quotient does. */
  lemma {:induction false} GoDivBound(n: nat, total: int, size: int)
    requires size > 0
    ensures total >= 0 ==> (n <= GoDiv(total, size) <==> n * size <= total)
    ensures GoDiv(total, size) > 0 <==> total >= size
  {
    if total >= 0 {
      DivBound(n, total, size);
      DivBound(1, total, size);
    }
  }

  lemma {:induction false} MulMono(a: int, b: int, size: int)
    requires size >= 0 && a <= b
    ensures a * size <= b * size
  {
  }

  lemma {:induction false} MulReflects(a: int, b: int, size: int)
    requires size > 0 && a * size < b * size
    ensures a < b
  {
    if b <= a {
      MulMono(b, a, size);
    }
  }

  lemma {:induction false} MultipleOf(k: int, size: int)
    requires size > 0
    ensures (k * size) % size == 0 && (k * size) / size == k
  {
    var q, r := (k * size) / size, (k * size) % size;
    assert k * size == q * size + r;
    assert k * size < (q + 1) * size && q * size < (k + 1) * size;
    MulReflects(k, q + 1, size);
    MulReflects(q, k + 1, size);
  }

  lemma {:induction false} Quotient(a: int, size: int)
    requires size > 0 && a % size == 0
    ensures a == (a / size) * size
  {
  }

  /** Two different multiples of a size are at least that size apart. */
  lemma {:induction false} MultiplesApart(a: int, b: int, size: int)
    requires size > 0 && a % size == 0 && b % size == 0 && a < b
    ensures a + size <= b
  {
    var i, j := a / size, b / size;
    assert a == i * size && b == j * size;
    MulReflects(i, j, size);
    MulMono(i + 1, j, size);
  }

  lemma {:induction false} SumOfMultiples(a: int, b: int, size: int)
    requires size > 0 && a % size == 0 && b % size == 0
    ensures (a + b) % size == 0
  {
    Quotient(a, size);
    Quotient(b, size);
    MultipleOf(a / size + b / size, size);
    assert (a / size + b / size) * size == a + b;
  }

  lemma {:induction false} DividesThrough(a: int, b: int, c: int)
    requires b > 0 && c > 0 && a % b == 0 && b % c == 0
    ensures a % c == 0
  {
    Quotient(a, b);
    Quotient(b, c);
    var i, j := a / b, b / c;
    assert a == i * (j * c) == (i * j) * c;
    MultipleOf(i * j, c);
  }
}
