/** Unsigned big-endian integers over byte sequences: Python's
    `int.from_bytes(b, 'big')` and `n.to_bytes(len, 'big')`. */
module BigEndian {

  /** One octet; Python's `bytes` elements. */
  type byte = x: int | 0 <= x < 256

  /** 256^n, the number of values an n-byte unsigned integer can hold. */
  function Pow256(n: nat): (r: nat)
    ensures r >= 1
  {
    if n == 0 then 1 else 256 * Pow256(n - 1)
  }

  /** `int.from_bytes(s, byteorder='big')`. */
  function FromBE(s: seq<byte>): (r: nat)
    ensures r < Pow256(|s|)
  {
    if |s| == 0 then 0
    else
      var hi := FromBE(s[..|s| - 1]);
      assert hi <= Pow256(|s| - 1) - 1;
      MulMonotone(hi, Pow256(|s| - 1) - 1, 256);
      hi * 256 + s[|s| - 1]
  }

  /** `x.to_bytes(n, byteorder='big')`; Python raises `OverflowError` when `x`
      does not fit, which is this function's precondition. */
  function ToBE(x: nat, n: nat): (r: seq<byte>)
    requires x < Pow256(n)
    ensures |r| == n
    ensures FromBE(r) == x
  {
    if n == 0 then []
    else
      DivBound(x, 256, Pow256(n - 1));
      var prefix := ToBE(x / 256, n - 1);
      var r := prefix + [x % 256];
      assert r[..|r| - 1] == prefix;
      r
  }

  lemma MulMonotone(a: nat, b: nat, m: nat)
    requires a <= b
    ensures a * m <= b * m
  {
    assert b * m - a * m == (b - a) * m;
  }

  /** `x < m * p` bounds the quotient by `p`. */
  lemma DivBound(x: nat, m: nat, p: nat)
    requires m > 0
    requires x < m * p
    ensures x / m < p
  {
    if x / m >= p {
      MulMonotone(p, x / m, m);
      assert false;
    }
  }

  /** Unique quotient and remainder: `(q * m + r) / m == q` and `% m == r`. */
  lemma DivModOf(n: nat, q: nat, m: nat, r: nat)
    requires r < m
    requires n == q * m + r
    ensures n / m == q
    ensures n % m == r
  {
    var q', r' := n / m, n % m;
    assert n == q' * m + r';
    if q' > q {
      MulMonotone(q + 1, q', m);
    } else if q' < q {
      MulMonotone(q' + 1, q, m);
    }
  }

  /** The big-endian value of a concatenation: the high part is shifted by
      the width of the low part. */
  lemma {:induction false} FromBEConcat(a: seq<byte>, b: seq<byte>)
    ensures FromBE(a + b) == FromBE(a) * Pow256(|b|) + FromBE(b)
  {
    if |b| == 0 {
      assert a + b == a;
    } else {
      var b' := b[..|b| - 1];
      assert (a + b)[..|a + b| - 1] == a + b';
      FromBEConcat(a, b');
      var x, p, y, last := FromBE(a), Pow256(|b'|), FromBE(b'), b[|b| - 1];
      assert FromBE(a + b) == FromBE(a + b') * 256 + last;
      assert FromBE(a + b') == x * p + y;
      assert Pow256(|b|) == 256 * p;
      assert FromBE(b) == y * 256 + last;
      ShiftStep(x, p, y, last);
    }
  }

  lemma ShiftStep(x: int, p: int, y: int, last: int)
    ensures (x * p + y) * 256 + last == x * (256 * p) + (y * 256 + last)
  {
  }

  /** Splitting a word at byte `k`: the high bytes are the quotient and the
      low bytes the remainder of the division by 256^(|s| - k). */
  lemma SplitAt(s: seq<byte>, k: nat)
    requires k <= |s|
    ensures FromBE(s) / Pow256(|s| - k) == FromBE(s[..k])
    ensures FromBE(s) % Pow256(|s| - k) == FromBE(s[k..])
  {
    var hi, lo := s[..k], s[k..];
    assert s == hi + lo;
    FromBEConcat(hi, lo);
    assert |lo| == |s| - k;
    var q, m, r := FromBE(hi), Pow256(|lo|), FromBE(lo);
    DivModOf(FromBE(s), q, m, r);
  }
}
