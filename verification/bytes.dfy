/** Bytes and big-endian numbers. */
module Bytes {

  type byte = b: int | 0 <= b < 256

  /** 256 to the power `k`. */
  function Base(k: nat): (p: nat)
    ensures p >= 1
  {
    if k == 0 then 1 else 256 * Base(k - 1)
  }

  /** The number a byte string spells, most significant byte first (`big.Int.SetBytes`, `binary.BigEndian`). */
  function Number(bs: seq<byte>): (n: nat)
  {
    if bs == [] then 0 else 256 * Number(bs[..|bs| - 1]) + bs[|bs| - 1]
  }

  /** The shortest byte string spelling `n` (`big.Int.Bytes`). */
  function Digits(n: nat): (bs: seq<byte>)
  {
    if n == 0 then [] else Digits(n / 256) + [n % 256]
  }

  lemma {:induction false} NumberBound(bs: seq<byte>)
    ensures Number(bs) < Base(|bs|)
  {
    if bs != [] {
      NumberBound(bs[..|bs| - 1]);
    }
  }

  lemma {:induction false} DigitsFit(n: nat, k: nat)
    requires n < Base(k)
    ensures |Digits(n)| <= k && Number(Digits(n)) == n
  {
    if n != 0 {
      assert k != 0 && n / 256 < Base(k - 1);
      DigitsFit(n / 256, k - 1);
      assert Digits(n)[..|Digits(n)| - 1] == Digits(n / 256);
    }
  }

  /** One more place: multiplying by 256 carries over to the power. */
  lemma {:induction false} CarryPlace(x: nat, k: nat, y: nat)
    ensures 256 * (x * Base(k) + y) == x * Base(k + 1) + 256 * y
  {
    var p := Base(k);
    assert Base(k + 1) == 256 * p;
    Reassociate(256, x, p);
  }

  lemma {:induction false} Reassociate(a: nat, x: nat, p: nat)
    ensures a * (x * p) == x * (a * p) == (a * x) * p
  {
  }

  /** Reading a concatenation: the front counts for as many places as the back has bytes. */
  lemma {:induction false} NumberConcat(a: seq<byte>, b: seq<byte>)
    ensures Number(a + b) == Number(a) * Base(|b|) + Number(b)
  {
    if b == [] {
      assert a + b == a;
    } else {
      var b' := b[..|b| - 1];
      assert (a + b)[..|a + b| - 1] == a + b';
      NumberConcat(a, b');
      CarryPlace(Number(a), |b'|, Number(b'));
    }
  }

  function Zeros(k: nat): (bs: seq<byte>)
    ensures |bs| == k && forall i :: 0 <= i < k ==> bs[i] == 0
  {
    seq(k, i => 0)
  }

  lemma {:induction false} NumberZeros(k: nat)
    ensures Number(Zeros(k)) == 0
  {
    if k != 0 {
      assert Zeros(k)[..k - 1] == Zeros(k - 1);
      NumberZeros(k - 1);
    }
  }

  /** Equally long byte strings spelling the same number are equal. */
  lemma {:induction false} NumberInjective(a: seq<byte>, b: seq<byte>)
    requires |a| == |b| && Number(a) == Number(b)
    ensures a == b
  {
    if a != [] {
      var n := |a| - 1;
      var x, y := Number(a[..n]), Number(b[..n]);
      assert 256 * x + a[n] == 256 * y + b[n];
      assert x == y && a[n] == b[n];
      NumberInjective(a[..n], b[..n]);
      assert a == a[..n] + [a[n]] && b == b[..n] + [b[n]];
    }
  }

  lemma {:induction false} BaseSum(a: nat, b: nat)
    ensures Base(a + b) == Base(a) * Base(b)
  {
    if a != 0 {
      BaseSum(a - 1, b);
      Reassociate(256, Base(a - 1), Base(b));
    }
  }
}
