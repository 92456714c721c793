/** Unsigned big-endian integers over byte strings: the reading the client
    uses for the 3-byte size field, and the writing `intToByteArray` is assumed
    to perform. */
module BigEndian {
  import opened Basics

  /** 256 to the power k. */
  function Pow256(k: nat): (r: nat)
    ensures r >= 1
  {
    if k == 0 then 1 else 256 * Pow256(k - 1)
  }

  /** The number a byte string denotes, most significant byte first. */
  function Value(b: Bytes): (r: nat)
    ensures r < Pow256(|b|)
  {
    if b == [] then 0
    else
      var front := b[..|b| - 1];
      var v := Value(front);
      assert v * 256 <= (Pow256(|front|) - 1) * 256;
      v * 256 + b[|b| - 1]
  }

  /** The low k bytes of n, most significant first (n is taken modulo 256^k). */
  function ToBytes(n: nat, k: nat): (r: Bytes)
    ensures |r| == k
  {
    if k == 0 then [] else ToBytes(n / 256, k - 1) + [n % 256]
  }

  /** Division and remainder are unique: the quotient/remainder pair of n by m
      is the only pair satisfying n == q * m + b with 0 <= b < m. */
  lemma ModUnique(n: nat, m: nat, q: nat, b: nat)
    requires m > 0 && n == q * m + b && b < m
    ensures n % m == b && n / m == q
  {
    var q', b' := n / m, n % m;
    assert n == q' * m + b';
    if q' > q {
      MulMonotone(q + 1, q', m);
      assert false;
    } else if q' < q {
      MulMonotone(q' + 1, q, m);
      assert false;
    }
  }

  lemma MulMonotone(a: nat, b: nat, m: nat)
    requires a <= b
    ensures a * m <= b * m
  {
  }

  /** Splitting off the last byte: n modulo 256 * p is its quotient by 256
      taken modulo p, shifted back, plus its last byte. */
  lemma Recombine(n: nat, p: nat)
    requires p > 0
    ensures n % (256 * p) == ((n / 256) % p) * 256 + n % 256
  {
    var q, low := n / 256, n % 256;
    var a, c := q / p, q % p;
    assert q == a * p + c;
    assert n == q * 256 + low;
    calc {
      n;
      (a * p + c) * 256 + low;
      { assert (a * p + c) * 256 == a * (256 * p) + c * 256; }
      a * (256 * p) + (c * 256 + low);
    }
    assert c * 256 <= (p - 1) * 256;
    ModUnique(n, 256 * p, a, c * 256 + low);
  }

  /** Reading back k written bytes recovers n modulo 256^k. */
  lemma {:induction false} ValueOfToBytes(n: nat, k: nat)
    ensures Value(ToBytes(n, k)) == n % Pow256(k)
  {
    if k > 0 {
      var b := ToBytes(n, k);
      assert b[..|b| - 1] == ToBytes(n / 256, k - 1);
      ValueOfToBytes(n / 256, k - 1);
      assert Value(b) == ((n / 256) % Pow256(k - 1)) * 256 + n % 256;
      Recombine(n, Pow256(k - 1));
    }
  }

  /** Writing the value of a byte string back at its own width gives the string. */
  lemma {:induction false} ToBytesOfValue(b: Bytes)
    ensures ToBytes(Value(b), |b|) == b
  {
    if b != [] {
      var front := b[..|b| - 1];
      var v := Value(b);
      ModUnique(v, 256, Value(front), b[|b| - 1]);
      ToBytesOfValue(front);
      assert b == front + [b[|b| - 1]];
    }
  }

  /** Leading zero bytes do not change the value. */
  lemma {:induction false} LeadingZeros(z: Bytes, b: Bytes)
    requires forall i :: 0 <= i < |z| ==> z[i] == 0
    ensures Value(z + b) == Value(b)
  {
    if b == [] {
      LeadingZerosAlone(z);
      assert z + b == z;
    } else {
      var front := b[..|b| - 1];
      assert (z + b)[..|z + b| - 1] == z + front;
      LeadingZeros(z, front);
    }
  }

  /** A string of zero bytes denotes zero. */
  lemma {:induction false} LeadingZerosAlone(z: Bytes)
    requires forall i :: 0 <= i < |z| ==> z[i] == 0
    ensures Value(z) == 0
  {
    if z != [] {
      LeadingZerosAlone(z[..|z| - 1]);
    }
  }

  /** The last j of k written bytes are the j-byte writing of the same number. */
  lemma {:induction false} SuffixOfToBytes(n: nat, k: nat, j: nat)
    requires j <= k
    ensures ToBytes(n, k)[k - j..] == ToBytes(n, j)
  {
    if j > 0 {
      SuffixOfToBytes(n / 256, k - 1, j - 1);
      assert ToBytes(n, k)[k - j..] == ToBytes(n / 256, k - 1)[k - j..] + [n % 256];
    }
  }

  /** A three-byte value spelled out. */
  lemma Value3(b: Bytes)
    requires |b| == 3
    ensures Value(b) == b[0] as int * 65536 + b[1] as int * 256 + b[2] as int
  {
    var two := b[..2];
    var one := two[..1];
    assert one == [b[0]] && two == [b[0], b[1]];
    assert Value(one) == b[0] by { assert one[..0] == []; }
    assert Value(two) == Value(one) * 256 + b[1];
    assert Value(b) == Value(two) * 256 + b[2];
  }
}
