/** Java's signed bytes and the arithmetic the transfer code does on them. */
module Bytes {

  /** A Java `byte`: a two's-complement 8-bit integer. */
  newtype JByte = b: int | -128 <= b < 128

  /** Java's narrowing cast `(byte) x`: keeps the low eight bits and reads them as signed. */
  function Narrow(x: int): (b: JByte)
    ensures (b as int - x) % 256 == 0
    ensures -128 <= x < 128 ==> b as int == x
  {
    ((x + 128) % 256 - 128) as JByte
  }

  /** Two integers that agree modulo 256 narrow to the same byte. */
  lemma NarrowCongruent(x: int, y: int)
    requires (x - y) % 256 == 0
    ensures Narrow(x) == Narrow(y)
  {
    var q := (x - y) / 256;
    assert x == y + 256 * q;
    assert (x + 128) % 256 == (y + 128) % 256 by {
      ModShift(y + 128, q);
    }
  }

  lemma ModShift(a: int, q: int)
    ensures (a + 256 * q) % 256 == a % 256
  {
    var r := a % 256;
    var d := a / 256;
    assert a == 256 * d + r;
    assert a + 256 * q == 256 * (d + q) + r;
  }

  /** Counting down by one in int arithmetic and narrowing undoes a narrowed increment. */
  lemma NarrowPredecessor(k: int)
    ensures Narrow(Narrow(k + 1) as int - 1) == Narrow(k)
  {
    NarrowCongruent(Narrow(k + 1) as int - 1, k);
  }

  /** Counting back by one in `int` and narrowing reaches `prev` exactly when `n` is `prev`'s wrapped successor. */
  lemma NarrowSuccessor(n: JByte, prev: JByte)
    ensures Narrow(n as int - 1) == prev <==> n == Narrow(prev as int + 1)
  {
    if Narrow(n as int - 1) == prev {
      var q := (prev as int - (n as int - 1)) / 256;
      assert prev as int - (n as int - 1) == 256 * q;
      ModShift(0, -q);
      NarrowCongruent(n as int, prev as int + 1);
    }
    if n == Narrow(prev as int + 1) {
      var q := (n as int - (prev as int + 1)) / 256;
      assert n as int - (prev as int + 1) == 256 * q;
      ModShift(0, -q);
      NarrowCongruent(prev as int, n as int - 1);
    }
  }

  /** A freshly allocated Java array: every element is zero. */
  function Zeros(n: nat): (z: seq<JByte>)
    ensures |z| == n
    ensures forall k :: 0 <= k < n ==> z[k] == 0
  {
    if n == 0 then [] else [0] + Zeros(n - 1)
  }
}

/** The `Option` and `Result` datatypes. */
module Wrappers {

  datatype Option<+T> = None | Some(value: T)

  datatype Result<+T, +E> = Success(value: T) | Failure(error: E)
}
