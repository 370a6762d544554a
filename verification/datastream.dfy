/**
 * QDataStream's integer wire format (big-endian two's complement) and the two
 * cursors that the codec uses: a writer appending to a byte buffer and a
 * reader advancing over a byte array.
 */
module DataStream {

  type Byte = x: int | 0 <= x < 256

  /** Widths in bytes of qint32 and qint64. */
  const Int32Width: nat := 4
  const Int64Width: nat := 8

  function Pow256(n: nat): (p: int)
    ensures p >= 1
  {
    if n == 0 then 1 else 256 * Pow256(n - 1)
  }

  /** Big-endian bytes of an unsigned value below 256^n. */
  function UnsignedBytes(u: nat, n: nat): (bs: seq<Byte>)
    requires u < Pow256(n)
    ensures |bs| == n
  {
    if n == 0 then [] else UnsignedBytes(u / 256, n - 1) + [u % 256]
  }

  /** The unsigned value of big-endian bytes. */
  function UnsignedValue(bs: seq<Byte>): (u: nat)
    ensures u < Pow256(|bs|)
  {
    if |bs| == 0 then 0 else UnsignedValue(bs[..|bs| - 1]) * 256 + bs[|bs| - 1]
  }

  lemma {:induction false} UnsignedRoundTrip(u: nat, n: nat)
    requires u < Pow256(n)
    ensures UnsignedValue(UnsignedBytes(u, n)) == u
  {
    if n > 0 {
      var bs := UnsignedBytes(u, n);
      assert bs[..n - 1] == UnsignedBytes(u / 256, n - 1);
      UnsignedRoundTrip(u / 256, n - 1);
    }
  }

  /** x narrowed to an n-byte two's complement integer, as a C++ cast to a narrower type does. */
  function Wrap(x: int, n: nat): (w: int)
    ensures FitsSigned(w, n) || n == 0
  {
    var m := Pow256(n);
    var u := x % m;
    if 2 * u >= m then u - m else u
  }

  /** Euclidean division is determined by quotient and remainder. */
  lemma ModUnique(x: int, m: int, q: int, r: int)
    requires m > 0 && 0 <= r < m && x == q * m + r
    ensures x / m == q && x % m == r
  {
    var q', r' := x / m, x % m;
    assert (q - q') * m == r' - r;
    if q - q' >= 1 {
      MulAtLeast(q - q', m);
      assert false;
    } else if q' - q >= 1 {
      MulAtLeast(q' - q, m);
      assert false;
    }
  }

  lemma MulAtLeast(k: int, m: int)
    requires k >= 1 && m > 0
    ensures k * m >= m
  {
    assert k * m - m == (k - 1) * m;
  }

  /** A value fits in n signed bytes. */
  predicate FitsSigned(x: int, n: nat)
  {
    -Pow256(n) <= 2 * x < Pow256(n)
  }

  /** Narrowing a value that already fits changes nothing. */
  lemma WrapFitting(x: int, n: nat)
    requires FitsSigned(x, n)
    ensures Wrap(x, n) == x
  {
    var m := Pow256(n);
    if x >= 0 {
      ModUnique(x, m, 0, x);
    } else {
      ModUnique(x, m, -1, x + m);
    }
  }

  /** The n big-endian two's complement bytes of x (x narrowed to n bytes first). */
  function SignedBytes(x: int, n: nat): (bs: seq<Byte>)
    ensures |bs| == n
  {
    UnsignedBytes(x % Pow256(n), n)
  }

  /** The two's complement value of big-endian bytes. */
  function SignedValue(bs: seq<Byte>): (x: int)
    ensures |bs| > 0 ==> FitsSigned(x, |bs|)
  {
    var u := UnsignedValue(bs);
    if 2 * u >= Pow256(|bs|) then u - Pow256(|bs|) else u
  }

  /** Reading back the bytes of x gives x narrowed to the width, so x itself when it fits. */
  lemma SignedRoundTrip(x: int, n: nat)
    requires n > 0
    ensures SignedValue(SignedBytes(x, n)) == Wrap(x, n)
    ensures FitsSigned(x, n) ==> SignedValue(SignedBytes(x, n)) == x
  {
    UnsignedRoundTrip(x % Pow256(n), n);
    if FitsSigned(x, n) {
      WrapFitting(x, n);
    }
  }

  /**
   * Reads an n-byte signed integer from the front of `rest`. Past the end of
   * the data QDataStream consumes what is left and yields 0.
   */
  function ReadSigned(rest: seq<Byte>, n: nat): (r: (int, seq<Byte>))
    ensures |rest| >= n ==> r.1 == rest[n..]
    ensures |rest| < n ==> r == (0, [])
  {
    if |rest| >= n then (SignedValue(rest[..n]), rest[n..]) else (0, [])
  }

  /** Reading back what was written yields the (narrowed) value and leaves what followed. */
  lemma ReadWritten(x: int, n: nat, tail: seq<Byte>)
    requires n > 0
    ensures ReadSigned(SignedBytes(x, n) + tail, n) == (Wrap(x, n), tail)
  {
    var bs := SignedBytes(x, n);
    assert (bs + tail)[..n] == bs;
    assert (bs + tail)[n..] == tail;
    SignedRoundTrip(x, n);
  }

  /** A QDataStream writing into a QBuffer: every write appends to `bytes`. */
  class Writer {
    var bytes: seq<Byte>

    constructor ()
      ensures bytes == []
    {
      bytes := [];
    }

    /** `stream << int` */
    method WriteInt32(x: int)
      modifies this
      ensures bytes == old(bytes) + SignedBytes(x, Int32Width)
    {
      bytes := bytes + SignedBytes(x, Int32Width);
    }

    /** `stream << qint64` */
    method WriteInt64(x: int)
      modifies this
      ensures bytes == old(bytes) + SignedBytes(x, Int64Width)
    {
      bytes := bytes + SignedBytes(x, Int64Width);
    }
  }

  /** A QDataStream reading a QByteArray: `pos` is the cursor. */
  class Reader {
    const data: seq<Byte>
    var pos: nat

    ghost predicate Valid()
      reads this
    {
      pos <= |data|
    }

    /** The bytes not yet read. */
    function Remaining(): seq<Byte>
      reads this
      requires Valid()
    {
      data[pos..]
    }

    constructor (data: seq<Byte>)
      ensures Valid() && this.data == data && pos == 0
      ensures Remaining() == data
    {
      this.data := data;
      pos := 0;
    }

    /** Reads a signed n-byte integer; a read past the end consumes the rest and yields 0. */
    method ReadSignedInt(n: nat) returns (x: int)
      requires Valid()
      modifies this
      ensures Valid()
      ensures (x, Remaining()) == ReadSigned(old(Remaining()), n)
    {
      ghost var before := Remaining();
      if pos + n <= |data| {
        x := SignedValue(data[pos..pos + n]);
        assert before[..n] == data[pos..pos + n];
        assert before[n..] == data[pos + n..];
        pos := pos + n;
        assert Remaining() == before[n..];
      } else {
        x := 0;
        pos := |data|;
        assert Remaining() == [];
      }
    }

    /** `stream >> int` */
    method ReadInt32() returns (x: int)
      requires Valid()
      modifies this
      ensures Valid()
      ensures (x, Remaining()) == ReadSigned(old(Remaining()), Int32Width)
    {
      x := ReadSignedInt(Int32Width);
    }

    /** `stream >> qint64` */
    method ReadInt64() returns (x: int)
      requires Valid()
      modifies this
      ensures Valid()
      ensures (x, Remaining()) == ReadSigned(old(Remaining()), Int64Width)
    {
      x := ReadSignedInt(Int64Width);
    }
  }
}
