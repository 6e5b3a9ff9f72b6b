/** Bytes, fixed-width integers in both byte orders, and the result type shared by the codecs. */
module Bytes {

  type Byte = b: int | 0 <= b < 256
  type Uint32 = x: int | 0 <= x < 0x1_0000_0000
  type Uint64 = x: int | 0 <= x < 0x1_0000_0000_0000_0000
  type Int64 = x: int | -0x8000_0000_0000_0000 <= x < 0x8000_0000_0000_0000

  const MAX_UINT32: Uint32 := 0xFFFF_FFFF

  /** A `std::string` or byte vector: no encoding is attached to it. */
  type Text = seq<Byte>

  datatype Result<+T, +E> = Ok(value: T) | Err(error: E) {
    predicate IsFailure() {
      Err?
    }

    function PropagateFailure<U>(): Result<U, E>
      requires Err?
    {
      Err(error)
    }

    function Extract(): T
      requires Ok?
    {
      value
    }
  }

  datatype Option<+T> = None | Some(value: T)

  function Power256(n: nat): (p: nat)
    ensures p > 0
  {
    if n == 0 then 1 else 256 * Power256(n - 1)
  }

  /** The low `width` bytes of `value`, most significant first. */
  function BigEndian(value: nat, width: nat): (bytes: seq<Byte>)
    ensures |bytes| == width
  {
    if width == 0 then [] else BigEndian(value / 256, width - 1) + [value % 256]
  }

  function BigEndianValue(bytes: seq<Byte>): (value: nat)
    ensures value < Power256(|bytes|)
  {
    if bytes == [] then 0
    else 256 * BigEndianValue(bytes[..|bytes| - 1]) + bytes[|bytes| - 1]
  }

  /** The low `width` bytes of `value`, least significant first. */
  function LittleEndian(value: nat, width: nat): (bytes: seq<Byte>)
    ensures |bytes| == width
  {
    if width == 0 then [] else [value % 256] + LittleEndian(value / 256, width - 1)
  }

  function LittleEndianValue(bytes: seq<Byte>): (value: nat)
    ensures value < Power256(|bytes|)
  {
    if bytes == [] then 0 else bytes[0] + 256 * LittleEndianValue(bytes[1..])
  }

  lemma {:induction false} BigEndianRoundTrip(value: nat, width: nat)
    ensures BigEndianValue(BigEndian(value, width)) == value % Power256(width)
  {
    if width > 0 {
      var bytes := BigEndian(value, width);
      BigEndianRoundTrip(value / 256, width - 1);
      assert bytes[..width - 1] == BigEndian(value / 256, width - 1);
      ModSplit(value, Power256(width - 1));
    }
  }

  lemma {:induction false} BigEndianInjective(bytes: seq<Byte>)
    ensures BigEndian(BigEndianValue(bytes), |bytes|) == bytes
  {
    if bytes != [] {
      BigEndianInjective(bytes[..|bytes| - 1]);
      assert bytes == bytes[..|bytes| - 1] + [bytes[|bytes| - 1]];
    }
  }

  lemma {:induction false} LittleEndianRoundTrip(value: nat, width: nat)
    ensures LittleEndianValue(LittleEndian(value, width)) == value % Power256(width)
  {
    if width > 0 {
      var bytes := LittleEndian(value, width);
      LittleEndianRoundTrip(value / 256, width - 1);
      assert bytes[1..] == LittleEndian(value / 256, width - 1);
      ModSplit(value, Power256(width - 1));
    }
  }

  /** The four widths in use, so that callers never unfold `Power256`. */
  lemma PowersOf256()
    ensures Power256(1) == 0x100
    ensures Power256(2) == 0x1_0000
    ensures Power256(4) == 0x1_0000_0000
    ensures Power256(8) == 0x1_0000_0000_0000_0000
  {
    assert Power256(3) == 0x100_0000;
    assert Power256(5) == 0x100_0000_0000;
    assert Power256(6) == 0x1_0000_0000_0000;
    assert Power256(7) == 0x100_0000_0000_0000;
  }

  lemma ModSplit(value: nat, p: nat)
    requires p > 0
    ensures 256 * ((value / 256) % p) + value % 256 == value % (256 * p)
  {
    var q, r := value / 256, value % 256;
    var qq, qr := q / p, q % p;
    assert value == 256 * (qq * p + qr) + r;
    assert value == (256 * p) * qq + (256 * qr + r) by {
      assert 256 * (qq * p + qr) == 256 * (qq * p) + 256 * qr;
      assert 256 * (qq * p) == (256 * p) * qq;
    }
    DivModUnique(value, 256 * p, qq, 256 * qr + r);
  }

  lemma DivModUnique(x: int, d: int, q: int, r: int)
    requires d > 0 && 0 <= r < d && x == d * q + r
    ensures x / d == q && x % d == r
  {
    var k := x / d - q;
    assert x == d * (x / d) + x % d;
    assert d * k == r - x % d by {
      assert d * (x / d - q) == d * (x / d) - d * q;
    }
    assert k >= 1 ==> d * k >= d;
    assert k <= -1 ==> d * k <= -d;
  }

  /** `value >> 8 * count`. */
  function ShiftedRight(value: nat, count: nat): nat {
    if count == 0 then value else ShiftedRight(value, count - 1) / 256
  }

  /** Appends the bytes from the highest shift down to shift zero. */
  method PutBigEndian(out: seq<Byte>, value: nat, width: nat) returns (result: seq<Byte>)
    ensures result == out + BigEndian(value, width)
  {
    result := out;
    var shift := width;
    while shift > 0
      invariant 0 <= shift <= width
      invariant result == out + BigEndian(ShiftedRight(value, shift), width - shift)
    {
      shift := shift - 1;
      result := result + [ShiftedRight(value, shift) % 256];
    }
  }

  method PutLittleEndian(out: seq<Byte>, value: nat, width: nat) returns (result: seq<Byte>)
    ensures result == out + LittleEndian(value, width)
  {
    result := out;
    var shift := 0;
    while shift < width
      invariant 0 <= shift <= width
      invariant result + LittleEndian(ShiftedRight(value, shift), width - shift)
             == out + LittleEndian(value, width)
    {
      var byte := ShiftedRight(value, shift) % 256;
      assert LittleEndian(ShiftedRight(value, shift), width - shift)
          == [byte] + LittleEndian(ShiftedRight(value, shift + 1), width - shift - 1);
      result := result + [byte];
      shift := shift + 1;
    }
  }

  // ----- hexadecimal digits -----

  predicate IsHex(c: Byte) {
    48 <= c <= 57 || 97 <= c <= 102
  }

  function HexDigit(value: nat): (c: Byte)
    requires value < 16
    ensures IsHex(c) && (c == 48 <==> value == 0)
  {
    if value < 10 then 48 + value else 97 + value - 10
  }

  // ----- sequences -----

  lemma Associative<T>(a: seq<T>, b: seq<T>, c: seq<T>)
    ensures (a + b) + c == a + (b + c)
  {
  }

  lemma LastSplit<T>(s: seq<T>)
    requires s != []
    ensures s == s[..|s| - 1] + [s[|s| - 1]]
  {
  }

  lemma HeadSplit<T>(s: seq<T>)
    requires s != []
    ensures s == [s[0]] + s[1..]
  {
  }

  lemma SumFront<T>(a: seq<T>, b: seq<T>)
    requires b != []
    ensures (a + b)[..|a + b| - 1] == a + b[..|b| - 1] && (a + b)[|a + b| - 1] == b[|b| - 1]
  {
  }

  lemma WholeSlice<T>(s: seq<T>)
    ensures s[0..] == s && s[..|s|] == s
  {
  }

  lemma PrefixGrows<T>(s: seq<T>, i: nat)
    requires i < |s|
    ensures s[..i + 1] == s[..i] + [s[i]]
  {
  }

  lemma SliceGrows<T>(s: seq<T>, from: nat, to: nat)
    requires from <= to < |s|
    ensures s[from..to + 1] == s[from..to] + [s[to]]
  {
  }

  lemma SliceOfRest<T>(s: seq<T>, from: nat, count: nat)
    requires from + count <= |s|
    ensures s[from..][..count] == s[from..from + count] && s[from..][count..] == s[from + count..]
  {
  }

  lemma PrefixSlice<T>(part: seq<T>, whole: seq<T>, i: nat, j: nat)
    requires part <= whole && i <= j <= |part|
    ensures part[i..j] == whole[i..j]
  {
  }

  lemma SumTail<T>(x: T, s: seq<T>)
    ensures ([x] + s)[1..] == s
  {
  }

  lemma LastTwoSplit<T>(s: seq<T>)
    requires |s| >= 2
    ensures s == s[..|s| - 2] + [s[|s| - 2], s[|s| - 1]]
  {
  }
}
