/** 128-bit identities: lowercase hexadecimal text in memory, sixteen raw bytes on the wire. */
module Identity {
  import opened Bytes

  const HEX_LENGTH: nat := 32
  const RAW_LENGTH: nat := 16

  function HexValue(c: Byte): (v: nat)
    requires IsHex(c)
    ensures v < 16 && HexDigit(v) == c
    ensures v == 0 <==> c == 48
  {
    if c <= 57 then c - 48 else c - 97 + 10
  }

  ghost predicate AllHex(text: Text) {
    forall i :: 0 <= i < |text| ==> IsHex(text[i])
  }

  ghost predicate AllZero(raw: seq<Byte>) {
    forall i :: 0 <= i < |raw| ==> raw[i] == 0
  }

  ghost predicate AllZeroDigits(text: Text) {
    forall i :: 0 <= i < |text| ==> text[i] == 48
  }

  function HexText(raw: seq<Byte>): (text: Text)
    ensures |text| == 2 * |raw| && AllHex(text)
  {
    if raw == [] then []
    else
      var b := raw[|raw| - 1];
      HexText(raw[..|raw| - 1]) + [HexDigit(b / 16), HexDigit(b % 16)]
  }

  function FromHex(text: Text): (raw: seq<Byte>)
    requires |text| % 2 == 0 && AllHex(text)
    ensures 2 * |raw| == |text|
  {
    if text == [] then []
    else
      FromHex(text[..|text| - 2])
      + [16 * HexValue(text[|text| - 2]) + HexValue(text[|text| - 1])]
  }

  lemma {:induction false} HexRoundTrip(raw: seq<Byte>)
    ensures FromHex(HexText(raw)) == raw
  {
    if raw != [] {
      var front, b := raw[..|raw| - 1], raw[|raw| - 1];
      HexRoundTrip(front);
      var text := HexText(raw);
      assert text[..|text| - 2] == HexText(front);
      assert 16 * HexValue(text[|text| - 2]) + HexValue(text[|text| - 1]) == b;
    }
  }

  lemma {:induction false} ZeroText(raw: seq<Byte>)
    ensures AllZero(raw) <==> AllZeroDigits(HexText(raw))
  {
    if raw != [] {
      var front, b := raw[..|raw| - 1], raw[|raw| - 1];
      ZeroText(front);
      var digits := [HexDigit(b / 16), HexDigit(b % 16)];
      assert raw == front + [b];
      assert AllZero(raw) <==> AllZero(front) && b == 0;
      assert b == 0 <==> digits[0] == 48 && digits[1] == 48;
      ZeroDigitsAppend(HexText(front), digits);
    }
  }

  lemma ZeroDigitsAppend(text: Text, digits: Text)
    requires |digits| == 2
    ensures AllZeroDigits(text + digits) <==> AllZeroDigits(text) && digits[0] == 48 && digits[1] == 48
  {
    if AllZeroDigits(text + digits) {
      assert forall i :: 0 <= i < |text| ==> text[i] == (text + digits)[i];
      assert digits[0] == (text + digits)[|text|] && digits[1] == (text + digits)[|text| + 1];
    }
  }

  lemma HexTextAppend(raw: seq<Byte>, b: Byte)
    ensures HexText(raw + [b]) == HexText(raw) + [HexDigit(b / 16), HexDigit(b % 16)]
  {
    assert (raw + [b])[..|raw|] == raw;
  }

  lemma HexPair(high: Byte, low: Byte)
    requires IsHex(high) && IsHex(low)
    ensures var b := 16 * HexValue(high) + HexValue(low);
      b < 256 && HexDigit(b / 16) == high && HexDigit(b % 16) == low
  {
  }

  lemma FromHexStep(text: Text)
    requires |text| % 2 == 0 && AllHex(text) && text != []
    ensures AllHex(text[..|text| - 2])
    ensures FromHex(text) == FromHex(text[..|text| - 2]) + [16 * HexValue(text[|text| - 2]) + HexValue(text[|text| - 1])]
  {
  }

  lemma RawStep(front: Text, raw: seq<Byte>, high: Byte, low: Byte)
    requires IsHex(high) && IsHex(low) && HexText(raw) == front
    ensures 16 * HexValue(high) + HexValue(low) < 256
    ensures HexText(raw + [16 * HexValue(high) + HexValue(low)]) == front + [high, low]
  {
    HexPair(high, low);
    HexTextAppend(raw, 16 * HexValue(high) + HexValue(low));
  }

  lemma {:induction false} RawRoundTrip(text: Text)
    requires |text| % 2 == 0 && AllHex(text)
    ensures HexText(FromHex(text)) == text
  {
    if text != [] {
      LastTwoSplit(text);
      FromHexStep(text);
      var front, high, low := text[..|text| - 2], text[|text| - 2], text[|text| - 1];
      RawRoundTrip(front);
      RawStep(front, FromHex(front), high, low);
    }
  }

  /** A non-zero 32-character lowercase hexadecimal text. */
  ghost predicate IsCanonical(text: Text) {
    |text| == HEX_LENGTH && AllHex(text) && exists i :: 0 <= i < |text| && text[i] != 48
  }

  // The wire form of an identity that may be absent: sixteen zero bytes stand for "none".
  function ToWire(text: Text): (raw: seq<Byte>)
    requires text == [] || (|text| == HEX_LENGTH && AllHex(text))
    ensures |raw| == RAW_LENGTH
  {
    if text == [] then seq(RAW_LENGTH, i => 0) else FromHex(text)
  }

  ghost function FromWire(raw: seq<Byte>): (text: Text)
    requires |raw| == RAW_LENGTH
  {
    if AllZero(raw) then [] else HexText(raw)
  }

  lemma FromWireToWire(text: Text)
    requires text == [] || IsCanonical(text)
    ensures FromWire(ToWire(text)) == text
    ensures text == [] <==> AllZero(ToWire(text))
  {
    if text != [] {
      RawRoundTrip(text);
      ZeroText(FromHex(text));
    }
  }

  lemma ToWireFromWire(raw: seq<Byte>)
    requires |raw| == RAW_LENGTH
    ensures FromWire(raw) == [] || IsCanonical(FromWire(raw))
    ensures FromWire(raw) == [] <==> AllZero(raw)
    ensures ToWire(FromWire(raw)) == raw
  {
    HexRoundTrip(raw);
    ZeroText(raw);
  }

  method IsCanonicalIdentity(value: Text) returns (canonical: bool)
    ensures canonical <==> IsCanonical(value)
  {
    if |value| != HEX_LENGTH {
      return false;
    }
    var nonzero := false;
    for i := 0 to |value|
      invariant forall j :: 0 <= j < i ==> IsHex(value[j])
      invariant nonzero <==> exists j :: 0 <= j < i && value[j] != 48
    {
      if !IsHex(value[i]) {
        return false;
      }
      nonzero := nonzero || value[i] != 48;
    }
    return nonzero;
  }

  /** Appends the wire form, or fails on text that is neither canonical nor a permitted absence. */
  method PutIdentity(out: seq<Byte>, value: Text, optional: bool) returns (result: Result<seq<Byte>, ()>)
    ensures result.Ok? <==> IsCanonical(value) || (optional && value == [])
    ensures result.Ok? ==> result.value == out + ToWire(value)
  {
    if optional && value == [] {
      return Ok(out + seq(RAW_LENGTH, i => 0));
    }
    var canonical := IsCanonicalIdentity(value);
    if !canonical {
      return Err(());
    }
    var bytes := out;
    var index := 0;
    while index < |value|
      invariant 0 <= index <= |value| && index % 2 == 0
      invariant bytes == out + FromHex(value[..index])
    {
      bytes := bytes + [16 * HexValue(value[index]) + HexValue(value[index + 1])];
      assert value[..index + 2][..index] == value[..index];
      index := index + 2;
    }
    assert value[..index] == value;
    return Ok(bytes);
  }
}
