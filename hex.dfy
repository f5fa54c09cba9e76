/** Bytes and Go's `hex.EncodeToString`: two lower-case hexadecimal digits per byte. */
module Hex {
  import opened Wrappers

  newtype byte = x: int | 0 <= x < 256

  const Alphabet: string := "0123456789abcdef"

  predicate IsLowerHex(c: char) {
    '0' <= c <= '9' || 'a' <= c <= 'f'
  }

  /** The digit for a value below 16. */
  function DigitChar(v: int): (c: char)
    requires 0 <= v < 16
    ensures IsLowerHex(c)
  {
    Alphabet[v]
  }

  /** The value of a hexadecimal digit, of either case as `hex.DecodeString` accepts. */
  function DigitValue(c: char): (r: Option<int>)
    ensures r.Some? ==> 0 <= r.value < 16
  {
    if '0' <= c <= '9' then Some((c - '0') as int)
    else if 'a' <= c <= 'f' then Some((c - 'a') as int + 10)
    else if 'A' <= c <= 'F' then Some((c - 'A') as int + 10)
    else None
  }

  lemma DigitRoundTrip(v: int)
    requires 0 <= v < 16
    ensures DigitValue(DigitChar(v)) == Some(v)
  {
  }

  /** `hex.EncodeToString(b)`: the high nibble, then the low nibble, of every byte. */
  function Encode(b: seq<byte>): (s: string)
    ensures |s| == 2 * |b|
    ensures forall i :: 0 <= i < |s| ==> IsLowerHex(s[i])
  {
    if b == [] then []
    else [DigitChar(b[0] as int / 16), DigitChar(b[0] as int % 16)] + Encode(b[1..])
  }

  /** `hex.DecodeString(s)`: `None` for an odd length or a character that is not a digit. */
  function Decode(s: string): (r: Option<seq<byte>>)
    ensures r.Some? ==> 2 * |r.value| == |s|
  {
    if s == [] then Some([])
    else if |s| == 1 then None
    else
      var hi, lo, rest := DigitValue(s[0]), DigitValue(s[1]), Decode(s[2..]);
      if hi.None? || lo.None? || rest.None? then None
      else Some([(hi.value * 16 + lo.value) as byte] + rest.value)
  }

  /** Decoding undoes encoding, so two byte strings with the same hex text are equal. */
  lemma {:induction false} DecodeEncode(b: seq<byte>)
    ensures Decode(Encode(b)) == Some(b)
  {
    if b != [] {
      var x := b[0] as int;
      var hi, lo := x / 16, x % 16;
      var tail := Encode(b[1..]);
      var s := [DigitChar(hi), DigitChar(lo)] + tail;
      assert Encode(b) == s;
      DigitRoundTrip(hi);
      DigitRoundTrip(lo);
      DecodeEncode(b[1..]);
      assert s[2..] == tail;
      assert (hi * 16 + lo) as byte == b[0];
      assert Decode(s) == Some([b[0]] + b[1..]);
      assert [b[0]] + b[1..] == b;
    }
  }

  lemma EncodeInjective(a: seq<byte>, b: seq<byte>)
    requires Encode(a) == Encode(b)
    ensures a == b
  {
    DecodeEncode(a);
    DecodeEncode(b);
  }
}
