/**
  The reversed hexadecimal-to-base64 codec `_hexToBase64` (src/index.js:313-323)
  and the `signature_value` it produces on the detached-signature path
  (src/index.js:228, src/index.js:277).

  The raw signature arrives as hexadecimal text whose byte order is the
  reverse of what the signed envelope needs. The codec reads it two digits at
  a time from the tail towards index 0, appends each pair as one character of
  a binary string, and hands that string to `btoa`.
*/
module HexCodec {
  import opened Wrappers
  import opened Base64

  /** The digits `parseInt(_, 16)` accepts, in either case. */
  predicate IsHexDigit(c: char) {
    '0' <= c <= '9' || 'a' <= c <= 'f' || 'A' <= c <= 'F'
  }

  predicate IsHex(s: string) {
    forall i :: 0 <= i < |s| ==> IsHexDigit(s[i])
  }

  /** The value of one hexadecimal digit. */
  function DigitValue(c: char): (v: int)
    requires IsHexDigit(c)
    ensures 0 <= v < 16
  {
    if '0' <= c <= '9' then c as int - '0' as int
    else if 'a' <= c <= 'f' then c as int - 'a' as int + 10
    else c as int - 'A' as int + 10
  }

  /** The lower-case digit for a value below 16. */
  function DigitChar(v: int): (c: char)
    requires 0 <= v < 16
    ensures IsHexDigit(c) && DigitValue(c) == v
  {
    if v < 10 then ('0' as int + v) as char else ('a' as int + (v - 10)) as char
  }

  /**
    `parseInt(hex.substr(index, 2), 16)`: the byte written by the two digits
    starting at `index`; `String.fromCharCode` turns it into one character.
  */
  function PairAt(hex: string, index: int): (b: Byte)
    requires IsHex(hex) && 0 <= index && index + 2 <= |hex|
    ensures b / 16 == DigitValue(hex[index]) && b % 16 == DigitValue(hex[index + 1])
  {
    16 * DigitValue(hex[index]) + DigitValue(hex[index + 1])
  }

  /**
    The bytes the codec appends when started at `index`: the pairs at
    `index`, `index - 2`, `index - 4`, ... down to the last non-negative one.
  */
  function ReversedPairs(hex: string, index: int): (r: seq<Byte>)
    requires IsHex(hex) && index + 2 <= |hex|
    ensures |r| == if index < 0 then 0 else index / 2 + 1
    ensures forall i :: 0 <= i < |r| ==> r[i] == PairAt(hex, index - 2 * i)
    decreases index + 2
  {
    if index < 0 then [] else [PairAt(hex, index)] + ReversedPairs(hex, index - 2)
  }

  /**
    `_hexToBase64(hex, str, index)`: while `index >= 0`, append the pair at
    `index` to the accumulator and step back by two; then base64-encode the
    accumulator. The caller's accumulator `str` is a binary string, modelled
    as its bytes.
  */
  function HexToBase64(hex: string, str: seq<Byte>, index: int): (r: string)
    requires IsHex(hex) && index + 2 <= |hex|
    ensures r == Encode(str + ReversedPairs(hex, index))
    decreases index + 2
  {
    if index >= 0 then
      assert str + ReversedPairs(hex, index) == (str + [PairAt(hex, index)]) + ReversedPairs(hex, index - 2);
      HexToBase64(hex, str + [PairAt(hex, index)], index - 2)
    else
      assert str + ReversedPairs(hex, index) == str;
      Encode(str)
  }

  /**
    The same computation as a loop, the form a long signature needs in order
    not to exhaust the call stack.
  */
  method HexToBase64Iterative(hex: string, str: seq<Byte>, index: int) returns (r: string)
    requires IsHex(hex) && index + 2 <= |hex|
    ensures r == HexToBase64(hex, str, index)
  {
    var acc, i := str, index;
    while i >= 0
      invariant i + 2 <= |hex|
      invariant acc + ReversedPairs(hex, i) == str + ReversedPairs(hex, index)
      decreases i + 2
    {
      assert ReversedPairs(hex, i) == [PairAt(hex, i)] + ReversedPairs(hex, i - 2);
      acc, i := acc + [PairAt(hex, i)], i - 2;
    }
    assert acc + ReversedPairs(hex, i) == acc;
    r := Encode(acc);
  }

  /** `signature_value`: the codec started at `hex.length - 2` with an empty accumulator. */
  function SignatureValue(hex: string): (r: string)
    requires IsHex(hex)
    ensures |r| == 4 * ((|hex| / 2 + 2) / 3)
  {
    assert |[] + ReversedPairs(hex, |hex| - 2)| == |hex| / 2;
    HexToBase64(hex, [], |hex| - 2)
  }

  /** The reference left-to-right decoding of even-length hexadecimal text. */
  function HexBytes(hex: string): (r: seq<Byte>)
    requires IsHex(hex) && |hex| % 2 == 0
    ensures |r| == |hex| / 2
    ensures forall i :: 0 <= i < |r| ==> r[i] == PairAt(hex, 2 * i)
    decreases |hex|
  {
    if hex == [] then [] else [PairAt(hex, 0)] + HexBytes(hex[2..])
  }

  /** Lower-case hexadecimal text for a byte sequence, two digits per byte. */
  function HexEncode(b: seq<Byte>): (r: string)
    ensures IsHex(r) && |r| == 2 * |b|
    decreases |b|
  {
    if b == [] then "" else [DigitChar(b[0] / 16), DigitChar(b[0] % 16)] + HexEncode(b[1..])
  }

  function Reverse<T>(s: seq<T>): (r: seq<T>)
    ensures |r| == |s|
    ensures forall i :: 0 <= i < |s| ==> r[i] == s[|s| - 1 - i]
    decreases |s|
  {
    if s == [] then [] else Reverse(s[1..]) + [s[0]]
  }

  /** Decoding the encoding gives the bytes back. */
  lemma {:induction false} HexBytesEncode(b: seq<Byte>)
    ensures HexBytes(HexEncode(b)) == b
    decreases |b|
  {
    if b != [] {
      var h := HexEncode(b);
      assert h[2..] == HexEncode(b[1..]);
      HexBytesEncode(b[1..]);
      assert PairAt(h, 0) == b[0];
      assert b == [b[0]] + b[1..];
    }
  }

  /**
    What the detached-signature path returns: the base64 encoding of the
    pairs in reversed order. For odd length the leading digit is never read,
    so the pairs are those of the text without it.
  */
  lemma SignatureValueIsEncodedReversal(hex: string)
    requires IsHex(hex)
    ensures SignatureValue(hex) == Encode(Reverse(HexBytes(hex[|hex| % 2..])))
  {
    var tail := hex[|hex| % 2..];
    assert IsHex(tail) && |tail| % 2 == 0 by {
      forall j | 0 <= j < |tail| ensures IsHexDigit(tail[j]) { assert tail[j] == hex[|hex| % 2 + j]; }
    }
    if |hex| % 2 == 1 {
      LeadingDigitIgnored(hex);
    } else {
      assert tail == hex;
    }
    SignatureValuePairs(tail);
    PairsAreReversedBytes(tail);
  }

  /** The pairs of a text of `2 * h` digits, the last pair first. */
  function PairsFromEnd(hex: string, h: nat): (pairs: seq<Byte>)
    requires IsHex(hex) && |hex| == 2 * h
  {
    seq(h, i => if 0 <= i < h then PairAt(hex, 2 * (h - 1 - i)) else 0)
  }

  /** For even length, reading pairs from the end is reversing the left-to-right decoding. */
  lemma PairsAreReversedBytes(hex: string)
    requires IsHex(hex) && |hex| % 2 == 0
    ensures ReversedPairs(hex, |hex| - 2) == Reverse(HexBytes(hex))
  {
    var h := |hex| / 2;
    ReadPairsFromEnd(hex, h);
    ReversedBytesFromEnd(hex, h);
  }

  /** The codec started at the last pair reads the pairs last first. */
  lemma ReadPairsFromEnd(hex: string, h: nat)
    requires IsHex(hex) && |hex| == 2 * h
    ensures ReversedPairs(hex, |hex| - 2) == PairsFromEnd(hex, h)
  {
    var pairs, target := ReversedPairs(hex, |hex| - 2), PairsFromEnd(hex, h);
    assert |pairs| == h by {
      if h > 0 {
        assert |hex| - 2 == 2 * (h - 1);
      }
    }
    forall i | 0 <= i < h ensures pairs[i] == target[i] {
      assert |hex| - 2 - 2 * i == 2 * (h - 1 - i);
    }
  }

  /** Reversing the left-to-right decoding also lists the pairs last first. */
  lemma ReversedBytesFromEnd(hex: string, h: nat)
    requires IsHex(hex) && |hex| == 2 * h
    ensures Reverse(HexBytes(hex)) == PairsFromEnd(hex, h)
  {
    BytesFromStart(hex, h);
    ReverseFromStart(hex, h);
  }

  /** The pairs of a text of `2 * h` digits, first pair first. */
  function PairsFromStart(hex: string, h: nat): (pairs: seq<Byte>)
    requires IsHex(hex) && |hex| == 2 * h
  {
    seq(h, i => if 0 <= i < h then PairAt(hex, 2 * i) else 0)
  }

  lemma BytesFromStart(hex: string, h: nat)
    requires IsHex(hex) && |hex| == 2 * h
    ensures HexBytes(hex) == PairsFromStart(hex, h)
  {
    var forward, target := HexBytes(hex), PairsFromStart(hex, h);
    assert |forward| == h;
    forall i | 0 <= i < h ensures forward[i] == target[i] {
    }
  }

  lemma ReverseFromStart(hex: string, h: nat)
    requires IsHex(hex) && |hex| == 2 * h
    ensures Reverse(PairsFromStart(hex, h)) == PairsFromEnd(hex, h)
  {
    var forward, target := PairsFromStart(hex, h), PairsFromEnd(hex, h);
    var reversed := Reverse(forward);
    forall i | 0 <= i < h ensures reversed[i] == target[i] {
      assert reversed[i] == forward[h - 1 - i];
    }
  }

  /** Dropping a prefix shifts the position of every pair. */
  lemma PairAtShift(hex: string, o: nat, j: nat)
    requires IsHex(hex) && o + j + 2 <= |hex|
    ensures IsHex(hex[o..]) && PairAt(hex[o..], j) == PairAt(hex, o + j)
  {
    assert hex[o..][j] == hex[o + j] && hex[o..][j + 1] == hex[o + j + 1];
  }

  /** Exactly `floor(n / 2)` pairs are read; pair number `i` starts at `n - 2 - 2i`. */
  lemma SignatureValuePairs(hex: string)
    requires IsHex(hex)
    ensures SignatureValue(hex) == Encode(ReversedPairs(hex, |hex| - 2))
    ensures |ReversedPairs(hex, |hex| - 2)| == |hex| / 2
    ensures forall i :: 0 <= i < |hex| / 2 ==> ReversedPairs(hex, |hex| - 2)[i] == PairAt(hex, |hex| - 2 - 2 * i)
  {
    var n := |hex|;
    var pairs := ReversedPairs(hex, n - 2);
    assert [] + pairs == pairs;
    assert |pairs| == n / 2 by {
      if n >= 2 {
        assert (n - 2) / 2 + 1 == n / 2;
      }
    }
  }

  /** For odd length the character at position 0 does not influence the result. */
  lemma LeadingDigitIgnored(hex: string)
    requires IsHex(hex) && |hex| % 2 == 1
    ensures SignatureValue(hex) == SignatureValue(hex[1..])
  {
    var n, tail := |hex|, hex[1..];
    var pairs, tailPairs := ReversedPairs(hex, n - 2), ReversedPairs(tail, n - 3);
    assert |pairs| == |tailPairs|;
    forall i | 0 <= i < |pairs| ensures pairs[i] == tailPairs[i] {
      PairAtShift(hex, 1, n - 3 - 2 * i);
    }
    assert pairs == tailPairs;
    SignatureValuePairs(hex);
    SignatureValuePairs(tail);
  }

  /** Empty hexadecimal text (started at index -2) gives empty base64 text. */
  lemma EmptySignatureValue()
    ensures SignatureValue("") == ""
  {
  }

  /**
    Base64-decoding the signature value and reading the bytes tail to head
    gives back the bytes the hexadecimal text writes.
  */
  lemma SignatureValueDecodes(hex: string)
    requires IsHex(hex) && |hex| % 2 == 0
    ensures Decode(SignatureValue(hex)) == Some(Reverse(HexBytes(hex)))
  {
    SignatureValueIsEncodedReversal(hex);
    assert hex[0..] == hex;
    DecodeEncode(Reverse(HexBytes(hex)));
  }

  /** The same round trip stated from the bytes: hex-encode, convert, decode. */
  lemma SignatureValueOfBytes(b: seq<Byte>)
    ensures Decode(SignatureValue(HexEncode(b))) == Some(Reverse(b))
  {
    SignatureValueDecodes(HexEncode(b));
    HexBytesEncode(b);
  }

  /** `"0102"` encodes the bytes `[0x02, 0x01]`. */
  lemma ReversalExample()
    ensures Decode(SignatureValue("0102")) == Some([0x02, 0x01])
    ensures SignatureValue("0102") == "AgE="
  {
    var hex := "0102";
    assert IsHex(hex);
    assert PairAt(hex, 2) == 0x02;
    assert PairAt(hex, 0) == 0x01;
    var pairs := ReversedPairs(hex, 2);
    assert pairs == [0x02, 0x01];
    SignatureValuePairs(hex);
    assert SignatureValue(hex) == Encode([0x02, 0x01]);
    assert Encode([0x02, 0x01]) == "AgE=";
    DecodeEncode([0x02, 0x01]);
  }
}
