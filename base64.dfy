/**
  Base 64 encoding with the standard alphabet and `=` padding, as defined in
  section 4 of RFC 4648. This is what the browser's `btoa` computes for a
  string whose characters are all below U+0100, which is the only kind of
  string the hexadecimal codec hands to it.

  The decoder is the canonical one (section 3.5 of RFC 4648): it rejects
  characters outside the alphabet, padding anywhere but in the final
  quantum, and non-zero pad bits, so that decoding and encoding are exact
  inverses of each other.
*/
module Base64 {
  import opened Wrappers

  /** An octet, as carried by one character of a binary JavaScript string. */
  type Byte = b: int | 0 <= b < 256

  /** The alphabet of RFC 4648, section 4, Table 1: the character for a 6-bit value. */
  function SextetChar(v: int): (c: char)
    requires 0 <= v < 64
    ensures c != '='
  {
    if v < 26 then ('A' as int + v) as char
    else if v < 52 then ('a' as int + (v - 26)) as char
    else if v < 62 then ('0' as int + (v - 52)) as char
    else if v == 62 then '+'
    else '/'
  }

  /** The 6-bit value of an alphabet character; `None` for anything else, `=` included. */
  function SextetValue(c: char): (r: Option<int>)
    ensures r.Some? ==> 0 <= r.value < 64
    ensures c == '=' ==> r == None
  {
    if 'A' <= c <= 'Z' then Some(c as int - 'A' as int)
    else if 'a' <= c <= 'z' then Some(c as int - 'a' as int + 26)
    else if '0' <= c <= '9' then Some(c as int - '0' as int + 52)
    else if c == '+' then Some(62)
    else if c == '/' then Some(63)
    else None
  }

  /** The alphabet is a bijection between 0..63 and its 64 characters: one direction. */
  lemma SextetValueOfChar(v: int)
    requires 0 <= v < 64
    ensures SextetValue(SextetChar(v)) == Some(v)
  {
  }

  /** The other direction. */
  lemma SextetCharOfValue(c: char)
    requires SextetValue(c).Some?
    ensures SextetChar(SextetValue(c).value) == c
  {
  }

  /** The quotient and remainder of `hi * m + lo` by m = 4, 16 and 64, for `0 <= lo < m`. */
  lemma Combine(hi: int, lo: int)
    requires 0 <= lo
    ensures lo < 4 ==> (hi * 4 + lo) / 4 == hi && (hi * 4 + lo) % 4 == lo
    ensures lo < 16 ==> (hi * 16 + lo) / 16 == hi && (hi * 16 + lo) % 16 == lo
    ensures lo < 64 ==> (hi * 64 + lo) / 64 == hi && (hi * 64 + lo) % 64 == lo
  {
  }

  /**
    One quantum: 1, 2 or 3 octets become 4 characters, with two `=` after a
    single octet and one `=` after two octets (RFC 4648, section 4, cases 1-3).
  */
  function EncodeQuantum(b: seq<Byte>): (q: string)
    requires 1 <= |b| <= 3
    ensures |q| == 4
    ensures (q[3] == '=') <==> |b| < 3
    ensures (q[2] == '=') <==> |b| == 1
    ensures q[0] != '=' && q[1] != '='
  {
    if |b| == 1 then
      [SextetChar(b[0] / 4), SextetChar(b[0] % 4 * 16), '=', '=']
    else if |b| == 2 then
      [SextetChar(b[0] / 4), SextetChar(b[0] % 4 * 16 + b[1] / 16), SextetChar(b[1] % 16 * 4), '=']
    else
      [SextetChar(b[0] / 4), SextetChar(b[0] % 4 * 16 + b[1] / 16),
       SextetChar(b[1] % 16 * 4 + b[2] / 64), SextetChar(b[2] % 64)]
  }

  /** The base 64 encoding of an octet sequence (what `btoa` returns). */
  function Encode(b: seq<Byte>): (r: string)
    ensures |r| == 4 * ((|b| + 2) / 3)
    decreases |b|
  {
    if |b| == 0 then ""
    else if |b| <= 3 then EncodeQuantum(b)
    else
      assert (|b| + 2) / 3 == (|b[3..]| + 2) / 3 + 1;
      EncodeQuantum(b[..3]) + Encode(b[3..])
  }

  /**
    Decodes one quantum of four characters; `last` tells whether it ends the
    text, the only place padding may appear.
  */
  function DecodeQuantum(q: string, last: bool): (r: Option<seq<Byte>>)
    requires |q| == 4
    ensures r.Some? ==> 1 <= |r.value| <= 3
    ensures r.Some? && |r.value| < 3 ==> last
  {
    var a, b, c, d := SextetValue(q[0]), SextetValue(q[1]), SextetValue(q[2]), SextetValue(q[3]);
    if a.None? || b.None? then None
    else if q[2] == '=' && q[3] == '=' then
      if last && b.value % 16 == 0 then Some([a.value * 4 + b.value / 16]) else None
    else if c.None? then None
    else if q[3] == '=' then
      if last && c.value % 4 == 0 then Some([a.value * 4 + b.value / 16, b.value % 16 * 16 + c.value / 4])
      else None
    else if d.None? then None
    else Some([a.value * 4 + b.value / 16, b.value % 16 * 16 + c.value / 4, c.value % 4 * 64 + d.value])
  }

  /** Decodes canonical base 64 text; `None` for text no octet sequence encodes to. */
  function Decode(s: string): (r: Option<seq<Byte>>)
    decreases |s|
  {
    if |s| == 0 then Some([])
    else if |s| < 4 then None
    else
      match DecodeQuantum(s[..4], |s| == 4)
      case None => None
      case Some(head) =>
        match Decode(s[4..])
        case None => None
        case Some(tail) => Some(head + tail)
  }

  /** Decoding the encoding of one quantum gives its octets back. */
  lemma DecodeEncodeQuantum(b: seq<Byte>, last: bool)
    requires 1 <= |b| <= 3
    requires |b| < 3 ==> last
    ensures DecodeQuantum(EncodeQuantum(b), last) == Some(b)
  {
    if |b| == 1 {
      DecodeEncodeOne(b[0], last);
      assert b == [b[0]];
    } else if |b| == 2 {
      DecodeEncodeTwo(b[0], b[1], last);
      assert b == [b[0], b[1]];
    } else {
      DecodeEncodeThree(b[0], b[1], b[2], last);
      assert b == [b[0], b[1], b[2]];
    }
  }

  lemma DecodeEncodeOne(x: Byte, last: bool)
    requires last
    ensures DecodeQuantum(EncodeQuantum([x]), last) == Some([x])
  {
    SextetValueOfChar(x / 4);
    SextetValueOfChar(x % 4 * 16);
    Combine(x / 4, x % 4);
    Combine(x % 4, 0);
  }

  lemma DecodeEncodeTwo(x: Byte, y: Byte, last: bool)
    requires last
    ensures DecodeQuantum(EncodeQuantum([x, y]), last) == Some([x, y])
  {
    SextetValueOfChar(x / 4);
    SextetValueOfChar(x % 4 * 16 + y / 16);
    SextetValueOfChar(y % 16 * 4);
    Combine(x / 4, x % 4);
    Combine(x % 4, y / 16);
    Combine(y / 16, y % 16);
    Combine(y % 16, 0);
  }

  lemma DecodeEncodeThree(x: Byte, y: Byte, z: Byte, last: bool)
    ensures DecodeQuantum(EncodeQuantum([x, y, z]), last) == Some([x, y, z])
  {
    var a, b, c, d := x / 4, x % 4 * 16 + y / 16, y % 16 * 4 + z / 64, z % 64;
    Ungroup(x, y, z);
    var q := EncodeQuantum([x, y, z]);
    assert q == [SextetChar(a), SextetChar(b), SextetChar(c), SextetChar(d)];
    SextetValueOfChar(a);
    SextetValueOfChar(b);
    SextetValueOfChar(c);
    SextetValueOfChar(d);
  }

  /** The regrouping of three octets into four sextets, and back, as arithmetic. */
  lemma Ungroup(x: Byte, y: Byte, z: Byte)
    ensures var a, b, c, d := x / 4, x % 4 * 16 + y / 16, y % 16 * 4 + z / 64, z % 64;
      0 <= a < 64 && 0 <= b < 64 && 0 <= c < 64 && 0 <= d < 64
      && a * 4 + b / 16 == x && b % 16 * 16 + c / 4 == y && c % 4 * 64 + d == z
  {
    Combine(x / 4, x % 4);
    Combine(x % 4, y / 16);
    Combine(y / 16, y % 16);
    Combine(y % 16, z / 64);
    Combine(z / 64, z % 64);
  }

  /** Decoding undoes encoding: every octet sequence comes back. */
  lemma {:induction false} DecodeEncode(b: seq<Byte>)
    ensures Decode(Encode(b)) == Some(b)
    decreases |b|
  {
    if |b| == 0 {
    } else if |b| <= 3 {
      var q := EncodeQuantum(b);
      DecodeEncodeQuantum(b, true);
      DecodeQuantumThen(q, "", b, []);
      assert q + "" == q && b + [] == b;
    } else {
      var head, tail := b[..3], b[3..];
      var q, rest := EncodeQuantum(head), Encode(tail);
      assert Encode(b) == q + rest;
      DecodeEncode(tail);
      DecodeEncodeQuantum(head, |rest| == 0);
      DecodeQuantumThen(q, rest, head, tail);
      assert head + tail == b;
    }
  }

  /** A decodable quantum followed by decodable text decodes to the two results in order. */
  lemma DecodeQuantumThen(q: string, rest: string, head: seq<Byte>, tail: seq<Byte>)
    requires |q| == 4
    requires DecodeQuantum(q, |rest| == 0) == Some(head) && Decode(rest) == Some(tail)
    ensures Decode(q + rest) == Some(head + tail)
  {
    var s := q + rest;
    assert s[..4] == q && s[4..] == rest;
  }

  /** A quantum the decoder accepts is the encoding of what it decodes to. */
  lemma EncodeDecodeQuantum(q: string, last: bool)
    requires |q| == 4
    requires DecodeQuantum(q, last).Some?
    ensures EncodeQuantum(DecodeQuantum(q, last).value) == q
  {
    if q[2] == '=' && q[3] == '=' {
      EncodeDecodeTwoPads(q, last);
    } else if q[3] == '=' {
      EncodeDecodeOnePad(q, last);
    } else {
      EncodeDecodeNoPad(q, last);
    }
  }

  lemma EncodeDecodeTwoPads(q: string, last: bool)
    requires |q| == 4 && q[2] == '=' && q[3] == '='
    requires DecodeQuantum(q, last).Some?
    ensures EncodeQuantum(DecodeQuantum(q, last).value) == q
  {
    var a, b := SextetValue(q[0]).value, SextetValue(q[1]).value;
    SextetCharOfValue(q[0]);
    SextetCharOfValue(q[1]);
    Combine(a, b / 16);
    Combine(b / 16, b % 16);
    assert q == [SextetChar(a), SextetChar(b), '=', '='];
  }

  lemma EncodeDecodeOnePad(q: string, last: bool)
    requires |q| == 4 && q[2] != '=' && q[3] == '='
    requires DecodeQuantum(q, last).Some?
    ensures EncodeQuantum(DecodeQuantum(q, last).value) == q
  {
    var a, b, c := SextetValue(q[0]).value, SextetValue(q[1]).value, SextetValue(q[2]).value;
    SextetCharOfValue(q[0]);
    SextetCharOfValue(q[1]);
    SextetCharOfValue(q[2]);
    Combine(a, b / 16);
    Combine(b / 16, b % 16);
    Combine(b % 16, c / 4);
    Combine(c / 4, c % 4);
    assert q == [SextetChar(a), SextetChar(b), SextetChar(c), '='];
  }

  lemma EncodeDecodeNoPad(q: string, last: bool)
    requires |q| == 4 && q[3] != '='
    requires DecodeQuantum(q, last).Some?
    ensures EncodeQuantum(DecodeQuantum(q, last).value) == q
  {
    var a, b := SextetValue(q[0]).value, SextetValue(q[1]).value;
    var c, d := SextetValue(q[2]).value, SextetValue(q[3]).value;
    Regroup(a, b, c, d);
    var x, y, z := a * 4 + b / 16, b % 16 * 16 + c / 4, c % 4 * 64 + d;
    assert DecodeQuantum(q, last).value == [x, y, z];
    EncodeSextets(x, y, z, a, b, c, d);
    SextetCharOfValue(q[0]);
    SextetCharOfValue(q[1]);
    SextetCharOfValue(q[2]);
    SextetCharOfValue(q[3]);
  }

  /** Three octets whose bits regroup into four sextets are encoded as those four sextets. */
  lemma EncodeSextets(x: Byte, y: Byte, z: Byte, a: int, b: int, c: int, d: int)
    requires x / 4 == a && x % 4 * 16 + y / 16 == b && y % 16 * 4 + z / 64 == c && z % 64 == d
    ensures EncodeQuantum([x, y, z]) == [SextetChar(a), SextetChar(b), SextetChar(c), SextetChar(d)]
  {
    var t := [x, y, z];
    assert t[0] == x && t[1] == y && t[2] == z;
  }

  /** The regrouping of bits behind `EncodeSextets`, as arithmetic on the digits. */
  lemma Regroup(a: int, b: int, c: int, d: int)
    requires 0 <= a < 64 && 0 <= b < 64 && 0 <= c < 64 && 0 <= d < 64
    ensures var x, y, z := a * 4 + b / 16, b % 16 * 16 + c / 4, c % 4 * 64 + d;
      0 <= x < 256 && 0 <= y < 256 && 0 <= z < 256
      && x / 4 == a && x % 4 * 16 + y / 16 == b && y % 16 * 4 + z / 64 == c && z % 64 == d
  {
    Combine(a, b / 16);
    Combine(b % 16, c / 4);
    Combine(c % 4, d);
  }

  /** Encoding undoes decoding: canonical text is the only text for its octets. */
  lemma {:induction false} EncodeDecode(s: string)
    requires Decode(s).Some?
    ensures Encode(Decode(s).value) == s
    decreases |s|
  {
    if |s| != 0 {
      var head := DecodeQuantum(s[..4], |s| == 4).value;
      EncodeDecodeQuantum(s[..4], |s| == 4);
      if |s| == 4 {
        assert Decode(s[4..]) == Some([]);
        assert Decode(s).value == head;
      } else {
        var tail := Decode(s[4..]).value;
        EncodeDecode(s[4..]);
        assert |head| == 3;
        var b := head + tail;
        assert b[..3] == head && b[3..] == tail;
        assert s == s[..4] + s[4..];
      }
    }
  }

  /** The test vectors of RFC 4648, section 10, of at most one quantum. */
  lemma Rfc4648ShortVectors()
    ensures Encode([]) == ""
    ensures Encode([0x66]) == "Zg=="
    ensures Encode([0x66, 0x6f]) == "Zm8="
    ensures Encode([0x66, 0x6f, 0x6f]) == "Zm9v"
  {
  }

  /**
    The test vectors of RFC 4648, section 10, of two quanta: `foob`, `fooba`
    and `foobar` are the prefixes of `octets`. (The octets are a parameter
    so that the verifier does not evaluate the encoding of the literal
    eagerly.)
  */
  lemma Rfc4648LongVectors(octets: seq<Byte>)
    requires octets == [0x66, 0x6f, 0x6f, 0x62, 0x61, 0x72]
    ensures Encode(octets[..4]) == "Zm9vYg=="
    ensures Encode(octets[..5]) == "Zm9vYmE="
    ensures Encode(octets) == "Zm9vYmFy"
  {
    var foo := octets[..3];
    assert EncodeQuantum(foo) == "Zm9v";
    EncodeThen(foo, octets[3..4]);
    EncodeThen(foo, octets[3..5]);
    EncodeThen(foo, octets[3..]);
    assert octets[..4] == foo + octets[3..4];
    assert octets[..5] == foo + octets[3..5];
    assert octets == foo + octets[3..];
    assert EncodeQuantum(octets[3..4]) == "Yg==";
    assert EncodeQuantum(octets[3..5]) == "YmE=";
    assert EncodeQuantum(octets[3..]) == "YmFy";
  }

  /** A full quantum followed by more octets is encoded quantum by quantum. */
  lemma EncodeThen(head: seq<Byte>, tail: seq<Byte>)
    requires |head| == 3 && |tail| > 0
    ensures Encode(head + tail) == EncodeQuantum(head) + Encode(tail)
  {
    var b := head + tail;
    assert b[..3] == head && b[3..] == tail;
  }
}
