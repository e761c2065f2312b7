/**
 * What the bytes of a `str` mean: the sequence of Unicode scalar values
 * (Dafny's `char`) they encode. Encoding follows section 3 of RFC 3629.
 */
module Text {
  import opened Utf8
  import opened Lexicographic

  /**
   * The UTF-8 encoding of one scalar value: the value's bits, six at a time
   * from the low end, go into continuation bytes behind a lead byte that
   * announces the length.
   */
  function EncodeChar(c: char): (r: seq<byte>)
    ensures IsUtf8Char(r)
  {
    var n := c as int;
    if n < 0x80 then [n]
    else if n < 0x800 then [0xC0 + n / 0x40, 0x80 + n % 0x40]
    else if n < 0x1_0000 then [0xE0 + n / 0x40 / 0x40, 0x80 + n / 0x40 % 0x40, 0x80 + n % 0x40]
    else [0xF0 + n / 0x40 / 0x40 / 0x40, 0x80 + n / 0x40 / 0x40 % 0x40, 0x80 + n / 0x40 % 0x40, 0x80 + n % 0x40]
  }

  /** The six payload bits of a continuation byte. */
  function Low6(b: byte): int {
    b as int - 0x80
  }

  /**
   * The scalar value a well-formed character encodes. That the result is a
   * `char` at all (no surrogate, nothing above U+10FFFF) is what the
   * grammar's restricted second-byte ranges buy.
   */
  function DecodeChar(c: seq<byte>): (r: char)
    requires IsUtf8Char(c)
  {
    var b0: int := c[0];
    var n: int :=
      if |c| == 1 then b0
      else if |c| == 2 then (b0 - 0xC0) * 0x40 + Low6(c[1])
      else if |c| == 3 then (b0 - 0xE0) * 0x1000 + Low6(c[1]) * 0x40 + Low6(c[2])
      else (b0 - 0xF0) * 0x4_0000 + Low6(c[1]) * 0x1000 + Low6(c[2]) * 0x40 + Low6(c[3]);
    n as char
  }

  /** Splitting off the low six bits. */
  lemma Split64(q: int, r: int)
    requires 0 <= r < 0x40
    ensures (q * 0x40 + r) / 0x40 == q && (q * 0x40 + r) % 0x40 == r
  {
  }

  /** Encoding inverts decoding. */
  lemma EncodeDecodeChar(c: seq<byte>)
    requires IsUtf8Char(c)
    ensures EncodeChar(DecodeChar(c)) == c
  {
    if |c| == 2 {
      EncodeDecodeChar2(c);
    } else if |c| == 3 {
      EncodeDecodeChar3(c);
    } else if |c| == 4 {
      EncodeDecodeChar4(c);
    }
  }

  lemma EncodeDecodeChar2(c: seq<byte>)
    requires IsUtf8Char(c) && |c| == 2
    ensures EncodeChar(DecodeChar(c)) == c
  {
    Split64(c[0] - 0xC0, Low6(c[1]));
  }

  lemma EncodeDecodeChar3(c: seq<byte>)
    requires IsUtf8Char(c) && |c| == 3
    ensures EncodeChar(DecodeChar(c)) == c
  {
    var hi: int := c[0] - 0xE0;
    Split64(hi * 0x40 + Low6(c[1]), Low6(c[2]));
    Split64(hi, Low6(c[1]));
  }

  lemma EncodeDecodeChar4(c: seq<byte>)
    requires IsUtf8Char(c) && |c| == 4
    ensures EncodeChar(DecodeChar(c)) == c
  {
    var hi: int := c[0] - 0xF0;
    Split64(hi * 0x1000 + Low6(c[1]) * 0x40 + Low6(c[2]), Low6(c[3]));
    Split64(hi * 0x40 + Low6(c[1]), Low6(c[2]));
    Split64(hi, Low6(c[1]));
  }

  /** Decoding inverts encoding. */
  lemma DecodeEncodeChar(c: char)
    ensures DecodeChar(EncodeChar(c)) == c
  {
  }

  /**
   * Every character the grammar accepts is the shortest form of a scalar
   * value: no overlong form, no surrogate, nothing above U+10FFFF.
   */
  lemma ShortestForm(c: seq<byte>)
    requires IsUtf8Char(c)
    ensures var v := DecodeChar(c) as int;
            && (|c| == 1 ==> v < 0x80)
            && (|c| == 2 ==> 0x80 <= v < 0x800)
            && (|c| == 3 ==> 0x800 <= v < 0x1_0000 && !(0xD800 <= v < 0xE000))
            && (|c| == 4 ==> 0x1_0000 <= v <= 0x10_FFFF)
  {
    EncodeDecodeChar(c);
  }

  /** The UTF-8 encoding of a text: its characters' encodings, in order. */
  function Encode(t: string): (r: Str)
    decreases |t|
  {
    if t == [] then []
    else
      var e := EncodeChar(t[0]);
      var rest := Encode(t[1..]);
      CharIsValid(e);
      Concat(e, rest);
      e + rest
  }

  /** The text that well-formed bytes encode, read one character at a time. */
  function Decode(s: Str): (t: string)
    decreases |s|
  {
    if s == [] then []
    else
      FirstChar(s);
      var w := Utf8CharWidth(s[0]);
      [DecodeChar(s[..w])] + Decode(s[w..])
  }

  /** Reading back the encoding of a text gives the text. */
  lemma {:induction false} DecodeEncode(t: string)
    ensures Decode(Encode(t)) == t
    decreases |t|
  {
    if t != [] {
      var e := EncodeChar(t[0]);
      var s := Encode(t);
      CharWidth(e);
      assert s[..|e|] == e;
      assert s[|e|..] == Encode(t[1..]);
      DecodeEncodeChar(t[0]);
      DecodeEncode(t[1..]);
    }
  }

  /** A non-empty well-formed sequence is a character and a well-formed rest, and that is how it decodes. */
  lemma DecodeStep(s: Str) returns (head: seq<byte>, tail: Str)
    requires s != []
    ensures IsUtf8Char(head) && s == head + tail
    ensures Decode(s) == [DecodeChar(head)] + Decode(tail)
  {
    FirstChar(s);
    var w := Utf8CharWidth(s[0]);
    head, tail := s[..w], s[w..];
  }

  /** Encoding the text that bytes decode to gives the bytes back. */
  lemma {:induction false} EncodeDecode(s: Str)
    ensures Encode(Decode(s)) == s
    decreases |s|
  {
    if s != [] {
      var head, tail := DecodeStep(s);
      EncodeCons(DecodeChar(head), Decode(tail));
      EncodeDecodeChar(head);
      EncodeDecode(tail);
    }
  }

  /** The scalar values of a text, as numbers: what `char` ordering compares. */
  function CodePoints(t: string): seq<int> {
    seq(|t|, i requires 0 <= i < |t| => t[i] as int)
  }

  /** One step of comparing two numbers by base-64 digits, most significant first. */
  lemma DigitOrder(a: int, b: int)
    requires 0 <= a < b
    ensures a / 0x40 < b / 0x40 || (a / 0x40 == b / 0x40 && a % 0x40 < b % 0x40)
  {
  }

  /** Where the encodings of two scalar values first differ, when both are `k` bytes long. */
  lemma SameLengthDifference(a: char, b: char, k: nat) returns (i: nat)
    requires a < b && |EncodeChar(a)| == k && |EncodeChar(b)| == k
    ensures i < k && EncodeChar(a)[i] < EncodeChar(b)[i]
    ensures forall j | 0 <= j < i :: EncodeChar(a)[j] == EncodeChar(b)[j]
  {
    var na, nb := a as int, b as int;
    if k == 1 {
      i := 0;
    } else {
      DigitOrder(na, nb);
      if na / 0x40 == nb / 0x40 {
        i := k - 1;
      } else if k == 2 {
        i := 0;
      } else {
        DigitOrder(na / 0x40, nb / 0x40);
        if na / 0x40 / 0x40 == nb / 0x40 / 0x40 {
          i := k - 2;
        } else if k == 3 {
          i := 0;
        } else {
          DigitOrder(na / 0x40 / 0x40, nb / 0x40 / 0x40);
          if na / 0x40 / 0x40 / 0x40 == nb / 0x40 / 0x40 / 0x40 {
            i := 1;
          } else {
            i := 0;
          }
        }
      }
    }
  }

  /** A smaller scalar value has an encoding that compares smaller, whatever follows. */
  lemma EncodeCharOrder(a: char, b: char, x: seq<byte>, y: seq<byte>)
    requires a < b
    ensures Cmp(EncodeChar(a) + x, EncodeChar(b) + y) == Less
  {
    var ea, eb := EncodeChar(a), EncodeChar(b);
    if |ea| < |eb| {
      assert ea[0] < eb[0];
      CmpFirstDifference(ea + x, eb + y, 0);
    } else {
      var i := SameLengthDifference(a, b, |ea|);
      CmpFirstDifference(ea + x, eb + y, i);
    }
  }

  /** A non-empty text, as bytes and as scalar values: its first character, then the rest. */
  lemma TextStep(s: string)
    requires s != []
    ensures Encode(s) == EncodeChar(s[0]) + Encode(s[1..])
    ensures CodePoints(s) == [s[0] as int] + CodePoints(s[1..])
  {
  }

  /** Texts whose first characters differ compare, as bytes, as those characters do. */
  lemma OrderByFirstChar(s: string, t: string)
    requires s != [] && t != [] && s[0] != t[0]
    ensures Cmp(Encode(s), Encode(t)) == Cmp(CodePoints(s), CodePoints(t))
  {
    TextStep(s);
    TextStep(t);
    if s[0] < t[0] {
      EncodeCharOrder(s[0], t[0], Encode(s[1..]), Encode(t[1..]));
    } else {
      EncodeCharOrder(t[0], s[0], Encode(t[1..]), Encode(s[1..]));
      CmpAntisymmetric(Encode(t), Encode(s));
    }
  }

  /** Texts with the same first character compare, both ways, as their rests do. */
  lemma OrderBySameFirstChar(s: string, t: string)
    requires s != [] && t != [] && s[0] == t[0]
    ensures Cmp(Encode(s), Encode(t)) == Cmp(Encode(s[1..]), Encode(t[1..]))
    ensures Cmp(CodePoints(s), CodePoints(t)) == Cmp(CodePoints(s[1..]), CodePoints(t[1..]))
  {
    TextStep(s);
    TextStep(t);
    CmpCommonPrefix(EncodeChar(s[0]), Encode(s[1..]), Encode(t[1..]));
    CmpCommonPrefix([s[0] as int], CodePoints(s[1..]), CodePoints(t[1..]));
  }

  /**
   * Comparing UTF-8 bytes lexicographically orders texts exactly as
   * comparing their scalar values does.
   */
  lemma {:induction false} EncodePreservesOrder(s: string, t: string)
    ensures Cmp(Encode(s), Encode(t)) == Cmp(CodePoints(s), CodePoints(t))
    decreases |s|
  {
    if s != [] && t != [] {
      if s[0] == t[0] {
        OrderBySameFirstChar(s, t);
        EncodePreservesOrder(s[1..], t[1..]);
      } else {
        OrderByFirstChar(s, t);
      }
    } else if s == [] && t != [] {
      TextStep(t);
    } else if s != [] && t == [] {
      TextStep(s);
    }
  }

  /** Encoding a text is encoding its first character and then the rest. */
  lemma EncodeCons(c: char, t: string)
    ensures Encode([c] + t) == EncodeChar(c) + Encode(t)
  {
    assert ([c] + t)[0] == c;
    assert ([c] + t)[1..] == t;
  }

  /** The encoding of a text of one character is that character's encoding. */
  lemma EncodeSingle(c: char)
    ensures Encode([c]) == EncodeChar(c)
  {
    EncodeCons(c, []);
    assert [c] + [] == [c];
  }

  /** Encoding a text of three characters, spelled out. */
  lemma EncodeThree(a: char, b: char, c: char)
    ensures Encode([a, b, c]) == EncodeChar(a) + EncodeChar(b) + EncodeChar(c)
  {
    assert [a, b, c] == [a] + [b, c];
    assert [b, c] == [b] + [c];
    EncodeCons(a, [b, c]);
    EncodeCons(b, [c]);
    EncodeSingle(c);
  }

  /** Encoding a text of four characters, spelled out. */
  lemma EncodeFour(a: char, b: char, c: char, d: char)
    ensures Encode([a, b, c, d]) == EncodeChar(a) + EncodeChar(b) + EncodeChar(c) + EncodeChar(d)
  {
    assert [a, b, c, d] == [a] + [b, c, d];
    EncodeCons(a, [b, c, d]);
    EncodeThree(b, c, d);
  }

  // The encodings given as examples in section 7 of RFC 3629. The
  // characters' encodings are worked out first, each group on its own.

  lemma MathChars()
    ensures EncodeChar('A') == [0x41] && EncodeChar('.') == [0x2E]
    ensures EncodeChar('\U{2262}') == [0xE2, 0x89, 0xA2]
    ensures EncodeChar('\U{0391}') == [0xCE, 0x91]
  {
  }

  /** "A<NOT IDENTICAL TO><ALPHA>." */
  lemma Rfc3629ExampleMath()
    ensures Encode("A\U{2262}\U{0391}.") == [0x41, 0xE2, 0x89, 0xA2, 0xCE, 0x91, 0x2E]
  {
    EncodeFour('A', '\U{2262}', '\U{0391}', '.');
    MathChars();
  }

  lemma KoreanChars()
    ensures EncodeChar('\U{D55C}') == [0xED, 0x95, 0x9C]
    ensures EncodeChar('\U{AD6D}') == [0xEA, 0xB5, 0xAD]
    ensures EncodeChar('\U{C5B4}') == [0xEC, 0x96, 0xB4]
  {
  }

  /** The Korean word "hangugeo". */
  lemma Rfc3629ExampleKorean()
    ensures Encode("\U{D55C}\U{AD6D}\U{C5B4}") == [0xED, 0x95, 0x9C, 0xEA, 0xB5, 0xAD, 0xEC, 0x96, 0xB4]
  {
    EncodeThree('\U{D55C}', '\U{AD6D}', '\U{C5B4}');
    KoreanChars();
  }

  lemma JapaneseChars()
    ensures EncodeChar('\U{65E5}') == [0xE6, 0x97, 0xA5]
    ensures EncodeChar('\U{672C}') == [0xE6, 0x9C, 0xAC]
    ensures EncodeChar('\U{8A9E}') == [0xE8, 0xAA, 0x9E]
  {
  }

  /** The Japanese word "nihongo". */
  lemma Rfc3629ExampleJapanese()
    ensures Encode("\U{65E5}\U{672C}\U{8A9E}") == [0xE6, 0x97, 0xA5, 0xE6, 0x9C, 0xAC, 0xE8, 0xAA, 0x9E]
  {
    EncodeThree('\U{65E5}', '\U{672C}', '\U{8A9E}');
    JapaneseChars();
  }

  lemma BomChars()
    ensures EncodeChar('\U{FEFF}') == [0xEF, 0xBB, 0xBF]
    ensures EncodeChar('\U{233B4}') == [0xF0, 0xA3, 0x8E, 0xB4]
  {
  }

  /** U+233B4 preceded by a byte order mark. */
  lemma Rfc3629ExampleBom()
    ensures Encode("\U{FEFF}\U{233B4}") == [0xEF, 0xBB, 0xBF, 0xF0, 0xA3, 0x8E, 0xB4]
  {
    assert "\U{FEFF}\U{233B4}" == ['\U{FEFF}'] + ['\U{233B4}'];
    EncodeCons('\U{FEFF}', ['\U{233B4}']);
    EncodeSingle('\U{233B4}');
    BomChars();
  }
}
