/**
 * Well-formed UTF-8, written from the `UTF8-octets` grammar of section 4 of
 * RFC 3629. This grammar is what Rust's `str` guarantees of its bytes: it
 * rejects overlong forms, the surrogates U+D800..U+DFFF and code points
 * above U+10FFFF.
 */
module Utf8 {

  /** Rust's `u8`. */
  type byte = x: int | 0 <= x < 0x100

  /** UTF8-tail = %x80-BF */
  predicate IsTail(b: byte) {
    0x80 <= b <= 0xBF
  }

  /** UTF8-char = UTF8-1 / UTF8-2 / UTF8-3 / UTF8-4 */
  predicate IsUtf8Char(c: seq<byte>) {
    // UTF8-1 = %x00-7F
    || (|c| == 1 && c[0] <= 0x7F)
    // UTF8-2 = %xC2-DF UTF8-tail
    || (|c| == 2 && 0xC2 <= c[0] <= 0xDF && IsTail(c[1]))
    // UTF8-3 = %xE0 %xA0-BF UTF8-tail / %xE1-EC 2( UTF8-tail ) /
    //          %xED %x80-9F UTF8-tail / %xEE-EF 2( UTF8-tail )
    || (|c| == 3 && IsTail(c[2]) &&
        (|| (c[0] == 0xE0 && 0xA0 <= c[1] <= 0xBF)
         || (0xE1 <= c[0] <= 0xEC && IsTail(c[1]))
         || (c[0] == 0xED && 0x80 <= c[1] <= 0x9F)
         || (0xEE <= c[0] <= 0xEF && IsTail(c[1]))))
    // UTF8-4 = %xF0 %x90-BF 2( UTF8-tail ) / %xF1-F3 3( UTF8-tail ) /
    //          %xF4 %x80-8F 2( UTF8-tail )
    || (|c| == 4 && IsTail(c[2]) && IsTail(c[3]) &&
        (|| (c[0] == 0xF0 && 0x90 <= c[1] <= 0xBF)
         || (0xF1 <= c[0] <= 0xF3 && IsTail(c[1]))
         || (c[0] == 0xF4 && 0x80 <= c[1] <= 0x8F)))
  }

  /** The first `k` bytes of `s` are a word of `rule`. */
  ghost predicate Leads(rule: seq<byte> -> bool, s: seq<byte>, k: int) {
    1 <= k <= |s| && rule(s[..k])
  }

  /** The Kleene star `*( rule )`: `s` splits into non-empty words of `rule`. */
  ghost predicate Star(rule: seq<byte> -> bool, s: seq<byte>)
    decreases |s|
  {
    s == [] || exists k :: Leads(rule, s, k) && Star(rule, s[k..])
  }

  /** No word of `rule` is a proper prefix of another. */
  ghost predicate PrefixFree(rule: seq<byte> -> bool) {
    forall s, k, k' :: Leads(rule, s, k) && Leads(rule, s, k') ==> k == k'
  }

  /** UTF8-octets = *( UTF8-char ) */
  ghost predicate ValidUtf8(s: seq<byte>) {
    Star(IsUtf8Char, s)
  }

  /** Some well-formed character is the first `k` bytes of `s`. */
  ghost predicate CharAt(s: seq<byte>, k: int) {
    Leads(IsUtf8Char, s, k)
  }

  /** `s` begins with a well-formed character. */
  ghost predicate StartsWithChar(s: seq<byte>) {
    exists k :: CharAt(s, k)
  }

  /** `p` is the beginning of some well-formed character (possibly all of it). */
  ghost predicate IsCharPrefix(p: seq<byte>) {
    exists c :: IsUtf8Char(c) && p <= c
  }

  /** Rust's `str` (and the content of a `String`): bytes that are well-formed UTF-8. */
  type Str = s: seq<byte> | ValidUtf8(s) witness []

  /**
   * The width of the character a lead byte announces, 0 for a byte that
   * cannot start one: the table `UTF8_CHAR_WIDTH` of Rust's core library.
   */
  function Utf8CharWidth(b: byte): (w: nat)
    ensures w <= 4
  {
    if b <= 0x7F then 1
    else if b <= 0xC1 then 0
    else if b <= 0xDF then 2
    else if b <= 0xEF then 3
    else if b <= 0xF4 then 4
    else 0
  }

  /** Every well-formed character is as long as its lead byte says. */
  lemma CharWidth(c: seq<byte>)
    requires IsUtf8Char(c)
    ensures |c| == Utf8CharWidth(c[0])
  {
  }

  /** The grammar is prefix-free: a byte sequence starts with at most one well-formed character. */
  lemma Utf8PrefixFree()
    ensures PrefixFree(IsUtf8Char)
  {
    forall s, k, k' | Leads(IsUtf8Char, s, k) && Leads(IsUtf8Char, s, k')
      ensures k == k'
    {
      CharWidth(s[..k]);
      CharWidth(s[..k']);
    }
  }

  /** A character at the start of `s` is also at the start of anything `s` begins. */
  lemma CharAtExtends(s: seq<byte>, t: seq<byte>, k: int)
    requires CharAt(s, k) && s <= t
    ensures CharAt(t, k)
  {
    assert s[..k] == t[..k];
  }

  // --- The Kleene star, for any rule

  /** A single non-empty word is in the star. */
  lemma StarWord(rule: seq<byte> -> bool, w: seq<byte>)
    requires w != [] && rule(w)
    ensures Star(rule, w)
  {
    assert w[..|w|] == w;
    assert Leads(rule, w, |w|);
    assert Star(rule, w[|w|..]);
  }

  /** The star is closed under concatenation. */
  lemma {:induction false} StarConcat(rule: seq<byte> -> bool, p: seq<byte>, q: seq<byte>)
    requires Star(rule, p) && Star(rule, q)
    ensures Star(rule, p + q)
    decreases |p|
  {
    if p == [] {
      assert p + q == q;
    } else {
      var k :| Leads(rule, p, k) && Star(rule, p[k..]);
      var pq := p + q;
      StarConcat(rule, p[k..], q);
      assert pq[k..] == p[k..] + q;
      assert pq[..k] == p[..k];
    }
  }

  /** A non-empty word of the star splits into a first word and the rest. */
  lemma StarFirst(rule: seq<byte> -> bool, s: seq<byte>) returns (k: int)
    requires Star(rule, s) && s != []
    ensures Leads(rule, s, k) && Star(rule, s[k..])
  {
    k :| Leads(rule, s, k) && Star(rule, s[k..]);
  }

  /** For a prefix-free rule, the first word of `s` is the first word of anything `s` begins. */
  lemma LeadsUnique(rule: seq<byte> -> bool, s: seq<byte>, t: seq<byte>, k: int, k': int)
    requires PrefixFree(rule) && s <= t && Leads(rule, s, k) && Leads(rule, t, k')
    ensures k == k'
  {
    assert s[..k] == t[..k];
    assert Leads(rule, t, k);
  }

  /**
   * For a prefix-free rule, word boundaries are unique: when both `s` and
   * its first `i` bytes are in the star, so is the rest.
   */
  lemma {:induction false} StarSuffix(rule: seq<byte> -> bool, s: seq<byte>, i: nat)
    requires PrefixFree(rule)
    requires i <= |s| && Star(rule, s) && Star(rule, s[..i])
    ensures Star(rule, s[i..])
    decreases i
  {
    if i > 0 {
      var p := s[..i];
      var k := StarFirst(rule, p);
      var k' := StarFirst(rule, s);
      LeadsUnique(rule, p, s, k, k');
      var rest := s[k..];
      assert rest[..i - k] == p[k..];
      StarSuffix(rule, rest, i - k);
      assert rest[i - k..] == s[i..];
    }
  }

  // --- Well-formed UTF-8

  /** A single character is a well-formed sequence. */
  lemma CharIsValid(c: seq<byte>)
    requires IsUtf8Char(c)
    ensures ValidUtf8(c)
  {
    StarWord(IsUtf8Char, c);
  }

  /** Concatenation of well-formed sequences is well-formed. */
  lemma Concat(p: seq<byte>, q: seq<byte>)
    requires ValidUtf8(p) && ValidUtf8(q)
    ensures ValidUtf8(p + q)
  {
    StarConcat(IsUtf8Char, p, q);
  }

  /** A non-empty well-formed sequence splits into the character its lead byte announces and a well-formed rest. */
  lemma FirstChar(s: seq<byte>)
    requires ValidUtf8(s) && s != []
    ensures CharAt(s, Utf8CharWidth(s[0]))
    ensures ValidUtf8(s[Utf8CharWidth(s[0])..])
  {
    var k :| Leads(IsUtf8Char, s, k) && Star(IsUtf8Char, s[k..]);
    CharWidth(s[..k]);
  }

  /**
   * Character boundaries: when both `s` and its first `i` bytes are
   * well-formed, so is the rest.
   */
  lemma SuffixAfterValidPrefix(s: seq<byte>, i: nat)
    requires i <= |s| && ValidUtf8(s) && ValidUtf8(s[..i])
    ensures ValidUtf8(s[i..])
  {
    Utf8PrefixFree();
    StarSuffix(IsUtf8Char, s, i);
  }

  /** Inside a well-formed sequence, a character starts after every well-formed prefix that is not all of it. */
  lemma CharAfterValidPrefix(s: seq<byte>, i: nat)
    requires i < |s| && ValidUtf8(s) && ValidUtf8(s[..i])
    ensures StartsWithChar(s[i..])
  {
    SuffixAfterValidPrefix(s, i);
    var k :| Leads(IsUtf8Char, s[i..], k) && Star(IsUtf8Char, s[i..][k..]);
    assert CharAt(s[i..], k);
  }

  /**
   * Where a well-formed prefix is followed by something that is not a
   * character, the whole sequence is not well-formed.
   */
  lemma NoCharAfterValidPrefix(s: seq<byte>, i: nat)
    requires i < |s| && ValidUtf8(s[..i]) && !StartsWithChar(s[i..])
    ensures !ValidUtf8(s)
  {
    if ValidUtf8(s) {
      CharAfterValidPrefix(s, i);
    }
  }

  /**
   * The ranges the grammar allows for the byte after a lead byte: %xA0-BF
   * after %xE0, %x80-9F after %xED, %x90-BF after %xF0, %x80-8F after %xF4
   * and UTF8-tail otherwise.
   */
  predicate SecondByteOk(first: byte, second: byte) {
    if first == 0xE0 then 0xA0 <= second <= 0xBF
    else if first == 0xED then 0x80 <= second <= 0x9F
    else if first == 0xF0 then 0x90 <= second <= 0xBF
    else if first == 0xF4 then 0x80 <= second <= 0x8F
    else IsTail(second)
  }

  /** Byte-by-byte reading of "`p` is the beginning of a well-formed character". */
  predicate CouldStartChar(p: seq<byte>) {
    && 1 <= |p| <= Utf8CharWidth(p[0])
    && (|p| >= 2 ==> SecondByteOk(p[0], p[1]))
    && forall j | 2 <= j < |p| :: IsTail(p[j])
  }

  /** `CouldStartChar` is exactly `IsCharPrefix` on non-empty sequences. */
  lemma CharPrefixIff(p: seq<byte>)
    requires p != []
    ensures IsCharPrefix(p) <==> CouldStartChar(p)
  {
    if IsCharPrefix(p) {
      var c :| IsUtf8Char(c) && p <= c;
      CharWidth(c);
      assert p[0] == c[0];
      assert |p| >= 2 ==> p[1] == c[1];
      assert forall j | 2 <= j < |p| :: p[j] == c[j];
    }
    if CouldStartChar(p) {
      var f := p[0];
      var w := Utf8CharWidth(f);
      var second: byte := if |p| >= 2 then p[1] else if f == 0xE0 then 0xA0 else if f == 0xF0 then 0x90 else 0x80;
      var third: byte := if |p| >= 3 then p[2] else 0x80;
      var fourth: byte := if |p| >= 4 then p[3] else 0x80;
      var c: seq<byte> :=
        if w == 1 then [f]
        else if w == 2 then [f, second]
        else if w == 3 then [f, second, third]
        else [f, second, third, fourth];
      assert IsUtf8Char(c);
      assert p == c[..|p|];
    }
  }

  /** A sequence shorter than its lead byte announces does not begin with a character. */
  lemma TruncatedHasNoChar(s: seq<byte>)
    requires 1 <= |s| < Utf8CharWidth(s[0])
    ensures !StartsWithChar(s)
  {
    if k :| CharAt(s, k) {
      CharWidth(s[..k]);
    }
  }

  /**
   * A sequence whose first `n` bytes begin no character does not begin
   * with a character, provided `n` is within the lead byte's width.
   */
  lemma NotPrefixHasNoChar(s: seq<byte>, n: nat)
    requires 1 <= n <= |s| && !IsCharPrefix(s[..n])
    requires n <= Utf8CharWidth(s[0]) || Utf8CharWidth(s[0]) == 0
    ensures !StartsWithChar(s)
  {
    if k :| CharAt(s, k) {
      CharWidth(s[..k]);
      assert s[..n] <= s[..k];
    }
  }

  /** The lead bytes the width table gives zero are exactly the bytes that begin no character. */
  lemma WidthTableIff(b: byte)
    ensures Utf8CharWidth(b) == 0 <==> forall c | IsUtf8Char(c) :: c[0] != b
  {
    forall c | IsUtf8Char(c)
      ensures Utf8CharWidth(c[0]) != 0
    {
      CharWidth(c);
    }
    var w := Utf8CharWidth(b);
    if w != 0 {
      var second: byte := if b == 0xE0 then 0xA0 else if b == 0xF0 then 0x90 else 0x80;
      var c: seq<byte> :=
        if w == 1 then [b]
        else if w == 2 then [b, second]
        else if w == 3 then [b, second, 0x80]
        else [b, second, 0x80, 0x80];
      assert IsUtf8Char(c) && c[0] == b;
    }
  }

  /** No character begins with a continuation byte. */
  lemma TailBeginsNoChar(s: seq<byte>)
    requires s != [] && IsTail(s[0])
    ensures !StartsWithChar(s)
  {
    if k :| CharAt(s, k) {
      CharWidth(s[..k]);
    }
  }

  /** A non-empty well-formed sequence never begins with a stray continuation byte. */
  lemma ValidBeginsWithLead(s: seq<byte>)
    requires ValidUtf8(s) && s != []
    ensures !IsTail(s[0])
  {
    FirstChar(s);
    CharWidth(s[..Utf8CharWidth(s[0])]);
  }

  /** Every beginning of a beginning of a character begins a character. */
  lemma CharPrefixClosed(p: seq<byte>, q: seq<byte>)
    requires p <= q
    ensures IsCharPrefix(q) ==> IsCharPrefix(p)
  {
    if IsCharPrefix(q) {
      var c :| IsUtf8Char(c) && q <= c;
      assert p <= c;
    }
  }

  /**
   * Examples of what the grammar excludes: an overlong two-byte form of
   * U+0000, the encoded surrogate U+D800, U+110000 (above the Unicode
   * range) and a stray continuation byte.
   */
  lemma RejectedForms()
    ensures !ValidUtf8([0xC0, 0x80])
    ensures !ValidUtf8([0xED, 0xA0, 0x80])
    ensures !ValidUtf8([0xF4, 0x90, 0x80, 0x80])
    ensures !ValidUtf8([0x80])
  {
    var s: seq<byte> := [];
    assert ValidUtf8(s);
    NoCharAfterValidPrefix([0xC0, 0x80], 0);
    NoCharAfterValidPrefix([0xED, 0xA0, 0x80], 0);
    NoCharAfterValidPrefix([0xF4, 0x90, 0x80, 0x80], 0);
    NoCharAfterValidPrefix([0x80], 0);
  }
}
