/**
 * The check behind `str::from_utf8`, the validation that
 * `BytesString::from_utf8` runs before wrapping its bytes. It follows the
 * byte-at-a-time loop of Rust's core library (`run_utf8_validation`): a lead
 * byte selects a width from `UTF8_CHAR_WIDTH`, the byte after it is matched
 * against the ranges the width allows, and each further byte must be a
 * continuation byte.
 */
module Validation {
  import opened Wrappers
  import opened Utf8

  /**
   * Rust's `Utf8Error`: `validUpTo` is the length of the longest well-formed
   * prefix; `errorLen` is `None` when the input ends in the middle of a
   * character, and otherwise the length of the invalid sequence found at
   * `validUpTo`.
   */
  datatype Utf8Error = Utf8Error(validUpTo: nat, errorLen: Option<nat>)

  /** `b as i8`: the byte read as a two's complement signed value. */
  function AsI8(b: byte): (r: int)
    ensures -0x80 <= r < 0x80
    ensures r % 0x100 == b
  {
    if b < 0x80 then b else b - 0x100
  }

  /** The condition `next!() as i8 >= -64` that Rust uses to reject a non-continuation byte. */
  lemma AsI8RejectsExactlyNonTails(b: byte)
    ensures (AsI8(b) >= -64) <==> !IsTail(b)
  {
  }

  /** What an error value says about the input it was reported for. */
  ghost predicate DescribesError(v: seq<byte>, e: Utf8Error) {
    && e.validUpTo < |v|
    && ValidUtf8(v[..e.validUpTo])
    && !StartsWithChar(v[e.validUpTo..])
    && match e.errorLen
       case None => IsCharPrefix(v[e.validUpTo..])
       case Some(n) =>
         && 1 <= n <= 3
         && e.validUpTo + n <= |v|
         && MaximalSubpart(v, e.validUpTo, n)
  }

  /**
   * The `n` bytes at `i` are the longest beginning of a character found
   * there (the byte after them breaks it), or a lone byte that begins no
   * character at all.
   */
  ghost predicate MaximalSubpart(v: seq<byte>, i: nat, n: nat)
    requires i + n <= |v|
  {
    || (IsCharPrefix(v[i..i + n]) && i + n < |v| && !IsCharPrefix(v[i..i + n + 1]))
    || (n == 1 && !IsCharPrefix(v[i..i + 1]))
  }

  /** An input for which some error is reported is not well-formed. */
  lemma ErrorMeansInvalid(v: seq<byte>, e: Utf8Error)
    requires DescribesError(v, e)
    ensures !ValidUtf8(v)
  {
    NoCharAfterValidPrefix(v, e.validUpTo);
  }

  /**
   * The `n` bytes of `v` at `i` begin a character, read byte by byte as the
   * validation loop reads them. This is `CouldStartChar(v[i..i + n])`
   * (`GoodBytesAtIff`) stated on indices instead of a slice: the loop only
   * tracks positions in `v`, and keeping slices out of its branch
   * conditions keeps each of its proof obligations small.
   */
  predicate GoodBytesAt(v: seq<byte>, i: nat, n: nat)
    requires i + n <= |v|
  {
    && 1 <= n <= Utf8CharWidth(v[i])
    && (n >= 2 ==> SecondByteOk(v[i], v[i + 1]))
    && (n >= 3 ==> IsTail(v[i + 2]))
    && (n >= 4 ==> IsTail(v[i + 3]))
  }

  lemma GoodBytesAtIff(v: seq<byte>, i: nat, n: nat)
    requires 1 <= n && i + n <= |v|
    ensures GoodBytesAt(v, i, n) <==> CouldStartChar(v[i..i + n])
  {
    var p := v[i..i + n];
    assert p[0] == v[i];
    assert n >= 2 ==> p[1] == v[i + 1];
    assert n >= 3 ==> p[2] == v[i + 2];
    assert n >= 4 ==> p[3] == v[i + 3];
    if CouldStartChar(p) {
      assert n >= 3 ==> IsTail(p[2]);
      assert n >= 4 ==> IsTail(p[3]);
    }
  }

  /** The `err!(Some(1))` exit for a byte that cannot lead a character. */
  lemma InvalidLeadAt(v: seq<byte>, i: nat)
    requires i < |v| && ValidUtf8(v[..i]) && Utf8CharWidth(v[i]) == 0
    ensures DescribesError(v, Utf8Error(i, Some(1)))
  {
    CharPrefixIff(v[i..i + 1]);
    assert v[i..][..1] == v[i..i + 1];
    NotPrefixHasNoChar(v[i..], 1);
  }

  /** The other `err!(Some(n))` exits: the byte after `n` good ones breaks the character. */
  lemma BrokenSequenceAt(v: seq<byte>, i: nat, n: nat)
    requires 1 <= n && i + n < |v| && ValidUtf8(v[..i])
    requires GoodBytesAt(v, i, n) && !GoodBytesAt(v, i, n + 1)
    requires n < Utf8CharWidth(v[i])
    ensures DescribesError(v, Utf8Error(i, Some(n)))
  {
    GoodBytesAtIff(v, i, n);
    GoodBytesAtIff(v, i, n + 1);
    CharPrefixIff(v[i..i + n]);
    CharPrefixIff(v[i..i + n + 1]);
    assert v[i..][..n + 1] == v[i..i + n + 1];
    NotPrefixHasNoChar(v[i..], n + 1);
  }

  /** The `err!(None)` exits of the validation loop: the input ends inside a character. */
  lemma TruncatedAt(v: seq<byte>, i: nat)
    requires i < |v| && ValidUtf8(v[..i])
    requires GoodBytesAt(v, i, |v| - i) && |v| - i < Utf8CharWidth(v[i])
    ensures DescribesError(v, Utf8Error(i, None))
  {
    GoodBytesAtIff(v, i, |v| - i);
    assert v[i..i + (|v| - i)] == v[i..];
    CharPrefixIff(v[i..]);
    TruncatedHasNoChar(v[i..]);
  }

  /** One character accepted: the well-formed prefix grows by it. */
  lemma Accept(v: seq<byte>, i: nat, j: nat)
    requires i < j <= |v| && ValidUtf8(v[..i])
    requires GoodBytesAt(v, i, j - i) && j - i == Utf8CharWidth(v[i])
    ensures ValidUtf8(v[..j])
  {
    GoodBytesAtIff(v, i, j - i);
    var c := v[i..j];
    CharPrefixIff(c);
    var d :| IsUtf8Char(d) && c <= d;
    CharWidth(d);
    assert c == d;
    CharIsValid(c);
    Concat(v[..i], c);
    assert v[..i] + c == v[..j];
  }

  /** `str::from_utf8` without its result value: succeeds exactly on well-formed UTF-8. */
  method RunUtf8Validation(v: seq<byte>) returns (r: Result<(), Utf8Error>)
    ensures r.Ok? <==> ValidUtf8(v)
    ensures r.Err? ==> DescribesError(v, r.error)
  {
    var index := 0;
    var len := |v|;
    while index < len
      invariant 0 <= index <= len
      invariant ValidUtf8(v[..index])
    {
      var oldOffset := index;
      var first := v[index];
      if first >= 128 {
        var w := Utf8CharWidth(first);
        if w == 2 {
          index := index + 1;
          if index >= len {
            TruncatedAt(v, oldOffset);
            r := Err(Utf8Error(oldOffset, None));
            ErrorMeansInvalid(v, r.error);
            return;
          }
          if AsI8(v[index]) >= -64 {
            BrokenSequenceAt(v, oldOffset, 1);
            r := Err(Utf8Error(oldOffset, Some(1)));
            ErrorMeansInvalid(v, r.error);
            return;
          }
        } else if w == 3 {
          index := index + 1;
          if index >= len {
            TruncatedAt(v, oldOffset);
            r := Err(Utf8Error(oldOffset, None));
            ErrorMeansInvalid(v, r.error);
            return;
          }
          var second := v[index];
          if !(|| (first == 0xE0 && 0xA0 <= second <= 0xBF)
               || (0xE1 <= first <= 0xEC && 0x80 <= second <= 0xBF)
               || (first == 0xED && 0x80 <= second <= 0x9F)
               || (0xEE <= first <= 0xEF && 0x80 <= second <= 0xBF)) {
            BrokenSequenceAt(v, oldOffset, 1);
            r := Err(Utf8Error(oldOffset, Some(1)));
            ErrorMeansInvalid(v, r.error);
            return;
          }
          index := index + 1;
          if index >= len {
            TruncatedAt(v, oldOffset);
            r := Err(Utf8Error(oldOffset, None));
            ErrorMeansInvalid(v, r.error);
            return;
          }
          if AsI8(v[index]) >= -64 {
            BrokenSequenceAt(v, oldOffset, 2);
            r := Err(Utf8Error(oldOffset, Some(2)));
            ErrorMeansInvalid(v, r.error);
            return;
          }
        } else if w == 4 {
          index := index + 1;
          if index >= len {
            TruncatedAt(v, oldOffset);
            r := Err(Utf8Error(oldOffset, None));
            ErrorMeansInvalid(v, r.error);
            return;
          }
          var second := v[index];
          if !(|| (first == 0xF0 && 0x90 <= second <= 0xBF)
               || (0xF1 <= first <= 0xF3 && 0x80 <= second <= 0xBF)
               || (first == 0xF4 && 0x80 <= second <= 0x8F)) {
            BrokenSequenceAt(v, oldOffset, 1);
            r := Err(Utf8Error(oldOffset, Some(1)));
            ErrorMeansInvalid(v, r.error);
            return;
          }
          index := index + 1;
          if index >= len {
            TruncatedAt(v, oldOffset);
            r := Err(Utf8Error(oldOffset, None));
            ErrorMeansInvalid(v, r.error);
            return;
          }
          if AsI8(v[index]) >= -64 {
            BrokenSequenceAt(v, oldOffset, 2);
            r := Err(Utf8Error(oldOffset, Some(2)));
            ErrorMeansInvalid(v, r.error);
            return;
          }
          index := index + 1;
          if index >= len {
            TruncatedAt(v, oldOffset);
            r := Err(Utf8Error(oldOffset, None));
            ErrorMeansInvalid(v, r.error);
            return;
          }
          if AsI8(v[index]) >= -64 {
            BrokenSequenceAt(v, oldOffset, 3);
            r := Err(Utf8Error(oldOffset, Some(3)));
            ErrorMeansInvalid(v, r.error);
            return;
          }
        } else {
          InvalidLeadAt(v, oldOffset);
          r := Err(Utf8Error(oldOffset, Some(1)));
          ErrorMeansInvalid(v, r.error);
          return;
        }
      }
      index := index + 1;
      Accept(v, oldOffset, index);
    }
    assert v[..index] == v;
    r := Ok(());
  }

  /** An error value is determined by the input: at most one satisfies `DescribesError`. */
  lemma DescribesErrorUnique(v: seq<byte>, e1: Utf8Error, e2: Utf8Error)
    requires DescribesError(v, e1) && DescribesError(v, e2)
    ensures e1 == e2
  {
    if e1.validUpTo <= e2.validUpTo {
      ValidUpToUnique(v, e1.validUpTo, e2.validUpTo);
    } else {
      ValidUpToUnique(v, e2.validUpTo, e1.validUpTo);
    }
    ErrorLenUnique(v, e1.validUpTo, e1.errorLen, e2.errorLen);
  }

  /**
   * At a given `validUpTo`, the error length is determined: a longer
   * candidate begins a character, so every shorter beginning does too,
   * and that contradicts the shorter candidate's broken next byte.
   */
  lemma ErrorLenUnique(v: seq<byte>, i: nat, a: Option<nat>, b: Option<nat>)
    requires DescribesError(v, Utf8Error(i, a)) && DescribesError(v, Utf8Error(i, b))
    ensures a == b
  {
    var m := ErrorLenFacts(v, i, a);
    var n := ErrorLenFacts(v, i, b);
    LengthsAgree(v, i, a, b, m, n);
  }

  /** What `DescribesError` says about the error length, with `None` read as "up to the end". */
  lemma ErrorLenFacts(v: seq<byte>, i: nat, o: Option<nat>) returns (m: nat)
    requires DescribesError(v, Utf8Error(i, o))
    ensures ErrorLenOk(v, i, o, m)
  {
    m := if o.Some? then o.value else |v| - i;
    assert v[i..i + (|v| - i)] == v[i..];
  }

  /** The part of `DescribesError` about the error length `o`, whose length is `m`. */
  ghost predicate ErrorLenOk(v: seq<byte>, i: nat, o: Option<nat>, m: nat) {
    && 1 <= m && i + m <= |v|
    && (o.None? ==> m == |v| - i && IsCharPrefix(v[i..i + m]))
    && (o.Some? ==> o.value == m && MaximalSubpart(v, i, m))
  }

  lemma LengthsAgree(v: seq<byte>, i: nat, a: Option<nat>, b: Option<nat>, m: nat, n: nat)
    requires ErrorLenOk(v, i, a, m) && ErrorLenOk(v, i, b, n)
    ensures a == b
  {
    if m < n {
      ShorterLenImpossible(v, i, a, b, m, n);
    } else if n < m {
      ShorterLenImpossible(v, i, b, a, n, m);
    }
  }

  /** A shorter error length than another candidate's cannot be right. */
  lemma ShorterLenImpossible(v: seq<byte>, i: nat, a: Option<nat>, b: Option<nat>, m: nat, n: nat)
    requires ErrorLenOk(v, i, a, m) && ErrorLenOk(v, i, b, n)
    ensures m >= n
  {
    if m < n {
      CharPrefixClosed(v[i..i + 1], v[i..i + n]);
      CharPrefixClosed(v[i..i + m + 1], v[i..i + n]);
    }
  }

  /** Where no character begins, the well-formed prefix ends: a shorter one cannot be followed by nothing. */
  lemma ValidUpToUnique(v: seq<byte>, i: nat, j: nat)
    requires i <= j < |v| && ValidUtf8(v[..i]) && ValidUtf8(v[..j]) && !StartsWithChar(v[i..])
    ensures i == j
  {
    if i < j {
      assert v[..j][..i] == v[..i];
      SuffixAfterValidPrefix(v[..j], i);
      assert v[..j][i..] == v[i..j];
      var k :| CharAt(v[i..j], k) && ValidUtf8(v[i..j][k..]);
      CharAtExtends(v[i..j], v[i..], k);
    }
  }

  /**
   * The error values for a few inputs: a character cut short by the end of
   * the input, one broken after its lead byte, one broken after three good
   * bytes, and a byte that never starts a character.
   */
  lemma ErrorExamples()
    ensures DescribesError([0x61, 0xE2, 0x82], Utf8Error(1, None))
    ensures DescribesError([0x61, 0xE2, 0x28, 0x61], Utf8Error(1, Some(1)))
    ensures DescribesError([0xF0, 0x9F, 0x98, 0x41], Utf8Error(0, Some(3)))
    ensures DescribesError([0xFF], Utf8Error(0, Some(1)))
  {
    var a: seq<byte> := [0x61];
    CharIsValid(a);
    var none: seq<byte> := [];
    assert ValidUtf8(none);
    var v1: seq<byte> := [0x61, 0xE2, 0x82];
    assert v1[..1] == a;
    TruncatedAt(v1, 1);
    var v2: seq<byte> := [0x61, 0xE2, 0x28, 0x61];
    assert v2[..1] == a;
    BrokenSequenceAt(v2, 1, 1);
    var v3: seq<byte> := [0xF0, 0x9F, 0x98, 0x41];
    assert v3[..0] == none;
    BrokenSequenceAt(v3, 0, 3);
    var v4: seq<byte> := [0xFF];
    assert v4[..0] == none;
    InvalidLeadAt(v4, 0);
  }
}
