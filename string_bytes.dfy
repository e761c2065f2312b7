/**
 * `BytesString`: an immutable string atop a `Bytes` value. The wrapped bytes
 * are always well-formed UTF-8; every constructor establishes that, the
 * unchecked one by its caller's promise, and the string view relies on it
 * without checking again.
 */
module StringBytes {
  import opened Wrappers
  import opened Utf8
  import opened Lexicographic
  import opened SharedBytes
  import Validation
  import Text

  /** The tuple struct `BytesString(Bytes)`, apart from its invariant. */
  datatype BytesStringRepr = BytesStringRepr(bytes: Bytes)

  /** A `BytesStringRepr` whose bytes are well-formed UTF-8: the type's invariant. */
  type BytesString = s: BytesStringRepr | ValidUtf8(s.bytes.data)
    witness BytesStringRepr(Bytes([]))

  // --- Construction

  /**
   * `from_utf8_unchecked`: wraps the bytes without looking at them. Rust
   * leaves validity to the caller (`unsafe`); here it is the precondition.
   */
  function FromUtf8Unchecked(bytes: Bytes): (r: BytesString)
    requires ValidUtf8(bytes.data)
    ensures AsBytes(r) == bytes
  {
    BytesStringRepr(bytes)
  }

  /**
   * `from_utf8`: validates the bytes with `str::from_utf8` and propagates
   * its error; only well-formed bytes become a `BytesString`, unchanged.
   */
  method FromUtf8(bytes: Bytes) returns (r: Result<BytesString, Validation.Utf8Error>)
    ensures r.Ok? <==> ValidUtf8(bytes.data)
    ensures r.Ok? ==> AsBytes(r.value) == bytes && AsSlice(r.value) == bytes.data
    ensures r.Err? ==> Validation.DescribesError(bytes.data, r.error)
  {
    var checked := Validation.RunUtf8Validation(bytes.AsRef());
    if checked.Err? {
      return Err(checked.error);
    }
    r := Ok(FromUtf8Unchecked(bytes));
  }

  /** `empty`: the zero-length string. */
  function Empty(): (r: BytesString)
    ensures AsSlice(r) == [] && Text.Decode(AsStr(r)) == ""
  {
    FromUtf8Unchecked(Bytes.New())
  }

  /** `Default::default`, which is `empty`. */
  function Default(): (r: BytesString)
    ensures r == Empty()
    ensures |AsSlice(r)| == 0
  {
    Empty()
  }

  /** `From<String>`: takes over the string's UTF-8 bytes, without checking them again. */
  function FromString(s: Str): (r: BytesString)
    ensures AsStr(r) == s
  {
    FromUtf8Unchecked(Bytes.FromVec(s))
  }

  /** `From<&str>`: copies the string's UTF-8 bytes, without checking them again. */
  function FromStr(s: Str): (r: BytesString)
    ensures AsStr(r) == s
  {
    FromUtf8Unchecked(Bytes.CopyFromSlice(s))
  }

  // --- Views

  /** `as_bytes`: the underlying `Bytes` value. */
  function AsBytes(s: BytesString): (r: Bytes)
    ensures ValidUtf8(r.data)
  {
    s.bytes
  }

  /** `as_slice`: the raw bytes. */
  function AsSlice(s: BytesString): (r: seq<byte>)
    ensures r == AsBytes(s).data
  {
    s.bytes.AsRef()
  }

  /**
   * `as_str`: the same bytes as a `str`. No check runs: that they are a
   * `Str` follows from the type's invariant.
   */
  function AsStr(s: BytesString): (r: Str)
    ensures r == AsSlice(s)
  {
    AsSlice(s)
  }

  // --- Comparison

  /**
   * `PartialEq<T: AsRef<str>>`: compares the string view with any string.
   * Equal bytes and equal text are the same thing.
   */
  function Eq(self: BytesString, other: Str): (r: bool)
    ensures r <==> Text.Decode(AsStr(self)) == Text.Decode(other)
  {
    Text.EncodeDecode(AsStr(self));
    Text.EncodeDecode(other);
    AsStr(self) == other
  }

  /** `Ord::cmp`: the string views compared, which for `str` is lexicographic over the bytes. */
  function Cmp(self: BytesString, other: BytesString): (r: Ordering)
    ensures r == Equal <==> Eq(self, AsStr(other))
    ensures r == Lexicographic.Cmp(Text.CodePoints(Text.Decode(AsStr(self))), Text.CodePoints(Text.Decode(AsStr(other))))
  {
    CmpEqual(AsStr(self), AsStr(other));
    Text.EncodeDecode(AsStr(self));
    Text.EncodeDecode(AsStr(other));
    Text.EncodePreservesOrder(Text.Decode(AsStr(self)), Text.Decode(AsStr(other)));
    Lexicographic.Cmp(AsStr(self), AsStr(other))
  }

  /** `PartialOrd<T: AsRef<str>>`: the string views compared; `str` ordering is total, so always `Some`. */
  function PartialCmp(self: BytesString, other: Str): (r: Option<Ordering>)
    ensures r.Some?
    ensures r.value == Equal <==> Eq(self, other)
    ensures r.value == Cmp(self, FromStr(other))
  {
    CmpEqual(AsStr(self), other);
    Some(Lexicographic.Cmp(AsStr(self), other))
  }

  // --- Properties

  /**
   * Every instance holds well-formed UTF-8, its three views are the same
   * bytes, and the characters the string view shows encode back to exactly
   * the slice.
   */
  lemma ViewsAgree(s: BytesString)
    ensures ValidUtf8(AsSlice(s))
    ensures AsStr(s) == AsSlice(s) == AsBytes(s).AsRef()
    ensures Text.Encode(Text.Decode(AsStr(s))) == AsSlice(s)
  {
    Text.EncodeDecode(AsStr(s));
  }

  /** A text converted through either `From` impl reads back unchanged through `as_str`. */
  lemma {:induction false} FromTextRoundTrip(t: string)
    ensures Text.Decode(AsStr(FromString(Text.Encode(t)))) == t
    ensures Text.Decode(AsStr(FromStr(Text.Encode(t)))) == t
  {
    Text.DecodeEncode(t);
  }

  /** Equality is by content: it holds exactly between equal instances, however they were built. */
  lemma EqIsContentEquality(a: BytesString, b: BytesString)
    ensures Eq(a, AsStr(b)) <==> a == b
  {
  }

  /** The unchecked constructor on the bytes of "abc" equals the conversion from "abc". */
  lemma EqualityExample()
    ensures var abc := Text.Encode("abc");
            && FromUtf8Unchecked(Bytes.FromVec(abc)) == FromStr(abc)
            && Eq(FromUtf8Unchecked(Bytes.FromVec(abc)), abc)
  {
  }

  /** Swapping the operands of `cmp` reverses the result. */
  lemma CmpReverse(a: BytesString, b: BytesString)
    ensures Cmp(b, a) == Reverse(Cmp(a, b))
  {
    CmpAntisymmetric(AsStr(a), AsStr(b));
  }

  /** `cmp` answers `Equal` exactly for equal instances. */
  lemma CmpEqualIff(a: BytesString, b: BytesString)
    ensures Cmp(a, b) == Equal <==> a == b
  {
    EqIsContentEquality(a, b);
  }

  /** `Less` is transitive. */
  lemma CmpTransitive(a: BytesString, b: BytesString, c: BytesString)
    requires Cmp(a, b) == Less && Cmp(b, c) == Less
    ensures Cmp(a, c) == Less
  {
    Lexicographic.CmpTransitive(AsStr(a), AsStr(b), AsStr(c));
  }

  /** "not greater than" under `cmp`. */
  predicate Le(a: BytesString, b: BytesString) {
    Cmp(a, b) != Greater
  }

  /** `cmp` is a total order: reflexive, antisymmetric, transitive and total. */
  lemma CmpTotalOrder(a: BytesString, b: BytesString, c: BytesString)
    ensures Le(a, a)
    ensures Le(a, b) && Le(b, a) ==> a == b
    ensures Le(a, b) && Le(b, c) ==> Le(a, c)
    ensures Le(a, b) || Le(b, a)
  {
    CmpEqualIff(a, a);
    CmpEqualIff(a, b);
    CmpEqualIff(b, c);
    CmpReverse(a, b);
    if Cmp(a, b) == Less && Cmp(b, c) == Less {
      CmpTransitive(a, b, c);
    }
  }

  /** "a" < "b" < "ba", and "a" < "ab": a proper prefix comes first. */
  lemma OrderExample()
    ensures var a, b, ba := FromStr(Text.Encode("a")), FromStr(Text.Encode("b")), FromStr(Text.Encode("ba"));
            Cmp(a, b) == Less && Cmp(b, ba) == Less && Cmp(a, ba) == Less
    ensures Cmp(FromStr(Text.Encode("a")), FromStr(Text.Encode("ab"))) == Less
  {
    var a, b, ba := FromStr(Text.Encode("a")), FromStr(Text.Encode("b")), FromStr(Text.Encode("ba"));
    assert AsStr(a) == [0x61] && AsStr(b) == [0x62] && AsStr(ba) == [0x62, 0x61];
    var ab := FromStr(Text.Encode("ab"));
    assert AsStr(ab) == [0x61] + [0x62];
    CmpPrefix([0x61], [0x62]);
  }
}
