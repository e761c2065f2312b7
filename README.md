# BytesString: a verified model

`BytesString` (in `src/string/bytes.rs` of ber-rs) is an immutable text string stored in a shared
`bytes::Bytes` buffer. Its single invariant is that the wrapped bytes are well-formed UTF-8.
- Every constructor establishes the invariant. `from_utf8` checks the bytes. `from_utf8_unchecked`
  relies on the caller's `unsafe` promise. `empty`, `Default` and the two `From` conversions start
  from data that is already valid.
- The string view `as_str` reinterprets the bytes without checking them again.
- Equality and ordering compare the string view.

The model is written in Dafny, in these modules:

- `Utf8` (`utf8.dfy`) defines well-formed UTF-8, following the `UTF8-octets` grammar of section 4
  of RFC 3629.
  - `IsUtf8Char` spells out the grammar's `UTF8-char` alternatives.
  - `ValidUtf8` is `*( UTF8-char )`, written with a generic Kleene star `Star` whose concatenation
    and unique-boundary lemmas hold for any prefix-free rule.
  - `Str` is the subset type of well-formed byte sequences. It models Rust's `str` and the
    contents of a `String`.
- `Validation` (`validation.dfy`) models `str::from_utf8`, the check that `from_utf8` calls.
  - `RunUtf8Validation` is a byte-at-a-time `while` loop, following Rust's core library.
  - It returns Rust's `Utf8Error`, with `valid_up_to` and `error_len`.
  - It is proved to succeed exactly on well-formed input, and to report the error value that input
    determines.
- `Text` (`text.dfy`) relates `Str` to Dafny `string`, a sequence of Unicode scalar values.
  - `Encode` and `Decode` follow section 3 of RFC 3629, and they are inverses.
  - Comparing encodings byte by byte gives the same order as comparing scalar values. This is why
    byte-wise `str` ordering is text ordering.
- `Lexicographic` (`lexicographic.dfy`) models Rust's `Ordering` and slice comparison, proved to be
  a total order.
- `SharedBytes` (`shared_bytes.dfy`) models `bytes::Bytes` as the immutable value it gives access
  to.
- `StringBytes` (`string_bytes.dfy`) models the component itself.
  - `BytesString` is a subset type whose constraint is the invariant, so an instance with invalid
    bytes cannot exist.
  - `FromUtf8Unchecked` turns the `unsafe` contract into a `requires`.
- `Wrappers` (`wrappers.dfy`) holds `Option` and `Result`.

The library's `str::from_utf8` is not one of the source files modelled here. `RunUtf8Validation`
follows the behaviour of Rust's core library (`run_utf8_validation` and its `UTF8_CHAR_WIDTH`
table), which is what line 28 relies on.

## Model

| member | source | states |
|---|---|---|
| `StringBytes.FromUtf8Unchecked` | src/string/bytes.rs:21-24 | callable only on well-formed UTF-8 (the caller's `unsafe` promise as a precondition); the instance wraps exactly the given `Bytes` |
| `StringBytes.FromUtf8` | src/string/bytes.rs:26-30 | returns `Ok` exactly when the bytes are well-formed UTF-8 per RFC 3629; on `Ok` the instance's `as_bytes`/`as_slice` are the input unchanged; on `Err` no instance exists and the error is the one `str::from_utf8` describes for the input |
| `StringBytes.Empty` | src/string/bytes.rs:32-35 | zero-length byte view, and the string view decodes to the empty text |
| `StringBytes.Default` | src/string/bytes.rs:55-59 | equals `empty()`, so has zero length |
| `StringBytes.FromString` | src/string/bytes.rs:64-68 | the string view of the result is the original string's bytes |
| `StringBytes.FromStr` | src/string/bytes.rs:70-74 | the string view of the result is the original string slice's bytes |
| `StringBytes.FromTextRoundTrip` | src/string/bytes.rs:64-74 | any text converted through either `From` impl decodes back, through `as_str`, to the same characters |
| `StringBytes.AsBytes` | src/string/bytes.rs:37-40 | the wrapped `Bytes`, which hold well-formed UTF-8 |
| `StringBytes.AsStr` | src/string/bytes.rs:42-45 | the slice typed as `Str`; its validity comes from the type's invariant, with no check |
| `StringBytes.AsSlice` | src/string/bytes.rs:47-50 | the bytes the wrapped `Bytes` hold |
| `StringBytes.ViewsAgree` | src/string/bytes.rs:37-50 | every instance holds well-formed UTF-8, `as_str`, `as_slice` and `as_bytes` describe the identical bytes, and the characters the string view shows encode back to exactly the slice |
| `StringBytes.Eq` | src/string/bytes.rs:126-130 | comparing the string view with any string is true exactly when both decode to the same characters |
| `StringBytes.EqIsContentEquality` | src/string/bytes.rs:126-132 | `eq` between two instances holds exactly when they are equal values (same content), whatever constructor built them |
| `StringBytes.EqualityExample` | src/string/bytes.rs:126-130 | `from_utf8_unchecked` on the bytes of "abc" equals `From::from("abc")` and `eq`s "abc" |
| `StringBytes.Cmp` | src/string/bytes.rs:143-147 | `cmp` is `Equal` exactly when `eq` holds, and orders instances as the lexicographic order of their decoded scalar values |
| `StringBytes.PartialCmp` | src/string/bytes.rs:137-141 | always `Some`; `Equal` exactly when `eq` holds; agrees with `cmp` |
| `StringBytes.CmpReverse` | src/string/bytes.rs:143-147 | swapping the operands of `cmp` reverses its result |
| `StringBytes.CmpEqualIff` | src/string/bytes.rs:143-147 | `cmp` is `Equal` exactly for equal instances |
| `StringBytes.CmpTransitive` | src/string/bytes.rs:143-147 | `Less` is transitive |
| `StringBytes.CmpTotalOrder` | src/string/bytes.rs:143-147 | "not greater" under `cmp` is reflexive, antisymmetric, transitive and total |
| `StringBytes.OrderExample` | src/string/bytes.rs:137-147 | "a" < "b" < "ba", "a" < "ba" and "a" < "ab" |
| `Validation.RunUtf8Validation` | src/string/bytes.rs:28 | the validation loop of `str::from_utf8` succeeds exactly on well-formed UTF-8; on failure `valid_up_to` is the longest well-formed prefix, no character starts there, and `error_len` is `None` for a character cut off by the end of input or the length of the maximal invalid subpart |
| `Validation.DescribesErrorUnique` | src/string/bytes.rs:28 | the error conditions admit exactly one `Utf8Error` per input, so the loop's result is fully determined |
| `Validation.ErrorLenUnique` | src/string/bytes.rs:28 | at a given `valid_up_to`, at most one `error_len` fits the input |
| `Validation.ErrorMeansInvalid` | src/string/bytes.rs:28 | an input for which an error is described is not well-formed |
| `Validation.ErrorExamples` | src/string/bytes.rs:28 | the error values for a truncated character, a character broken after one and after three bytes, and a byte that cannot lead a character |
| `Validation.AsI8` | src/string/bytes.rs:28 | the `as i8` cast of the validation loop: the signed value in -128..127 that is congruent to the byte modulo 256 |
| `Utf8.Utf8CharWidth` | src/string/bytes.rs:28 | the validation loop's `UTF8_CHAR_WIDTH` table: no lead byte announces more than four bytes |
| `Utf8.CharWidth` | src/string/bytes.rs:28 | every well-formed character is exactly as long as the width table says for its first byte |
| `Utf8.WidthTableIff` | src/string/bytes.rs:28 | the width table is zero exactly for the bytes that begin no character |
| `Validation.AsI8RejectsExactlyNonTails` | src/string/bytes.rs:28 | the loop's `as i8 >= -64` test rejects exactly the bytes that are not UTF-8 continuation bytes |
| `Utf8.RejectedForms` | src/string/bytes.rs:13-16 | for example, the overlong `C0 80`, the encoded surrogate `ED A0 80`, `F4 90 80 80` (above U+10FFFF) and a lone `80` are not well-formed |
| `Text.ShortestForm` | src/string/bytes.rs:13-16 | every character the invariant admits is the shortest form of its scalar value, of the length its range calls for: no overlong form, no surrogate, nothing above U+10FFFF |
| `Utf8.TailBeginsNoChar` | src/string/bytes.rs:13-16 | no character begins with a continuation byte |
| `Utf8.ValidBeginsWithLead` | src/string/bytes.rs:13-16 | a non-empty well-formed sequence never begins with a stray continuation byte |
| `Utf8.SuffixAfterValidPrefix` | src/string/bytes.rs:13-16 | if a byte sequence and one of its prefixes are well-formed, so is the rest (character boundaries are unique) |
| `Utf8.Concat` | src/string/bytes.rs:13-16 | concatenating well-formed sequences gives a well-formed sequence |
| `Utf8.StarSuffix` | src/string/bytes.rs:13-16 | for a prefix-free rule, the rest of a star after a prefix in the star is in the star (the basis of unique character boundaries) |
| `Utf8.Utf8PrefixFree` | src/string/bytes.rs:13-16 | no well-formed character is a proper prefix of another |
| `Utf8.CharPrefixIff` | src/string/bytes.rs:28 | the byte-by-byte reading of "begins a character" used by the validation loop is exactly the grammar's |
| `Text.EncodeDecodeChar` | src/string/bytes.rs:42-45 | every character the grammar accepts decodes to a Unicode scalar value whose encoding gives back the same bytes |
| `Text.DecodeEncodeChar` | src/string/bytes.rs:42-45 | decoding the encoding of any scalar value gives back that value |
| `Text.DecodeEncode` | src/string/bytes.rs:64-74 | decoding the UTF-8 encoding of a text gives back the text |
| `Text.EncodeDecode` | src/string/bytes.rs:42-45 | encoding the text that well-formed bytes decode to gives back the bytes |
| `Text.EncodePreservesOrder` | src/string/bytes.rs:143-147 | byte-wise lexicographic order of encodings equals lexicographic order of scalar values |
| `Text.EncodeCharOrder` | src/string/bytes.rs:143-147 | a smaller scalar value has an encoding that compares smaller, whatever follows it |
| `Text.Rfc3629ExampleMath` | src/string/bytes.rs:64-74 | the encoding of "A≢Α." given in section 7 of RFC 3629 |
| `Text.Rfc3629ExampleKorean` | src/string/bytes.rs:64-74 | the encoding of the Korean example of section 7 of RFC 3629 |
| `Text.Rfc3629ExampleJapanese` | src/string/bytes.rs:64-74 | the encoding of the Japanese example of section 7 of RFC 3629 |
| `Text.Rfc3629ExampleBom` | src/string/bytes.rs:64-74 | the encoding of U+FEFF U+233B4 given in section 7 of RFC 3629 |
| `Lexicographic.CmpEqual` | src/string/bytes.rs:143-147 | slice comparison is `Equal` exactly for equal sequences |
| `Lexicographic.CmpAntisymmetric` | src/string/bytes.rs:143-147 | swapping the operands of slice comparison reverses the result |
| `Lexicographic.CmpTransitive` | src/string/bytes.rs:143-147 | `Less` is transitive for slice comparison |
| `Lexicographic.CmpCommonPrefix` | src/string/bytes.rs:143-147 | a shared prefix does not change a slice comparison |
| `Lexicographic.CmpPrefix` | src/string/bytes.rs:143-147 | a proper prefix compares smaller than the sequence it begins |
| `Lexicographic.CmpFirstDifference` | src/string/bytes.rs:143-147 | the first differing position decides a slice comparison |

## Left out

- Sharing and reference counting in `Bytes` (lines 8 and 17) are not modelled, and neither is the allocation or copy in `Bytes::from`. `Bytes` is an immutable value, so `Clone` is a copy of the value. That a clone outlives its original is therefore not a property the model can state.
- The derived `Hash` and `Debug` (line 17) are left out, because their values are defined by the libraries. What `Hash` relies on, that equal instances have equal bytes, is `StringBytes.EqIsContentEquality`.
- `Display` (lines 152-156) is left out, because it is formatter plumbing.
- The `Deref`, `AsRef` and `Borrow` impls (lines 79-121) only forward to `as_str`, `as_bytes` and `as_slice`. Those three accessors are modelled once each.
- The memory-safety side of `unsafe` and of lifetimes is left out. Only the logical precondition of `from_utf8_unchecked` is modelled.
- `StringBytes.Eq`: the generic `T: AsRef<str>` operand of `PartialEq` and `PartialOrd` is modelled by its string view, a `Str`. `Cmp` is between two instances, as `Ord` is.
- `Validation.RunUtf8Validation`: the ASCII fast path of Rust's validation reads aligned words at a time. The loop here checks one ASCII byte per iteration instead, which gives the same result.
