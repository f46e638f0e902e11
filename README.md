# string_builder in Dafny

A model of the Rust crate `string_builder`. The whole crate is one type,
`StringBuilder` (src/lib.rs), a wrapper around one growable `String`. Its
constructors are `new`, `with_capacity` and `from`. Its appends push text onto
the `String` in place and hand the builder back, so calls chain:

- `append` takes a `&str`.
- `append_bytes` takes a `&[u8]` and validates it with `std::str::from_utf8(..).unwrap()`.
- `try_append_bytes` is a stub.

The finished text is read from the public field `.0`.

The project has three modules:

- `Utf8` (utf8.dfy) covers the part of `std::str::from_utf8` that the crate
  relies on, written out rather than taken on trust:
  - the byte syntax of section 4 of RFC 3629 (`IsUtf8Char`, `Utf8Octets`);
  - the same syntax read the way a decoder reads it, one character at a time,
    with the lead byte giving the length (`ValidUtf8`);
  - the bit layout of section 3 (`ScalarOf`, `EncodeChar`, `Encode`);
  - the decoder `FromUtf8`, which returns `Ok(text)` or `Err(Utf8Error)`.

  Lemmas link these definitions. The decoder accepts exactly the grammar.
  Decoding and encoding are inverse bijections between text and valid bytes,
  and both commute with concatenation. Cutting valid bytes leaves two valid
  pieces exactly at a character boundary. A cut inside a character leaves two
  invalid pieces.
- `Builder` (string_builder.dfy) holds the class `StringBuilder`:
  - its field `bytes` is the byte buffer of the `String` in `.0`;
  - `Valid()` is the UTF-8 invariant that every Rust `String` keeps;
  - `Value()` is the text that `.0` holds.

  Each Rust method `fn m(mut self, ..) -> Self` becomes a method that updates
  the receiver and returns it.
- `Scenarios` (scenarios.dfy) builds fresh builders in the chains that the
  crate's documentation and design describe, and states the text each chain
  ends with. This includes a sentence with two- and three-byte characters
  ("„Pelé hat alles verändert."), cut at character boundaries and inside a
  character.

Text is `string`. A Dafny `char` is a Unicode scalar value, just as a Rust
`char` is. Bytes are `seq<Byte>`, with `Byte` the integers 0 to 255.

Where the design description and the code disagree, the model follows the code:

- `try_append_bytes` (src/lib.rs:65-68) ignores its argument and returns `Ok`
  with the builder unchanged. The design describes decoding with a recoverable
  error. `TryAppendBytes` models the code.
- The design says that feeding bytes 0 to 7 and then bytes 7 to 9 of the sample
  sentence fails on the second call. Offset 7 falls inside the two bytes of "é",
  so bytes 0 to 7 are already invalid and `append_bytes` panics on the first
  call. `Scenarios.SampleCutInsideChar` proves that both pieces are invalid.

## Model

| member | source | states |
|---|---|---|
| `Builder.StringBuilder.Value` | src/lib.rs:33 | The text of `.0` is the one text whose UTF-8 bytes are exactly the buffer. |
| `Builder.StringBuilder.constructor` | src/lib.rs:37-39 | `new` starts with an empty buffer holding the empty text, and the invariant holds. |
| `Builder.StringBuilder.WithCapacity` | src/lib.rs:43-45 | `with_capacity(size)` starts empty for every `usize` size. The hint never shows in the content. |
| `Builder.StringBuilder.From` | src/lib.rs:47-49 | `from(s)` holds a copy of `s`: its bytes are the encoding of `s`, and its text is `s`. |
| `Builder.StringBuilder.Append` | src/lib.rs:52-55 | Returns the same builder. The buffer becomes the old bytes followed by the bytes of `from`, and the text becomes the old text followed by `from`. The buffer stays valid UTF-8. |
| `Builder.StringBuilder.AppendBytes` | src/lib.rs:58-62 | Defined only for valid UTF-8, because `unwrap` panics otherwise. Returns the same builder. The buffer becomes the old bytes followed by `from` and stays valid. The text becomes the old text followed by `Decode(from)`. |
| `Builder.StringBuilder.TryAppendBytes` | src/lib.rs:65-68 | Whatever `from` is, returns `Ok` holding the builder itself and changes nothing, because the method has no `modifies` clause. |
| `Utf8.FromUtf8Accepts` | src/lib.rs:59 | `from_utf8` succeeds exactly on valid UTF-8, so the `unwrap` panics exactly when the bytes are invalid. |
| `Utf8.ValidUtf8IsGrammar` | src/lib.rs:59 | Reading by lead-byte length accepts exactly the UTF8-octets of the RFC 3629 grammar. The split into characters is unique. |
| `Utf8.FromUtf8Inverse` | src/lib.rs:59-60 | The text that `from_utf8` returns encodes back to the input bytes, so `push_str` appends exactly `from`. |
| `Utf8.Decode` | src/lib.rs:59 | The text of valid bytes is the text whose encoding is those bytes. |
| `Utf8.ScalarOf` | src/lib.rs:59 | A well-formed character never decodes to a surrogate or to a value above 0x10FFFF. |
| `Utf8.EncodeChar` | src/lib.rs:53 | Each character's bytes form one UTF8-char of the grammar and decode back to that character. |
| `Utf8.EncodeCharInverse` | src/lib.rs:59 | Every UTF8-char is the encoding of the value it carries, so no overlong or alternative form is accepted. |
| `Utf8.EncodeDecode` | src/lib.rs:58-62 | Round trip: the bytes of any text are valid and `from_utf8` returns that text. |
| `Utf8.DecodeOfEncode` | src/lib.rs:58-62 | `Decode(Encode(t)) == t` for every text `t`. |
| `Utf8.EncodeInjective` | src/lib.rs:53 | Different texts have different bytes. |
| `Utf8.EncodeConcat` | src/lib.rs:53 | The bytes of `a + b` are the bytes of `a` followed by the bytes of `b`. |
| `Utf8.DecodeConcat` | src/lib.rs:58-62 | Two valid byte sequences concatenate to valid bytes whose text is the concatenation of the two texts. |
| `Utf8.ValidStartsAtLead` | src/lib.rs:59 | Non-empty valid bytes never start with a continuation byte. |
| `Utf8.SplitAtBoundary` | src/lib.rs:58-62 | A cut in valid bytes gives two valid pieces if and only if it is a character boundary. At a boundary, the texts of the pieces make up the whole text. |
| `Utf8.SplitInsideChar` | src/lib.rs:59 | A cut inside a multi-byte character leaves both pieces invalid. |
| `Scenarios.DocExample` | src/lib.rs:10-19 | Appending "abc", "def", "ghi" and "jkl" to a new builder gives "abcdefghijkl". |
| `Scenarios.ChainedAppend` | src/lib.rs:52-55 | From any starting text `init`, `append(a)` then `append(b)` ends with `init + a + b`. |
| `Scenarios.AppendOfConcat` | src/lib.rs:52-55 | From any starting text `init`, one `append(a + b)` also ends with `init + a + b`, so the chain and the single call agree. |
| `Scenarios.EmptyAppends` | src/lib.rs:52-62 | Appending `""` or an empty byte slice leaves the text unchanged. |
| `Scenarios.AppendBytesOfEncoding` | src/lib.rs:52-62 | `append_bytes` of the bytes of `s` gives the same text as `append(s)`. |
| `Scenarios.SplitAppendBytes` | src/lib.rs:58-62 | Valid bytes cut at a character boundary and appended in two calls give the same text as one call on the whole. |
| `Scenarios.MixedChain` | src/lib.rs:52-62 | A chain of `append`, `append_bytes` and `append` gives the same text as one `append_bytes` of all the inputs' bytes concatenated. |
| `Scenarios.SampleEncoding` | src/lib.rs:58-62 | The sample sentence is 30 bytes. Bytes 0 to 9, 9 to 18 and 18 to 30 are its three pieces, and the bytes decode back to the sentence. |
| `Scenarios.SampleAtBoundaries` | src/lib.rs:58-62 | Offsets 9 and 18 are character boundaries. Three `append_bytes` calls on the pieces give the sentence. |
| `Scenarios.SampleCutInsideChar` | src/lib.rs:59 | Offset 7 is not a character boundary. Bytes 0 to 7 and bytes 7 to 9 are both invalid UTF-8. |
| `Scenarios.PeleByTryAppendBytes` | src/lib.rs:65-68 | The bytes of "Pelé" are fed to `try_append_bytes` in two halves. Both calls return `Ok`, and the text stays empty. |

## Left out

- Capacity and allocation: `with_capacity`'s hint and the growth policy of
  `push_str` change no content. Lengths are unbounded, so the capacity-overflow
  panic of `String` is not modelled.
- Rust ownership: `mut self -> Self` becomes a method that updates the receiver
  and returns it. Moves, and the builder being unusable after the call, are not
  represented.
- `Builder.StringBuilder.AppendBytes`: the panic in `from_utf8(..).unwrap()` is
  a precondition (`requires ValidUtf8(from)`), not a run-time outcome. Lemma
  `Utf8.FromUtf8Accepts` shows that this precondition is exactly the condition
  under which the `unwrap` does not panic.
- `std::str::Utf8Error`: its fields `valid_up_to` and `error_len`, and the
  diagnostic text, are not modelled. The crate never builds or inspects one.
  `Utf8Error` is a single value.
- The decode-and-report behaviour that the doc comment of `try_append_bytes`
  announces is not modelled, because the code does not implement it.
- The empty `tests` module and the `use std::string::String` import contain
  nothing to model.
