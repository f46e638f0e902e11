/** `StringBuilder` (src/lib.rs): a wrapper around one growable `String` whose
    methods push text onto it in place and hand the builder back, so that
    calls chain.

    A Rust `String` stores its text as UTF-8 bytes and never holds bytes that
    are not valid UTF-8. The model keeps exactly that: the field `bytes` is the
    `String`'s byte buffer, `Valid()` is its UTF-8 invariant, and `Value()` is
    the text it spells. Rust's `mut self -> Self` hand-over becomes a method
    that updates the receiver and returns it. */
module Builder {
  import opened Utf8

  /** Rust's `usize` on a 64-bit target. */
  type USize = n: int | 0 <= n < 0x1_0000_0000_0000_0000

  class StringBuilder {
    /** The public field `.0`, held as the UTF-8 bytes of the `String`. */
    var bytes: seq<Byte>

    /** What every `String` guarantees: its bytes are well-formed UTF-8. */
    ghost predicate Valid()
      reads this
    {
      ValidUtf8(bytes)
    }

    /** The text of `.0`: the characters the buffer encodes, and nothing else. */
    function Value(): (t: string)
      reads this
      requires Valid()
      ensures Encode(t) == bytes
    {
      Decode(bytes)
    }

    /** `new`: an empty string. */
    constructor ()
      ensures Valid() && bytes == [] && Value() == ""
    {
      bytes := [];
    }

    /** `with_capacity`: an empty string whatever the capacity hint; the hint
        only sizes the allocation, which the model does not represent. */
    constructor WithCapacity(size: USize)
      ensures Valid() && bytes == [] && Value() == ""
    {
      bytes := [];
    }

    /** `from`: a copy of the given text. */
    constructor From(from: string)
      ensures Valid() && bytes == Encode(from) && Value() == from
    {
      bytes := Encode(from);
      DecodeOfEncode(from);
    }

    /** `append`: `push_str` of the text's bytes, then the builder itself. */
    method Append(from: string) returns (self: StringBuilder)
      requires Valid()
      modifies this
      ensures self == this && Valid()
      ensures bytes == old(bytes) + Encode(from)
      ensures Value() == old(Value()) + from
    {
      DecodeOfEncode(from);
      DecodeConcat(bytes, Encode(from));
      bytes := bytes + Encode(from);
      self := this;
    }

    /** `append_bytes`: `from_utf8(from).unwrap()`, then `push_str` of the
        decoded text. The `unwrap` panics exactly when `from` is not valid
        UTF-8 (lemma `FromUtf8Accepts`), which the precondition rules out, so
        the buffer only ever receives whole, valid characters. */
    method AppendBytes(from: seq<Byte>) returns (self: StringBuilder)
      requires Valid()
      requires ValidUtf8(from)
      modifies this
      ensures self == this && Valid()
      ensures bytes == old(bytes) + from
      ensures Value() == old(Value()) + Decode(from)
    {
      FromUtf8Accepts(from);
      var fromBytes := FromUtf8(from).value;
      FromUtf8Inverse(from);
      DecodeOfEncode(fromBytes);
      DecodeConcat(bytes, Encode(fromBytes));
      bytes := bytes + Encode(fromBytes);
      self := this;
    }

    /** `try_append_bytes` as written: it ignores `from` and returns `Ok` with
        the builder, whose buffer it leaves as it was. */
    method TryAppendBytes(from: seq<Byte>) returns (r: Result<StringBuilder, Utf8Error>)
      ensures r == Ok(this)
    {
      r := Ok(this);
    }
  }
}
