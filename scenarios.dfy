/** Chains of `StringBuilder` calls, as the crate's documentation and design
    describe them, each starting from fresh builders and stating the text it
    ends with. */
module Scenarios {
  import opened Utf8
  import opened Builder

  /** The example in the documentation of `StringBuilder`. */
  method DocExample() returns (s: string)
    ensures s == "abcdefghijkl"
  {
    var s2 := "ghi";
    var b := new StringBuilder();
    assert b.Value() == "";
    b := b.Append("abc");
    assert b.Value() == "abc";
    b := b.Append("def");
    assert b.Value() == "abcdef";
    b := b.Append(s2);
    assert b.Value() == "abcdefghi";
    b := b.Append("jkl");
    s := b.Value();
  }

  /** Appending `a` and then `b` ends with `init + a + b`, the text that
      `AppendOfConcat` reaches with one append of `a + b`. */
  method ChainedAppend(init: string, a: string, b: string) returns (chained: string)
    ensures chained == init + a + b
  {
    var x := new StringBuilder.From(init);
    x := x.Append(a);
    x := x.Append(b);
    chained := x.Value();
  }

  /** One append of `a + b` ends with `init + a + b`, as `ChainedAppend` does. */
  method AppendOfConcat(init: string, a: string, b: string) returns (single: string)
    ensures single == init + a + b
  {
    var y := new StringBuilder.From(init);
    y := y.Append(a + b);
    single := y.Value();
  }

  /** Appending empty text or an empty byte slice changes nothing. */
  method EmptyAppends(init: string) returns (t: string)
    ensures t == init
  {
    var x := new StringBuilder.From(init);
    x := x.Append("");
    assert x.Value() == init + "" == init;
    x := x.AppendBytes([]);
    assert x.Value() == init + Decode([]) == init;
    t := x.Value();
  }

  /** `append_bytes` of the bytes of `s` has the effect of `append(s)`. */
  method AppendBytesOfEncoding(init: string, s: string) returns (viaBytes: string, viaText: string)
    ensures viaBytes == viaText == init + s
  {
    DecodeOfEncode(s);
    var x := new StringBuilder.From(init);
    x := x.AppendBytes(Encode(s));
    assert x.Value() == init + s;
    viaBytes := x.Value();
    var y := new StringBuilder.From(init);
    y := y.Append(s);
    assert y.Value() == init + s;
    viaText := y.Value();
  }

  /** Valid bytes cut at a character boundary and appended piece by piece give
      the text that one `append_bytes` of the whole gives. */
  method SplitAppendBytes(bs: seq<Byte>, k: nat) returns (split: string, whole: string)
    requires ValidUtf8(bs) && k <= |bs| && IsCharBoundary(bs, k)
    ensures split == whole == Decode(bs)
  {
    SplitAtBoundary(bs, k);
    var x := new StringBuilder();
    assert x.Value() == "";
    x := x.AppendBytes(bs[..k]);
    assert x.Value() == Decode(bs[..k]);
    x := x.AppendBytes(bs[k..]);
    assert x.Value() == Decode(bs[..k]) + Decode(bs[k..]);
    split := x.Value();
    var y := new StringBuilder();
    assert y.Value() == "";
    y := y.AppendBytes(bs);
    assert y.Value() == Decode(bs);
    whole := y.Value();
  }

  /** Text and byte appends alternating in one chain give the text of all the
      inputs' bytes concatenated and appended at once. */
  method MixedChain(a: string, bs: seq<Byte>, c: string) returns (mixed: string, once: string)
    requires ValidUtf8(bs)
    ensures mixed == once == a + Decode(bs) + c
  {
    var x := new StringBuilder();
    assert x.Value() == "";
    x := x.Append(a);
    assert x.Value() == a;
    x := x.AppendBytes(bs);
    assert x.Value() == a + Decode(bs);
    x := x.Append(c);
    assert x.Value() == a + Decode(bs) + c;
    mixed := x.Value();
    var all := Encode(a) + bs + Encode(c);
    DecodeOfEncode(a);
    DecodeOfEncode(c);
    DecodeConcat(Encode(a), bs);
    DecodeConcat(Encode(a) + bs, Encode(c));
    assert ValidUtf8(all) && Decode(all) == a + Decode(bs) + c;
    var y := new StringBuilder();
    assert y.Value() == "";
    y := y.AppendBytes(all);
    assert y.Value() == Decode(all);
    once := y.Value();
  }

  /** A sentence with two- and three-byte characters, in three pieces that
      meet at character boundaries, with the bytes of each piece. */
  const Head: string := "\U{201E}Pel\U{00E9} "
  const Middle: string := "hat alles"
  const Tail: string := " ver\U{00E4}ndert."
  const Sample: string := Head + Middle + Tail

  const HeadBytes: seq<Byte> := [0xE2, 0x80, 0x9E, 0x50, 0x65, 0x6C, 0xC3, 0xA9, 0x20]
  const MiddleBytes: seq<Byte> := [0x68, 0x61, 0x74, 0x20, 0x61, 0x6C, 0x6C, 0x65, 0x73]
  const TailBytes: seq<Byte> := [0x20, 0x76, 0x65, 0x72, 0xC3, 0xA4, 0x6E, 0x64, 0x65, 0x72, 0x74, 0x2E]
  const SampleBytes: seq<Byte> := HeadBytes + MiddleBytes + TailBytes

  /** The quotation mark takes three bytes, each accented letter two. */
  lemma EncodeHead()
    ensures Encode(Head) == HeadBytes
  {
  }

  lemma EncodeMiddle()
    ensures Encode(Middle) == MiddleBytes
  {
  }

  lemma EncodeTail()
    ensures Encode(Tail) == TailBytes
  {
    var t1, t2 := " ver\U{00E4}", "ndert.";
    assert Encode(t1) == TailBytes[..6];
    assert Encode(t2) == TailBytes[6..];
    assert Tail == t1 + t2;
    EncodeConcat(t1, t2);
  }

  /** The sentence is 30 bytes; bytes 0 to 9, 9 to 18 and 18 to 30 are its
      three pieces, and the whole decodes back to it. */
  lemma SampleEncoding()
    ensures |SampleBytes| == 30
    ensures SampleBytes[..9] == HeadBytes && SampleBytes[9..18] == MiddleBytes && SampleBytes[18..] == TailBytes
    ensures Encode(Sample) == SampleBytes
    ensures ValidUtf8(SampleBytes) && Decode(SampleBytes) == Sample
  {
    SampleSlices();
    SampleEncoded();
    DecodeOfEncode(Sample);
  }

  lemma SampleSlices()
    ensures |SampleBytes| == 30
    ensures SampleBytes[..9] == HeadBytes && SampleBytes[9..18] == MiddleBytes && SampleBytes[18..] == TailBytes
  {
  }

  lemma SampleEncoded()
    ensures Encode(Sample) == SampleBytes
  {
    EncodeHead();
    EncodeMiddle();
    EncodeTail();
    EncodeConcat(Head, Middle);
    EncodeConcat(Head + Middle, Tail);
  }

  /** The sentence's bytes cut at offsets 9 and 18, both character
      boundaries, and appended in three calls, give the sentence back. */
  method SampleAtBoundaries() returns (s: string)
    ensures IsCharBoundary(SampleBytes, 9) && IsCharBoundary(SampleBytes, 18)
    ensures s == Sample
  {
    SampleEncoding();
    EncodeHead();
    EncodeMiddle();
    EncodeTail();
    DecodeOfEncode(Head);
    DecodeOfEncode(Middle);
    DecodeOfEncode(Tail);
    var b := new StringBuilder();
    assert b.Value() == "";
    b := b.AppendBytes(SampleBytes[..9]);
    assert b.Value() == Head;
    b := b.AppendBytes(SampleBytes[9..18]);
    assert b.Value() == Head + Middle;
    b := b.AppendBytes(SampleBytes[18..]);
    assert b.Value() == Head + Middle + Tail;
    s := b.Value();
  }

  /** Offset 7 falls inside the two bytes of the first accented letter, so
      neither bytes 0 to 7 nor bytes 7 to 9 are valid UTF-8: `append_bytes`
      already panics on the first of the two calls. */
  lemma SampleCutInsideChar()
    ensures !IsCharBoundary(SampleBytes, 7)
    ensures !ValidUtf8(SampleBytes[..7]) && !ValidUtf8(SampleBytes[7..9])
  {
    SampleEncoding();
    DecodeOfEncode(Head);
    EncodeHead();
    SplitInsideChar(HeadBytes, 7);
    assert HeadBytes[..7] == SampleBytes[..7] && HeadBytes[7..] == SampleBytes[7..9];
  }

  /** `try_append_bytes` as written: both calls on the two halves of the
      bytes of "Pel\U{00E9}" return `Ok`, and the text stays empty. */
  method PeleByTryAppendBytes() returns (s: string)
    ensures s == ""
  {
    var pele: seq<Byte> := [0x50, 0x65, 0x6C, 0xC3, 0xA9];
    var b := new StringBuilder();
    var r := b.TryAppendBytes(pele[..3]);
    b := r.value;
    r := b.TryAppendBytes(pele[3..]);
    b := r.value;
    s := b.Value();
  }
}
