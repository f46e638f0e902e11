/** The pure UTF-8 layer that `StringBuilder::append_bytes` relies on through
    `std::str::from_utf8`: the byte-sequence syntax of section 4 of RFC 3629, the
    bit layout of section 3, a deterministic decoder that either yields the text
    or reports an error, and the lemmas that tie the three together.

    Text is `string`, a sequence of Dafny `char`s; a `char` is a Unicode scalar
    value (0 to 0x10FFFF without the surrogates), exactly as Rust's `char`. */
module Utf8 {

  /** One octet, the element type of Rust's `&[u8]`. */
  type Byte = b: int | 0 <= b < 0x100

  /** Rust's `Result`, as returned by `from_utf8` and `try_append_bytes`. */
  datatype Result<T, E> = Ok(value: T) | Err(error: E)

  /** Rust's `std::str::Utf8Error`; its position fields are not modelled. */
  datatype Utf8Error = Utf8Error

  // ---------------------------------------------------------------------------
  // Syntax: section 4 of RFC 3629
  // ---------------------------------------------------------------------------

  /** UTF8-tail = %x80-BF */
  predicate IsTail(b: Byte) {
    0x80 <= b <= 0xBF
  }

  /** UTF8-char = UTF8-1 / UTF8-2 / UTF8-3 / UTF8-4, one encoded character. */
  predicate IsUtf8Char(c: seq<Byte>) {
    if |c| == 1 then
      c[0] <= 0x7F
    else if |c| == 2 then
      0xC2 <= c[0] <= 0xDF && IsTail(c[1])
    else if |c| == 3 then
      IsTail(c[2]) &&
      ((c[0] == 0xE0 && 0xA0 <= c[1] <= 0xBF) ||
       (0xE1 <= c[0] <= 0xEC && IsTail(c[1])) ||
       (c[0] == 0xED && 0x80 <= c[1] <= 0x9F) ||
       (0xEE <= c[0] <= 0xEF && IsTail(c[1])))
    else if |c| == 4 then
      IsTail(c[2]) && IsTail(c[3]) &&
      ((c[0] == 0xF0 && 0x90 <= c[1] <= 0xBF) ||
       (0xF1 <= c[0] <= 0xF3 && IsTail(c[1])) ||
       (c[0] == 0xF4 && 0x80 <= c[1] <= 0x8F))
    else
      false
  }

  /** UTF8-octets = *( UTF8-char ): the bytes split into encoded characters. */
  ghost predicate Utf8Octets(s: seq<Byte>)
    decreases |s|
  {
    s == [] ||
    exists n | 1 <= n <= 4 && n <= |s| :: IsUtf8Char(s[..n]) && Utf8Octets(s[n..])
  }

  /** UTF8-octets as a decoder reads them: the lead byte tells how long each
      character is (section 3 of RFC 3629), and that many bytes must form a
      UTF8-char. Lemma `ValidUtf8IsGrammar` shows this is the grammar above. */
  predicate ValidUtf8(s: seq<Byte>)
    decreases |s|
  {
    s == [] ||
    (var n := SequenceLength(s[0]);
     0 < n <= |s| && IsUtf8Char(s[..n]) && ValidUtf8(s[n..]))
  }

  /** Number of bytes of the character that `lead` starts, or 0 when `lead`
      cannot start one (a tail byte, 0xC0, 0xC1 or 0xF5 to 0xFF). */
  function SequenceLength(lead: Byte): nat {
    if lead <= 0x7F then 1
    else if 0xC2 <= lead <= 0xDF then 2
    else if 0xE0 <= lead <= 0xEF then 3
    else if 0xF0 <= lead <= 0xF4 then 4
    else 0
  }

  /** Rust's `str::is_char_boundary`, on the bytes of a string: both ends, and
      every position whose byte is not a continuation byte. */
  predicate IsCharBoundary(s: seq<Byte>, k: nat) {
    k == 0 || k == |s| || (k < |s| && !IsTail(s[k]))
  }

  // ---------------------------------------------------------------------------
  // Bit layout: section 3 of RFC 3629
  // ---------------------------------------------------------------------------

  /** The scalar value carried by one encoded character: the payload bits of
      its lead byte followed by six bits from each tail byte. Section 3 of
      RFC 3629 rules out surrogates and values above 0x10FFFF, and the
      syntax of section 4 keeps them out. */
  function ScalarOf(c: seq<Byte>): (v: int)
    requires IsUtf8Char(c)
    ensures 0 <= v < 0xD800 || 0xE000 <= v < 0x110000
  {
    var b0: int := c[0];
    if |c| == 1 then
      b0
    else if |c| == 2 then
      (b0 - 0xC0) * 0x40 + Bits(c[1])
    else if |c| == 3 then
      ((b0 - 0xE0) * 0x40 + Bits(c[1])) * 0x40 + Bits(c[2])
    else
      (((b0 - 0xF0) * 0x40 + Bits(c[1])) * 0x40 + Bits(c[2])) * 0x40 + Bits(c[3])
  }

  /** The six payload bits of a tail byte. */
  function Bits(b: Byte): int {
    b as int - 0x80
  }

  function DecodeChar(c: seq<Byte>): char
    requires IsUtf8Char(c)
  {
    ScalarOf(c) as char
  }

  /** The shortest encoding of one scalar value; it is well formed and decodes back. */
  function EncodeChar(ch: char): (c: seq<Byte>)
    ensures IsUtf8Char(c)
    ensures DecodeChar(c) == ch
  {
    var v := ch as int;
    if v < 0x80 then
      [v]
    else if v < 0x800 then
      EncodeTwo(v);
      [0xC0 + v / 0x40, 0x80 + v % 0x40]
    else if v < 0x10000 then
      EncodeThree(v);
      [0xE0 + v / 0x40 / 0x40, 0x80 + v / 0x40 % 0x40, 0x80 + v % 0x40]
    else
      EncodeFour(v);
      [0xF0 + v / 0x40 / 0x40 / 0x40, 0x80 + v / 0x40 / 0x40 % 0x40, 0x80 + v / 0x40 % 0x40, 0x80 + v % 0x40]
  }

  lemma EncodeTwo(v: int)
    requires 0x80 <= v < 0x800
    ensures var c: seq<Byte> := [0xC0 + v / 0x40, 0x80 + v % 0x40];
      IsUtf8Char(c) && ScalarOf(c) == v
  {
  }

  lemma EncodeThree(v: int)
    requires 0x800 <= v < 0xD800 || 0xE000 <= v < 0x10000
    ensures var c: seq<Byte> := [0xE0 + v / 0x40 / 0x40, 0x80 + v / 0x40 % 0x40, 0x80 + v % 0x40];
      IsUtf8Char(c) && ScalarOf(c) == v
  {
  }

  lemma EncodeFour(v: int)
    requires 0x10000 <= v < 0x110000
    ensures var c: seq<Byte> := [0xF0 + v / 0x40 / 0x40 / 0x40, 0x80 + v / 0x40 / 0x40 % 0x40, 0x80 + v / 0x40 % 0x40, 0x80 + v % 0x40];
      IsUtf8Char(c) && ScalarOf(c) == v
  {
  }

  /** The bytes of a Rust `str`: its characters' encodings, in order. */
  function Encode(t: string): (s: seq<Byte>)
    decreases |t|
  {
    if t == [] then [] else EncodeChar(t[0]) + Encode(t[1..])
  }

  // ---------------------------------------------------------------------------
  // Decoding: the model of `std::str::from_utf8`
  // ---------------------------------------------------------------------------

  /** Reads one character at a time, its length given by its lead byte, and
      fails at the first byte sequence that is not a UTF8-char. */
  function FromUtf8(s: seq<Byte>): (r: Result<string, Utf8Error>)
    decreases |s|
  {
    if s == [] then
      Ok([])
    else
      var n := SequenceLength(s[0]);
      if n == 0 || |s| < n || !IsUtf8Char(s[..n]) then
        Err(Utf8Error)
      else
        match FromUtf8(s[n..])
        case Ok(t) => Ok([DecodeChar(s[..n])] + t)
        case Err(e) => Err(e)
  }

  /** The text of valid bytes: `from_utf8(s).unwrap()`. */
  function Decode(s: seq<Byte>): (t: string)
    requires ValidUtf8(s)
    ensures Encode(t) == s
  {
    FromUtf8Accepts(s);
    FromUtf8Inverse(s);
    FromUtf8(s).value
  }

  // ---------------------------------------------------------------------------
  // Lemmas
  // ---------------------------------------------------------------------------

  /** A character's lead byte fixes its length, and its other bytes are tails. */
  lemma LeadDeterminesLength(c: seq<Byte>)
    requires IsUtf8Char(c)
    ensures SequenceLength(c[0]) == |c|
    ensures !IsTail(c[0])
    ensures forall i :: 1 <= i < |c| ==> IsTail(c[i])
  {
  }

  /** The grammar's split into characters is unique: it is the one the lead
      bytes dictate, so the decoder's reading accepts exactly the grammar. */
  lemma {:induction false} ValidUtf8IsGrammar(s: seq<Byte>)
    ensures Utf8Octets(s) <==> ValidUtf8(s)
    decreases |s|
  {
    if s != [] {
      var n := SequenceLength(s[0]);
      if Utf8Octets(s) {
        var m :| 1 <= m <= 4 && m <= |s| && IsUtf8Char(s[..m]) && Utf8Octets(s[m..]);
        LeadDeterminesLength(s[..m]);
        ValidUtf8IsGrammar(s[m..]);
      }
      if ValidUtf8(s) {
        ValidUtf8IsGrammar(s[n..]);
      }
    }
  }

  /** One more encoded character in front of valid bytes keeps them valid. */
  lemma ConsValid(c: seq<Byte>, t: seq<Byte>)
    requires IsUtf8Char(c) && ValidUtf8(t)
    ensures ValidUtf8(c + t)
  {
    LeadDeterminesLength(c);
    assert (c + t)[0] == c[0] && (c + t)[..|c|] == c && (c + t)[|c|..] == t;
  }

  /** The first character of non-empty valid bytes, and the valid rest. */
  lemma FirstChar(s: seq<Byte>) returns (n: nat)
    requires ValidUtf8(s) && s != []
    ensures n == SequenceLength(s[0]) && 0 < n <= |s|
    ensures IsUtf8Char(s[..n]) && ValidUtf8(s[n..])
  {
    n := SequenceLength(s[0]);
  }

  /** Valid bytes never start with a continuation byte. */
  lemma ValidStartsAtLead(s: seq<Byte>)
    requires ValidUtf8(s) && s != []
    ensures !IsTail(s[0])
  {
    LeadDeterminesLength(s[..SequenceLength(s[0])]);
  }

  /** The decoder succeeds on exactly the bytes the grammar accepts; this is
      when `from_utf8(..).unwrap()` does not panic. */
  lemma {:induction false} FromUtf8Accepts(s: seq<Byte>)
    ensures FromUtf8(s).Ok? <==> ValidUtf8(s)
    decreases |s|
  {
    if s != [] {
      var n := SequenceLength(s[0]);
      if 0 < n <= |s| && IsUtf8Char(s[..n]) {
        FromUtf8Accepts(s[n..]);
      }
    }
  }

  /** Whatever the decoder returns encodes back to the bytes it was given. */
  lemma {:induction false} FromUtf8Inverse(s: seq<Byte>)
    requires FromUtf8(s).Ok?
    ensures Encode(FromUtf8(s).value) == s
    decreases |s|
  {
    if s != [] {
      var n := SequenceLength(s[0]);
      var c, rest := s[..n], s[n..];
      assert s == c + rest;
      FromUtf8Cons(c, rest);
      FromUtf8Inverse(rest);
      EncodeCharInverse(c);
      var t := [DecodeChar(c)] + FromUtf8(rest).value;
      assert t[0] == DecodeChar(c) && t[1..] == FromUtf8(rest).value;
    }
  }

  /** Encoding the scalar value of a well-formed character gives its bytes
      back: every UTF8-char is the shortest encoding of its value. */
  lemma EncodeCharInverse(c: seq<Byte>)
    requires IsUtf8Char(c)
    ensures EncodeChar(DecodeChar(c)) == c
  {
    if |c| == 2 {
      InverseTwo(c);
    } else if |c| == 3 {
      InverseThree(c);
    } else if |c| == 4 {
      InverseFour(c);
    }
  }

  lemma InverseTwo(c: seq<Byte>)
    requires IsUtf8Char(c) && |c| == 2
    ensures EncodeChar(DecodeChar(c)) == c
  {
    var v := ScalarOf(c);
    assert DecodeChar(c) as int == v;
    DivMod(c[0] - 0xC0, Bits(c[1]));
  }

  lemma InverseThree(c: seq<Byte>)
    requires IsUtf8Char(c) && |c| == 3
    ensures EncodeChar(DecodeChar(c)) == c
  {
    var v := ScalarOf(c);
    assert DecodeChar(c) as int == v;
    var hi := (c[0] - 0xE0) * 0x40 + Bits(c[1]);
    DivMod(hi, Bits(c[2]));
    DivMod(c[0] - 0xE0, Bits(c[1]));
  }

  lemma InverseFour(c: seq<Byte>)
    requires IsUtf8Char(c) && |c| == 4
    ensures EncodeChar(DecodeChar(c)) == c
  {
    var v := ScalarOf(c);
    assert DecodeChar(c) as int == v;
    var top := c[0] - 0xF0;
    var hi := top * 0x40 + Bits(c[1]);
    var mid := hi * 0x40 + Bits(c[2]);
    DivMod(mid, Bits(c[3]));
    DivMod(hi, Bits(c[2]));
    DivMod(top, Bits(c[1]));
    assert v / 0x40 == mid && v % 0x40 == Bits(c[3]);
    assert v / 0x40 / 0x40 == hi && v / 0x40 % 0x40 == Bits(c[2]);
    assert v / 0x40 / 0x40 / 0x40 == top && v / 0x40 / 0x40 % 0x40 == Bits(c[1]);
  }

  /** Division by 64 takes apart what `q * 64 + r` put together. */
  lemma DivMod(q: int, r: int)
    requires 0 <= r < 0x40
    ensures (q * 0x40 + r) / 0x40 == q && (q * 0x40 + r) % 0x40 == r
  {
  }

  /** Encoding distributes over concatenation. */
  lemma {:induction false} EncodeConcat(a: string, b: string)
    ensures Encode(a + b) == Encode(a) + Encode(b)
    decreases |a|
  {
    if a == [] {
      assert a + b == b;
    } else {
      calc {
        Encode(a + b);
        { assert (a + b)[0] == a[0] && (a + b)[1..] == a[1..] + b; }
        EncodeChar(a[0]) + Encode(a[1..] + b);
        { EncodeConcat(a[1..], b); }
        EncodeChar(a[0]) + (Encode(a[1..]) + Encode(b));
        (EncodeChar(a[0]) + Encode(a[1..])) + Encode(b);
      }
    }
  }

  /** Round trip: the bytes of any text are valid UTF-8 and decode to that text. */
  lemma {:induction false} EncodeDecode(t: string)
    ensures FromUtf8(Encode(t)) == Ok(t)
    ensures ValidUtf8(Encode(t))
    decreases |t|
  {
    if t != [] {
      EncodeDecode(t[1..]);
      FromUtf8Cons(EncodeChar(t[0]), Encode(t[1..]));
      assert [t[0]] + t[1..] == t;
    }
    FromUtf8Accepts(Encode(t));
  }

  /** The decoder reads a leading well-formed character and goes on after it. */
  lemma FromUtf8Cons(c: seq<Byte>, rest: seq<Byte>)
    requires IsUtf8Char(c)
    ensures FromUtf8(c + rest) ==
      match FromUtf8(rest)
      case Ok(t) => Ok([DecodeChar(c)] + t)
      case Err(e) => Err(e)
  {
    LeadDeterminesLength(c);
    var s := c + rest;
    assert s[0] == c[0] && s[..|c|] == c && s[|c|..] == rest;
  }

  /** The text of the bytes of `t` is `t`. */
  lemma DecodeOfEncode(t: string)
    ensures ValidUtf8(Encode(t)) && Decode(Encode(t)) == t
  {
    EncodeDecode(t);
  }

  /** Concatenating valid byte sequences gives valid bytes whose text is the
      concatenation of the two texts. */
  lemma DecodeConcat(a: seq<Byte>, b: seq<Byte>)
    requires ValidUtf8(a) && ValidUtf8(b)
    ensures ValidUtf8(a + b)
    ensures Decode(a + b) == Decode(a) + Decode(b)
  {
    var ta, tb := Decode(a), Decode(b);
    EncodeConcat(ta, tb);
    DecodeOfEncode(ta + tb);
    assert Encode(Decode(a + b)) == Encode(ta + tb);
    EncodeInjective(Decode(a + b), ta + tb);
  }

  /** Distinct texts have distinct bytes. */
  lemma EncodeInjective(t: string, u: string)
    requires Encode(t) == Encode(u)
    ensures t == u
  {
    EncodeDecode(t);
    EncodeDecode(u);
  }

  /** Cutting valid bytes leaves two valid pieces exactly when the cut is at a
      character boundary; the pieces' texts then make up the whole text. */
  lemma {:induction false} SplitAtBoundary(s: seq<Byte>, k: nat)
    requires ValidUtf8(s) && k <= |s|
    ensures IsCharBoundary(s, k) <==> ValidUtf8(s[..k]) && ValidUtf8(s[k..])
    ensures IsCharBoundary(s, k) ==> Decode(s) == Decode(s[..k]) + Decode(s[k..])
    decreases |s|
  {
    if IsCharBoundary(s, k) {
      BoundaryPiecesValid(s, k);
      assert s == s[..k] + s[k..];
      DecodeConcat(s[..k], s[k..]);
    } else if ValidUtf8(s[k..]) {
      ValidStartsAtLead(s[k..]);
    }
  }

  lemma {:induction false} BoundaryPiecesValid(s: seq<Byte>, k: nat)
    requires ValidUtf8(s) && k <= |s| && IsCharBoundary(s, k)
    ensures ValidUtf8(s[..k]) && ValidUtf8(s[k..])
    decreases |s|
  {
    if k == 0 {
      assert s[k..] == s;
    } else if k == |s| {
      assert s[..k] == s;
    } else {
      var n := FirstCharBeforeBoundary(s, k);
      var r := s[n..];
      assert r[k - n..] == s[k..];
      assert k - n < |r| ==> r[k - n] == s[k];
      BoundaryPiecesValid(r, k - n);
      PrefixValid(s, n, k);
    }
  }

  /** A boundary inside valid bytes lies at or after the end of the first character. */
  lemma FirstCharBeforeBoundary(s: seq<Byte>, k: nat) returns (n: nat)
    requires ValidUtf8(s) && 0 < k < |s| && !IsTail(s[k])
    ensures n == SequenceLength(s[0]) && 0 < n <= k
    ensures IsUtf8Char(s[..n]) && ValidUtf8(s[n..])
  {
    n := FirstChar(s);
    LeadDeterminesLength(s[..n]);
  }

  lemma PrefixValid(s: seq<Byte>, n: nat, k: nat)
    requires n <= k <= |s| && IsUtf8Char(s[..n]) && ValidUtf8(s[n..][..k - n])
    ensures ValidUtf8(s[..k])
  {
    assert s[n..][..k - n] == s[..k][n..];
    assert s[..n] == s[..k][..|s[..n]|];
    ConsValid(s[..n], s[..k][n..]);
    assert s[..n] + s[..k][n..] == s[..k];
  }

  /** A cut inside a multi-byte character leaves two pieces neither of which
      is valid, so each `append_bytes` call on them fails. */
  lemma SplitInsideChar(s: seq<Byte>, k: nat)
    requires ValidUtf8(s) && k <= |s| && !IsCharBoundary(s, k)
    ensures !ValidUtf8(s[..k]) && !ValidUtf8(s[k..])
  {
    if ValidUtf8(s[k..]) {
      ValidStartsAtLead(s[k..]);
    }
    CutPrefixInvalid(s, k);
  }

  lemma {:induction false} CutPrefixInvalid(s: seq<Byte>, k: nat)
    requires ValidUtf8(s) && k <= |s| && !IsCharBoundary(s, k)
    ensures !ValidUtf8(s[..k])
    decreases |s|
  {
    var n := FirstChar(s);
    if k < n {
      assert s[..k][0] == s[0];
    } else {
      var r := s[n..];
      assert k != n by {
        ValidStartsAtLead(r);
      }
      assert r[k - n] == s[k];
      CutPrefixInvalid(r, k - n);
      PrefixAfterChar(s, n, k);
      ConsInvalid(s[..n], r[..k - n]);
    }
  }

  lemma PrefixAfterChar(s: seq<Byte>, n: nat, k: nat)
    requires n <= k <= |s|
    ensures s[..k] == s[..n] + s[n..][..k - n]
  {
  }

  /** An encoded character in front of invalid bytes does not make them valid. */
  lemma ConsInvalid(c: seq<Byte>, t: seq<Byte>)
    requires IsUtf8Char(c) && !ValidUtf8(t)
    ensures !ValidUtf8(c + t)
  {
    LeadDeterminesLength(c);
    var s := c + t;
    assert s[0] == c[0] && s[..|c|] == c && s[|c|..] == t;
  }
}
