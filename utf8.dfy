/**
 * UTF-8 as defined by RFC 3629: the encoding of one Unicode scalar value
 * into one to four bytes (section 3), the well-formed byte sequences
 * (section 4), and the decoder that is its inverse.
 *
 * Dafny's `char` is a Unicode scalar value (0 .. 0x10FFFF without the
 * surrogates 0xD800 .. 0xDFFF), the same set of values as Rust's `char`.
 */
module Utf8 {

  newtype byte = b: int | 0 <= b < 0x100

  /** A continuation byte, 10xxxxxx. */
  predicate IsTail(b: byte) {
    0x80 <= b <= 0xBF
  }

  /**
   * The number of bytes of the well-formed sequence that starts `bytes`,
   * read off the table of section 4 of RFC 3629 (UTF8-1 .. UTF8-4), or 0
   * when `bytes` does not start with one.
   */
  function SeqWidth(bytes: seq<byte>): (n: nat)
    ensures n <= 4 && n <= |bytes|
    ensures n > 0 ==> !IsTail(bytes[0])
    ensures forall k :: 1 <= k < n ==> IsTail(bytes[k])
  {
    if |bytes| == 0 then 0
    else
      var b0 := bytes[0];
      if b0 <= 0x7F then 1
      else if 0xC2 <= b0 <= 0xDF then
        if |bytes| >= 2 && IsTail(bytes[1]) then 2 else 0
      else if 0xE0 <= b0 <= 0xEF then
        var lo: byte := if b0 == 0xE0 then 0xA0 else 0x80;
        var hi: byte := if b0 == 0xED then 0x9F else 0xBF;
        if |bytes| >= 3 && lo <= bytes[1] <= hi && IsTail(bytes[2]) then 3 else 0
      else if 0xF0 <= b0 <= 0xF4 then
        var lo: byte := if b0 == 0xF0 then 0x90 else 0x80;
        var hi: byte := if b0 == 0xF4 then 0x8F else 0xBF;
        if |bytes| >= 4 && lo <= bytes[1] <= hi && IsTail(bytes[2]) && IsTail(bytes[3]) then 4 else 0
      else 0
  }

  /** `bytes` is exactly one well-formed character sequence. */
  predicate IsCharSeq(bytes: seq<byte>) {
    |bytes| > 0 && SeqWidth(bytes) == |bytes|
  }

  /** `bytes` is a concatenation of well-formed character sequences (UTF8-octets). */
  predicate WellFormed(bytes: seq<byte>)
    decreases |bytes|
  {
    |bytes| == 0 || (SeqWidth(bytes) > 0 && WellFormed(bytes[SeqWidth(bytes)..]))
  }

  /** The number of bytes section 3 of RFC 3629 uses for the scalar value `c`. */
  function Width(c: char): nat {
    var cp := c as int;
    if cp < 0x80 then 1 else if cp < 0x800 then 2 else if cp < 0x1_0000 then 3 else 4
  }

  /* Section 3 of RFC 3629, one row of its table per function: the bits of
     the value are spread over a lead byte 110xxxxx, 1110xxxx or 11110xxx
     and continuation bytes 10xxxxxx, high bits first. */

  function Encode2(cp: int): (r: seq<byte>)
    requires 0x80 <= cp < 0x800
    ensures IsCharSeq(r) && |r| == 2
  {
    [(0xC0 + cp / 0x40) as byte, (0x80 + cp % 0x40) as byte]
  }

  function Encode3(cp: int): (r: seq<byte>)
    requires 0x800 <= cp < 0x1_0000 && !(0xD800 <= cp < 0xE000)
    ensures IsCharSeq(r) && |r| == 3
  {
    var rest := cp % 0x1000;
    [(0xE0 + cp / 0x1000) as byte, (0x80 + rest / 0x40) as byte, (0x80 + rest % 0x40) as byte]
  }

  function Encode4(cp: int): (r: seq<byte>)
    requires 0x1_0000 <= cp < 0x11_0000
    ensures IsCharSeq(r) && |r| == 4
  {
    var rest := cp % 0x4_0000;
    var rest2 := rest % 0x1000;
    [(0xF0 + cp / 0x4_0000) as byte, (0x80 + rest / 0x1000) as byte,
     (0x80 + rest2 / 0x40) as byte, (0x80 + rest2 % 0x40) as byte]
  }

  /** Encodes one scalar value (Rust's `char::encode_utf8`). */
  function EncodeChar(c: char): (r: seq<byte>)
    ensures |r| == Width(c)
    ensures IsCharSeq(r)
  {
    var cp := c as int;
    if cp < 0x80 then [cp as byte]
    else if cp < 0x800 then Encode2(cp)
    else if cp < 0x1_0000 then Encode3(cp)
    else Encode4(cp)
  }

  /* The inverse rows: the value is read back from the payload bits. */

  function Decode2(r: seq<byte>): (cp: int)
    requires IsCharSeq(r) && |r| == 2
    ensures 0x80 <= cp < 0x800
  {
    (r[0] as int - 0xC0) * 0x40 + (r[1] as int - 0x80)
  }

  function Decode3(r: seq<byte>): (cp: int)
    requires IsCharSeq(r) && |r| == 3
    ensures 0x800 <= cp < 0x1_0000 && !(0xD800 <= cp < 0xE000)
  {
    (r[0] as int - 0xE0) * 0x1000 + (r[1] as int - 0x80) * 0x40 + (r[2] as int - 0x80)
  }

  function Decode4(r: seq<byte>): (cp: int)
    requires IsCharSeq(r) && |r| == 4
    ensures 0x1_0000 <= cp < 0x11_0000
  {
    (r[0] as int - 0xF0) * 0x4_0000 + (r[1] as int - 0x80) * 0x1000
      + (r[2] as int - 0x80) * 0x40 + (r[3] as int - 0x80)
  }

  /** Decodes one well-formed character sequence back into its scalar value. */
  function DecodeChar(bytes: seq<byte>): (c: char)
    requires IsCharSeq(bytes)
    ensures Width(c) == |bytes|
  {
    if |bytes| == 1 then bytes[0] as int as char
    else if |bytes| == 2 then Decode2(bytes) as char
    else if |bytes| == 3 then Decode3(bytes) as char
    else Decode4(bytes) as char
  }

  /** Encoding one scalar value and decoding the bytes gives the value back. */
  lemma DecodeEncodeChar(c: char)
    ensures DecodeChar(EncodeChar(c)) == c
  {
  }

  lemma EncodeDecode2(r: seq<byte>)
    requires IsCharSeq(r) && |r| == 2
    ensures Encode2(Decode2(r)) == r
  {
  }

  lemma EncodeDecode3(r: seq<byte>)
    requires IsCharSeq(r) && |r| == 3
    ensures Encode3(Decode3(r)) == r
  {
  }

  lemma EncodeDecode4(r: seq<byte>)
    requires IsCharSeq(r) && |r| == 4
    ensures Encode4(Decode4(r)) == r
  {
  }

  /** Every well-formed character sequence is the encoding of the value it decodes to. */
  lemma EncodeDecodeChar(bytes: seq<byte>)
    requires IsCharSeq(bytes)
    ensures EncodeChar(DecodeChar(bytes)) == bytes
  {
    // one width at a time keeps each arithmetic proof small
    if |bytes| == 2 {
      EncodeDecode2(bytes);
    } else if |bytes| == 3 {
      EncodeDecode3(bytes);
    } else if |bytes| == 4 {
      EncodeDecode4(bytes);
    }
  }

  /** The width of a well-formed sequence is fixed by its own first bytes, whatever follows them. */
  lemma SeqWidthDetermined(a: seq<byte>, b: seq<byte>)
    requires SeqWidth(a) > 0 && SeqWidth(a) <= |b|
    requires a[..SeqWidth(a)] == b[..SeqWidth(a)]
    ensures SeqWidth(b) == SeqWidth(a)
  {
  }

  /**
   * Rust's `Into<String>` for a sequence of scalar values: each value
   * encoded with `EncodeChar`, in order, the byte strings concatenated.
   */
  function Encode(s: seq<char>): (r: seq<byte>)
    ensures |s| <= |r| <= 4 * |s|
  {
    if s == [] then [] else EncodeChar(s[0]) + Encode(s[1..])
  }

  /**
   * Rust's `str::chars`: splits well-formed text into its character
   * sequences and decodes each into one scalar value, in order.
   */
  function Decode(bytes: seq<byte>): (s: seq<char>)
    requires WellFormed(bytes)
    ensures |s| <= |bytes|
    decreases |bytes|
  {
    if bytes == [] then []
    else
      var n := SeqWidth(bytes);
      SeqWidthDetermined(bytes, bytes[..n]);
      [DecodeChar(bytes[..n])] + Decode(bytes[n..])
  }

  /** The encoding of a character followed by anything starts with that character's sequence. */
  lemma SeqWidthOfEncoded(c: char, rest: seq<byte>)
    ensures SeqWidth(EncodeChar(c) + rest) == |EncodeChar(c)|
    ensures (EncodeChar(c) + rest)[..|EncodeChar(c)|] == EncodeChar(c)
    ensures (EncodeChar(c) + rest)[|EncodeChar(c)|..] == rest
  {
  }

  /** Encoding never produces ill-formed text. */
  lemma {:induction false} EncodeWellFormed(s: seq<char>)
    ensures WellFormed(Encode(s))
  {
    if s != [] {
      SeqWidthOfEncoded(s[0], Encode(s[1..]));
      EncodeWellFormed(s[1..]);
    }
  }

  /** Round trip: decoding the encoding of a sequence of scalar values gives the sequence back. */
  lemma {:induction false} DecodeEncode(s: seq<char>)
    ensures WellFormed(Encode(s)) && Decode(Encode(s)) == s
  {
    EncodeWellFormed(s);
    if s != [] {
      SeqWidthOfEncoded(s[0], Encode(s[1..]));
      DecodeEncodeChar(s[0]);
      DecodeEncode(s[1..]);
    }
  }

  /** Round trip: re-encoding decoded well-formed text gives exactly the same bytes. */
  lemma {:induction false} EncodeDecode(bytes: seq<byte>)
    requires WellFormed(bytes)
    ensures Encode(Decode(bytes)) == bytes
    decreases |bytes|
  {
    if bytes != [] {
      var n := SeqWidth(bytes);
      SeqWidthDetermined(bytes, bytes[..n]);
      EncodeDecodeChar(bytes[..n]);
      EncodeDecode(bytes[n..]);
      assert bytes == bytes[..n] + bytes[n..];
    }
  }

  /** Encoding distributes over concatenation. */
  lemma {:induction false} EncodeAppend(s: seq<char>, t: seq<char>)
    ensures Encode(s + t) == Encode(s) + Encode(t)
  {
    if s != [] {
      assert (s + t)[1..] == s[1..] + t;
      EncodeAppend(s[1..], t);
    } else {
      assert s + t == t;
    }
  }

  /** The number of bytes of `bytes` that are not continuation bytes. */
  function LeadCount(bytes: seq<byte>): (n: nat)
    ensures n <= |bytes|
  {
    if bytes == [] then 0
    else (if IsTail(bytes[0]) then 0 else 1) + LeadCount(bytes[1..])
  }

  lemma {:induction false} LeadCountAppend(a: seq<byte>, b: seq<byte>)
    ensures LeadCount(a + b) == LeadCount(a) + LeadCount(b)
  {
    if a != [] {
      assert (a + b)[1..] == a[1..] + b;
      LeadCountAppend(a[1..], b);
    } else {
      assert a + b == b;
    }
  }

  lemma {:induction false} LeadCountTails(bytes: seq<byte>)
    requires forall k :: 0 <= k < |bytes| ==> IsTail(bytes[k])
    ensures LeadCount(bytes) == 0
  {
    if bytes != [] {
      LeadCountTails(bytes[1..]);
    }
  }

  /**
   * Decoding gives one scalar value per character sequence: as many as
   * there are bytes in the text that are not continuation bytes.
   */
  lemma {:induction false} DecodeLength(bytes: seq<byte>)
    requires WellFormed(bytes)
    ensures |Decode(bytes)| == LeadCount(bytes)
    decreases |bytes|
  {
    if bytes != [] {
      var n := SeqWidth(bytes);
      assert bytes == bytes[..n] + bytes[n..];
      LeadCountAppend(bytes[..n], bytes[n..]);
      LeadCountTails(bytes[1..n]);
      assert bytes[..n] == [bytes[0]] + bytes[1..n];
      DecodeLength(bytes[n..]);
    }
  }
}
