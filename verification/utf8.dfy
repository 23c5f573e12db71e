/** Strict UTF-8, as Python's `bytes.decode('utf-8')` applies it: a byte string decodes
    only if it is a concatenation of the well-formed sequences of Table 3-7 of the Unicode
    Standard (no overlong forms, no surrogates, nothing above U+10FFFF); any other byte
    string makes the decoder raise. */
module Utf8 {
  import opened Wrappers
  import opened Bytes

  predicate IsContinuation(b: uint8) {
    0x80 <= b <= 0xBF
  }

  /** The range the second byte must lie in after a three- or four-byte lead byte. */
  function SecondByteLow(lead: uint8): uint8 {
    if lead == 0xE0 then 0xA0 else if lead == 0xF0 then 0x90 else 0x80
  }

  function SecondByteHigh(lead: uint8): uint8 {
    if lead == 0xED then 0x9F else if lead == 0xF4 then 0x8F else 0xBF
  }

  /** Length of the well-formed sequence at the start of s, or 0 when s does not start
      with one. */
  function SequenceLength(s: seq<uint8>): (n: nat)
    requires |s| > 0
    ensures n <= 4 && n <= |s|
  {
    var lead := s[0];
    if lead <= 0x7F then 1
    else if 0xC2 <= lead <= 0xDF then
      if |s| >= 2 && IsContinuation(s[1]) then 2 else 0
    else if 0xE0 <= lead <= 0xEF then
      if |s| >= 3 && SecondByteLow(lead) <= s[1] <= SecondByteHigh(lead) && IsContinuation(s[2])
      then 3 else 0
    else if 0xF0 <= lead <= 0xF4 then
      if |s| >= 4 && SecondByteLow(lead) <= s[1] <= SecondByteHigh(lead)
         && IsContinuation(s[2]) && IsContinuation(s[3])
      then 4 else 0
    else 0
  }

  /** The scalar value a well-formed sequence of length n encodes. */
  function ScalarOf(s: seq<uint8>, n: nat): char
    requires |s| > 0 && n == SequenceLength(s) && n > 0
  {
    var b0: int := s[0];
    if n == 1 then b0 as char
    else
      var b1: int := s[1];
      if n == 2 then ((b0 - 0xC0) * 64 + (b1 - 0x80)) as char
      else
        var b2: int := s[2];
        if n == 3 then ((b0 - 0xE0) * 4096 + (b1 - 0x80) * 64 + (b2 - 0x80)) as char
        else
          var b3: int := s[3];
          ((b0 - 0xF0) * 262144 + (b1 - 0x80) * 4096 + (b2 - 0x80) * 64 + (b3 - 0x80)) as char
  }

  /** Strict decoding: None exactly where Python raises UnicodeDecodeError. */
  function Decode(s: seq<uint8>): Option<string>
    decreases |s|, 1
  {
    if |s| == 0 then Some([]) else DecodeNonEmpty(s)
  }

  /** Decodes the sequence at the start of s, then the rest. */
  function DecodeNonEmpty(s: seq<uint8>): Option<string>
    requires |s| > 0
    decreases |s|, 0
  {
    var n := SequenceLength(s);
    if n == 0 then None
    else
      match Decode(s[n..])
      case None => None
      case Some(rest) => Some([ScalarOf(s, n)] + rest)
  }

  /** The shortest UTF-8 encoding of one scalar value. */
  function EncodeChar(c: char): (r: seq<uint8>)
    ensures 1 <= |r| <= 4
  {
    var v := c as int;
    if v < 0x80 then [v]
    else if v < 0x800 then [0xC0 + v / 64, 0x80 + v % 64]
    else if v < 0x10000 then
      var low := v % 4096;
      [0xE0 + v / 4096, 0x80 + low / 64, 0x80 + low % 64]
    else
      var mid := v % 262144;
      var low := mid % 4096;
      [0xF0 + v / 262144, 0x80 + mid / 4096, 0x80 + low / 64, 0x80 + low % 64]
  }

  /** The encoding of a character is one well-formed sequence that decodes back to it. */
  lemma EncodeCharDecodes(c: char)
    ensures SequenceLength(EncodeChar(c)) == |EncodeChar(c)|
    ensures ScalarOf(EncodeChar(c), |EncodeChar(c)|) == c
  {
    var v := c as int;
    if v < 0x80 {
    } else if v < 0x800 {
      assert v == 64 * (v / 64) + v % 64;
    } else if v < 0x10000 {
      var low := v % 4096;
      assert v == 4096 * (v / 4096) + low;
      assert low == 64 * (low / 64) + low % 64;
    } else {
      var mid := v % 262144;
      var low := mid % 4096;
      assert v == 262144 * (v / 262144) + mid;
      assert mid == 4096 * (mid / 4096) + low;
      assert low == 64 * (low / 64) + low % 64;
    }
  }

  function Encode(s: string): (r: seq<uint8>)
    ensures |r| >= |s|
  {
    if |s| == 0 then [] else EncodeChar(s[0]) + Encode(s[1..])
  }

  /** A well-formed sequence keeps its length whatever bytes follow it. */
  lemma SequenceLengthExtends(a: seq<uint8>, t: seq<uint8>)
    requires |a| > 0 && SequenceLength(a) == |a|
    ensures SequenceLength(a + t) == |a|
    ensures ScalarOf(a + t, |a|) == ScalarOf(a, |a|)
  {
    assert forall i :: 0 <= i < |a| ==> (a + t)[i] == a[i];
  }

  /** Decoding the encoding of s followed by a decodable t gives s followed by t's text. */
  lemma {:induction false} DecodeEncodeAppend(s: string, t: seq<uint8>)
    requires Decode(t).Some?
    ensures Decode(Encode(s) + t) == Some(s + Decode(t).value)
  {
    if |s| > 0 {
      var head := EncodeChar(s[0]);
      var tail := Encode(s[1..]) + t;
      assert Encode(s) + t == head + tail;
      EncodeCharDecodes(s[0]);
      SequenceLengthExtends(head, tail);
      assert (head + tail)[|head|..] == tail;
      DecodeEncodeAppend(s[1..], t);
      var u := Decode(t).value;
      assert Decode(tail) == Some(s[1..] + u);
      assert ScalarOf(head + tail, |head|) == s[0];
      assert Decode(head + tail) == Some([s[0]] + (s[1..] + u));
      assert [s[0]] + (s[1..] + u) == s + u;
    } else {
      assert Encode(s) + t == t;
      assert s + Decode(t).value == Decode(t).value;
    }
  }

  /** Strict decoding inverts encoding. */
  lemma DecodeEncode(s: string)
    ensures Decode(Encode(s)) == Some(s)
  {
    var empty: seq<uint8> := [];
    assert Decode(empty) == Some([]);
    DecodeEncodeAppend(s, empty);
    assert Encode(s) + empty == Encode(s);
    assert s + [] == s;
  }

  /** n zero bytes decode to n NUL characters. */
  lemma {:induction false} DecodeZeros(n: nat)
    ensures Decode(Zeros(n)) == Some(seq(n, _ => '\0'))
  {
    if n > 0 {
      var z := Zeros(n);
      assert SequenceLength(z) == 1;
      assert ScalarOf(z, 1) == '\0';
      assert z[1..] == Zeros(n - 1);
      DecodeZeros(n - 1);
      assert Decode(z) == Some([ScalarOf(z, 1)] + Decode(z[1..]).value);
      assert seq(n, _ => '\0') == ['\0'] + seq(n - 1, _ => '\0');
    } else {
      assert Zeros(n) == [];
      assert seq(n, _ => '\0') == [];
    }
  }

  /** The first two bytes of the three-byte encoding of U+20AC, without the third, are
      rejected. */
  lemma CutSequenceRejected()
    ensures Decode([0xE2, 0x82]).None?
  {
    assert SequenceLength([0xE2, 0x82]) == 0;
  }

  /** A well-formed two-byte sequence is the encoding of the scalar it decodes to. */
  lemma TwoByteSequenceEncodes(s: seq<uint8>)
    requires |s| >= 2 && SequenceLength(s) == 2
    ensures EncodeChar(ScalarOf(s, 2)) == s[..2]
  {
    var b0: int, b1: int := s[0], s[1];
    var v := (b0 - 0xC0) * 64 + (b1 - 0x80);
    assert 0x80 <= v < 0x800;
    assert v / 64 == b0 - 0xC0 && v % 64 == b1 - 0x80;
  }

  /** A well-formed three-byte sequence is the encoding of the scalar it decodes to. */
  lemma ThreeByteSequenceEncodes(s: seq<uint8>)
    requires |s| >= 3 && SequenceLength(s) == 3
    ensures EncodeChar(ScalarOf(s, 3)) == s[..3]
  {
    var b0: int, b1: int, b2: int := s[0], s[1], s[2];
    var low := (b1 - 0x80) * 64 + (b2 - 0x80);
    var v := (b0 - 0xE0) * 4096 + low;
    assert 0 <= low < 4096;
    assert 0x800 <= v < 0x10000;
    assert v / 4096 == b0 - 0xE0 && v % 4096 == low;
    assert low / 64 == b1 - 0x80 && low % 64 == b2 - 0x80;
  }

  /** A well-formed four-byte sequence is the encoding of the scalar it decodes to. */
  lemma FourByteSequenceEncodes(s: seq<uint8>)
    requires |s| >= 4 && SequenceLength(s) == 4
    ensures EncodeChar(ScalarOf(s, 4)) == s[..4]
  {
    var b0: int, b1: int, b2: int, b3: int := s[0], s[1], s[2], s[3];
    var low := (b2 - 0x80) * 64 + (b3 - 0x80);
    var mid := (b1 - 0x80) * 4096 + low;
    var v := (b0 - 0xF0) * 262144 + mid;
    assert 0 <= low < 4096 && 0 <= mid < 262144;
    assert 0x10000 <= v < 0x110000;
    assert v / 262144 == b0 - 0xF0 && v % 262144 == mid;
    assert mid / 4096 == b1 - 0x80 && mid % 4096 == low;
    assert low / 64 == b2 - 0x80 && low % 64 == b3 - 0x80;
  }

  /** Every well-formed sequence is the encoding of the scalar it decodes to. */
  lemma SequenceEncodes(s: seq<uint8>)
    requires |s| > 0 && SequenceLength(s) > 0
    ensures EncodeChar(ScalarOf(s, SequenceLength(s))) == s[..SequenceLength(s)]
  {
    var n := SequenceLength(s);
    if n == 2 {
      TwoByteSequenceEncodes(s);
    } else if n == 3 {
      ThreeByteSequenceEncodes(s);
    } else if n == 4 {
      FourByteSequenceEncodes(s);
    }
  }

  /** Encoding a non-empty text encodes its first character, then the rest. */
  lemma EncodeCons(c: char, rest: string)
    ensures Encode([c] + rest) == EncodeChar(c) + Encode(rest)
  {
    var text := [c] + rest;
    assert text[0] == c && text[1..] == rest;
  }

  /** Decoding a non-empty byte string that decodes yields the scalar of its first
      sequence, then the decoding of the bytes after it. */
  lemma DecodeCons(s: seq<uint8>)
    requires |s| > 0 && Decode(s).Some?
    ensures SequenceLength(s) > 0 && Decode(s[SequenceLength(s)..]).Some?
    ensures Decode(s).value == [ScalarOf(s, SequenceLength(s))] + Decode(s[SequenceLength(s)..]).value
  {
  }

  /** A text made of a character that encodes to the first n bytes of s, then a rest that
      encodes to the remaining bytes, encodes to s. */
  lemma EncodeGlue(s: seq<uint8>, n: nat, text: string, c: char, rest: string)
    requires n <= |s| && text == [c] + rest
    requires EncodeChar(c) == s[..n] && Encode(rest) == s[n..]
    ensures Encode(text) == s
  {
    EncodeCons(c, rest);
    assert s[..n] + s[n..] == s;
  }

  /** Strict decoding accepts only what encoding produces: whatever decodes re-encodes to
      the very same bytes, so no overlong or otherwise non-shortest form is accepted. */
  lemma {:induction false} EncodeDecode(s: seq<uint8>)
    requires Decode(s).Some?
    ensures Encode(Decode(s).value) == s
    decreases |s|
  {
    if |s| > 0 {
      DecodeCons(s);
      var n := SequenceLength(s);
      EncodeDecode(s[n..]);
      SequenceEncodes(s);
      EncodeGlue(s, n, Decode(s).value, ScalarOf(s, n), Decode(s[n..]).value);
    }
  }
}
