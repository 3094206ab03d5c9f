/** The byte loop of UnicodeConverter::toUTF16(const char*, int, std::wstring&)
    (Foundation/src/UnicodeConverter.cpp), which turns UTF-8 bytes into one
    wide character per sequence. The UTF-8 tables belong to UTF8Encoding,
    which is not part of this model: its character map (byte -> value, -1
    for an invalid byte, -k for the lead byte of a k-byte sequence) and its
    convert function are parameters. */
module UnicodeConverter {
  import opened FixedWidth

  /** The character the loop emits for anything it cannot decode. */
  const QUESTION: int := '?' as int

  /** UTF8Encoding::characterMap(): one entry per byte value. */
  type CharacterMap = m: seq<int> | |m| == 256 witness seq(256, _ => -1)

  /** UTF8Encoding::convert, applied to the bytes of one sequence: the
      character, or -1 when the sequence is not valid. */
  type Convert = seq<UInt8> -> int

  /** The wide characters the loop emits for the bytes s: an invalid byte
      gives '?', a single-byte character its value, a whole k-byte sequence
      the value convert gives it ('?' for -1), and a sequence cut off by the
      end a single '?' that ends the output. Every step emits one character,
      so there are at most as many characters as bytes, and at least one for
      any input. */
  function Decode(s: seq<UInt8>, m: CharacterMap, convert: Convert): (r: seq<int>)
    ensures |r| <= |s|
    ensures s != [] ==> |r| >= 1
    decreases |s|
  {
    if s == [] then []
    else
      var n := m[s[0]];
      if n == -1 then [QUESTION] + Decode(s[1..], m, convert)
      else if n >= 0 then [n] + Decode(s[1..], m, convert)
      else if -n <= |s| then
        var uc := convert(s[..-n]);
        [if uc == -1 then QUESTION else uc] + Decode(s[-n..], m, convert)
      else [QUESTION]
  }

  /** The bytes from position it up to the end, none once it has passed it. */
  function Remaining(input: seq<UInt8>, it: nat, end: nat): seq<UInt8>
    requires end <= |input|
  {
    if it <= end then input[it..end] else []
  }

  /** One step of the loop at position it: the character it emits and the
      position it moves to. */
  ghost function Step(input: seq<UInt8>, it: nat, end: nat, m: CharacterMap, convert: Convert): (int, nat)
    requires it < end <= |input|
  {
    var n := m[input[it]];
    if n == -1 then (QUESTION, it + 1)
    else if n >= 0 then (n, it + 1)
    else if it - n <= end then
      var uc := convert(input[it..it - n]);
      (if uc == -1 then QUESTION else uc, it - n)
    else (QUESTION, it - n)
  }

  /** The first character Decode emits for s and how many bytes it uses. */
  ghost function Head(s: seq<UInt8>, m: CharacterMap, convert: Convert): (int, nat)
    requires s != []
  {
    var n := m[s[0]];
    if n == -1 then (QUESTION, 1)
    else if n >= 0 then (n, 1)
    else if -n <= |s| then
      var uc := convert(s[..-n]);
      (if uc == -1 then QUESTION else uc, -n)
    else (QUESTION, -n)
  }

  lemma DecodeHead(s: seq<UInt8>, m: CharacterMap, convert: Convert)
    requires s != []
    ensures Head(s, m, convert).1 >= 1
    ensures Decode(s, m, convert)
      == [Head(s, m, convert).0] + Decode(if Head(s, m, convert).1 <= |s| then s[Head(s, m, convert).1..] else [], m, convert)
  {
  }

  /** Decode takes one step at a time. */
  lemma DecodeStep(input: seq<UInt8>, it: nat, end: nat, m: CharacterMap, convert: Convert)
    requires it < end <= |input|
    ensures Step(input, it, end, m, convert).1 > it
    ensures Decode(input[it..end], m, convert)
      == [Step(input, it, end, m, convert).0] + Decode(Remaining(input, Step(input, it, end, m, convert).1, end), m, convert)
  {
    var s := input[it..end];
    DecodeHead(s, m, convert);
    var n := m[input[it]];
    assert s[0] == input[it];
    if n < -1 && it - n <= end {
      assert s[..-n] == input[it..it - n];
    }
    var (uc, k) := Head(s, m, convert);
    assert Step(input, it, end, m, convert) == (uc, it + k);
    if k <= |s| {
      assert s[k..] == Remaining(input, it + k, end);
    } else {
      assert Remaining(input, it + k, end) == [];
    }
  }

  /** Decode from position it, step by step as the loop goes. */
  ghost function DecodeFrom(input: seq<UInt8>, it: nat, end: nat, m: CharacterMap, convert: Convert): seq<int>
    requires end <= |input|
    decreases end - it
  {
    if it >= end then []
    else
      var (uc, next) := Step(input, it, end, m, convert);
      DecodeStep(input, it, end, m, convert);
      [uc] + DecodeFrom(input, next, end, m, convert)
  }

  lemma {:induction false} DecodeFromIsDecode(input: seq<UInt8>, it: nat, end: nat, m: CharacterMap, convert: Convert)
    requires end <= |input|
    ensures DecodeFrom(input, it, end, m, convert) == Decode(Remaining(input, it, end), m, convert)
    decreases end - it
  {
    if it < end {
      DecodeStep(input, it, end, m, convert);
      var (uc, next) := Step(input, it, end, m, convert);
      DecodeFromIsDecode(input, next, end, m, convert);
    } else if it == end {
      assert Remaining(input, it, end) == [];
    }
  }

  /** toUTF16(utf8String, length, utf16String): the output is cleared, then
      the loop appends one character per step until the byte pointer reaches
      or passes the end. A length of 0 or less gives the empty string. */
  method ToUtf16(input: seq<UInt8>, length: int, m: CharacterMap, convert: Convert) returns (output: seq<int>)
    requires length <= |input|
    ensures length <= 0 ==> output == []
    ensures length > 0 ==> output == Decode(input[..length], m, convert)
  {
    output := [];
    if length <= 0 {
      return;
    }
    ghost var target := DecodeFrom(input, 0, length, m, convert);
    var it := 0;
    while it < length
      invariant 0 <= it
      invariant output + DecodeFrom(input, it, length, m, convert) == target
      decreases length - it
    {
      var c := input[it];
      var n := m[c];
      var uc := QUESTION;
      ghost var step := Step(input, it, length, m, convert);
      if n == -1 {
        it := it + 1;
      } else if n >= 0 {
        uc := n;
        it := it + 1;
      } else {
        if it - n <= length {
          uc := convert(input[it..it - n]);
          if uc == -1 {
            uc := QUESTION;
          }
        }
        it := it - n;
      }
      assert step == (uc, it);
      ghost var rest := DecodeFrom(input, it, length, m, convert);
      assert (output + [uc]) + rest == output + ([uc] + rest);
      output := output + [uc];
    }
    assert output + [] == output;
    DecodeFromIsDecode(input, 0, length, m, convert);
    assert Remaining(input, 0, length) == input[..length];
  }

  /** strlen: the number of bytes before the terminating zero. */
  function Strlen(s: seq<UInt8>): (n: nat)
    requires exists i :: 0 <= i < |s| && s[i] == 0
    ensures n < |s| && s[n] == 0
    ensures forall i :: 0 <= i < n ==> s[i] != 0
    decreases |s|
  {
    if s[0] == 0 then 0
    else
      assert exists i :: 0 <= i < |s[1..]| && s[1..][i] == 0 by {
        var i :| 0 <= i < |s| && s[i] == 0;
        assert s[1..][i - 1] == 0;
      }
      1 + Strlen(s[1..])
  }

  /** toUTF16(utf8String, utf16String): converts the bytes before the
      terminating zero. */
  method ToUtf16CString(cstring: seq<UInt8>, m: CharacterMap, convert: Convert) returns (output: seq<int>)
    requires exists i :: 0 <= i < |cstring| && cstring[i] == 0
    ensures output == Decode(cstring[..Strlen(cstring)], m, convert)
  {
    var length := Strlen(cstring);
    output := ToUtf16(cstring, length, m, convert);
    if length == 0 {
      assert cstring[..length] == [];
    }
  }

  /** Where every byte is a single-byte character, the output is the
      character map applied byte by byte. */
  lemma {:induction false} DecodeSingleBytes(s: seq<UInt8>, m: CharacterMap, convert: Convert)
    requires forall i :: 0 <= i < |s| ==> m[s[i]] >= 0
    ensures Decode(s, m, convert) == seq(|s|, i requires 0 <= i < |s| => m[s[i]])
    decreases |s|
  {
    if s != [] {
      assert m[s[0]] >= 0;
      assert forall i :: 0 <= i < |s[1..]| ==> m[s[1..][i]] >= 0 by {
        forall i | 0 <= i < |s[1..]| ensures m[s[1..][i]] >= 0 {
          assert s[1..][i] == s[i + 1];
        }
      }
      DecodeSingleBytes(s[1..], m, convert);
    }
  }

  /** Invalid bytes each become '?'. */
  lemma {:induction false} DecodeInvalid(s: seq<UInt8>, m: CharacterMap, convert: Convert)
    requires forall i :: 0 <= i < |s| ==> m[s[i]] == -1
    ensures Decode(s, m, convert) == seq(|s|, _ => QUESTION)
    decreases |s|
  {
    if s != [] {
      assert m[s[0]] == -1;
      assert forall i :: 0 <= i < |s[1..]| ==> m[s[1..][i]] == -1 by {
        forall i | 0 <= i < |s[1..]| ensures m[s[1..][i]] == -1 {
          assert s[1..][i] == s[i + 1];
        }
      }
      DecodeInvalid(s[1..], m, convert);
    }
  }

  /** A lead byte whose sequence runs past the end gives a single '?', and
      nothing that follows it is read. */
  lemma DecodeTruncated(s: seq<UInt8>, m: CharacterMap, convert: Convert)
    requires s != [] && m[s[0]] < -1 && -m[s[0]] > |s|
    ensures Decode(s, m, convert) == [QUESTION]
  {
  }

  /** Decoding runs sequence by sequence: a whole k-byte sequence in front
      contributes exactly one character and leaves the rest to be decoded on
      its own. */
  lemma DecodeSequence(s: seq<UInt8>, rest: seq<UInt8>, m: CharacterMap, convert: Convert)
    requires |s| >= 2 && m[s[0]] == -|s|
    ensures var uc := convert(s);
      Decode(s + rest, m, convert) == [if uc == -1 then QUESTION else uc] + Decode(rest, m, convert)
  {
    assert (s + rest)[..|s|] == s;
    assert (s + rest)[|s|..] == rest;
  }
}
