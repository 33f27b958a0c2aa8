/**
 Texts as code points (sections 3 and 4 of RFC 3629), for what `Archive` and `Lines` say of them
 byte by byte: internal/archive/resync.go and internal/scan/scan.go.
 */
module Utf8 {
  import opened Codec
  import opened Archive
  import opened Lines

  /** A Unicode scalar value: a code point that is no surrogate. */
  type Scalar = c: int | 0 <= c < 0xd800 || 0xe000 <= c < 0x11_0000

  /** A byte of the form 10xxxxxx. */
  function Tail(c: nat): (b: Byte)
    ensures 0x80 <= b < 0xc0
  {
    0x80 + c % 0x40
  }

  function Encode(c: Scalar): (d: Bytes)
    ensures 1 <= |d| <= 4
  {
    if c < 0x80 then [c]
    else if c < 0x800 then [0xc0 + c / 0x40, Tail(c)]
    else if c < 0x1_0000 then [0xe0 + c / 0x1000, Tail(c / 0x40), Tail(c)]
    else [0xf0 + c / 0x4_0000, Tail(c / 0x1000), Tail(c / 0x40), Tail(c)]
  }

  function EncodeAll(cs: seq<Scalar>): Bytes {
    if cs == [] then [] else Encode(cs[0]) + EncodeAll(cs[1..])
  }

  lemma {:induction false} EncodeAppend(a: seq<Scalar>, b: seq<Scalar>)
    ensures EncodeAll(a + b) == EncodeAll(a) + EncodeAll(b)
    decreases |a|
  {
    if a == [] {
      assert a + b == b;
    } else {
      assert (a + b)[1..] == a[1..] + b;
      EncodeAppend(a[1..], b);
    }
  }

  // ---- Validity ---------------------------------------------------------------------------

  lemma {:induction false} EncodedLength(s: Bytes, at: nat, c: Scalar)
    requires at + |Encode(c)| <= |s| && s[at..at + |Encode(c)|] == Encode(c)
    ensures RuneLength(s, at) == |Encode(c)|
  {
    var d := s[at..at + |Encode(c)|];
    assert d[0] == s[at];
    if |d| > 1 {
      assert d[1] == s[at + 1];
      if |d| > 2 {
        assert d[2] == s[at + 2];
        if |d| > 3 {
          assert d[3] == s[at + 3];
        }
      }
    }
  }

  /** A number and six bits below it. */
  lemma SixBits(high: nat, low: nat)
    requires low < 0x40
    ensures (high * 0x40 + low) / 0x40 == high && (high * 0x40 + low) % 0x40 == low
  {}

  lemma DecodedTwo(a: Byte, x: Byte) returns (c: Scalar)
    requires 0xc2 <= a < 0xe0 && 0x80 <= x < 0xc0
    ensures Encode(c) == [a, x]
  {
    SixBits(a - 0xc0, x - 0x80);
    c := (a - 0xc0) * 0x40 + (x - 0x80);
  }

  lemma DecodedThree(a: Byte, x: Byte, y: Byte) returns (c: Scalar)
    requires 0xe0 <= a < 0xf0 && 0x80 <= x < 0xc0 && 0x80 <= y < 0xc0
    requires (a == 0xe0 ==> x >= 0xa0) && (a == 0xed ==> x < 0xa0)
    ensures Encode(c) == [a, x, y]
  {
    var high := (a - 0xe0) * 0x40 + (x - 0x80);
    SixBits(a - 0xe0, x - 0x80);
    SixBits(high, y - 0x80);
    c := high * 0x40 + (y - 0x80);
    assert c / 0x1000 == c / 0x40 / 0x40;
  }

  lemma DecodedFour(a: Byte, x: Byte, y: Byte, z: Byte) returns (c: Scalar)
    requires 0xf0 <= a < 0xf5 && 0x80 <= x < 0xc0 && 0x80 <= y < 0xc0 && 0x80 <= z < 0xc0
    requires (a == 0xf0 ==> x >= 0x90) && (a == 0xf4 ==> x < 0x90)
    ensures Encode(c) == [a, x, y, z]
  {
    var high := (a - 0xf0) * 0x40 + (x - 0x80);
    var more := high * 0x40 + (y - 0x80);
    SixBits(a - 0xf0, x - 0x80);
    SixBits(high, y - 0x80);
    SixBits(more, z - 0x80);
    c := more * 0x40 + (z - 0x80);
    assert c / 0x1000 == c / 0x40 / 0x40 && c / 0x4_0000 == c / 0x40 / 0x40 / 0x40;
  }

  /** The code point that a well-formed sequence stands for. */
  lemma {:induction false} Decoded(s: Bytes, at: nat) returns (c: Scalar)
    requires at < |s| && RuneLength(s, at) > 0
    ensures s[at..at + RuneLength(s, at)] == Encode(c)
  {
    hide Encode;
    var n := RuneLength(s, at);
    if n == 1 {
      c := s[at] as int;
      AsciiIsItself(c);
    } else if n == 2 {
      c := DecodedTwo(s[at], s[at + 1]);
    } else if n == 3 {
      c := DecodedThree(s[at], s[at + 1], s[at + 2]);
    } else {
      c := DecodedFour(s[at], s[at + 1], s[at + 2], s[at + 3]);
    }
  }

  lemma AsciiIsItself(c: Scalar)
    requires c < 0x80
    ensures Encode(c) == [c]
  {}

  lemma {:induction false} EncodedIsValid(before: Bytes, cs: seq<Scalar>)
    ensures ValidUtf8(before + EncodeAll(cs), |before|)
    decreases |cs|
  {
    hide RuneLength, Encode;
    if cs != [] {
      var s := before + EncodeAll(cs);
      var d := Encode(cs[0]);
      assert s == (before + d) + EncodeAll(cs[1..]);
      EncodedLength(s, |before|, cs[0]);
      EncodedIsValid(before + d, cs[1..]);
    }
  }

  lemma {:induction false} ValidIsEncoded(s: Bytes, at: nat) returns (cs: seq<Scalar>)
    requires at <= |s| && ValidUtf8(s, at)
    ensures s[at..] == EncodeAll(cs)
    decreases |s| - at
  {
    hide RuneLength, Encode;
    if at == |s| {
      cs := [];
    } else {
      var n := RuneLength(s, at);
      var c := Decoded(s, at);
      var rest := ValidIsEncoded(s, at + n);
      cs := [c] + rest;
      assert cs[1..] == rest;
      assert s[at..] == s[at..at + n] + s[at + n..];
    }
  }

  /** Bytes that encode some code points. */
  ghost predicate IsText(s: Bytes) {
    exists cs: seq<Scalar> :: s == EncodeAll(cs)
  }

  /** Bytes are valid exactly when they do. */
  lemma {:induction false} ValidExactlyWhen(s: Bytes)
    ensures ValidUtf8(s) <==> IsText(s)
  {
    if ValidUtf8(s) {
      var cs := ValidIsEncoded(s, 0);
      assert s[0..] == s;
    }
    forall cs: seq<Scalar> | s == EncodeAll(cs)
      ensures ValidUtf8(s)
    {
      EncodedIsValid([], cs);
      assert [] + EncodeAll(cs) == s;
    }
  }

  lemma {:induction false} AsciiIsValid(s: Bytes, at: nat)
    requires at <= |s| && forall b | b in s :: b < 0x80
    ensures ValidUtf8(s, at)
    decreases |s| - at
  {
    if at < |s| {
      assert s[at] in s;
      AsciiIsValid(s, at + 1);
    }
  }

  /** The two bytes at the start of an object with a key stand somewhere in a text. */
  ghost predicate HasKey(s: Bytes) {
    exists before: Bytes, after: Bytes :: s == before + [0x7b, 0x22] + after
  }

  lemma {:induction false} HasKeyWhen(s: Bytes)
    ensures HoldsObject(s) <==> HasKey(s)
  {
    if HoldsObject(s) {
      var i :| 0 <= i < |s| - 1 && s[i] == 0x7b && s[i + 1] == 0x22;
      assert s == s[..i] + [0x7b, 0x22] + s[i + 2..];
    }
    if HasKey(s) {
      var before: Bytes, after: Bytes :| s == before + [0x7b, 0x22] + after;
      assert s[|before|] == 0x7b && s[|before| + 1] == 0x22;
    }
  }

  /**
   Text is taken for archive text exactly when it encodes code points and an object with a key
   begins in it.
   */
  lemma {:induction false} ArchiveTextExactlyWhen(s: Bytes)
    ensures ArchiveText(s) <==> IsText(s) && HasKey(s)
  {
    hide ValidUtf8, HoldsObject, IsText;
    ValidExactlyWhen(s);
    HasKeyWhen(s);
    if HasKey(s) {
      var before: Bytes, after: Bytes :| s == before + [0x7b, 0x22] + after;
      assert |s| >= 2;
    }
  }

  /** Of text in ASCII the second half is all there is to it. */
  lemma {:induction false} AsciiTextExactlyWhen(s: Bytes)
    requires forall b | b in s :: b < 0x80
    ensures ArchiveText(s) <==> HasKey(s)
  {
    AsciiIsValid(s, 0);
    ValidExactlyWhen(s);
    ArchiveTextExactlyWhen(s);
  }

  // ---- White space ------------------------------------------------------------------------

  /** The white space code points. */
  predicate IsSpace(c: Scalar) {
    || 0x09 <= c <= 0x0d || c == 0x20 || c == 0x85 || c == 0xa0 || c == 0x1680
    || 0x2000 <= c <= 0x200a || c == 0x2028 || c == 0x2029 || c == 0x202f || c == 0x205f || c == 0x3000
  }

  lemma {:induction false} LeadingSpace(c: Scalar, rest: Bytes)
    ensures Leading(Encode(c) + rest) == if IsSpace(c) then |Encode(c)| else 0
  {}

  lemma {:induction false} TrailingSpace(rest: Bytes, c: Scalar)
    ensures Trailing(rest + Encode(c)) == if IsSpace(c) then |Encode(c)| else 0
  {}

  /** Code points without those of white space at either end. */
  function TrimAll(cs: seq<Scalar>): seq<Scalar>
    decreases |cs|
  {
    if cs == [] then []
    else if IsSpace(cs[0]) then TrimAll(cs[1..])
    else if IsSpace(cs[|cs| - 1]) then TrimAll(cs[..|cs| - 1])
    else cs
  }

  /** A line that is a text is trimmed code point by code point. */
  lemma {:induction false} TrimmedText(cs: seq<Scalar>)
    ensures Trim(EncodeAll(cs)) == EncodeAll(TrimAll(cs))
    decreases |cs|
  {
    hide Leading, Trailing, Encode;
    if cs == [] {
      NothingLeads();
    } else {
      var n := |cs| - 1;
      var s := EncodeAll(cs);
      LeadingSpace(cs[0], EncodeAll(cs[1..]));
      assert cs == cs[..n] + [cs[n]] && [cs[n]][1..] == [];
      EncodeAppend(cs[..n], [cs[n]]);
      assert EncodeAll([cs[n]]) == Encode(cs[n]) + [];
      assert s == EncodeAll(cs[..n]) + Encode(cs[n]);
      TrailingSpace(EncodeAll(cs[..n]), cs[n]);
      if IsSpace(cs[0]) {
        assert s[|Encode(cs[0])|..] == EncodeAll(cs[1..]);
        TrimmedText(cs[1..]);
      } else if IsSpace(cs[n]) {
        assert s[..|s| - |Encode(cs[n])|] == EncodeAll(cs[..n]);
        TrimmedText(cs[..n]);
      }
    }
  }

  lemma NothingLeads()
    ensures Leading([]) == 0 && Trailing([]) == 0
  {}
}
