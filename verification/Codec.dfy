/**
 One self-contained archive member and its decoder.

 A member is a gzip member (sections 2.2 and 2.3 of RFC 1952): a ten-byte header, a body
 of stored deflate blocks (section 3.2.4 of RFC 1951) and an eight-byte trailer whose
 second half is the length of the text modulo 2^32.  Compressed blocks, optional header
 fields and the checksum half of the trailer are not modelled.
 */
module Codec {
  type Byte = x: int | 0 <= x < 256
  type Bytes = seq<Byte>

  const HEADER: nat := 10
  const TRAILER: nat := 8

  /** ID1, ID2 and CM = 8, with which a member begins. */
  const MAGIC: Bytes := [0x1f, 0x8b, 0x08]

  /**
   What decoding one member from the front of a buffer can say.  `Incomplete` means that
   the bytes end before the member does; `Oversize` carries the first `max` bytes of a
   member whose text reaches the cap.
   */
  datatype Outcome =
    | Complete(text: Bytes, used: nat)
    | Incomplete
    | Corrupt
    | Oversize(head: Bytes)

  function Min(a: int, b: int): int {
    if a <= b then a else b
  }

  function Max(a: int, b: int): int {
    if a <= b then b else a
  }

  function U16(d: Bytes, at: nat): nat
    requires at + 2 <= |d|
  {
    (d[at] as int) + 0x100 * (d[at + 1] as int)
  }

  function U32(d: Bytes, at: nat): nat
    requires at + 4 <= |d|
  {
    U16(d, at) + 0x1_0000 * U16(d, at + 2)
  }

  /** The deflate body and trailer, from the block header at `at`; `text` is what came before. */
  function Body(d: Bytes, at: nat, text: Bytes, max: nat): (r: Outcome)
    requires at <= |d| && |text| <= max
    ensures r.Complete? ==> at + TRAILER < r.used <= |d| && |r.text| < max
    ensures r.Oversize? ==> |r.head| == max
    decreases |d| - at
  {
    var from := at + 5;
    if |d| < from then Incomplete
    else if d[at] > 1 || U16(d, at + 1) + U16(d, at + 3) != 0xffff then Corrupt
    else
      var n := U16(d, at + 1);
      if |text| + Min(n, |d| - from) >= max then Oversize(text + d[from..from + max - |text|])
      else if |d| < from + n then Incomplete
      else if d[at] == 0 then Body(d, from + n, text + d[from..from + n], max)
      else Trailer(d, from + n, text + d[from..from + n])
  }

  function Trailer(d: Bytes, at: nat, text: Bytes): (r: Outcome)
    requires at <= |d|
  {
    if |d| < at + TRAILER then Incomplete
    else if U32(d, at + 4) != |text| % 0x1_0000_0000 then Corrupt
    else Complete(text, at + TRAILER)
  }

  /** Decoding exactly one member, from the front of `d`. */
  function DecodeOne(d: Bytes, max: nat): (r: Outcome)
    ensures |d| < HEADER ==> r.Incomplete?
    ensures r.Complete? ==> HEADER + TRAILER < r.used <= |d| && |r.text| < max
    ensures r.Oversize? ==> |r.head| == max
  {
    if |d| < HEADER then Incomplete
    else if d[..3] != MAGIC then Corrupt
    else Body(d, HEADER, [], max)
  }

  // ---- Prefix stability ------------------------------------------------------------

  lemma SameNumber(a: Bytes, b: Bytes, at: nat)
    requires at + 2 <= |a|
    ensures U16(a + b, at) == U16(a, at)
  {}

  lemma TrailerStable(a: Bytes, b: Bytes, at: nat, text: Bytes)
    requires at <= |a| && !Trailer(a, at, text).Incomplete?
    ensures Trailer(a + b, at, text) == Trailer(a, at, text)
  {
    SameNumber(a, b, at + 4);
    SameNumber(a, b, at + 6);
  }

  lemma {:induction false} BodyStable(a: Bytes, b: Bytes, at: nat, text: Bytes, max: nat)
    requires at <= |a| && |text| <= max
    requires !Body(a, at, text, max).Incomplete?
    ensures Body(a + b, at, text, max) == Body(a, at, text, max)
    decreases |a| - at
  {
    hide U16, Trailer;
    var d := a + b;
    var from := at + 5;
    assert d[at] == a[at];
    SameNumber(a, b, at + 1);
    SameNumber(a, b, at + 3);
    if d[at] <= 1 && U16(d, at + 1) + U16(d, at + 3) == 0xffff {
      var n := U16(d, at + 1);
      if |text| + Min(n, |a| - from) >= max {
        assert d[from..from + max - |text|] == a[from..from + max - |text|];
      } else {
        assert d[from..from + n] == a[from..from + n];
        if a[at] == 0 {
          BodyStable(a, b, from + n, text + a[from..from + n], max);
        } else {
          TrailerStable(a, b, from + n, text + a[from..from + n]);
        }
      }
    }
  }

  lemma {:induction false} BodyLocal(d: Bytes, k: nat, at: nat, text: Bytes, max: nat)
    requires at <= |d| && |text| <= max && k <= |d|
    requires Body(d, at, text, max).Complete? && Body(d, at, text, max).used <= k
    ensures Body(d[..k], at, text, max) == Body(d, at, text, max)
    decreases |d| - at
  {
    var p := d[..k];
    var from := at + 5;
    var n := U16(d, at + 1);
    assert d[from..from + n] == p[from..from + n];
    if d[at] == 0 {
      BodyLocal(d, k, from + n, text + d[from..from + n], max);
    }
  }

  /** A verdict other than "incomplete" is final: more bytes cannot change it. */
  lemma DecodeOneStable(a: Bytes, b: Bytes, max: nat)
    requires !DecodeOne(a, max).Incomplete?
    ensures DecodeOne(a + b, max) == DecodeOne(a, max)
  {
    assert (a + b)[..3] == a[..3];
    if a[..3] == MAGIC {
      BodyStable(a, b, HEADER, [], max);
    }
  }

  /**
   A complete member is exactly the bytes it covers: any prefix that holds all of them
   decodes to the same member, and any shorter prefix is incomplete.
   */
  lemma MemberIsItsBytes(d: Bytes, k: nat, max: nat)
    requires k <= |d|
    requires DecodeOne(d, max).Complete?
    ensures DecodeOne(d[..k], max) ==
            if DecodeOne(d, max).used <= k then DecodeOne(d, max) else Incomplete
  {
    if DecodeOne(d, max).used <= k {
      assert d[..k][..3] == d[..3];
      BodyLocal(d, k, HEADER, [], max);
    } else if !DecodeOne(d[..k], max).Incomplete? {
      assert d == d[..k] + d[k..];
      DecodeOneStable(d[..k], d[k..], max);
    }
  }
}
