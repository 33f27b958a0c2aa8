/** Splitting decoded text into trimmed, non-blank lines, with a carry between chunks. */
module Lines {
  import opened Codec

  const NEWLINE: Byte := 0x0a

  predicate Blank(b: Byte) {
    0x09 <= b <= 0x0d || b == 0x20
  }

  /** U+0085 and U+00A0, the white space of two bytes (section 3 of RFC 3629). */
  predicate Blank2(a: Byte, b: Byte) {
    a == 0xc2 && (b == 0x85 || b == 0xa0)
  }

  /** U+1680, U+2000 to U+200A, U+2028, U+2029, U+202F, U+205F and U+3000. */
  predicate Blank3(a: Byte, b: Byte, c: Byte) {
    || (a == 0xe1 && b == 0x9a && c == 0x80)
    || (a == 0xe2 && b == 0x80 && (0x80 <= c <= 0x8a || c == 0xa8 || c == 0xa9 || c == 0xaf))
    || (a == 0xe2 && b == 0x81 && c == 0x9f)
    || (a == 0xe3 && b == 0x80 && c == 0x80)
  }

  /** The length of the white space character that a text begins with; 0 when there is none. */
  function Leading(d: Bytes): (n: nat)
    ensures n <= |d|
  {
    if |d| >= 1 && Blank(d[0]) then 1
    else if |d| >= 2 && Blank2(d[0], d[1]) then 2
    else if |d| >= 3 && Blank3(d[0], d[1], d[2]) then 3
    else 0
  }

  /** The length of the one it ends with. */
  function Trailing(d: Bytes): (n: nat)
    ensures n <= |d|
  {
    var k := |d|;
    if k >= 1 && Blank(d[k - 1]) then 1
    else if k >= 2 && Blank2(d[k - 2], d[k - 1]) then 2
    else if k >= 3 && Blank3(d[k - 3], d[k - 2], d[k - 1]) then 3
    else 0
  }

  /** The line without the white space around it. */
  function Trim(d: Bytes): (t: Bytes)
    ensures Leading(t) == 0 && Trailing(t) == 0
    decreases |d|
  {
    if Leading(d) > 0 then Trim(d[Leading(d)..])
    else if Trailing(d) > 0 then Trim(d[..|d| - Trailing(d)])
    else d
  }

  /** A line as it is handed over: trimmed, and dropped when nothing is left of it. */
  function Handed(line: Bytes): seq<Bytes> {
    if Trim(line) == [] then [] else [Trim(line)]
  }

  /** The complete lines of `carry + d`, in order, where no newline is in `carry`. */
  function LinesFrom(carry: Bytes, d: Bytes): seq<Bytes>
    decreases |d|
  {
    if d == [] then []
    else if d[0] == NEWLINE then Handed(carry) + LinesFrom([], d[1..])
    else LinesFrom(carry + [d[0]], d[1..])
  }

  /** What follows the last newline of `carry + d`. */
  function CarryFrom(carry: Bytes, d: Bytes): Bytes
    decreases |d|
  {
    if d == [] then carry
    else if d[0] == NEWLINE then CarryFrom([], d[1..])
    else CarryFrom(carry + [d[0]], d[1..])
  }

  /** Every line of a whole text, the unfinished last one included. */
  function AllLines(d: Bytes): seq<Bytes> {
    LinesFrom([], d) + Handed(CarryFrom([], d))
  }

  /** Carrying the unfinished line over a cut yields the same lines as reading without one. */
  lemma {:induction false} LinesInTwo(carry: Bytes, a: Bytes, b: Bytes)
    ensures LinesFrom(carry, a + b) == LinesFrom(carry, a) + LinesFrom(CarryFrom(carry, a), b)
    ensures CarryFrom(carry, a + b) == CarryFrom(CarryFrom(carry, a), b)
    decreases |a|
  {
    hide Handed;
    if a == [] {
      assert a + b == b;
    } else {
      assert (a + b)[1..] == a[1..] + b;
      LinesInTwo(if a[0] == NEWLINE then [] else carry + [a[0]], a[1..], b);
    }
  }

  /** Text that ends at a newline (or is empty) splits cleanly. */
  lemma {:induction false} LinesSplit(a: Bytes, b: Bytes)
    requires CarryFrom([], a) == []
    ensures AllLines(a + b) == AllLines(a) + AllLines(b)
    ensures CarryFrom([], a + b) == CarryFrom([], b)
  {
    LinesInTwo([], a, b);
    assert Handed([]) == [];
    hide Handed, LinesFrom, CarryFrom;
    assert LinesFrom([], a) + LinesFrom([], b) + Handed(CarryFrom([], b)) == AllLines(a) + AllLines(b);
  }

  /** A stretch without newlines only lengthens the carry. */
  lemma {:induction false} NoNewline(carry: Bytes, a: Bytes, b: Bytes)
    requires NEWLINE !in a
    ensures LinesFrom(carry, a + b) == LinesFrom(carry + a, b)
    ensures CarryFrom(carry, a + b) == CarryFrom(carry + a, b)
    decreases |a|
  {
    hide Handed;
    if a == [] {
      assert a + b == b && carry + a == carry;
    } else {
      assert (a + b)[1..] == a[1..] + b && carry + [a[0]] + a[1..] == carry + a;
      NoNewline(carry + [a[0]], a[1..], b);
    }
  }

  lemma {:induction false} CarryHasNoNewline(carry: Bytes, d: Bytes)
    requires NEWLINE !in carry
    ensures NEWLINE !in CarryFrom(carry, d)
    decreases |d|
  {
    if d != [] {
      CarryHasNoNewline(if d[0] == NEWLINE then [] else carry + [d[0]], d[1..]);
    }
  }

  /** `LinesInTwo` for text whose carry is prepended to the next chunk. */
  lemma {:induction false} LinesChunk(a: Bytes, b: Bytes)
    ensures LinesFrom([], a + b) == LinesFrom([], a) + LinesFrom([], CarryFrom([], a) + b)
    ensures CarryFrom([], a + b) == CarryFrom([], CarryFrom([], a) + b)
  {
    hide LinesFrom, CarryFrom;
    var carry := CarryFrom([], a);
    LinesInTwo([], a, b);
    CarryHasNoNewline([], a);
    NoNewline([], carry, b);
    assert [] + carry == carry;
  }

  /** The first newline in `d`, or `|d|` when there is none. */
  function NextNewline(d: Bytes): (i: nat)
    ensures i <= |d| && NEWLINE !in d[..i]
    ensures i < |d| ==> d[i] == NEWLINE
  {
    if d == [] || d[0] == NEWLINE then 0
    else
      var i := 1 + NextNewline(d[1..]);
      assert d[..i] == [d[0]] + d[1..][..i - 1];
      i
  }

  lemma {:induction false} AtNewline(carry: Bytes, d: Bytes)
    requires d != [] && d[0] == NEWLINE
    ensures LinesFrom(carry, d) == Handed(carry) + LinesFrom([], d[1..])
    ensures CarryFrom(carry, d) == CarryFrom([], d[1..])
  {
    hide Handed;
  }

  lemma {:induction false} AtEnd(carry: Bytes)
    ensures LinesFrom(carry, []) == [] && CarryFrom(carry, []) == carry
  {}

  /** What one turn of the line loop does to the text that is left. */
  lemma {:induction false} LineStep(d: Bytes)
    ensures var i := NextNewline(d);
            if i < |d| then
              LinesFrom([], d) == Handed(d[..i]) + LinesFrom([], d[i + 1..])
              && CarryFrom([], d) == CarryFrom([], d[i + 1..])
            else
              LinesFrom([], d) == [] && CarryFrom([], d) == d
  {
    hide Handed, NextNewline, LinesFrom, CarryFrom;
    var i := NextNewline(d);
    assert d == d[..i] + d[i..] && [] + d[..i] == d[..i];
    NoNewline([], d[..i], d[i..]);
    if i < |d| {
      AtNewline(d[..i], d[i..]);
      assert d[i..][1..] == d[i + 1..];
    } else {
      AtEnd(d[..i]);
    }
  }

  // ---- What lines are ------------------------------------------------------------------------

  /** Lines, each with the newline that ends it. */
  function Terminated(lines: seq<Bytes>): Bytes {
    if lines == [] then [] else lines[0] + [0x0a] + Terminated(lines[1..])
  }

  /** Lines without the white space around them, and without those that are nothing else. */
  function Shown(lines: seq<Bytes>): seq<Bytes> {
    if lines == [] then []
    else (if Trim(lines[0]) == [] then [] else [Trim(lines[0])]) + Shown(lines[1..])
  }

  ghost predicate Unbroken(lines: seq<Bytes>) {
    forall i | 0 <= i < |lines| :: 0x0a !in lines[i]
  }

  /** Terminated lines are handed over one by one, trimmed, and what follows the last of them is carried. */
  lemma {:induction false} LinesAre(lines: seq<Bytes>, last: Bytes)
    requires Unbroken(lines) && 0x0a !in last
    ensures LinesFrom([], Terminated(lines) + last) == Shown(lines)
    ensures CarryFrom([], Terminated(lines) + last) == last
  {
    hide Trim;
    if lines == [] {
      assert [] + last == last == last + [];
      NoNewline([], last, []);
    } else {
      var rest := Terminated(lines[1..]) + last;
      assert Terminated(lines) + last == lines[0] + ([0x0a] + rest);
      assert [] + lines[0] == lines[0] && ([0x0a] + rest)[1..] == rest;
      NoNewline([], lines[0], [0x0a] + rest);
      LinesAre(lines[1..], last);
    }
  }

  /** Every text is some terminated lines and one that is not. */
  lemma {:induction false} EveryTextIsLines(d: Bytes) returns (lines: seq<Bytes>, last: Bytes)
    ensures d == Terminated(lines) + last && Unbroken(lines) && 0x0a !in last
    decreases |d|
  {
    if d == [] {
      lines, last := [], [];
    } else {
      var more, end := EveryTextIsLines(d[1..]);
      assert d == [d[0]] + d[1..];
      if d[0] == 0x0a {
        lines, last := [[]] + more, end;
        assert lines[1..] == more && Terminated(lines) == [d[0]] + Terminated(more);
      } else if more == [] {
        lines, last := [], [d[0]] + end;
      } else {
        lines, last := [[d[0]] + more[0]] + more[1..], end;
        assert lines[1..] == more[1..] && Terminated(lines) == [d[0]] + Terminated(more);
      }
    }
  }

  /** Where lines go.  The callback may refuse one, which stops the scan. */
  class LineSink {
    var got: seq<Bytes>
    /** Refuses nothing. */
    const willing: bool

    constructor (willing: bool)
      ensures got == [] && this.willing == willing
    {
      got := [];
      this.willing := willing;
    }

    method Accept(line: Bytes) returns (ok: bool)
      modifies this
      ensures got == old(got) + [line] && (willing ==> ok)
    {
      got := got + [line];
      ok := *;
      ok := ok || willing;
    }
  }

  /**
   Gives the sink each finished line of `carry + data`; what is unfinished is the next chunk's
   carry.
   */
  method EmitLines(carry: Bytes, data: Bytes, sink: LineSink) returns (rest: Bytes, ok: bool)
    modifies sink
    ensures old(sink.got) <= sink.got <= old(sink.got) + LinesFrom([], carry + data)
    ensures ok ==> sink.got == old(sink.got) + LinesFrom([], carry + data)
    ensures ok ==> rest == CarryFrom([], carry + data)
    ensures sink.willing ==> ok
  {
    hide LinesFrom, CarryFrom, Trim, NextNewline;
    var d := data;
    if |carry| > 0 {
      d := carry + data;
    }
    assert d == carry + data;
    ghost var all := sink.got + LinesFrom([], d);
    LineStep(d);
    var i := NextNewline(d);
    while i < |d|
      invariant i == NextNewline(d)
      invariant old(sink.got) <= sink.got
      invariant sink.got + LinesFrom([], d) == all
      invariant CarryFrom([], d) == CarryFrom([], carry + data)
      decreases |d|
    {
      LineStep(d);
      ghost var before, later := sink.got, LinesFrom([], d[i + 1..]);
      assert before + (Handed(d[..i]) + later) == (before + Handed(d[..i])) + later;
      var line := Trim(d[..i]);
      if |line| > 0 {
        var accepted := sink.Accept(line);
        if !accepted {
          return [], false;
        }
      }
      d := d[i + 1..];
      i := NextNewline(d);
    }
    LineStep(d);
    return d, true;
  }

  /** The last line of a scan, which no newline closes. */
  method FlushLine(pending: Bytes, sink: LineSink) returns (ok: bool)
    modifies sink
    ensures sink.got == old(sink.got) + Handed(pending) && (sink.willing ==> ok)
  {
    ok := true;
    var line := Trim(pending);
    if |line| > 0 {
      ok := sink.Accept(line);
    }
  }
}
