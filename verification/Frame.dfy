/** Reading one event out of an event stream: internal/frame/frame.go, section 9.2.6 of the WHATWG HTML Living Standard. */
module Frame {
  import opened Wrappers

  const BOM: string := ['\U{FEFF}']

  // ---- Library string operations --------------------------------------------------------

  predicate HasPrefix(text: string, prefix: string) {
    |prefix| <= |text| && text[..|prefix|] == prefix
  }

  function TrimPrefix(text: string, prefix: string): string {
    if HasPrefix(text, prefix) then text[|prefix|..] else text
  }

  function ReplaceAll(text: string, from: string, to: string): string
    requires from != ""
  {
    if text == "" then ""
    else if HasPrefix(text, from) then to + ReplaceAll(text[|from|..], from, to)
    else [text[0]] + ReplaceAll(text[1..], from, to)
  }

  function Split(text: string): (lines: seq<string>)
    ensures lines != []
  {
    if text == "" then [""]
    else
      var rest := Split(text[1..]);
      if text[0] == '\n' then [""] + rest else [[text[0]] + rest[0]] + rest[1..]
  }

  function Join(lines: seq<string>): string {
    if lines == [] then ""
    else if |lines| == 1 then lines[0]
    else lines[0] + "\n" + Join(lines[1..])
  }

  /** What is before the first colon, and what is after it. */
  function Cut(line: string): (string, string) {
    if line == "" then ("", "")
    else if line[0] == ':' then ("", line[1..])
    else
      var rest := Cut(line[1..]);
      ([line[0]] + rest.0, rest.1)
  }

  // ---- Decoding -------------------------------------------------------------------------

  function Lines(stream: string): seq<string> {
    Split(ReplaceAll(ReplaceAll(TrimPrefix(stream, BOM), "\r\n", "\n"), "\r", "\n"))
  }

  predicate IsData(line: string) {
    line != "" && !HasPrefix(line, ":") && Cut(line).0 == "data"
  }

  function Append(data: string, saw: bool, value: string): string {
    if saw then data + "\n" + value else value
  }

  /** The data lines up to the first blank line after one of them, joined. */
  function Collected(lines: seq<string>, data: string, saw: bool): Option<string> {
    if lines == [] || (lines[0] == "" && saw) then if saw then Some(data) else None
    else if IsData(lines[0]) then
      Collected(lines[1..], Append(data, saw, TrimPrefix(Cut(lines[0]).1, " ")), true)
    else Collected(lines[1..], data, saw)
  }

  /** Decodes the first event of a stream that has data. */
  method SseData(stream: string) returns (out: Option<string>)
    ensures out == Collected(Lines(stream), "", false)
  {
    var text := TrimPrefix(stream, BOM);
    text := ReplaceAll(text, "\r\n", "\n");
    text := ReplaceAll(text, "\r", "\n");
    hide ReplaceAll, Split, Cut, HasPrefix;
    var lines := Split(text);
    var data, saw := "", false;
    var i := 0;
    while i < |lines|
      invariant 0 <= i <= |lines|
      invariant Collected(lines, "", false) == Collected(lines[i..], data, saw)
    {
      var line := lines[i];
      assert lines[i..][0] == line && lines[i..][1..] == lines[i + 1..];
      if line == "" {
        if saw {
          break;
        }
        i := i + 1;
        continue;
      }
      if HasPrefix(line, ":") {
        i := i + 1;
        continue;
      }
      var (field, value) := Cut(line);
      if field != "data" {
        i := i + 1;
        continue;
      }
      value := TrimPrefix(value, " ");
      if saw {
        data := data + "\n";
        data := data + value;
      } else {
        data := value;
      }
      saw := true;
      i := i + 1;
    }
    out := if saw then Some(data) else None;
  }

  lemma {:induction false} OnceSeenAlwaysGiven(lines: seq<string>, data: string)
    ensures Collected(lines, data, true).Some?
  {
    hide IsData, TrimPrefix, Cut;
    if lines != [] && lines[0] != "" {
      OnceSeenAlwaysGiven(lines[1..], if IsData(lines[0]) then Append(data, true, TrimPrefix(Cut(lines[0]).1, " ")) else data);
    }
  }

  /** A stream without an event has no data line at all, and the other way round. */
  lemma {:induction false} NothingExactlyWhenNoData(lines: seq<string>)
    ensures Collected(lines, "", false) == None <==> forall line | line in lines :: !IsData(line)
  {
    hide TrimPrefix, Cut;
    if lines != [] {
      assert lines == [lines[0]] + lines[1..];
      if IsData(lines[0]) {
        OnceSeenAlwaysGiven(lines[1..], TrimPrefix(Cut(lines[0]).1, " "));
      } else {
        NothingExactlyWhenNoData(lines[1..]);
      }
    }
  }

  // ---- Encoding -------------------------------------------------------------------------

  datatype Ending = LF | CR | CRLF

  function EndingText(e: Ending): string {
    match e
    case LF => "\n"
    case CR => "\r"
    case CRLF => "\r\n"
  }

  /** A line of an event: data, with or without the optional space, or something a reader skips. */
  datatype Line =
    | Data(value: string, spaced: bool)
    | Comment(text: string)
    | Field(name: string, value: string)
    | Blank

  function Printed(line: Line): string {
    match line
    case Data(value, spaced) => "data:" + (if spaced then " " else "") + value
    case Comment(text) => ":" + text
    case Field(name, value) => name + ":" + value
    case Blank => ""
  }

  function AllPrinted(lines: seq<Line>): seq<string> {
    seq(|lines|, i requires 0 <= i < |lines| => Printed(lines[i]))
  }

  predicate OneLine(text: string) {
    '\r' !in text && '\n' !in text
  }

  /** Nothing breaks a line, an unspaced value does not start with a space, and blank lines come before any data. */
  predicate WellFormed(lines: seq<Line>, saw: bool) {
    lines == [] ||
    (OneLine(Printed(lines[0]))
     && match lines[0]
        case Data(value, spaced) => (spaced || !HasPrefix(value, " ")) && WellFormed(lines[1..], true)
        case Comment(_) => WellFormed(lines[1..], saw)
        case Field(name, _) => name != "" && name != "data" && ':' !in name && WellFormed(lines[1..], saw)
        case Blank => !saw && WellFormed(lines[1..], saw))
  }

  function DataOf(lines: seq<Line>): seq<string> {
    if lines == [] then []
    else (if lines[0].Data? then [lines[0].value] else []) + DataOf(lines[1..])
  }

  function Print(lines: seq<string>, ending: string): string {
    if lines == [] then "" else lines[0] + ending + Print(lines[1..], ending)
  }

  /** An event: its lines and a closing blank one. */
  function Encode(lines: seq<Line>, ending: Ending): string {
    Print(AllPrinted(lines) + [""], EndingText(ending))
  }

  // ---- Line endings ---------------------------------------------------------------------

  /** Every ending as a line feed, in one pass. */
  function Normal(text: string): string {
    if text == "" then ""
    else if text[0] == '\r' then "\n" + Normal(if |text| > 1 && text[1] == '\n' then text[2..] else text[1..])
    else [text[0]] + Normal(text[1..])
  }

  lemma PrefixChars(text: string)
    ensures HasPrefix(text, "\n") <==> text != "" && text[0] == '\n'
    ensures HasPrefix(text, ":") <==> text != "" && text[0] == ':'
    ensures HasPrefix(text, "\r\n") <==> |text| > 1 && text[0] == '\r' && text[1] == '\n'
  {
    if text != "" {
      assert text[..1] == [text[0]];
    }
    if |text| > 1 {
      assert text[..2] == [text[0], text[1]];
    }
  }

  lemma {:induction false} TwoPassesAreOne(text: string)
    ensures ReplaceAll(ReplaceAll(text, "\r\n", "\n"), "\r", "\n") == Normal(text)
  {
    PrefixChars(text);
    if text != "" {
      var once := ReplaceAll(text, "\r\n", "\n");
      if HasPrefix(text, "\r\n") {
        TwoPassesAreOne(text[2..]);
        assert once[1..] == ReplaceAll(text[2..], "\r\n", "\n");
        assert text[0] == '\r' && text[1] == '\n';
      } else {
        TwoPassesAreOne(text[1..]);
        assert once[1..] == ReplaceAll(text[1..], "\r\n", "\n");
      }
    }
  }

  lemma {:induction false} NormalLine(line: string, rest: string)
    requires OneLine(line)
    ensures Normal(line + rest) == line + Normal(rest)
  {
    if line == "" {
      assert line + rest == rest;
    } else {
      assert (line + rest)[1..] == line[1..] + rest;
      NormalLine(line[1..], rest);
    }
  }

  /** What is left to read after a line's ending: a line feed right after a carriage return belongs to it. */
  function AfterEnding(ending: Ending, rest: string): string {
    if ending == CR && HasPrefix(rest, "\n") then rest[1..] else rest
  }

  lemma {:induction false} NormalEnding(ending: Ending, rest: string)
    ensures Normal(EndingText(ending) + rest) == "\n" + Normal(AfterEnding(ending, rest))
  {
    var text := EndingText(ending) + rest;
    match ending
    case LF =>
      assert text[1..] == rest;
    case CRLF =>
      assert text[2..] == rest;
    case CR =>
      assert text[1..] == rest && (rest != "" ==> text[1] == rest[0]);
      PrefixChars(rest);
      if HasPrefix(rest, "\n") {
        assert text[2..] == rest[1..];
      }
  }

  lemma {:induction false} NormalPrint(lines: seq<string>, ending: Ending, rest: string)
    requires lines != [] && forall i | 0 <= i < |lines| :: OneLine(lines[i])
    ensures Normal(Print(lines, EndingText(ending)) + rest) == Print(lines, "\n") + Normal(AfterEnding(ending, rest))
  {
    hide Normal, OneLine;
    var e := EndingText(ending);
    var more := Print(lines[1..], e) + rest;
    assert Print(lines, e) + rest == lines[0] + (e + more);
    NormalLine(lines[0], e + more);
    NormalEnding(ending, more);
    if |lines| == 1 {
      assert more == rest;
      assert Print(lines, "\n") + Normal(AfterEnding(ending, rest)) == lines[0] + ("\n" + Normal(AfterEnding(ending, rest)));
    } else {
      NoFeedFirst(lines[1..], ending, rest);
      NormalPrint(lines[1..], ending, rest);
      assert Print(lines, "\n") + Normal(AfterEnding(ending, rest))
          == lines[0] + ("\n" + (Print(lines[1..], "\n") + Normal(AfterEnding(ending, rest))));
    }
  }

  /** Under one style, a carriage return is never followed by the next line's line feed. */
  lemma {:induction false} NoFeedFirst(lines: seq<string>, ending: Ending, rest: string)
    requires lines != [] && OneLine(lines[0])
    ensures var text := Print(lines, EndingText(ending)) + rest; AfterEnding(ending, text) == text
  {
    var text := Print(lines, EndingText(ending)) + rest;
    if ending == CR {
      assert text[0] == if lines[0] == "" then '\r' else lines[0][0];
      PrefixChars(text);
    }
  }

  // ---- Splitting ------------------------------------------------------------------------

  lemma {:induction false} SplitLine(line: string, rest: string)
    requires OneLine(line)
    ensures Split(line + "\n" + rest) == [line] + Split(rest)
  {
    var text := line + "\n" + rest;
    if line == "" {
      assert text[1..] == rest;
    } else {
      assert text[1..] == line[1..] + "\n" + rest;
      SplitLine(line[1..], rest);
      assert Split(text[1..])[1..] == Split(rest);
      assert [line[0]] + line[1..] == line;
    }
  }

  lemma {:induction false} SplitPrint(lines: seq<string>, rest: string)
    requires forall i | 0 <= i < |lines| :: OneLine(lines[i])
    ensures Split(Print(lines, "\n") + rest) == lines + Split(rest)
  {
    hide Split, OneLine;
    if lines == [] {
      assert Print(lines, "\n") + rest == rest;
    } else {
      var more := Print(lines[1..], "\n") + rest;
      assert Print(lines, "\n") + rest == lines[0] + "\n" + more;
      SplitLine(lines[0], more);
      SplitPrint(lines[1..], rest);
    }
  }

  lemma {:induction false} JoinSplit(text: string)
    ensures Join(Split(text)) == text
  {
    if text != "" {
      var rest := Split(text[1..]);
      JoinSplit(text[1..]);
      assert text == [text[0]] + text[1..];
      if text[0] == '\n' {
        assert Split(text)[1..] == rest;
      } else {
        var lines := [[text[0]] + rest[0]] + rest[1..];
        assert lines[1..] == rest[1..];
        JoinFirst(text[0], rest);
      }
    }
  }

  lemma {:induction false} JoinFirst(c: char, lines: seq<string>)
    requires lines != []
    ensures Join([[c] + lines[0]] + lines[1..]) == [c] + Join(lines)
  {
    var more := [[c] + lines[0]] + lines[1..];
    assert more[0] == [c] + lines[0] && more[1..] == lines[1..] && |more| == |lines|;
  }

  // ---- The round trip -------------------------------------------------------------------

  lemma {:induction false} CutAt(name: string, value: string)
    requires ':' !in name
    ensures Cut(name + ":" + value) == (name, value)
  {
    var line := name + ":" + value;
    if name == "" {
      assert line[1..] == value;
    } else {
      assert line[1..] == name[1..] + ":" + value;
      CutAt(name[1..], value);
      assert [name[0]] + name[1..] == name;
    }
  }

  lemma DataLine(value: string, spaced: bool)
    requires spaced || !HasPrefix(value, " ")
    ensures var line := Printed(Data(value, spaced));
            line != "" && IsData(line) && TrimPrefix(Cut(line).1, " ") == value
  {
    hide Cut;
    var sent := (if spaced then " " else "") + value;
    var line := Printed(Data(value, spaced));
    assert line == "data" + ":" + sent;
    CutAt("data", sent);
    assert line[0] == 'd';
    PrefixChars(line);
    if spaced {
      assert sent[1..] == value;
    } else {
      assert sent == value;
    }
  }

  lemma SkippedLine(line: Line)
    requires line.Comment? || (line.Field? && line.name != "" && line.name != "data" && ':' !in line.name) || line.Blank?
    ensures !IsData(Printed(line)) && (Printed(line) == "" <==> line.Blank?)
  {
    hide Cut;
    if line.Field? {
      CutAt(line.name, line.value);
    } else if line.Comment? {
      assert Printed(line)[..1] == ":";
    }
  }

  /** All data of `lines`, added to what was collected before. */
  function Joined(lines: seq<string>, data: string, saw: bool): string {
    if lines == [] then data else Joined(lines[1..], Append(data, saw, lines[0]), true)
  }

  lemma {:induction false} CollectsEvent(lines: seq<Line>, more: seq<string>, data: string, saw: bool)
    requires WellFormed(lines, saw)
    ensures saw || DataOf(lines) != [] ==>
              Collected(AllPrinted(lines) + [""] + more, data, saw) == Some(Joined(DataOf(lines), data, saw))
  {
    hide Cut, IsData, TrimPrefix, OneLine, Printed;
    var all := AllPrinted(lines) + [""] + more;
    if lines == [] {
      assert all[0] == "";
    } else {
      var line := lines[0];
      assert all[0] == Printed(line) && all[1..] == AllPrinted(lines[1..]) + [""] + more;
      if line.Data? {
        DataLine(line.value, line.spaced);
        CollectsEvent(lines[1..], more, Append(data, saw, line.value), true);
        assert DataOf(lines)[1..] == DataOf(lines[1..]);
      } else {
        SkippedLine(line);
        CollectsEvent(lines[1..], more, data, saw);
        assert DataOf(lines) == DataOf(lines[1..]);
      }
    }
  }

  lemma {:induction false} JoinedIsJoin(lines: seq<string>, data: string)
    ensures Joined(lines, data, true) == Join([data] + lines)
  {
    if lines == [] {
      assert [data] + lines == [data];
    } else {
      JoinedIsJoin(lines[1..], data + "\n" + lines[0]);
      assert ([data] + lines)[1..] == lines;
      JoinPair(data, lines[0], lines[1..]);
      assert [lines[0]] + lines[1..] == lines;
    }
  }

  lemma {:induction false} JoinPair(a: string, b: string, rest: seq<string>)
    ensures Join([a + "\n" + b] + rest) == a + "\n" + Join([b] + rest)
  {
    var one, two := [a + "\n" + b] + rest, [b] + rest;
    assert one[1..] == rest && two[1..] == rest;
  }

  lemma {:induction false} LinesAreClean(lines: seq<Line>, saw: bool)
    requires WellFormed(lines, saw)
    ensures forall i | 0 <= i < |lines| :: OneLine(AllPrinted(lines)[i])
  {
    hide OneLine, Printed;
    if lines != [] {
      LinesAreClean(lines[1..], saw || lines[0].Data?);
      assert forall i | 0 < i < |lines| :: AllPrinted(lines)[i] == AllPrinted(lines[1..])[i - 1];
    }
  }

  /** An encoded event is read back line by line, whatever follows it. */
  lemma {:induction false} EncodedLines(lines: seq<Line>, ending: Ending, bom: bool, rest: string)
    requires WellFormed(lines, false) && (bom || !HasPrefix(Encode(lines, ending) + rest, BOM))
    ensures Lines((if bom then BOM else "") + Encode(lines, ending) + rest)
         == AllPrinted(lines) + [""] + Split(Normal(AfterEnding(ending, rest)))
  {
    hide OneLine, Normal, Split, ReplaceAll, WellFormed, Print;
    var body := Encode(lines, ending) + rest;
    var stream := (if bom then BOM else "") + Encode(lines, ending) + rest;
    assert TrimPrefix(stream, BOM) == body;
    TwoPassesAreOne(body);
    LinesAreClean(lines, false);
    var all := AllPrinted(lines) + [""];
    assert OneLine("") by {
      EmptyIsOneLine();
    }
    NormalPrint(all, ending, rest);
    SplitPrint(all, Normal(AfterEnding(ending, rest)));
  }

  lemma EmptyIsOneLine()
    ensures OneLine("")
  {}

  /**
   Decoding undoes encoding: text printed as data lines, with comments, other fields and leading
   blank lines among them, under any one style of line ending and with or without a byte order
   mark, comes back as it was, whatever follows the event.
   */
  lemma {:induction false} DecodesWhatWasEncoded(text: string, lines: seq<Line>, ending: Ending, bom: bool, rest: string)
    requires DataOf(lines) == Split(text) && WellFormed(lines, false)
    requires bom || !HasPrefix(Encode(lines, ending) + rest, BOM)
    ensures Collected(Lines((if bom then BOM else "") + Encode(lines, ending) + rest), "", false) == Some(text)
  {
    hide WellFormed, Encode, Lines, Collected, Split;
    EncodedLines(lines, ending, bom, rest);
    CollectsEvent(lines, Split(Normal(AfterEnding(ending, rest))), "", false);
    var values := DataOf(lines);
    JoinedIsJoin(values[1..], values[0]);
    assert [values[0]] + values[1..] == values;
    JoinSplit(text);
  }

  /** The plain encoding of a text: each of its lines as a data line. */
  function Plain(values: seq<string>): seq<Line> {
    if values == [] then [] else [Data(values[0], true)] + Plain(values[1..])
  }

  lemma DataIsOneLine(value: string)
    requires OneLine(value)
    ensures OneLine(Printed(Data(value, true)))
  {
    assert Printed(Data(value, true)) == "data: " + value;
  }

  lemma {:induction false} PlainCarries(values: seq<string>, saw: bool)
    requires forall v | v in values :: OneLine(v)
    ensures WellFormed(Plain(values), saw) && DataOf(Plain(values)) == values
  {
    if values != [] {
      PlainCarries(values[1..], true);
      DataIsOneLine(values[0]);
      assert Plain(values)[1..] == Plain(values[1..]);
      assert [values[0]] + values[1..] == values;
    }
  }

  lemma {:induction false} SplitIsClean(text: string)
    requires '\r' !in text
    ensures forall v | v in Split(text) :: OneLine(v)
  {
    if text != "" {
      assert '\r' !in text[1..];
      SplitIsClean(text[1..]);
      var rest := Split(text[1..]);
      assert OneLine(rest[0]);
      forall v | v in Split(text)
        ensures OneLine(v)
      {
        assert v == "" || v == [text[0]] + rest[0] || v in rest;
      }
    }
  }

  /** So every text without a carriage return survives being sent. */
  lemma {:induction false} EveryTextSurvives(text: string, ending: Ending, bom: bool, rest: string)
    requires '\r' !in text
    ensures var sent := (if bom then BOM else "") + Encode(Plain(Split(text)), ending) + rest;
            Collected(Lines(sent), "", false) == Some(text)
  {
    hide Lines, Collected, WellFormed, OneLine;
    SplitIsClean(text);
    PlainCarries(Split(text), false);
    var body := Encode(Plain(Split(text)), ending) + rest;
    StartsWithData(Split(text), ending, rest);
    DecodesWhatWasEncoded(text, Plain(Split(text)), ending, bom, rest);
  }

  lemma {:induction false} StartsWithData(values: seq<string>, ending: Ending, rest: string)
    requires values != []
    ensures !HasPrefix(Encode(Plain(values), ending) + rest, BOM)
  {
    var printed := AllPrinted(Plain(values)) + [""];
    assert Plain(values)[0] == Data(values[0], true);
    assert printed[0][0] == 'd';
    var text := Encode(Plain(values), ending) + rest;
    assert text[0] == 'd';
    assert text[..1][0] == 'd' && BOM[0] == '\U{FEFF}';
  }

  // ---- Events ---------------------------------------------------------------------------

  datatype Event = Event(kind: string, raw: string)

  /** Reads a protocol event, plain or enveloped; `json` gives the type of a JSON text. */
  method ParseEventText(text: string, json: string -> Option<string>) returns (event: Option<Event>)
    ensures event == Parsed(text, json)
  {
    if text == "" {
      return None;
    }
    var raw := text;
    if json(raw) == None {
      var data := SseData(raw);
      if data == None || json(data.value) == None {
        return None;
      }
      raw := data.value;
    }
    event := Some(Event(json(raw).value, raw));
  }

  /** The event that is the text itself or, when that is not JSON, its first event's data. */
  ghost function Parsed(text: string, json: string -> Option<string>): Option<Event> {
    if text == "" then None
    else if json(text).Some? then Some(Event(json(text).value, text))
    else
      var data := Collected(Lines(text), "", false);
      if data.Some? && json(data.value).Some? then Some(Event(json(data.value).value, data.value)) else None
  }

  /** Text that is JSON is the event; text that is neither JSON nor has a data line is none. */
  lemma {:induction false} BareEvent(text: string, json: string -> Option<string>)
    ensures text != "" && json(text).Some? ==> Parsed(text, json) == Some(Event(json(text).value, text))
    ensures text == "" || (json(text).None? && forall line | line in Lines(text) :: !IsData(line)) ==> Parsed(text, json) == None
  {
    hide Collected, Lines, IsData;
    NothingExactlyWhenNoData(Lines(text));
  }

  /** The plainest envelope of a value, character by character. */
  lemma {:induction false} PlainEnvelope(value: string)
    ensures Encode([Data(value, true)], LF) == "data: " + value + "\n\n"
  {
    var line := "data:" + " " + value;
    assert AllPrinted([Data(value, true)]) + [""] == [line, ""];
    assert [line, ""][1..] == [""] && [""][1..] == [];
    assert Print([""], "\n") == "" + "\n" + "";
    assert Print([line, ""], "\n") == line + "\n" + Print([""], "\n");
    assert "data:" + " " == "data: ";
  }

  /** An event sent as an envelope parses to the same event as when it is sent bare. */
  lemma {:induction false} EnvelopeParsesAlike(text: string, lines: seq<Line>, ending: Ending, bom: bool, rest: string, json: string -> Option<string>)
    requires DataOf(lines) == Split(text) && WellFormed(lines, false)
    requires bom || !HasPrefix(Encode(lines, ending) + rest, BOM)
    requires text != "" && json(text).Some?
    requires json((if bom then BOM else "") + Encode(lines, ending) + rest) == None
    ensures Parsed((if bom then BOM else "") + Encode(lines, ending) + rest, json) == Some(Event(json(text).value, text))
  {
    hide Collected, Lines, WellFormed, Encode, Split;
    DecodesWhatWasEncoded(text, lines, ending, bom, rest);
    NothingInNothing();
  }

  lemma NothingInNothing()
    ensures Collected(Lines(""), "", false) == None
  {}
}
