/** The record-cleaning script data/SortData.py, with its files replaced by
    sequences: the raw lines in, the rows of Sommet.csv and Aretes.csv out.

    The first loop turns `V;...` lines into stop rows and `E a b t` lines into
    edge rows; a second loop appends each stop row's per-name count; the last
    loop rewrites the edges, zeroing the time between two stops of the same
    name and adding the reverse of every edge that has none, except on three
    fixed one-way routes.  That loop's zero-time guard never fires as written
    (`ZeroGuardPasses`); the pass is modelled with the guard corrected, and
    `AsWrittenReversesZeroTimeEdge` exhibits the difference.  Python lists
    that hold both strings and integers are sequences of `Cell`. */
module SortData {
  import opened Wrappers

  /** A list element of the script: a string, or the integer it appends. */
  datatype Cell = Text(s: string) | Num(n: int)

  /** A row of `arete_data` / Aretes.csv: `[sommet1, sommet2, time]`. */
  datatype EdgeRow = EdgeRow(s1: string, s2: string, time: Cell)

  // ---------------------------------------------------------------------------
  // The string operations the script relies on

  /** Python's `str.isspace` for one character. */
  predicate IsSpace(c: char)
  {
    || ('\U{9}' <= c <= '\U{D}') || ('\U{1C}' <= c <= '\U{20}') || c == '\U{85}' || c == '\U{A0}'
    || c == '\U{1680}' || ('\U{2000}' <= c <= '\U{200A}') || c == '\U{2028}' || c == '\U{2029}'
    || c == '\U{202F}' || c == '\U{205F}' || c == '\U{3000}'
  }

  function StripStart(s: string): string
  {
    if s != [] && IsSpace(s[0]) then StripStart(s[1..]) else s
  }

  function StripEnd(s: string): string
  {
    if s != [] && IsSpace(s[|s| - 1]) then StripEnd(s[..|s| - 1]) else s
  }

  /** `str.strip()`. */
  function Strip(s: string): string
  {
    StripEnd(StripStart(s))
  }

  /** `StripStart` drops exactly the leading whitespace: the first `i`
      characters. */
  lemma {:induction false} StripStartSpec(s: string) returns (i: nat)
    ensures i <= |s| && StripStart(s) == s[i..]
    ensures forall k :: 0 <= k < i ==> IsSpace(s[k])
    ensures i == |s| || !IsSpace(s[i])
    decreases |s|
  {
    if s != [] && IsSpace(s[0]) {
      var t := s[1..];
      var j := StripStartSpec(t);
      i := j + 1;
      assert t[j..] == s[i..];
      forall k | 0 <= k < i ensures IsSpace(s[k]) {
        if k > 0 {
          assert s[k] == t[k - 1];
        }
      }
    } else {
      i := 0;
    }
  }

  /** `StripEnd` drops exactly the trailing whitespace: everything from `j`. */
  lemma {:induction false} StripEndSpec(s: string) returns (j: nat)
    ensures j <= |s| && StripEnd(s) == s[..j]
    ensures forall k :: j <= k < |s| ==> IsSpace(s[k])
    ensures j == 0 || !IsSpace(s[j - 1])
    decreases |s|
  {
    if s != [] && IsSpace(s[|s| - 1]) {
      var t := s[..|s| - 1];
      j := StripEndSpec(t);
      assert t[..j] == s[..j];
      forall k | j <= k < |s| ensures IsSpace(s[k]) {
        if k < |s| - 1 {
          assert s[k] == t[k];
        }
      }
    } else {
      j := |s|;
    }
  }

  /** Stripping removes exactly the leading and the trailing whitespace. */
  lemma StripSpec(s: string)
    ensures exists i, j :: 0 <= i <= j <= |s| && Strip(s) == s[i..j]
                           && (forall k :: 0 <= k < i ==> IsSpace(s[k]))
                           && (forall k :: j <= k < |s| ==> IsSpace(s[k]))
    ensures Strip(s) == [] || (!IsSpace(Strip(s)[0]) && !IsSpace(Strip(s)[|Strip(s)| - 1]))
  {
    var i := StripStartSpec(s);
    var a := StripStart(s);
    var j := StripEndSpec(a);
    assert Strip(s) == s[i..i + j];
    forall k | i + j <= k < |s| ensures IsSpace(s[k]) {
      assert s[k] == a[k - i];
    }
    if j > 0 {
      assert Strip(s)[0] == s[i] && Strip(s)[j - 1] == a[j - 1];
    }
  }

  /** Stripping twice strips nothing more. */
  lemma StripIdempotent(s: string)
    ensures Strip(Strip(s)) == Strip(s)
  {
    var r := Strip(s);
    StripSpec(s);
    assert StripStart(r) == r;
    assert StripEnd(r) == r;
  }

  /** `s.split(c)` with an explicit one-character separator: never empty, and
      an empty string splits into one empty field. */
  function Split(s: string, c: char): (r: seq<string>)
    ensures |r| >= 1
  {
    if s == [] then [""]
    else if s[0] == c then [""] + Split(s[1..], c)
    else
      var rest := Split(s[1..], c);
      [[s[0]] + rest[0]] + rest[1..]
  }

  /** No field holds the separator. */
  lemma {:induction false} SplitFieldsFree(s: string, c: char)
    ensures forall i :: 0 <= i < |Split(s, c)| ==> c !in Split(s, c)[i]
  {
    if s != [] {
      SplitFieldsFree(s[1..], c);
    }
  }

  /** `c.join(parts)`. */
  function Join(parts: seq<string>, c: char): string
    requires |parts| >= 1
  {
    if |parts| == 1 then parts[0] else parts[0] + [c] + Join(parts[1..], c)
  }

  /** Joining the fields with the separator gives the line back. */
  lemma {:induction false} JoinSplit(s: string, c: char)
    ensures Join(Split(s, c), c) == s
  {
    if s != [] {
      JoinSplit(s[1..], c);
      var rest := Split(s[1..], c);
      if s[0] != c {
        if |rest| == 1 {
          assert Join(Split(s, c), c) == [s[0]] + rest[0];
        } else {
          assert Join(Split(s, c), c) == [s[0]] + rest[0] + [c] + Join(rest[1..], c);
        }
      }
    }
  }

  /** Splitting a join of separator-free fields gives the fields back. */
  lemma {:induction false} SplitJoin(parts: seq<string>, c: char)
    requires |parts| >= 1 && forall i :: 0 <= i < |parts| ==> c !in parts[i]
    ensures Split(Join(parts, c), c) == parts
    decreases |parts|, |parts[0]|
  {
    if parts[0] == [] {
      if |parts| > 1 {
        SplitJoin(parts[1..], c);
        assert Join(parts, c) == [c] + Join(parts[1..], c);
      }
    } else {
      var tail := [parts[0][1..]] + parts[1..];
      SplitJoin(tail, c);
      assert Join(parts, c) == [parts[0][0]] + Join(tail, c) by {
        if |parts| > 1 {
          assert parts[0] == [parts[0][0]] + parts[0][1..];
        }
      }
      assert Join(parts, c)[1..] == Join(tail, c);
      assert parts[0] == [parts[0][0]] + parts[0][1..];
      assert parts == [parts[0]] + parts[1..];
    }
  }

  function Zeros(n: nat): (r: string)
    ensures |r| == n && forall k :: 0 <= k < n ==> r[k] == '0'
  {
    if n == 0 then "" else "0" + Zeros(n - 1)
  }

  /** `s.zfill(width)`: left-padded with '0' up to `width`, the padding going
      after a leading sign. */
  function ZFill(s: string, width: nat): string
  {
    if |s| >= width then s
    else if s != [] && (s[0] == '+' || s[0] == '-') then [s[0]] + Zeros(width - |s|) + s[1..]
    else Zeros(width - |s|) + s
  }

  predicate IsDigits(s: string)
  {
    forall k :: 0 <= k < |s| ==> '0' <= s[k] <= '9'
  }

  /** The number a digit string spells. */
  function DigitsValue(s: string): nat
    requires IsDigits(s)
  {
    if s == [] then 0 else DigitsValue(s[..|s| - 1]) * 10 + (s[|s| - 1] as int - '0' as int)
  }

  lemma {:induction false} LeadingZeroKeepsValue(s: string)
    requires IsDigits(s)
    ensures IsDigits("0" + s) && DigitsValue("0" + s) == DigitsValue(s)
    decreases |s|
  {
    if s != [] {
      LeadingZeroKeepsValue(s[..|s| - 1]);
      assert ("0" + s)[..|s|] == "0" + s[..|s| - 1];
    }
  }

  lemma {:induction false} ZerosKeepValue(n: nat, s: string)
    requires IsDigits(s)
    ensures IsDigits(Zeros(n) + s) && DigitsValue(Zeros(n) + s) == DigitsValue(s)
  {
    if n > 0 {
      var t := Zeros(n - 1) + s;
      ZerosKeepValue(n - 1, s);
      LeadingZeroKeepsValue(t);
      assert Zeros(n) == "0" + Zeros(n - 1);
      assert Zeros(n) + s == "0" + t;
    } else {
      assert Zeros(n) + s == s;
    }
  }

  /** Padding an id reaches the width and keeps the number it spells. */
  lemma ZFillKeepsValue(s: string, width: nat)
    requires IsDigits(s)
    ensures |ZFill(s, width)| == if |s| >= width then |s| else width
    ensures IsDigits(ZFill(s, width)) && DigitsValue(ZFill(s, width)) == DigitsValue(s)
    ensures ZFill(s, width)[|ZFill(s, width)| - |s|..] == s
  {
    if |s| < width {
      if s != [] {
        assert '0' <= s[0] <= '9';
      }
      ZerosKeepValue(width - |s|, s);
    }
  }

  /** Padding twice pads nothing more. */
  lemma ZFillIdempotent(s: string, width: nat)
    ensures ZFill(ZFill(s, width), width) == ZFill(s, width)
  {
  }

  // ---------------------------------------------------------------------------
  // The first loop (data/SortData.py:18-61)

  /** `color_dict` (data/SortData.py:29-46). */
  const ColorDict: map<string, string> := map[
    "1" := "fecd08", "2" := "006db8", "3" := "999738", "3bis" := "86d3de",
    "4" := "ba499b", "5" := "f68f4a", "6" := "75c695", "7" := "f27aa0",
    "7bis" := "75c695", "8" := "c4a2cb", "9" := "cdc92a", "10" := "f68f4a",
    "11" := "8d6538", "12" := "008b59", "13" := "84d2dd", "14" := "652d91"]

  /** `parts[3] in ["0", "0.0", 0, 0.0]`: a string never equals the two numbers. */
  predicate IsZeroTime(t: string)
  {
    t == "0" || t == "0.0"
  }

  /** `nom_counter[name]`: a `Counter` reads 0 for an absent key. */
  function CountOf(counter: map<string, nat>, name: string): nat
  {
    if name in counter then counter[name] else 0
  }

  /** `sommet_data`, `arete_data` and `nom_counter` as the loop builds them. */
  datatype Parsed = Parsed(stops: seq<seq<Cell>>, edges: seq<EdgeRow>, counter: map<string, nat>)

  predicate IsStopLine(line: string)
  {
    "V" <= Strip(line)
  }

  predicate IsEdgeLine(line: string)
  {
    !IsStopLine(line) && "E" <= Strip(line)
  }

  /** The stop row of a `V` line's fields: fields 1 to 4, then the colour of
      the line when `color_dict` knows it (data/SortData.py:23, 47-48). */
  function StopRow(parts: seq<string>): seq<Cell>
    requires |parts| >= 5
  {
    [Text(parts[1]), Text(parts[2]), Text(parts[3]), Text(parts[4])]
    + (if parts[3] in ColorDict then [Text(ColorDict[parts[3]])] else [])
  }

  /** The fields of a `V` line: a new stop row and one more for its name in
      `nom_counter` (data/SortData.py:22-48). */
  function ParseStopFields(p: Parsed, parts: seq<string>): Option<Parsed>
  {
    if |parts| < 5 then None
    else Some(Parsed(p.stops + [StopRow(parts)], p.edges, p.counter[parts[2] := CountOf(p.counter, parts[2]) + 1]))
  }

  /** The fields of an `E` line: an edge with padded ids, unless its time is a
      zero text (data/SortData.py:51-61). */
  function ParseEdgeFields(p: Parsed, parts: seq<string>): Option<Parsed>
  {
    if |parts| < 4 then None
    else if IsZeroTime(parts[3]) then Some(p)
    else Some(Parsed(p.stops, p.edges + [EdgeRow(ZFill(parts[1], 4), ZFill(parts[2], 4), Text(parts[3]))], p.counter))
  }

  /** One iteration of the loop.  `None` is the `IndexError` of a line with too
      few fields, which ends the script. */
  function ParseLine(p: Parsed, raw: string): Option<Parsed>
  {
    var line := Strip(raw);
    if "V" <= line then ParseStopFields(p, Split(line, ';'))
    else if "E" <= line then ParseEdgeFields(p, Split(line, ' '))
    else Some(p)
  }

  function Parse(lines: seq<string>): Option<Parsed>
    decreases |lines|
  {
    if lines == [] then Some(Parsed([], [], map[]))
    else match Parse(lines[..|lines| - 1])
      case None => None
      case Some(p) => ParseLine(p, lines[|lines| - 1])
  }

  /** The loop of data/SortData.py:18-61 over the lines of RawData.txt. */
  method ParseRaw(rawData: seq<string>) returns (r: Option<Parsed>)
    ensures r == Parse(rawData)
  {
    var sommetData: seq<seq<Cell>> := [];
    var areteData: seq<EdgeRow> := [];
    var nomCounter: map<string, nat> := map[];
    var i := 0;
    while i < |rawData|
      invariant 0 <= i <= |rawData|
      invariant Parse(rawData[..i]) == Some(Parsed(sommetData, areteData, nomCounter))
    {
      assert rawData[..i + 1][..i] == rawData[..i];
      ghost var before := Parsed(sommetData, areteData, nomCounter);
      assert Parse(rawData[..i + 1]) == ParseLine(before, rawData[i]);
      var line := Strip(rawData[i]);
      if "V" <= line {
        var parts := Split(line, ';');
        if |parts| < 5 {
          ParseLineStep(before, rawData[i]);
          ParseSucceedsIff(rawData);
          return None;
        }
        var row := [Text(parts[1]), Text(parts[2]), Text(parts[3]), Text(parts[4])];
        sommetData := sommetData + [row];
        nomCounter := nomCounter[parts[2] := CountOf(nomCounter, parts[2]) + 1];
        if parts[3] in ColorDict {
          sommetData := sommetData[|sommetData| - 1 := sommetData[|sommetData| - 1] + [Text(ColorDict[parts[3]])]];
          assert sommetData[|sommetData| - 1] == row + [Text(ColorDict[parts[3]])] == StopRow(parts);
        } else {
          assert row == StopRow(parts);
        }
        assert sommetData == before.stops + [StopRow(parts)];
      } else if "E" <= line {
        var parts := Split(line, ' ');
        if |parts| < 4 {
          ParseLineStep(before, rawData[i]);
          ParseSucceedsIff(rawData);
          return None;
        }
        var sommet1 := ZFill(parts[1], 4);
        var sommet2 := ZFill(parts[2], 4);
        if !IsZeroTime(parts[3]) {
          areteData := areteData + [EdgeRow(sommet1, sommet2, Text(parts[3]))];
        }
      }
      i := i + 1;
    }
    assert rawData[..i] == rawData;
    r := Some(Parsed(sommetData, areteData, nomCounter));
  }

  // ---------------------------------------------------------------------------
  // What the first loop promises

  /** Every line is long enough for its kind. */
  predicate WellFormedLine(line: string)
  {
    && (IsStopLine(line) ==> |Split(Strip(line), ';')| >= 5)
    && (IsEdgeLine(line) ==> |Split(Strip(line), ' ')| >= 4)
  }

  /** How many stop rows carry the name `name` in their second field. */
  function RowsNamed(rows: seq<seq<Cell>>, name: string): nat
    decreases |rows|
  {
    if rows == [] then 0
    else RowsNamed(rows[..|rows| - 1], name) + (if |rows[|rows| - 1]| > 1 && rows[|rows| - 1][1] == Text(name) then 1 else 0)
  }

  function CountStopLines(lines: seq<string>): nat
    decreases |lines|
  {
    if lines == [] then 0
    else CountStopLines(lines[..|lines| - 1]) + (if IsStopLine(lines[|lines| - 1]) then 1 else 0)
  }

  /** Edge lines whose time is not a zero text. */
  function CountKeptEdgeLines(lines: seq<string>): nat
    decreases |lines|
  {
    if lines == [] then 0
    else
      CountKeptEdgeLines(lines[..|lines| - 1]) + (if KeptEdgeLine(lines[|lines| - 1]) then 1 else 0)
  }

  /** A stop row as the first loop builds it: four text fields and the colour
      exactly when the line has one. */
  predicate StopRowShape(row: seq<Cell>)
  {
    && (|row| == 4 || |row| == 5)
    && (forall k :: 0 <= k < |row| ==> row[k].Text?)
    && (|row| == 5 <==> row[2].s in ColorDict)
    && (|row| == 5 ==> row[4].s == ColorDict[row[2].s])
  }

  /** An edge row as the first loop builds it: ids padded to at least four
      characters, and a time that is not a zero text. */
  predicate EdgeRowShape(e: EdgeRow)
  {
    |e.s1| >= 4 && |e.s2| >= 4 && e.time.Text? && !IsZeroTime(e.time.s)
  }

  /** Whether an edge line gives an edge: its time is not a zero text. */
  predicate KeptEdgeLine(l: string)
  {
    IsEdgeLine(l) && |Split(Strip(l), ' ')| >= 4 && !IsZeroTime(Split(Strip(l), ' ')[3])
  }

  /** The edge row of an `E` line: both ids padded to four characters, and
      the time as text (data/SortData.py:51-57). */
  function EdgeRowOf(l: string): EdgeRow
    requires |Split(Strip(l), ' ')| >= 4
  {
    var f := Split(Strip(l), ' ');
    EdgeRow(ZFill(f[1], 4), ZFill(f[2], 4), Text(f[3]))
  }

  /** The `V` lines, in order. */
  function StopLines(lines: seq<string>): seq<string>
    decreases |lines|
  {
    if lines == [] then []
    else StopLines(lines[..|lines| - 1]) + (if IsStopLine(lines[|lines| - 1]) then [lines[|lines| - 1]] else [])
  }

  /** The `E` lines whose time is not a zero text, in order. */
  function KeptEdgeLines(lines: seq<string>): seq<string>
    decreases |lines|
  {
    if lines == [] then []
    else KeptEdgeLines(lines[..|lines| - 1]) + (if KeptEdgeLine(lines[|lines| - 1]) then [lines[|lines| - 1]] else [])
  }

  /** The number of `V` lines whose name field is `name`. */
  function StopLinesNamed(lines: seq<string>, name: string): nat
    decreases |lines|
  {
    if lines == [] then 0
    else
      var l := lines[|lines| - 1];
      StopLinesNamed(lines[..|lines| - 1], name)
      + (if IsStopLine(l) && |Split(Strip(l), ';')| > 2 && Split(Strip(l), ';')[2] == name then 1 else 0)
  }

  /** One line fails the parse exactly when it is short; otherwise it adds a
      stop row of the expected shape for a `V` line, an edge of the expected
      shape for a kept `E` line, and nothing else. */
  lemma ParseLineStep(p: Parsed, l: string)
    ensures ParseLine(p, l).Some? <==> WellFormedLine(l)
    ensures ParseLine(p, l).Some? ==>
      var q := ParseLine(p, l).value;
      && |q.stops| == |p.stops| + (if IsStopLine(l) then 1 else 0)
      && q.stops[..|p.stops|] == p.stops
      && (IsStopLine(l) ==> StopRowShape(q.stops[|p.stops|]))
      && |q.edges| == |p.edges| + (if KeptEdgeLine(l) then 1 else 0)
      && q.edges[..|p.edges|] == p.edges
      && (KeptEdgeLine(l) ==> EdgeRowShape(q.edges[|p.edges|]))
      && (IsStopLine(l) ==> q.stops[|p.stops|] == StopRow(Split(Strip(l), ';')))
      && (KeptEdgeLine(l) ==> q.edges[|p.edges|] == EdgeRowOf(l))
  {
    var line := Strip(l);
    if "V" <= line {
      StopFieldsStep(p, Split(line, ';'));
    } else if "E" <= line {
      EdgeFieldsStep(p, Split(line, ' '));
    }
  }

  lemma StopFieldsStep(p: Parsed, parts: seq<string>)
    ensures ParseStopFields(p, parts).Some? <==> |parts| >= 5
    ensures ParseStopFields(p, parts).Some? ==>
      var q := ParseStopFields(p, parts).value;
      && |q.stops| == |p.stops| + 1 && q.stops[..|p.stops|] == p.stops && StopRowShape(q.stops[|p.stops|])
      && q.stops[|p.stops|] == StopRow(parts)
      && q.edges == p.edges
  {
    if |parts| >= 5 {
      var q := ParseStopFields(p, parts).value;
      assert q.stops[..|p.stops|] == p.stops;
    }
  }

  lemma EdgeFieldsStep(p: Parsed, parts: seq<string>)
    ensures ParseEdgeFields(p, parts).Some? <==> |parts| >= 4
    ensures ParseEdgeFields(p, parts).Some? ==>
      var q := ParseEdgeFields(p, parts).value;
      && q.stops == p.stops && q.counter == p.counter
      && |q.edges| == |p.edges| + (if IsZeroTime(parts[3]) then 0 else 1) && q.edges[..|p.edges|] == p.edges
      && (!IsZeroTime(parts[3]) ==> EdgeRowShape(q.edges[|p.edges|]))
      && (!IsZeroTime(parts[3]) ==> q.edges[|p.edges|] == EdgeRow(ZFill(parts[1], 4), ZFill(parts[2], 4), Text(parts[3])))
  {
    if |parts| >= 4 {
      var q := ParseEdgeFields(p, parts).value;
      assert q.edges[..|p.edges|] == p.edges;
      ZFillLength(parts[1], 4);
      ZFillLength(parts[2], 4);
    }
  }

  /** The parse fails exactly when some line is short. */
  lemma {:induction false} ParseSucceedsIff(lines: seq<string>)
    ensures Parse(lines).Some? <==> forall i :: 0 <= i < |lines| ==> WellFormedLine(lines[i])
    decreases |lines|
  {
    if lines != [] {
      var n := |lines|;
      var pre := lines[..n - 1];
      ParseSucceedsIff(pre);
      AllWellFormedSplit(lines, pre);
      if Parse(pre).Some? {
        ParseLineSucceedsIff(Parse(pre).value, lines[n - 1]);
      }
    }
  }

  lemma AllWellFormedSplit(lines: seq<string>, pre: seq<string>)
    requires lines != [] && pre == lines[..|lines| - 1]
    ensures (forall i :: 0 <= i < |lines| ==> WellFormedLine(lines[i]))
      <==> (forall i :: 0 <= i < |pre| ==> WellFormedLine(pre[i])) && WellFormedLine(lines[|lines| - 1])
  {
    assert forall i :: 0 <= i < |pre| ==> pre[i] == lines[i];
  }

  lemma ParseLineSucceedsIff(p: Parsed, l: string)
    ensures ParseLine(p, l).Some? <==> WellFormedLine(l)
  {
    ParseLineStep(p, l);
  }

  /** One stop row per `V` line and one edge per kept `E` line (other lines
      are ignored), each of the expected shape. */
  lemma {:induction false} ParseRowShapes(lines: seq<string>)
    requires Parse(lines).Some?
    ensures var p := Parse(lines).value;
      && |p.stops| == CountStopLines(lines)
      && |p.edges| == CountKeptEdgeLines(lines)
      && (forall k :: 0 <= k < |p.stops| ==> StopRowShape(p.stops[k]))
      && (forall k :: 0 <= k < |p.edges| ==> EdgeRowShape(p.edges[k]))
    decreases |lines|
  {
    if lines != [] {
      var n := |lines|;
      var pre := lines[..n - 1];
      ParseRowShapes(pre);
      var p0 := Parse(pre).value;
      var p := Parse(lines).value;
      ParseLineStep(p0, lines[n - 1]);
      assert forall k :: 0 <= k < |p0.stops| ==> p.stops[k] == p0.stops[k];
      assert forall k :: 0 <= k < |p0.edges| ==> p.edges[k] == p0.edges[k];
    }
  }

  /** One line keeps `nom_counter` equal to the per-name tally of stop rows. */
  lemma ParseLineCounter(p: Parsed, l: string)
    requires forall name :: CountOf(p.counter, name) == RowsNamed(p.stops, name)
    requires ParseLine(p, l).Some?
    ensures var q := ParseLine(p, l).value;
      forall name :: CountOf(q.counter, name) == RowsNamed(q.stops, name)
  {
    var line := Strip(l);
    if "V" <= line {
      StopFieldsCounter(p, Split(line, ';'));
    } else if "E" <= line {
      EdgeFieldsStep(p, Split(line, ' '));
    }
  }

  lemma StopFieldsCounter(p: Parsed, parts: seq<string>)
    requires forall name :: CountOf(p.counter, name) == RowsNamed(p.stops, name)
    requires ParseStopFields(p, parts).Some?
    ensures var q := ParseStopFields(p, parts).value;
      forall name :: CountOf(q.counter, name) == RowsNamed(q.stops, name)
  {
    var q := ParseStopFields(p, parts).value;
    var row := StopRow(parts);
    assert q.stops[..|q.stops| - 1] == p.stops;
    assert row[1] == Text(parts[2]);
    forall name ensures CountOf(q.counter, name) == RowsNamed(q.stops, name) {
      assert RowsNamed(q.stops, name) == RowsNamed(p.stops, name) + (if name == parts[2] then 1 else 0);
    }
  }


  /** `nom_counter` holds, for each name, the number of stop rows with it. */
  lemma {:induction false} ParseCounter(lines: seq<string>)
    requires Parse(lines).Some?
    ensures var p := Parse(lines).value;
      forall name :: CountOf(p.counter, name) == RowsNamed(p.stops, name)
    decreases |lines|
  {
    if lines != [] {
      var n := |lines|;
      var pre := lines[..n - 1];
      ParseCounter(pre);
      ParseLineCounter(Parse(pre).value, lines[n - 1]);
    }
  }

  /** Stop row k is built from the fields of the k-th `V` line, and edge k
      from the fields of the k-th kept `E` line. */
  lemma {:induction false} ParseRows(lines: seq<string>)
    requires Parse(lines).Some?
    ensures var p := Parse(lines).value;
      && |p.stops| == |StopLines(lines)| && |p.edges| == |KeptEdgeLines(lines)|
      && (forall k :: 0 <= k < |p.stops| ==>
            |Split(Strip(StopLines(lines)[k]), ';')| >= 5 && p.stops[k] == StopRow(Split(Strip(StopLines(lines)[k]), ';')))
      && (forall k :: 0 <= k < |p.edges| ==>
            |Split(Strip(KeptEdgeLines(lines)[k]), ' ')| >= 4 && p.edges[k] == EdgeRowOf(KeptEdgeLines(lines)[k]))
    decreases |lines|
  {
    if lines != [] {
      var n := |lines|;
      var pre := lines[..n - 1];
      ParseRows(pre);
      var p0 := Parse(pre).value;
      var p := Parse(lines).value;
      ParseLineStep(p0, lines[n - 1]);
      ParseRowsStep(p0, p, StopLines(pre), StopLines(lines), KeptEdgeLines(pre), KeptEdgeLines(lines), lines[n - 1]);
    }
  }

  lemma ParseRowsStep(p0: Parsed, p: Parsed, sl0: seq<string>, sl: seq<string>, el0: seq<string>, el: seq<string>, l: string)
    requires |p0.stops| == |sl0| && |p0.edges| == |el0|
    requires forall k :: 0 <= k < |p0.stops| ==>
      |Split(Strip(sl0[k]), ';')| >= 5 && p0.stops[k] == StopRow(Split(Strip(sl0[k]), ';'))
    requires forall k :: 0 <= k < |p0.edges| ==>
      |Split(Strip(el0[k]), ' ')| >= 4 && p0.edges[k] == EdgeRowOf(el0[k])
    requires sl == sl0 + (if IsStopLine(l) then [l] else [])
    requires el == el0 + (if KeptEdgeLine(l) then [l] else [])
    requires WellFormedLine(l)
    requires |p.stops| == |p0.stops| + (if IsStopLine(l) then 1 else 0) && p.stops[..|p0.stops|] == p0.stops
    requires IsStopLine(l) ==> p.stops[|p0.stops|] == StopRow(Split(Strip(l), ';'))
    requires |p.edges| == |p0.edges| + (if KeptEdgeLine(l) then 1 else 0) && p.edges[..|p0.edges|] == p0.edges
    requires KeptEdgeLine(l) ==> p.edges[|p0.edges|] == EdgeRowOf(l)
    ensures |p.stops| == |sl| && |p.edges| == |el|
    ensures forall k :: 0 <= k < |p.stops| ==>
      |Split(Strip(sl[k]), ';')| >= 5 && p.stops[k] == StopRow(Split(Strip(sl[k]), ';'))
    ensures forall k :: 0 <= k < |p.edges| ==>
      |Split(Strip(el[k]), ' ')| >= 4 && p.edges[k] == EdgeRowOf(el[k])
  {
    forall k | 0 <= k < |p.stops|
      ensures |Split(Strip(sl[k]), ';')| >= 5 && p.stops[k] == StopRow(Split(Strip(sl[k]), ';'))
    {
      if k < |p0.stops| {
        assert sl[k] == sl0[k] && p.stops[k] == p.stops[..|p0.stops|][k];
      }
    }
    forall k | 0 <= k < |p.edges|
      ensures |Split(Strip(el[k]), ' ')| >= 4 && p.edges[k] == EdgeRowOf(el[k])
    {
      if k < |p0.edges| {
        assert el[k] == el0[k] && p.edges[k] == p.edges[..|p0.edges|][k];
      }
    }
  }

  /** The number of stop rows with a name is the number of `V` lines with it. */
  lemma {:induction false} ParseNamesTally(lines: seq<string>)
    requires Parse(lines).Some?
    ensures var p := Parse(lines).value;
      forall name :: RowsNamed(p.stops, name) == StopLinesNamed(lines, name)
    decreases |lines|
  {
    if lines != [] {
      var n := |lines|;
      var pre := lines[..n - 1];
      ParseNamesTally(pre);
      var p0 := Parse(pre).value;
      var p := Parse(lines).value;
      ParseLineStep(p0, lines[n - 1]);
      forall name ensures RowsNamed(p.stops, name) == StopLinesNamed(lines, name) {
        if IsStopLine(lines[n - 1]) {
          assert p.stops[..|p.stops| - 1] == p0.stops;
        } else {
          assert p.stops == p0.stops;
        }
      }
    }
  }

  /** The parse fails exactly on a short line; otherwise it gives one stop row
      per `V` line, built from that line's fields, and one edge per `E` line
      with a non-zero time, built from that line's padded ids and time; rows
      of the expected shape; and a counter holding, for each name, the number
      of stop rows, and so of `V` lines, with that name. */
  lemma ParseSpec(lines: seq<string>)
    ensures Parse(lines).Some? <==> forall i :: 0 <= i < |lines| ==> WellFormedLine(lines[i])
    ensures Parse(lines).Some? ==>
      var p := Parse(lines).value;
      && |p.stops| == CountStopLines(lines)
      && |p.edges| == CountKeptEdgeLines(lines)
      && (forall k :: 0 <= k < |p.stops| ==> StopRowShape(p.stops[k]))
      && (forall k :: 0 <= k < |p.edges| ==> EdgeRowShape(p.edges[k]))
      && (forall name :: CountOf(p.counter, name) == RowsNamed(p.stops, name))
      && (forall name :: RowsNamed(p.stops, name) == StopLinesNamed(lines, name))
      && |p.stops| == |StopLines(lines)| && |p.edges| == |KeptEdgeLines(lines)|
      && (forall k :: 0 <= k < |p.stops| ==>
            |Split(Strip(StopLines(lines)[k]), ';')| >= 5 && p.stops[k] == StopRow(Split(Strip(StopLines(lines)[k]), ';')))
      && (forall k :: 0 <= k < |p.edges| ==>
            |Split(Strip(KeptEdgeLines(lines)[k]), ' ')| >= 4 && p.edges[k] == EdgeRowOf(KeptEdgeLines(lines)[k]))
  {
    ParseSucceedsIff(lines);
    if Parse(lines).Some? {
      ParseRowShapes(lines);
      ParseCounter(lines);
      ParseNamesTally(lines);
      ParseRows(lines);
    }
  }

  lemma ZFillLength(s: string, width: nat)
    ensures |ZFill(s, width)| >= width && |ZFill(s, width)| >= |s|
  {
  }

  // ---------------------------------------------------------------------------
  // The count append (data/SortData.py:63-66)

  /** What `sommet.append(nom_counter[nom])` makes of each row; a `Counter`
      looked up with anything but a string reads 0. */
  function CountFor(counter: map<string, nat>, name: Cell): nat
  {
    match name
    case Text(s) => CountOf(counter, s)
    case Num(_) => 0
  }

  function WithCounts(rows: seq<seq<Cell>>, counter: map<string, nat>): (r: seq<seq<Cell>>)
    requires forall i :: 0 <= i < |rows| ==> |rows[i]| >= 2
    ensures |r| == |rows|
  {
    seq(|rows|, i requires 0 <= i < |rows| => rows[i] + [Num(CountFor(counter, rows[i][1]))])
  }

  /** The loop at data/SortData.py:64-66, extending each row in place. */
  method AppendCounts(sommetData: seq<seq<Cell>>, nomCounter: map<string, nat>) returns (rows: seq<seq<Cell>>)
    requires forall i :: 0 <= i < |sommetData| ==> |sommetData[i]| >= 2
    ensures rows == WithCounts(sommetData, nomCounter)
  {
    rows := sommetData;
    var i := 0;
    while i < |rows|
      invariant 0 <= i <= |rows| == |sommetData|
      invariant forall k :: 0 <= k < i ==> rows[k] == sommetData[k] + [Num(CountFor(nomCounter, sommetData[k][1]))]
      invariant forall k :: i <= k < |rows| ==> rows[k] == sommetData[k]
    {
      var nom := rows[i][1];
      rows := rows[i := rows[i] + [Num(CountFor(nomCounter, nom))]];
      i := i + 1;
    }
  }

  /** After the append, every stop row ends with the number of stop rows that
      share its name, that is, the number of `V` lines for that name. */
  lemma CountsTallyNames(lines: seq<string>)
    requires Parse(lines).Some?
    ensures var p := Parse(lines).value;
      && (forall i :: 0 <= i < |p.stops| ==> |p.stops[i]| >= 2 && p.stops[i][1].Text?)
      && var rows := WithCounts(p.stops, p.counter);
         forall i :: 0 <= i < |rows| ==>
           && rows[i][..|rows[i]| - 1] == p.stops[i]
           && rows[i][|rows[i]| - 1] == Num(StopLinesNamed(lines, p.stops[i][1].s))
  {
    ParseSpec(lines);
    var p := Parse(lines).value;
    assert forall i :: 0 <= i < |p.stops| ==> StopRowShape(p.stops[i]);
  }

  /** Sommet.csv's header puts `Color` fifth and `NumberOfLine` sixth, but a
      row without a colour has only five fields: its count lands under
      `Color`. */
  lemma UncolouredCountUnderColor(parts: seq<string>, counter: map<string, nat>)
    requires |parts| >= 5 && parts[3] !in ColorDict
    ensures var rows := WithCounts([StopRow(parts)], counter);
      |rows[0]| == 5 && rows[0][4] == Num(CountOf(counter, parts[2]))
  {
  }

  // ---------------------------------------------------------------------------
  // The second pass (data/SortData.py:101-146)

  /** `sommet_dict`, read back from Sommet.csv: each row's first field mapped
      to its second, a later row overwriting an earlier one. */
  function SommetDict(rows: seq<seq<Cell>>): map<string, string>
    requires forall i :: 0 <= i < |rows| ==> |rows[i]| >= 2 && rows[i][0].Text? && rows[i][1].Text?
    decreases |rows|
  {
    if rows == [] then map[]
    else SommetDict(rows[..|rows| - 1])[rows[|rows| - 1][0].s := rows[|rows| - 1][1].s]
  }

  /** The dictionary knows exactly the ids of the rows, and gives each the
      name of the last row with that id. */
  lemma SommetDictSpec(rows: seq<seq<Cell>>)
    requires forall i :: 0 <= i < |rows| ==> |rows[i]| >= 2 && rows[i][0].Text? && rows[i][1].Text?
    ensures forall id :: id in SommetDict(rows) <==> exists i :: 0 <= i < |rows| && rows[i][0] == Text(id)
    ensures forall id :: id in SommetDict(rows) ==>
      exists i :: 0 <= i < |rows| && rows[i][0] == Text(id) && rows[i][1] == Text(SommetDict(rows)[id])
                  && forall k :: i < k < |rows| ==> rows[k][0] != Text(id)
  {
    forall id | id in SommetDict(rows)
      ensures exists i :: 0 <= i < |rows| && rows[i][0] == Text(id) && rows[i][1] == Text(SommetDict(rows)[id])
                          && forall k :: i < k < |rows| ==> rows[k][0] != Text(id)
    {
      var i := SommetDictAt(rows, id);
    }
    forall id | exists i :: 0 <= i < |rows| && rows[i][0] == Text(id)
      ensures id in SommetDict(rows)
    {
      var i :| 0 <= i < |rows| && rows[i][0] == Text(id);
      SommetDictHasId(rows, i);
    }
  }

  /** The row an id's entry comes from: the last row carrying that id. */
  lemma {:induction false} SommetDictAt(rows: seq<seq<Cell>>, id: string) returns (i: nat)
    requires forall i :: 0 <= i < |rows| ==> |rows[i]| >= 2 && rows[i][0].Text? && rows[i][1].Text?
    requires id in SommetDict(rows)
    ensures i < |rows| && rows[i][0] == Text(id) && rows[i][1] == Text(SommetDict(rows)[id])
    ensures forall k :: i < k < |rows| ==> rows[k][0] != Text(id)
    decreases |rows|
  {
    var n := |rows|;
    assert rows != [];
    if rows[n - 1][0] == Text(id) {
      i := n - 1;
    } else {
      var pre := rows[..n - 1];
      assert forall k :: 0 <= k < n - 1 ==> rows[k] == pre[k];
      i := SommetDictAt(pre, id);
    }
  }

  /** Every row's id has an entry. */
  lemma {:induction false} SommetDictHasId(rows: seq<seq<Cell>>, i: nat)
    requires forall i :: 0 <= i < |rows| ==> |rows[i]| >= 2 && rows[i][0].Text? && rows[i][1].Text?
    requires i < |rows|
    ensures rows[i][0].s in SommetDict(rows)
    decreases |rows|
  {
    var n := |rows|;
    if i < n - 1 {
      var pre := rows[..n - 1];
      assert forall k :: 0 <= k < n - 1 ==> rows[k] == pre[k];
      SommetDictHasId(pre, i);
    }
  }

  /** The loop at data/SortData.py:107-108. */
  method BuildSommetDict(rows: seq<seq<Cell>>) returns (sommetDict: map<string, string>)
    requires forall i :: 0 <= i < |rows| ==> |rows[i]| >= 2 && rows[i][0].Text? && rows[i][1].Text?
    ensures sommetDict == SommetDict(rows)
  {
    sommetDict := map[];
    var i := 0;
    while i < |rows|
      invariant 0 <= i <= |rows|
      invariant sommetDict == SommetDict(rows[..i])
    {
      assert rows[..i + 1][..i] == rows[..i];
      sommetDict := sommetDict[rows[i][0].s := rows[i][1].s];
      i := i + 1;
    }
    assert rows[..i] == rows;
  }

  /** `trajets_non_reciproques` (data/SortData.py:112-116). */
  const OneWayRoutes: seq<seq<string>> := [
    ["0034", "0248", "0280", "0092", "0034"],
    ["0036", "0198", "0052", "0201", "0145"],
    ["0145", "0373", "0196", "0259", "0036"]]

  /** Some one-way route holds both stops (data/SortData.py:141). */
  predicate OnOneWayRoute(a: string, b: string)
  {
    exists t :: t in OneWayRoutes && a in t && b in t
  }

  /** `arete_data` already has an edge from `a` to `b` (data/SortData.py:143). */
  predicate HasEdge(edges: seq<EdgeRow>, a: string, b: string)
  {
    exists e :: e in edges && e.s1 == a && e.s2 == b
  }

  /** The time written for an edge (data/SortData.py:125-134): the integer 0
      between two stops of the same name, else the edge's own time. */
  function WrittenTime(dict: map<string, string>, e: EdgeRow): Cell
    requires e.s1 in dict && e.s2 in dict
  {
    if dict[e.s1] == dict[e.s2] then Num(0) else e.time
  }

  /** The test meant to keep zero-time edges one-way (data/SortData.py:140).
      As written it compares the time with the text "0", which the integer 0
      of a zeroed time never equals; corrected, it also rejects that 0. */
  predicate ZeroGuardPasses(time: Cell, asWritten: bool)
  {
    if asWritten then time != Text("0") else time != Text("0") && time != Num(0)
  }

  /** Whether the reverse of `e` is written after it (data/SortData.py:140-144). */
  predicate WritesReverse(all: seq<EdgeRow>, dict: map<string, string>, e: EdgeRow, asWritten: bool)
    requires e.s1 in dict && e.s2 in dict
  {
    ZeroGuardPasses(WrittenTime(dict, e), asWritten) && !OnOneWayRoute(e.s1, e.s2) && !HasEdge(all, e.s2, e.s1)
  }

  /** The rows written for one edge, or `None` for the `KeyError` of an id
      that is not a stop. */
  function WriteEdge(all: seq<EdgeRow>, dict: map<string, string>, e: EdgeRow, asWritten: bool): Option<seq<EdgeRow>>
  {
    if e.s1 !in dict || e.s2 !in dict then None
    else
      var time := WrittenTime(dict, e);
      Some([EdgeRow(e.s1, e.s2, time)] + (if WritesReverse(all, dict, e, asWritten) then [EdgeRow(e.s2, e.s1, time)] else []))
  }

  /** The rows of Aretes.csv after the header, and whether the pass finished.
      Rows written before a `KeyError` stay in the file. */
  datatype Written = Written(rows: seq<EdgeRow>, complete: bool)

  function Rewrite(all: seq<EdgeRow>, dict: map<string, string>, es: seq<EdgeRow>, asWritten: bool): Written
    decreases |es|
  {
    if es == [] then Written([], true)
    else
      var w := Rewrite(all, dict, es[..|es| - 1], asWritten);
      if !w.complete then w
      else match WriteEdge(all, dict, es[|es| - 1], asWritten)
        case None => Written(w.rows, false)
        case Some(rows) => Written(w.rows + rows, true)
  }

  /** The loop at data/SortData.py:122-146 over `arete_data`, with the zero
      guard corrected. */
  method SecondPass(areteData: seq<EdgeRow>, sommetDict: map<string, string>) returns (out: Written)
    ensures out == Rewrite(areteData, sommetDict, areteData, false)
  {
    var rows: seq<EdgeRow> := [];
    var i := 0;
    while i < |areteData|
      invariant 0 <= i <= |areteData|
      invariant Rewrite(areteData, sommetDict, areteData[..i], false) == Written(rows, true)
    {
      assert areteData[..i + 1][..i] == areteData[..i];
      var arete := areteData[i];
      var sommet1, sommet2, time := arete.s1, arete.s2, arete.time;
      if sommet1 !in sommetDict || sommet2 !in sommetDict {
        assert Rewrite(areteData, sommetDict, areteData[..i + 1], false) == Written(rows, false);
        RewriteStopsAtFailure(areteData, sommetDict, areteData, i + 1, false);
        return Written(rows, false);
      }
      if sommetDict[sommet1] == sommetDict[sommet2] {
        time := Num(0);
      }
      rows := rows + [EdgeRow(sommet1, sommet2, time)];
      if time != Text("0") && time != Num(0) {
        if !OnOneWayRoute(sommet1, sommet2) {
          if !HasEdge(areteData, sommet2, sommet1) {
            rows := rows + [EdgeRow(sommet2, sommet1, time)];
          }
        }
      }
      i := i + 1;
    }
    assert areteData[..i] == areteData;
    out := Written(rows, true);
  }

  /** Once the pass stops, later edges change nothing. */
  lemma {:induction false} RewriteStopsAtFailure(all: seq<EdgeRow>, dict: map<string, string>, es: seq<EdgeRow>, k: nat, asWritten: bool)
    requires k <= |es| && !Rewrite(all, dict, es[..k], asWritten).complete
    ensures Rewrite(all, dict, es, asWritten) == Rewrite(all, dict, es[..k], asWritten)
    decreases |es| - k
  {
    if k < |es| {
      assert es[..k + 1][..k] == es[..k];
      RewriteStopsAtFailure(all, dict, es, k + 1, asWritten);
    } else {
      assert es[..k] == es;
    }
  }

  // ---------------------------------------------------------------------------
  // What the second pass promises

  /** The pass finishes exactly when every id is a stop; a finished pass writes
      every edge's rows, and any pass writes only those. */
  lemma {:induction false} RewriteRows(all: seq<EdgeRow>, dict: map<string, string>, es: seq<EdgeRow>, asWritten: bool)
    ensures Rewrite(all, dict, es, asWritten).complete <==> forall k :: 0 <= k < |es| ==> es[k].s1 in dict && es[k].s2 in dict
    ensures Rewrite(all, dict, es, asWritten).complete ==>
      forall k, r :: 0 <= k < |es| && r in WriteEdge(all, dict, es[k], asWritten).value ==> r in Rewrite(all, dict, es, asWritten).rows
    ensures forall r :: r in Rewrite(all, dict, es, asWritten).rows ==>
      exists k :: 0 <= k < |es| && WriteEdge(all, dict, es[k], asWritten).Some? && r in WriteEdge(all, dict, es[k], asWritten).value
    decreases |es|
  {
    if es != [] {
      var n := |es|;
      var pre := es[..n - 1];
      RewriteRows(all, dict, pre, asWritten);
      assert forall k :: 0 <= k < n - 1 ==> es[k] == pre[k];
      var w := Rewrite(all, dict, pre, asWritten);
      if !w.complete {
        var k :| 0 <= k < n - 1 && !(pre[k].s1 in dict && pre[k].s2 in dict);
      }
    }
  }

  /** The written time is the integer 0 exactly between two stops of the same
      name, provided the input times are texts as the parse makes them. */
  lemma SameNameIffZeroTime(all: seq<EdgeRow>, dict: map<string, string>, asWritten: bool)
    requires forall e :: e in all ==> e.time.Text?
    ensures forall r :: r in Rewrite(all, dict, all, asWritten).rows ==>
      r.s1 in dict && r.s2 in dict && (r.time == Num(0) <==> dict[r.s1] == dict[r.s2])
  {
    RewriteRows(all, dict, all, asWritten);
    forall r | r in Rewrite(all, dict, all, asWritten).rows
      ensures r.s1 in dict && r.s2 in dict && (r.time == Num(0) <==> dict[r.s1] == dict[r.s2])
    {
      var k :| 0 <= k < |all| && WriteEdge(all, dict, all[k], asWritten).Some? && r in WriteEdge(all, dict, all[k], asWritten).value;
      assert all[k] in all;
    }
  }

  /** A finished pass writes every edge forward, with its written time. */
  lemma ForwardRowsKept(all: seq<EdgeRow>, dict: map<string, string>, asWritten: bool)
    requires Rewrite(all, dict, all, asWritten).complete
    ensures forall e :: e in all ==>
      e.s1 in dict && e.s2 in dict && EdgeRow(e.s1, e.s2, WrittenTime(dict, e)) in Rewrite(all, dict, all, asWritten).rows
  {
    RewriteRows(all, dict, all, asWritten);
    forall e | e in all
      ensures e.s1 in dict && e.s2 in dict && EdgeRow(e.s1, e.s2, WrittenTime(dict, e)) in Rewrite(all, dict, all, asWritten).rows
    {
      var k :| 0 <= k < |all| && all[k] == e;
      assert WriteEdge(all, dict, e, asWritten).value[0] == EdgeRow(e.s1, e.s2, WrittenTime(dict, e));
    }
  }

  /** As written, the zero guard never blocks on parsed edges: the reverse is
      written whenever the stops are off the one-way routes and no reverse
      edge exists, whatever the time. */
  lemma AsWrittenGuardNeverBlocks(all: seq<EdgeRow>, dict: map<string, string>, e: EdgeRow)
    requires e.s1 in dict && e.s2 in dict && EdgeRowShape(e)
    ensures WritesReverse(all, dict, e, true) <==> !OnOneWayRoute(e.s1, e.s2) && !HasEdge(all, e.s2, e.s1)
  {
  }

  /** As written, an edge between two stops of the same name, say "0001" and
      "0002" both named "A", gets a zero-time reverse; corrected, it stays
      one-way. */
  lemma AsWrittenReversesZeroTimeEdge()
    ensures var all := [EdgeRow("0001", "0002", Text("3"))];
      var dict := map["0001" := "A", "0002" := "A"];
      && Rewrite(all, dict, all, true).rows == [EdgeRow("0001", "0002", Num(0)), EdgeRow("0002", "0001", Num(0))]
      && Rewrite(all, dict, all, false).rows == [EdgeRow("0001", "0002", Num(0))]
  {
    var all := [EdgeRow("0001", "0002", Text("3"))];
    var dict := map["0001" := "A", "0002" := "A"];
    assert !OnOneWayRoute("0001", "0002") by {
      forall t | t in OneWayRoutes ensures !("0001" in t && "0002" in t) {
        assert "0001" !in t;
      }
    }
    assert !HasEdge(all, "0002", "0001") by {
      forall e | e in all ensures !(e.s1 == "0002" && e.s2 == "0001") {
        assert e == all[0];
      }
    }
    assert all[..0] == [];
  }

  /** With the guard corrected, a reverse is written exactly for an edge
      between stops of different names, off the one-way routes, with no
      reverse edge already there. */
  lemma CorrectedGuard(all: seq<EdgeRow>, dict: map<string, string>, e: EdgeRow)
    requires e.s1 in dict && e.s2 in dict && EdgeRowShape(e)
    ensures WritesReverse(all, dict, e, false) <==>
      dict[e.s1] != dict[e.s2] && !OnOneWayRoute(e.s1, e.s2) && !HasEdge(all, e.s2, e.s1)
  {
  }

  /** When the corrected pass finishes on parsed edges, every edge between
      stops of different names, off the one-way routes, has a reverse in the
      output: either the reverse was already an edge, or it is written right
      after the edge. */
  lemma ReciprocalClosure(all: seq<EdgeRow>, dict: map<string, string>)
    requires forall e :: e in all ==> EdgeRowShape(e)
    requires Rewrite(all, dict, all, false).complete
    ensures forall e :: e in all ==> e.s1 in dict && e.s2 in dict
    ensures forall e :: e in all && dict[e.s1] != dict[e.s2] && !OnOneWayRoute(e.s1, e.s2) ==>
      exists r :: r in Rewrite(all, dict, all, false).rows && r.s1 == e.s2 && r.s2 == e.s1
  {
    var out := Rewrite(all, dict, all, false).rows;
    RewriteRows(all, dict, all, false);
    forall e | e in all ensures e.s1 in dict && e.s2 in dict {
      var k :| 0 <= k < |all| && all[k] == e;
    }
    forall e | e in all && dict[e.s1] != dict[e.s2] && !OnOneWayRoute(e.s1, e.s2)
      ensures exists r :: r in out && r.s1 == e.s2 && r.s2 == e.s1
    {
      var k :| 0 <= k < |all| && all[k] == e;
      var rows := WriteEdge(all, dict, e, false).value;
      if HasEdge(all, e.s2, e.s1) {
        var e2 :| e2 in all && e2.s1 == e.s2 && e2.s2 == e.s1;
        var k2 :| 0 <= k2 < |all| && all[k2] == e2;
        assert WriteEdge(all, dict, e2, false).value[0] in out;
      } else {
        assert rows[1] in out;
      }
    }
  }

  /** With the guard corrected, every zero-time row is an edge of the input:
      no zero-time reverse is ever added. */
  lemma ZeroTimeRowsAreInputEdges(all: seq<EdgeRow>, dict: map<string, string>)
    requires forall e :: e in all ==> e.time.Text?
    ensures forall r :: r in Rewrite(all, dict, all, false).rows && r.time == Num(0) ==>
      HasEdge(all, r.s1, r.s2)
  {
    RewriteRows(all, dict, all, false);
    forall r | r in Rewrite(all, dict, all, false).rows && r.time == Num(0)
      ensures HasEdge(all, r.s1, r.s2)
    {
      var k :| 0 <= k < |all| && WriteEdge(all, dict, all[k], false).Some? && r in WriteEdge(all, dict, all[k], false).value;
      assert all[k] in all;
    }
  }

  // ---------------------------------------------------------------------------
  // The script

  /** What the script leaves behind: the rows of Sommet.csv and of the final
      Aretes.csv, and whether the second pass finished. */
  datatype Output = Output(sommetRows: seq<seq<Cell>>, areteRows: Written)

  /** data/SortData.py from top to bottom.  `None` is an `IndexError` in the
      first loop, before any file is written.  The first write of Aretes.csv
      (data/SortData.py:80-83) is replaced by the second pass and is not kept. */
  method Run(rawData: seq<string>) returns (r: Option<Output>)
    ensures r.None? <==> Parse(rawData).None?
    ensures r.Some? ==>
      var p := Parse(rawData).value;
      && (forall i :: 0 <= i < |p.stops| ==> |p.stops[i]| >= 2 && p.stops[i][1].Text?)
      && r.value.sommetRows == WithCounts(p.stops, p.counter)
      && (forall i :: 0 <= i < |r.value.sommetRows| ==>
            |r.value.sommetRows[i]| >= 2 && r.value.sommetRows[i][0].Text? && r.value.sommetRows[i][1].Text?)
      && r.value.areteRows == Rewrite(p.edges, SommetDict(r.value.sommetRows), p.edges, false)
  {
    var parsed := ParseRaw(rawData);
    if parsed.None? {
      return None;
    }
    var p := parsed.value;
    ParseRowShapes(rawData);
    assert forall i :: 0 <= i < |p.stops| ==> StopRowShape(p.stops[i]);
    var sommetRows := AppendCounts(p.stops, p.counter);
    assert forall i :: 0 <= i < |sommetRows| ==> sommetRows[i][..|p.stops[i]|] == p.stops[i];
    var sommetDict := BuildSommetDict(sommetRows);
    var areteRows := SecondPass(p.edges, sommetDict);
    r := Some(Output(sommetRows, areteRows));
  }
}
