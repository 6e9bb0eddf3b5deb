/** The CSV printer of the audit export, and a reader by the quoting rules of section 2 of RFC 4180 (LF line ends). */
module Csv {
  import opened Wrappers

  /** A cell value; `Other` is anything printed by `String`, `toISOString` or `JSON.stringify`. */
  datatype Value = Null | Str(s: string) | Other(printed: string)

  /** The text of a cell before quoting. */
  function CellText(v: Value): string {
    match v case Null => "" case Str(s) => s case Other(s) => s
  }

  /** `/[",\n\r]/` */
  predicate Special(c: char) {
    c == '"' || c == ',' || c == '\n' || c == '\r'
  }

  predicate NeedsQuotes(s: string) {
    exists i :: 0 <= i < |s| && Special(s[i])
  }

  /** `s.replace(/"/g, '""')` */
  function Doubled(s: string): string {
    if s == "" then "" else (if s[0] == '"' then "\"\"" else [s[0]]) + Doubled(s[1..])
  }

  function Quote(s: string): string {
    if NeedsQuotes(s) then "\"" + Doubled(s) + "\"" else s
  }

  /** `csvEscape` */
  function Escape(v: Value): string {
    if v.Null? then "" else Quote(CellText(v))
  }

  function Joined(cells: seq<Value>): string
    requires cells != []
  {
    if |cells| == 1 then Escape(cells[0]) else Escape(cells[0]) + "," + Joined(cells[1..])
  }

  function Line(cells: seq<Value>): string
    requires cells != []
  {
    Joined(cells) + "\n"
  }

  function Concat(lines: seq<string>): string {
    if lines == [] then "" else lines[0] + Concat(lines[1..])
  }

  /** What the reader should recover from a row. */
  function Texts(cells: seq<Value>): (r: seq<string>)
    ensures |r| == |cells|
  {
    seq(|cells|, i requires 0 <= i < |cells| => CellText(cells[i]))
  }

  // ----- The reader -----

  /** A parsed piece and the input left after it. */
  datatype Parsed<T> = Parsed(piece: T, rest: string)

  /** Inside quotes: up to the closing quote; a doubled quote is a quote. */
  function ReadQuoted(s: string): (r: Option<Parsed<string>>)
    ensures r.Some? ==> |r.value.rest| < |s|
  {
    if s == "" then None
    else if s[0] != '"' then
      match ReadQuoted(s[1..])
      case None => None
      case Some(p) => Some(Parsed([s[0]] + p.piece, p.rest))
    else if |s| > 1 && s[1] == '"' then
      match ReadQuoted(s[2..])
      case None => None
      case Some(p) => Some(Parsed("\"" + p.piece, p.rest))
    else Some(Parsed("", s[1..]))
  }

  /** Outside quotes: up to a comma, a line end or the end; no quote or CR may occur. */
  function ReadPlain(s: string): (r: Option<Parsed<string>>)
    ensures r.Some? ==> |r.value.rest| <= |s|
  {
    if s == "" || s[0] == ',' || s[0] == '\n' then Some(Parsed("", s))
    else if Special(s[0]) then None
    else
      match ReadPlain(s[1..])
      case None => None
      case Some(p) => Some(Parsed([s[0]] + p.piece, p.rest))
  }

  function ReadCell(s: string): (r: Option<Parsed<string>>)
    ensures r.Some? ==> |r.value.rest| <= |s|
  {
    if s != "" && s[0] == '"' then ReadQuoted(s[1..]) else ReadPlain(s)
  }

  /** One record and its line end. */
  function ReadRecord(s: string): (r: Option<Parsed<seq<string>>>)
    ensures r.Some? ==> |r.value.rest| < |s|
    decreases |s|
  {
    match ReadCell(s)
    case None => None
    case Some(c) =>
      if c.rest == "" then None
      else if c.rest[0] == '\n' then Some(Parsed([c.piece], c.rest[1..]))
      else if c.rest[0] != ',' then None
      else
        match ReadRecord(c.rest[1..])
        case None => None
        case Some(p) => Some(Parsed([c.piece] + p.piece, p.rest))
  }

  function ReadFile(s: string): Option<seq<seq<string>>>
    decreases |s|
  {
    if s == "" then Some([])
    else
      match ReadRecord(s)
      case None => None
      case Some(p) =>
        match ReadFile(p.rest)
        case None => None
        case Some(records) => Some([p.piece] + records)
  }

  // ----- The printer is invertible -----

  /** A cell is followed by a separator. */
  predicate Delimited(rest: string) {
    rest != "" && (rest[0] == ',' || rest[0] == '\n')
  }

  lemma NextDoubled(tail: string, piece: string, rest: string)
    requires ReadQuoted(tail) == Some(Parsed(piece, rest))
    ensures ReadQuoted("\"\"" + tail) == Some(Parsed("\"" + piece, rest))
  {
    assert ("\"\"" + tail)[2..] == tail;
  }

  lemma NextOrdinary(c: char, tail: string, piece: string, rest: string)
    requires c != '"' && ReadQuoted(tail) == Some(Parsed(piece, rest))
    ensures ReadQuoted([c] + tail) == Some(Parsed([c] + piece, rest))
  {
    assert ([c] + tail)[1..] == tail;
  }

  lemma {:induction false} QuotedRoundTrip(s: string, rest: string)
    requires Delimited(rest)
    ensures ReadQuoted(Doubled(s) + "\"" + rest) == Some(Parsed(s, rest))
  {
    if s == "" {
      assert Doubled(s) + "\"" + rest == "\"" + rest;
      assert ("\"" + rest)[1..] == rest;
    } else {
      QuotedRoundTrip(s[1..], rest);
      var tail := Doubled(s[1..]) + "\"" + rest;
      assert s == [s[0]] + s[1..];
      if s[0] == '"' {
        assert Doubled(s) + "\"" + rest == "\"\"" + tail;
        NextDoubled(tail, s[1..], rest);
      } else {
        assert Doubled(s) + "\"" + rest == [s[0]] + tail;
        NextOrdinary(s[0], tail, s[1..], rest);
      }
    }
  }

  lemma {:induction false} PlainRoundTrip(s: string, rest: string)
    requires !NeedsQuotes(s) && Delimited(rest)
    ensures ReadPlain(s + rest) == Some(Parsed(s, rest))
  {
    if s == "" {
      assert s + rest == rest;
    } else {
      assert !Special(s[0]);
      assert (s + rest)[1..] == s[1..] + rest;
      assert forall i :: 0 <= i < |s[1..]| ==> s[1..][i] == s[i + 1];
      PlainRoundTrip(s[1..], rest);
      assert s == [s[0]] + s[1..];
    }
  }

  lemma QuotedCellRoundTrip(s: string, rest: string)
    requires Delimited(rest)
    ensures ReadCell("\"" + Doubled(s) + "\"" + rest) == Some(Parsed(s, rest))
  {
    QuotedRoundTrip(s, rest);
    OpeningQuote(Doubled(s) + "\"" + rest, Parsed(s, rest));
    Regroup("\"", Doubled(s), "\"", rest);
  }

  lemma Regroup(a: string, b: string, c: string, d: string)
    ensures a + b + c + d == a + (b + c + d)
  {
  }

  lemma OpeningQuote(body: string, p: Parsed<string>)
    requires ReadQuoted(body) == Some(p)
    ensures ReadCell("\"" + body) == Some(p)
  {
    assert ("\"" + body)[1..] == body;
  }

  lemma PlainCellRoundTrip(s: string, rest: string)
    requires !NeedsQuotes(s) && Delimited(rest)
    ensures ReadCell(s + rest) == Some(Parsed(s, rest))
  {
    PlainRoundTrip(s, rest);
    assert s != "" ==> !Special(s[0]);
    assert (s + rest)[0] != '"';
  }

  lemma CellRoundTrip(v: Value, rest: string)
    requires Delimited(rest)
    ensures ReadCell(Escape(v) + rest) == Some(Parsed(CellText(v), rest))
  {
    var s := CellText(v);
    if NeedsQuotes(s) {
      QuotedCellRoundTrip(s, rest);
    } else {
      PlainCellRoundTrip(s, rest);
    }
  }

  /** A cell is printed bare exactly when it has no comma, quote or line break; otherwise between quotes. */
  lemma QuotedIff(v: Value)
    ensures var s := CellText(v);
            if '"' in s || ',' in s || '\n' in s || '\r' in s
            then |Escape(v)| >= |s| + 2 && Escape(v)[0] == Escape(v)[|Escape(v)| - 1] == '"'
            else Escape(v) == s
    ensures v.Null? ==> Escape(v) == ""
  {
    var s := CellText(v);
    DoubledLength(s);
    if i :| 0 <= i < |s| && Special(s[i]) {
      assert s[i] in s;
    }
    if '"' in s || ',' in s || '\n' in s || '\r' in s {
      var c :| c in s && Special(c);
      assert NeedsQuotes(s);
    }
  }

  lemma {:induction false} DoubledLength(s: string)
    ensures |Doubled(s)| >= |s|
  {
    if s != "" {
      DoubledLength(s[1..]);
    }
  }

  /** Reading on after a cell that ends the record. */
  lemma LastCell(v: Value, rest: string)
    ensures ReadRecord(Escape(v) + ("\n" + rest)) == Some(Parsed([CellText(v)], rest))
  {
    CellRoundTrip(v, "\n" + rest);
    assert ("\n" + rest)[1..] == rest;
  }

  /** Reading on after a cell that another follows. */
  lemma NextCell(v: Value, tail: string, p: Parsed<seq<string>>)
    requires ReadRecord(tail) == Some(p)
    ensures ReadRecord(Escape(v) + ("," + tail)) == Some(Parsed([CellText(v)] + p.piece, p.rest))
  {
    CellRoundTrip(v, "," + tail);
    assert ("," + tail)[1..] == tail;
  }

  lemma TextsCons(cells: seq<Value>)
    requires cells != []
    ensures Texts(cells) == [CellText(cells[0])] + Texts(cells[1..])
  {
  }

  lemma LineOfOne(cell: Value, rest: string)
    ensures Line([cell]) + rest == Escape(cell) + ("\n" + rest)
  {
  }

  lemma {:induction false} RecordRoundTrip(cells: seq<Value>, rest: string)
    requires cells != []
    ensures ReadRecord(Line(cells) + rest) == Some(Parsed(Texts(cells), rest))
  {
    TextsCons(cells);
    if |cells| == 1 {
      assert cells == [cells[0]];
      LineOfOne(cells[0], rest);
      LastCell(cells[0], rest);
      assert Texts(cells) == [CellText(cells[0])];
    } else {
      RecordRoundTrip(cells[1..], rest);
      LineSplits(cells, rest);
      NextCell(cells[0], Line(cells[1..]) + rest, Parsed(Texts(cells[1..]), rest));
    }
  }

  lemma LineSplits(cells: seq<Value>, rest: string)
    requires |cells| > 1
    ensures Line(cells) + rest == Escape(cells[0]) + ("," + (Line(cells[1..]) + rest))
  {
    var first, others := Escape(cells[0]), Joined(cells[1..]);
    assert first + "," + others + "\n" + rest == first + ("," + (others + "\n" + rest));
  }

  predicate NoEmptyRow(rows: seq<seq<Value>>) {
    forall i :: 0 <= i < |rows| ==> rows[i] != []
  }

  function Lines(rows: seq<seq<Value>>): (r: seq<string>)
    requires NoEmptyRow(rows)
    ensures |r| == |rows| && forall i :: 0 <= i < |rows| ==> r[i] == Line(rows[i])
  {
    seq(|rows|, i requires 0 <= i < |rows| => Line(rows[i]))
  }

  lemma LinesConcat(a: seq<seq<Value>>, b: seq<seq<Value>>)
    requires NoEmptyRow(a) && NoEmptyRow(b)
    ensures Lines(a + b) == Lines(a) + Lines(b)
  {
  }

  /** The cell texts of every row. */
  function Table(rows: seq<seq<Value>>): (r: seq<seq<string>>)
    ensures |r| == |rows| && forall i :: 0 <= i < |rows| ==> r[i] == Texts(rows[i])
  {
    if rows == [] then [] else [Texts(rows[0])] + Table(rows[1..])
  }

  /** Reading the printed file gives back exactly the cell texts of every row. */
  lemma {:induction false} FileRoundTrip(rows: seq<seq<Value>>)
    requires NoEmptyRow(rows)
    ensures ReadFile(Concat(Lines(rows))) == Some(Table(rows))
  {
    if rows != [] {
      var rest := Concat(Lines(rows[1..]));
      FileRoundTrip(rows[1..]);
      RecordRoundTrip(rows[0], rest);
      assert Lines(rows)[1..] == Lines(rows[1..]);
      assert Concat(Lines(rows)) == Line(rows[0]) + rest;
    }
  }
}
