/**
 * A reader for comma-separated text that follows the quoting rules of
 * RFC 4180, section 2 (rules 4 to 7): fields separated by commas, a field
 * either plain or enclosed in double quotes, with a double quote inside an
 * enclosed field written as two double quotes. Records are separated by a
 * bare line feed, as the export writes them, not by CRLF; plain fields may
 * hold quotes after their first character, and a trailing line break reads
 * as one more empty record. It does not belong to the
 * console; it is the independent definition the CSV export is proved
 * against (reading the export back yields the table that was written).
 */
module CsvReader {
  import opened Js

  /** Text that may follow a field: the end of input, a comma or a line break. */
  predicate AtFieldEnd(t: string) {
    t == [] || t[0] == ',' || t[0] == '\n'
  }

  /** A plain field: everything up to the next comma or line break. */
  function ReadPlain(s: string): (r: (string, string))
    ensures r.0 + r.1 == s
    ensures AtFieldEnd(r.1)
  {
    if AtFieldEnd(s) then ("", s)
    else
      var (c, t) := ReadPlain(s[1..]);
      assert [s[0]] + (c + t) == s;
      ([s[0]] + c, t)
  }

  /**
   * The body of an enclosed field, after its opening quote: the cell it
   * denotes and the text after the closing quote; None when no closing quote
   * is found.
   */
  function ReadQuoted(s: string): (r: Option<(string, string)>)
    ensures r.Some? ==> |r.value.1| < |s|
  {
    if s == [] then None
    else if s[0] == '"' then
      if |s| >= 2 && s[1] == '"' then
        match ReadQuoted(s[2..])
        case None => None
        case Some((c, t)) => Some(("\"" + c, t))
      else Some(("", s[1..]))
    else
      match ReadQuoted(s[1..])
      case None => None
      case Some((c, t)) => Some(([s[0]] + c, t))
  }

  /** A closing quote not followed by another quote ends the enclosed field. */
  lemma ReadQuotedClose(t: string)
    requires t == [] || t[0] != '"'
    ensures ReadQuoted("\"" + t) == Some(("", t))
  {
    assert ("\"" + t)[1..] == t;
  }

  /** A doubled quote inside an enclosed field reads as one quote. */
  lemma ReadQuotedPair(rest: string, c: string, t: string)
    requires ReadQuoted(rest) == Some((c, t))
    ensures ReadQuoted("\"\"" + rest) == Some(("\"" + c, t))
  {
    assert ("\"\"" + rest)[2..] == rest;
  }

  /** Any other character inside an enclosed field reads as itself. */
  lemma ReadQuotedChar(x: char, rest: string, c: string, t: string)
    requires x != '"' && ReadQuoted(rest) == Some((c, t))
    ensures ReadQuoted([x] + rest) == Some(([x] + c, t))
  {
    assert ([x] + rest)[1..] == rest;
  }

  /** One field, enclosed or plain, and the text after it. */
  function ReadField(s: string): (r: Option<(string, string)>)
    ensures r.Some? ==> |r.value.1| <= |s|
  {
    if s != [] && s[0] == '"' then ReadQuoted(s[1..]) else Some(ReadPlain(s))
  }

  /** The fields of one record and the text after it (empty or starting with a line break). */
  function ReadRecord(s: string): (r: Option<(seq<string>, string)>)
    ensures r.Some? ==> |r.value.1| <= |s|
    decreases |s|
  {
    match ReadField(s)
    case None => None
    case Some((c, t)) =>
      if t != [] && t[0] == ',' then
        match ReadRecord(t[1..])
        case None => None
        case Some((cs, u)) => Some(([c] + cs, u))
      else if AtFieldEnd(t) then Some(([c], t))
      else None
  }

  /** All records of a text. */
  function ReadRecords(s: string): Option<seq<seq<string>>>
    decreases |s|
  {
    match ReadRecord(s)
    case None => None
    case Some((cs, t)) =>
      if t == [] then Some([cs])
      else
        match ReadRecords(t[1..])
        case None => None
        case Some(rest) => Some([cs] + rest)
  }

  /** The text `enc` reads back as the field `cell`, whatever field end follows it. */
  ghost predicate Denotes(enc: string, cell: string) {
    forall t {:trigger ReadField(enc + t)} :: AtFieldEnd(t) ==> ReadField(enc + t) == Some((cell, t))
  }

  /** A text without commas, line breaks or a leading quote reads back as itself. */
  lemma {:induction false} PlainDenotesItself(c: string)
    requires forall i :: 0 <= i < |c| ==> c[i] != ',' && c[i] != '\n'
    requires c == [] || c[0] != '"'
    ensures Denotes(c, c)
  {
    forall t | AtFieldEnd(t) ensures ReadField(c + t) == Some((c, t)) {
      PlainRead(c, t);
    }
  }

  lemma {:induction false} PlainRead(c: string, t: string)
    requires forall i :: 0 <= i < |c| ==> c[i] != ',' && c[i] != '\n'
    requires AtFieldEnd(t)
    ensures ReadPlain(c + t) == (c, t)
  {
    if c != [] {
      assert (c + t)[0] == c[0] && !AtFieldEnd(c + t);
      assert (c + t)[1..] == c[1..] + t;
      PlainRead(c[1..], t);
      assert [c[0]] + c[1..] == c;
    } else {
      assert c + t == t;
    }
  }

  /**
   * The record reader splits fields at commas: a record written as the
   * comma-joined encodings of its cells reads back as those cells.
   */
  lemma {:induction false} ReadJoinedRecord(cells: seq<string>, encs: seq<string>, t: string)
    requires |cells| == |encs| > 0
    requires forall i :: 0 <= i < |encs| ==> Denotes(encs[i], cells[i])
    requires t == [] || t[0] == '\n'
    ensures ReadRecord(Join(",", encs) + t) == Some((cells, t))
  {
    assert Denotes(encs[0], cells[0]);
    if |encs| == 1 {
      assert ReadField(encs[0] + t) == Some((cells[0], t));
      assert [cells[0]] == cells;
    } else {
      var rest := Join(",", encs[1..]) + t;
      assert Join(",", encs) + t == encs[0] + ("," + rest);
      assert ReadField(encs[0] + ("," + rest)) == Some((cells[0], "," + rest));
      assert ("," + rest)[1..] == rest;
      ReadJoinedRecord(cells[1..], encs[1..], t);
      assert [cells[0]] + cells[1..] == cells;
    }
  }

  /**
   * A table written as its records' lines joined with line breaks reads back
   * as that table.
   */
  lemma {:induction false} ReadJoinedTable(table: seq<seq<string>>, encoded: seq<seq<string>>, lines: seq<string>)
    requires |table| == |encoded| == |lines| > 0
    requires forall i :: 0 <= i < |lines| ==> lines[i] == Join(",", encoded[i])
    requires forall i :: 0 <= i < |table| ==> |table[i]| == |encoded[i]| > 0
    requires forall i, j :: 0 <= i < |table| && 0 <= j < |table[i]| ==> Denotes(encoded[i][j], table[i][j])
    ensures ReadRecords(Join("\n", lines)) == Some(table)
  {
    if |encoded| == 1 {
      assert Join(",", encoded[0]) + "" == Join(",", encoded[0]);
      ReadJoinedRecord(table[0], encoded[0], "");
      assert Join("\n", lines) == Join(",", encoded[0]);
      assert [table[0]] == table;
    } else {
      var rest := Join("\n", lines[1..]);
      ReadJoinedRecord(table[0], encoded[0], "\n" + rest);
      assert Join("\n", lines) == Join(",", encoded[0]) + ("\n" + rest);
      assert ("\n" + rest)[1..] == rest;
      ReadJoinedTable(table[1..], encoded[1..], lines[1..]);
      assert [table[0]] + table[1..] == table;
    }
  }
}
