/**
 * The checkpoint file: a header line `pkg_name,downloads`, then one
 * `name,downloads` line per package in table order. The downloads column is
 * empty for a package not yet looked up, `NA` for one the statistics API
 * does not know, or the decimal download count.
 */
module Checkpoint {
  import opened Wrappers
  import opened OrderedMap
  import opened Text

  /**
   * The downloads column of one row. Python keeps the column as text and
   * only asks whether it is empty; `Verbatim` is any text that is neither
   * empty, `NA` nor a decimal as Python writes one. Such a row counts as
   * done and is written back unchanged.
   */
  datatype Field = Unresolved | NotAvailable | Count(n: nat) | Verbatim(text: string)

  /** One row of the table: package name and downloads column. */
  type Row = (string, Field)

  const Header: string := "pkg_name,downloads"

  /** The text a field is written as. */
  function FieldText(f: Field): string
  {
    match f
    case Unresolved => ""
    case NotAvailable => "NA"
    case Count(n) => NatToDecimal(n)
    case Verbatim(t) => t
  }

  /** The field a column text stands for. */
  function ParseField(s: string): Field
  {
    if s == "" then Unresolved
    else if s == "NA" then NotAvailable
    else if IsCanonicalDecimal(s) then Count(DecimalValue(s))
    else Verbatim(s)
  }

  /** Reading a column and writing it again reproduces its text, whatever it was. */
  lemma {:induction false} FieldTextOfParse(s: string)
    ensures FieldText(ParseField(s)) == s
  {
    if s != "" && s != "NA" && IsCanonicalDecimal(s) {
      NatOfDecimal(s);
    }
  }

  /** A name that survives being written to and read back from one line. */
  predicate WellFormedName(name: string)
  {
    ',' !in name && '\n' !in name && '\r' !in name && (name == [] || !IsSpace(name[0]))
  }

  /** A field whose text survives being written to and read back from one line. */
  predicate WellFormedField(f: Field)
  {
    match f
    case Verbatim(t) =>
      t != "" && t != "NA" && !IsCanonicalDecimal(t)
      && ',' !in t && '\n' !in t && '\r' !in t && !IsSpace(t[|t| - 1])
    case _ => true
  }

  /** Writing a well-formed field and reading its text back gives the field. */
  lemma {:induction false} FieldRoundTrip(f: Field)
    requires WellFormedField(f)
    ensures ParseField(FieldText(f)) == f
  {
    if f.Count? {
      var s := NatToDecimal(f.n);
      assert IsDigit(s[0]);
      assert s != "NA" by { assert "NA"[0] == 'N'; }
      DecimalOfNat(f.n);
    }
  }

  /** A table the file format can carry: distinct, well-formed names and well-formed fields. */
  predicate WellFormedTable(rows: seq<Row>)
  {
    DistinctKeys(rows)
    && forall i :: 0 <= i < |rows| ==> WellFormedName(rows[i].0) && WellFormedField(rows[i].1)
  }

  /** `f"{pkg_name},{downloads}"`. */
  function RowLine(row: Row): string
  {
    row.0 + "," + FieldText(row.1)
  }

  /** The lines after the header, each followed by a line break. */
  function Body(rows: seq<Row>): string
  {
    if rows == [] then "" else RowLine(rows[0]) + "\n" + Body(rows[1..])
  }

  /** The whole checkpoint text of a table. */
  function Serialise(rows: seq<Row>): string
  {
    Header + "\n" + Body(rows)
  }

  /** The table first written for a ranked list of names: every row unresolved. */
  function InitialRows(names: seq<string>): (rows: seq<Row>)
    ensures Keys(rows) == names
    ensures forall i :: 0 <= i < |rows| ==> rows[i].1 == Unresolved
  {
    seq(|names|, i requires 0 <= i < |names| => (names[i], Unresolved))
  }

  /** Adding one row at the end adds its line at the end of the body. */
  lemma {:induction false} BodySnoc(rows: seq<Row>, row: Row)
    ensures Body(rows + [row]) == Body(rows) + RowLine(row) + "\n"
  {
    if rows != [] {
      assert (rows + [row])[1..] == rows[1..] + [row];
      BodySnoc(rows[1..], row);
    } else {
      assert ([] + [row])[1..] == [];
    }
  }

  /**
   * The write loop: the header, then one `name,downloads` line per row in
   * table order. It serves both the first write (every field empty) and
   * the final flush.
   */
  method WriteCheckpoint(rows: seq<Row>) returns (text: string)
    ensures text == Serialise(rows)
  {
    text := Header + "\n";
    for i := 0 to |rows|
      invariant text == Header + "\n" + Body(rows[..i])
    {
      BodySnoc(rows[..i], rows[i]);
      assert rows[..i + 1] == rows[..i] + [rows[i]];
      text := text + RowLine(rows[i]) + "\n";
    }
    assert rows[..|rows|] == rows;
  }

  datatype ParseError =
    | EmptyFile                               // `next(f)` found no header line
    | WrongFieldCount(line: nat, fields: nat)  // data line `line` (from 0) split into `fields` fields, not 2

  /** `line.strip().split(",")`. */
  function RowFields(line: string): seq<string>
  {
    Split(Strip(line), ',')
  }

  /** `line.strip().split(",")` for every data line. */
  function SplitLines(lines: seq<string>): (split: seq<seq<string>>)
    ensures |split| == |lines|
    ensures forall k :: 0 <= k < |lines| ==> split[k] == RowFields(lines[k])
  {
    seq(|lines|, k requires 0 <= k < |lines| => RowFields(lines[k]))
  }

  /**
   * The split data lines as (name, column) pairs. The first line that does
   * not have exactly two fields is the error, as when `dict` meets an
   * element of the wrong length.
   */
  function ParsePairs(split: seq<seq<string>>): (r: Result<seq<(string, string)>, ParseError>)
    ensures r.Success? <==> forall k :: 0 <= k < |split| ==> |split[k]| == 2
    ensures r.Success? ==> |r.value| == |split|
    ensures r.Success? ==> forall k :: 0 <= k < |split| ==> r.value[k] == (split[k][0], split[k][1])
    ensures r.Failure? ==> r.error.WrongFieldCount? && r.error.line < |split|
    ensures r.Failure? ==> |split[r.error.line]| == r.error.fields != 2
    ensures r.Failure? ==> forall k :: 0 <= k < r.error.line ==> |split[k]| == 2
  {
    if split == [] then Success([])
    else if |split[0]| != 2 then Failure(WrongFieldCount(0, |split[0]|))
    else
      var tail := ParsePairs(split[1..]);
      assert forall k :: 1 <= k < |split| ==> split[1..][k - 1] == split[k];
      match tail
      case Failure(e) => Failure(WrongFieldCount(e.line + 1, e.fields))
      case Success(rest) =>
        var r := [(split[0][0], split[0][1])] + rest;
        assert forall k :: 1 <= k < |split| ==> r[k] == rest[k - 1];
        Success(r)
  }

  /** Read each column as a field. */
  function ParseFields(pairs: seq<(string, string)>): (rows: seq<Row>)
    ensures Keys(rows) == Keys(pairs)
    ensures forall i :: 0 <= i < |rows| ==> rows[i].1 == ParseField(pairs[i].1)
  {
    seq(|pairs|, i requires 0 <= i < |pairs| => (pairs[i].0, ParseField(pairs[i].1)))
  }

  /**
   * Reading the file: the first line is dropped unread (only a missing
   * first line is an error), every further line must split into exactly two
   * fields, and the pairs build a dict: a repeated name keeps its first
   * position and its last value.
   */
  function Parse(text: string): (r: Result<seq<Row>, ParseError>)
    ensures r.Success? ==> DistinctKeys(r.value)
    ensures r == Failure(EmptyFile) <==> Lines(text) == []
    ensures var lines := Lines(text);
            lines != [] ==> (r.Success? <==> forall k :: 0 <= k < |lines| - 1 ==> |RowFields(lines[1..][k])| == 2)
  {
    var lines := Lines(text);
    if lines == [] then Failure(EmptyFile)
    else
      match ParsePairs(SplitLines(lines[1..]))
      case Failure(e) => Failure(e)
      case Success(pairs) => Success(ParseFields(FromPairs(pairs)))
  }

  /** The (name, column) pair of each data line, for lines that all split in two. */
  function LinePairs(lines: seq<string>): seq<(string, string)>
    requires forall k :: 0 <= k < |lines| ==> |RowFields(lines[k])| == 2
  {
    seq(|lines|, k requires 0 <= k < |lines| => (RowFields(lines[k])[0], RowFields(lines[k])[1]))
  }

  /**
   * The table a readable file gives: the names of its data lines, each
   * once, in the order of their first line, each with the field of the
   * column on its last line.
   */
  lemma {:induction false} ParseTable(text: string)
    requires Parse(text).Success?
    ensures Lines(text) != [] && forall k :: 0 <= k < |Lines(text)| - 1 ==> |RowFields(Lines(text)[1..][k])| == 2
    ensures var pairs := LinePairs(Lines(text)[1..]);
            var rows := Parse(text).value;
            (forall n :: n in Keys(rows) <==> n in Keys(pairs))
            && (forall i :: 0 <= i < |rows| ==>
                  rows[i].0 in Keys(pairs) && rows[i].1 == ParseField(LastValue(pairs, rows[i].0)))
            && (forall i, j :: 0 <= i < j < |rows| ==> FirstIndex(pairs, rows[i].0) < FirstIndex(pairs, rows[j].0))
  {
    ParseOfLines(text);
    TableOfPairs(LinePairs(Lines(text)[1..]));
  }

  /** A readable file is read as the dict of its data lines' pairs. */
  lemma {:induction false} ParseOfLines(text: string)
    requires Parse(text).Success?
    ensures Lines(text) != [] && forall k :: 0 <= k < |Lines(text)| - 1 ==> |RowFields(Lines(text)[1..][k])| == 2
    ensures Parse(text).value == ParseFields(FromPairs(LinePairs(Lines(text)[1..])))
  {
    PairsOfLines(Lines(text)[1..]);
  }

  /** Data lines that all split in two give their pairs, line by line. */
  lemma {:induction false} PairsOfLines(data: seq<string>)
    requires forall k :: 0 <= k < |data| ==> |RowFields(data[k])| == 2
    ensures ParsePairs(SplitLines(data)) == Success(LinePairs(data))
  {
    var ps := ParsePairs(SplitLines(data)).value;
    assert ps == LinePairs(data);
  }

  /** The rows of `dict(pairs)`, fields read: keys, values and order in terms of the pairs. */
  lemma {:induction false} TableOfPairs(pairs: seq<(string, string)>)
    ensures var rows := ParseFields(FromPairs(pairs));
            (forall n :: n in Keys(rows) <==> n in Keys(pairs))
            && (forall i :: 0 <= i < |rows| ==>
                  rows[i].0 in Keys(pairs) && rows[i].1 == ParseField(LastValue(pairs, rows[i].0)))
            && (forall i, j :: 0 <= i < j < |rows| ==> FirstIndex(pairs, rows[i].0) < FirstIndex(pairs, rows[j].0))
  {
    var d := FromPairs(pairs);
    var rows := ParseFields(d);
    assert forall i :: 0 <= i < |rows| ==> rows[i].0 == Keys(rows)[i] == Keys(d)[i] == d[i].0;
    forall n ensures n in Keys(rows) <==> n in Keys(pairs) {
      if n in Keys(pairs) {
        var k :| 0 <= k < |pairs| && Keys(pairs)[k] == n;
        assert pairs[k].0 in Keys(d);
      }
      if n in Keys(rows) {
        var i :| 0 <= i < |rows| && Keys(rows)[i] == n;
        assert d[i].0 in Keys(pairs);
      }
    }
    forall i | 0 <= i < |rows|
      ensures rows[i].0 in Keys(pairs) && rows[i].1 == ParseField(LastValue(pairs, rows[i].0))
    {
      FromPairsLastValue(pairs, i);
    }
    forall i, j | 0 <= i < j < |rows| ensures FirstIndex(pairs, rows[i].0) < FirstIndex(pairs, rows[j].0) {
      FromPairsFirstSeen(pairs, i, j);
    }
  }

  /** A line without `\r` that splits in two gives a well-formed name and field. */
  lemma {:induction false} LineFieldsWellFormed(line: string)
    requires '\r' !in line && '\n' !in line && |RowFields(line)| == 2
    ensures WellFormedName(RowFields(line)[0]) && WellFormedField(ParseField(RowFields(line)[1]))
  {
    var l := TrimLeft(line);
    var s := Strip(line);
    StripKeepsOut(line, '\r');
    StripKeepsOut(line, '\n');
    SplitTwo(s, ',');
    var name, column := RowFields(line)[0], RowFields(line)[1];
    if name != [] {
      assert name[0] == s[0] == l[0];
    }
    if column != [] {
      assert column[|column| - 1] == s[|s| - 1];
    }
  }

  /** Whatever a file without `\r` holds, a table read from it can be written and read back. */
  lemma {:induction false} ParseWellFormed(text: string)
    requires Parse(text).Success? && '\r' !in text
    ensures WellFormedTable(Parse(text).value)
  {
    ParseOfLines(text);
    DataLinesKeepOut(text, '\r');
    LinesTableWellFormed(Lines(text)[1..]);
  }

  /** No data line of a text without the character `c` holds `c`, nor a line break. */
  lemma {:induction false} DataLinesKeepOut(text: string, c: char)
    requires c !in text && Lines(text) != []
    ensures forall k :: 0 <= k < |Lines(text)| - 1 ==> c !in Lines(text)[1..][k] && '\n' !in Lines(text)[1..][k]
  {
    var lines := Lines(text);
    LinesKeepOut(text, c);
    assert forall k :: 0 <= k < |lines| - 1 ==> lines[1..][k] == lines[k + 1];
  }

  /** The table read from data lines without `\r` is well formed. */
  lemma {:induction false} LinesTableWellFormed(data: seq<string>)
    requires forall k :: 0 <= k < |data| ==> |RowFields(data[k])| == 2
    requires forall k :: 0 <= k < |data| ==> '\r' !in data[k] && '\n' !in data[k]
    ensures WellFormedTable(ParseFields(FromPairs(LinePairs(data))))
  {
    var rows := ParseFields(FromPairs(LinePairs(data)));
    TableOfPairs(LinePairs(data));
    forall i | 0 <= i < |rows| ensures WellFormedName(rows[i].0) && WellFormedField(rows[i].1) {
      PairWellFormed(data, rows[i].0);
    }
  }

  /** A name read from lines without `\r` is well formed, and so is the field of its last value. */
  lemma {:induction false} PairWellFormed(data: seq<string>, name: string)
    requires forall k :: 0 <= k < |data| ==> |RowFields(data[k])| == 2
    requires forall k :: 0 <= k < |data| ==> '\r' !in data[k] && '\n' !in data[k]
    requires name in Keys(LinePairs(data))
    ensures WellFormedName(name) && WellFormedField(ParseField(LastValue(LinePairs(data), name)))
  {
    var pairs := LinePairs(data);
    var k := FirstIndex(pairs, name);
    LineFieldsWellFormed(data[k]);
    var j := LastValueAt(pairs, name);
    LineFieldsWellFormed(data[j]);
  }

  /** A row line splits back into its name and its column text. */
  lemma {:induction false} RowLineFields(row: Row)
    requires WellFormedName(row.0) && WellFormedField(row.1)
    ensures RowFields(RowLine(row)) == [row.0, FieldText(row.1)]
  {
    var line := RowLine(row);
    var v := FieldText(row.1);
    assert ',' !in v && (v == [] || !IsSpace(v[|v| - 1])) by {
      if row.1.Count? {
        assert forall i :: 0 <= i < |v| ==> IsDigit(v[i]);
      }
    }
    assert line[0] == if row.0 == [] then ',' else row.0[0];
    assert line[|line| - 1] == if v == [] then ',' else v[|v| - 1];
    StripUntrimmed(line);
    SplitAtSeparator(row.0, ',', v);
    SplitWithoutSeparator(v, ',');
  }

  /** The data lines written for `rows`. */
  function RowLines(rows: seq<Row>): (lines: seq<string>)
    ensures |lines| == |rows|
    ensures forall i :: 0 <= i < |rows| ==> lines[i] == RowLine(rows[i])
  {
    seq(|rows|, i requires 0 <= i < |rows| => RowLine(rows[i]))
  }

  /** The (name, column text) pairs written for `rows`. */
  function TextPairs(rows: seq<Row>): (pairs: seq<(string, string)>)
    ensures |pairs| == |rows|
    ensures forall i :: 0 <= i < |rows| ==> pairs[i] == (rows[i].0, FieldText(rows[i].1))
  {
    seq(|rows|, i requires 0 <= i < |rows| => (rows[i].0, FieldText(rows[i].1)))
  }

  /** A well-formed row is written on one line. */
  lemma {:induction false} RowLineUnbroken(row: Row)
    requires WellFormedName(row.0) && WellFormedField(row.1)
    ensures '\n' !in RowLine(row)
  {
    var v := FieldText(row.1);
    assert '\n' !in v by {
      if row.1.Count? {
        assert forall i :: 0 <= i < |v| ==> IsDigit(v[i]);
      }
    }
  }

  /** The lines of a body: one per row, and a final empty piece after the last line break. */
  lemma {:induction false} SplitBody(rows: seq<Row>)
    requires forall i :: 0 <= i < |rows| ==> WellFormedName(rows[i].0) && WellFormedField(rows[i].1)
    ensures Split(Body(rows), '\n') == RowLines(rows) + [[]]
  {
    if rows != [] {
      var rest := rows[1..];
      RowLineUnbroken(rows[0]);
      assert forall i :: 0 <= i < |rest| ==> rest[i] == rows[i + 1];
      SplitBody(rest);
      SplitAtSeparator(RowLine(rows[0]), '\n', Body(rest));
      assert RowLines(rows) == [RowLine(rows[0])] + RowLines(rest);
    }
  }

  /** The file written for a table has the header line and then one line per row. */
  lemma {:induction false} LinesOfSerialise(rows: seq<Row>)
    requires forall i :: 0 <= i < |rows| ==> WellFormedName(rows[i].0) && WellFormedField(rows[i].1)
    ensures Lines(Serialise(rows)) == [Header] + RowLines(rows)
  {
    SplitBody(rows);
    assert '\n' !in Header;
    SplitAtSeparator(Header, '\n', Body(rows));
    assert Split(Serialise(rows), '\n') == [Header] + RowLines(rows) + [[]];
  }

  /** Each row line splits back into its name and its column text. */
  lemma {:induction false} PairsOfRowLines(rows: seq<Row>)
    requires forall i :: 0 <= i < |rows| ==> WellFormedName(rows[i].0) && WellFormedField(rows[i].1)
    ensures ParsePairs(SplitLines(RowLines(rows))) == Success(TextPairs(rows))
  {
    var split := SplitLines(RowLines(rows));
    forall k | 0 <= k < |rows| ensures split[k] == [rows[k].0, FieldText(rows[k].1)] {
      RowLineFields(rows[k]);
    }
    var r := ParsePairs(split);
    assert r.Success?;
    assert forall k :: 0 <= k < |rows| ==> r.value[k] == TextPairs(rows)[k];
    assert r.value == TextPairs(rows);
  }

  /**
   * Round trip: reading back the text written for a well-formed table gives
   * the same table, rows in the same order and fields unchanged.
   */
  lemma {:induction false} ParseSerialise(rows: seq<Row>)
    requires WellFormedTable(rows)
    ensures Parse(Serialise(rows)) == Success(rows)
  {
    LinesOfSerialise(rows);
    assert ([Header] + RowLines(rows))[1..] == RowLines(rows);
    PairsOfRowLines(rows);
    var pairs := TextPairs(rows);
    assert DistinctKeys(pairs);
    FromPairsOfDistinct(pairs);
    forall i | 0 <= i < |rows| ensures ParseField(pairs[i].1) == rows[i].1 {
      FieldRoundTrip(rows[i].1);
    }
    assert ParseFields(pairs) == rows;
  }
}
