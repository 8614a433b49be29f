/**
 * The rows of the times file as the comma-separated reader and writer see them.
 *
 * The model covers the subset of the format of RFC 4180 (section 2) that the
 * times file uses: records end in LF, fields are separated by ',' and are never
 * quoted. The reader skips empty lines and accepts a last line without its LF;
 * a text holding a double quote or a carriage return lies outside the subset
 * and reads as a failure. The writer follows the comma-separated writer's
 * quoting rule, so that what it writes for any field is known.
 */
module Csv {
  import opened Wrappers

  type Field = string
  type Row = seq<Field>

  /** The position of the first `c` in `s`. */
  function IndexOf(s: string, c: char): (i: nat)
    requires c in s
    ensures i < |s| && s[i] == c && c !in s[..i]
  {
    if s[0] == c then 0
    else
      var j := IndexOf(s[1..], c);
      assert s[..1 + j] == [s[0]] + s[1..][..j];
      1 + j
  }

  /** Any position holding the first `c` is the one IndexOf finds. */
  lemma IndexOfUnique(s: string, c: char, i: nat)
    requires i < |s| && s[i] == c && c !in s[..i]
    ensures IndexOf(s, c) == i
  {
    var k := IndexOf(s, c);
  }

  /** Splits `s` at every `sep`; `n` separators give `n + 1` parts. */
  function Split(s: string, sep: char): (parts: seq<string>)
    ensures |parts| >= 1
    ensures forall i :: 0 <= i < |parts| ==> sep !in parts[i]
    decreases |s|
  {
    if sep !in s then [s]
    else
      var i := IndexOf(s, sep);
      [s[..i]] + Split(s[i + 1..], sep)
  }

  /** Joins `parts` with `sep` between each two neighbours. */
  function Join(parts: seq<string>, sep: char): string
  {
    if |parts| == 0 then []
    else if |parts| == 1 then parts[0]
    else parts[0] + [sep] + Join(parts[1..], sep)
  }

  /** Splitting what Join produced gives the parts back. */
  lemma {:induction false} SplitJoin(parts: seq<string>, sep: char)
    requires |parts| >= 1
    requires forall i :: 0 <= i < |parts| ==> sep !in parts[i]
    ensures Split(Join(parts, sep), sep) == parts
  {
    if |parts| > 1 {
      var rest := Join(parts[1..], sep);
      var s := parts[0] + [sep] + rest;
      assert IndexOf(s, sep) == |parts[0]| by {
        assert s[..|parts[0]|] == parts[0] && sep !in parts[0];
        IndexOfUnique(s, sep, |parts[0]|);
      }
      assert s[..|parts[0]|] == parts[0] && s[|parts[0]| + 1..] == rest;
      assert Split(s, sep) == [parts[0]] + Split(rest, sep);
      assert Split(rest, sep) == parts[1..] by {
        assert forall i :: 0 <= i < |parts| - 1 ==> parts[1..][i] == parts[i + 1];
        SplitJoin(parts[1..], sep);
      }
      assert parts == [parts[0]] + parts[1..];
    }
  }

  /** Joining what Split produced gives the text back. */
  lemma {:induction false} JoinSplit(s: string, sep: char)
    ensures Join(Split(s, sep), sep) == s
    decreases |s|
  {
    if sep in s {
      var i := IndexOf(s, sep);
      JoinSplit(s[i + 1..], sep);
      var parts := Split(s, sep);
      assert parts[1..] == Split(s[i + 1..], sep);
      assert s == s[..i] + [sep] + s[i + 1..];
    }
  }

  /** A character in none of the parts and unlike the separator is not in the join. */
  lemma {:induction false} JoinExcludes(parts: seq<string>, sep: char, c: char)
    requires c != sep
    requires forall i :: 0 <= i < |parts| ==> c !in parts[i]
    ensures c !in Join(parts, sep)
  {
    if |parts| > 1 {
      JoinExcludes(parts[1..], sep, c);
    }
  }

  /** The text ends with a complete line (or is empty). */
  predicate Terminated(text: string)
  {
    text == [] || text[|text| - 1] == '\n'
  }

  /** The text stays inside the unquoted, LF-only subset the model reads. */
  predicate Plain(text: string)
  {
    '"' !in text && '\r' !in text
  }

  /** The records of a text: one per non-empty line, fields split on ','. */
  function Records(text: string): (rows: seq<Row>)
    ensures forall i :: 0 <= i < |rows| ==> |rows[i]| >= 1
    decreases |text|
  {
    if '\n' !in text then
      (if text == [] then [] else [Split(text, ',')])
    else
      var i := IndexOf(text, '\n');
      (if i == 0 then [] else [Split(text[..i], ',')]) + Records(text[i + 1..])
  }

  /** The reader: every record of a text in the subset, or a failure. */
  function ReadAll(text: string): Option<seq<Row>>
  {
    if Plain(text) then Some(Records(text)) else None
  }

  /** Splitting a text gives no part holding a character the text does not hold. */
  lemma {:induction false} SplitExcludes(s: string, sep: char, c: char)
    requires c !in s
    ensures forall i :: 0 <= i < |Split(s, sep)| ==> c !in Split(s, sep)[i]
    decreases |s|
  {
    if sep in s {
      var i := IndexOf(s, sep);
      var rest := s[i + 1..];
      assert c !in rest by {
        forall k | 0 <= k < |rest|
          ensures rest[k] != c
        {
          assert rest[k] == s[i + 1 + k];
        }
      }
      SplitExcludes(s[i + 1..], sep, c);
    }
  }

  /** The fields of a record hold neither the field separator nor the line separator. */
  predicate BareFields(r: Row)
  {
    forall j :: 0 <= j < |r| ==> ',' !in r[j] && '\n' !in r[j]
  }

  /** No field the reader returns holds a comma or an LF. */
  lemma {:induction false} RecordsFields(text: string)
    ensures forall i :: 0 <= i < |Records(text)| ==> BareFields(Records(text)[i])
    decreases |text|
  {
    if '\n' !in text {
      SplitExcludes(text, ',', '\n');
    } else {
      var i := IndexOf(text, '\n');
      SplitExcludes(text[..i], ',', '\n');
      RecordsFields(text[i + 1..]);
      var head: seq<Row> := if i == 0 then [] else [Split(text[..i], ',')];
      assert Records(text) == head + Records(text[i + 1..]);
    }
  }

  /** Records of complete lines are not affected by what follows them. */
  lemma {:induction false} RecordsConcat(a: string, b: string)
    requires Terminated(a)
    ensures Records(a + b) == Records(a) + Records(b)
    decreases |a|
  {
    if a != [] {
      assert a[|a| - 1] == '\n';
      var i := IndexOf(a, '\n');
      var s := a + b;
      assert IndexOf(s, '\n') == i && s[..i] == a[..i] && s[i + 1..] == a[i + 1..] + b by {
        assert s[..i] == a[..i];
        IndexOfUnique(s, '\n', i);
      }
      var head: seq<Row> := if i == 0 then [] else [Split(a[..i], ',')];
      assert Records(a[i + 1..] + b) == Records(a[i + 1..]) + Records(b) by {
        assert Terminated(a[i + 1..]);
        RecordsConcat(a[i + 1..], b);
      }
      assert Records(s) == head + Records(a[i + 1..] + b);
      assert Records(a) == head + Records(a[i + 1..]);
      assert head + (Records(a[i + 1..]) + Records(b)) == (head + Records(a[i + 1..])) + Records(b);
    } else {
      assert a + b == b;
    }
  }

  /** One complete non-empty line is one record. */
  lemma RecordsOfLine(line: string)
    requires line != [] && '\n' !in line
    ensures Records(line + "\n") == [Split(line, ',')]
  {
    var s := line + "\n";
    assert s[..|line|] == line;
    IndexOfUnique(s, '\n', |line|);
    assert s[|line| + 1..] == [];
  }

  /** A trailing LF adds no record: the reader skips empty lines and takes an unterminated last line whole. */
  lemma {:induction false} RecordsNewline(text: string)
    ensures Records(text + "\n") == Records(text)
    decreases |text|
  {
    var s := text + "\n";
    if '\n' in text {
      var i := IndexOf(text, '\n');
      assert s[..i] == text[..i];
      IndexOfUnique(s, '\n', i);
      assert s[i + 1..] == text[i + 1..] + "\n";
      RecordsNewline(text[i + 1..]);
    } else {
      assert s[..|text|] == text;
      IndexOfUnique(s, '\n', |text|);
      assert s[|text| + 1..] == [];
    }
  }

  /** Whitespace as Go's unicode.IsSpace defines it. */
  predicate IsSpace(c: char)
  {
    c == ' ' || c == '\t' || c == '\n' || c == '\U{000B}' || c == '\U{000C}' || c == '\r'
    || c == '\U{0085}' || c == '\U{00A0}' || c == '\U{1680}' || ('\U{2000}' <= c <= '\U{200A}')
    || c == '\U{2028}' || c == '\U{2029}' || c == '\U{202F}' || c == '\U{205F}' || c == '\U{3000}'
  }

  /** The writer's rule for when a field must be quoted. */
  predicate NeedsQuotes(f: Field)
  {
    f != [] && (f == "\\." || ',' in f || '"' in f || '\r' in f || '\n' in f || IsSpace(f[0]))
  }

  /** Inside a quoted field every double quote is doubled. */
  function Escape(f: Field): (r: string)
    ensures |r| >= |f|
  {
    if f == [] then []
    else (if f[0] == '"' then "\"\"" else [f[0]]) + Escape(f[1..])
  }

  /** What the writer emits for one field. */
  function EncodeField(f: Field): (r: string)
    ensures |r| >= |f|
    ensures !NeedsQuotes(f) ==> r == f
  {
    if NeedsQuotes(f) then "\"" + Escape(f) + "\"" else f
  }

  /** The encoded fields of a record, comma-separated. */
  function EncodeFields(r: Row): string
  {
    if |r| == 0 then []
    else if |r| == 1 then EncodeField(r[0])
    else EncodeField(r[0]) + [','] + EncodeFields(r[1..])
  }

  /** What the writer emits for one record: the encoded fields, comma-separated, and LF. */
  function EncodeRow(r: Row): string
  {
    EncodeFields(r) + "\n"
  }

  /** A record the writer emits bare and the reader reads back unchanged. */
  predicate Writable(r: Row)
  {
    |r| >= 1 && r != [""] && forall i :: 0 <= i < |r| ==> !NeedsQuotes(r[i])
  }

  /** The text the writer produces for a sequence of records. */
  function EncodeLog(rows: seq<Row>): string
  {
    if rows == [] then [] else EncodeLog(rows[..|rows| - 1]) + EncodeRow(rows[|rows| - 1])
  }

  /** A record of unquoted fields is written as the fields joined by commas. */
  lemma {:induction false} EncodeRowBare(r: Row)
    requires forall i :: 0 <= i < |r| ==> !NeedsQuotes(r[i])
    ensures EncodeFields(r) == Join(r, ',')
    ensures EncodeRow(r) == Join(r, ',') + "\n"
  {
    if |r| > 1 {
      EncodeRowBare(r[1..]);
    }
  }

  /** A writable record is one complete line of the subset, and reads back as itself. */
  lemma EncodedRowReadsBack(r: Row)
    requires Writable(r)
    ensures Terminated(EncodeRow(r)) && Plain(EncodeRow(r))
    ensures Records(EncodeRow(r)) == [r]
  {
    EncodeRowBare(r);
    var j := Join(r, ',');
    JoinExcludes(r, ',', '\n');
    JoinExcludes(r, ',', '"');
    JoinExcludes(r, ',', '\r');
    assert j != [] by {
      if |r| > 1 {
        assert j == r[0] + [','] + Join(r[1..], ',');
      }
    }
    RecordsOfLine(j);
    SplitJoin(r, ',');
  }

  /** A text of complete lines followed by one more complete line reads as one more record. */
  lemma AppendRecord(a: string, b: string, rows: seq<Row>, r: Row)
    requires Terminated(a) && Plain(a) && Records(a) == rows
    requires Terminated(b) && Plain(b) && Records(b) == [r] && b != []
    ensures Terminated(a + b) && Plain(a + b) && Records(a + b) == rows + [r]
  {
    assert (a + b)[|a + b| - 1] == b[|b| - 1];
    RecordsConcat(a, b);
  }

  /** Round trip of the whole log: reading what the writer wrote gives the records back. */
  lemma {:induction false} LogRoundTrip(rows: seq<Row>)
    requires forall i :: 0 <= i < |rows| ==> Writable(rows[i])
    ensures Terminated(EncodeLog(rows)) && Plain(EncodeLog(rows))
    ensures ReadAll(EncodeLog(rows)) == Some(rows)
  {
    if rows != [] {
      var init, last := rows[..|rows| - 1], rows[|rows| - 1];
      LogRoundTrip(init);
      EncodedRowReadsBack(last);
      var a, b := EncodeLog(init), EncodeRow(last);
      assert EncodeLog(rows) == a + b;
      AppendRecord(a, b, init, last);
      assert rows == init + [last];
    }
  }
}
