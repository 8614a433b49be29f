/**
 * The log validator: which rows of the times file are well formed (exactly two
 * fields, a start and an end), the error value that reports the others, and
 * readEntries, which reads the file and optionally keeps only the good rows.
 */
module Validator {
  import opened Wrappers
  import opened Csv
  import Spoken

  /** The report of malformed rows: their 1-based line numbers, and whether the last row is one of them. */
  datatype FormatError = FormatError(badLines: seq<int>, lastIsBad: bool)
  {
    /** The benign case: the only bad row is the last, i.e. an entry that was begun and not yet ended. */
    predicate JustIncomplete()
    {
      |badLines| == 1 && lastIsBad
    }

    /** The text of the error. */
    function Message(): (m: string)
      ensures m == "last entry is incomplete" <==> JustIncomplete()
    {
      if JustIncomplete() then "last entry is incomplete"
      else if |badLines| == 1 then
        var m := "incomplete or invalid entry on line " + Spoken.IntToString(badLines[0]);
        assert m[0] == 'i';
        m
      else
        var m := "incomplete or invalid entries on lines " + Spoken.Spoken(badLines);
        assert m[0] == 'i';
        m
    }
  }

  /** The errors the core returns. */
  datatype Error =
    | Format(report: FormatError)
    | ReadFailed         // the reader's own error, passed on as it is
    | NoIncompleteEntry  // "no incomplete entry to end"

  /** A well-formed row: a start and an end. */
  predicate Good(r: Row)
  {
    |r| == 2
  }

  /** The 1-based numbers of the rows that are not good, in the order they occur. */
  function BadLines(rows: seq<Row>): (b: seq<int>)
    ensures |b| <= |rows|
  {
    if rows == [] then []
    else BadLines(rows[..|rows| - 1]) + (if Good(rows[|rows| - 1]) then [] else [|rows|])
  }

  /** Every row is good: the log has no incomplete or invalid entry. */
  predicate Complete(rows: seq<Row>)
  {
    forall i :: 0 <= i < |rows| ==> Good(rows[i])
  }

  predicate LastIsBad(rows: seq<Row>)
  {
    |rows| > 0 && !Good(rows[|rows| - 1])
  }

  /** The good rows, in their original order. */
  function GoodRows(rows: seq<Row>): (g: seq<Row>)
    ensures |g| <= |rows|
    ensures Complete(g)
  {
    if rows == [] then []
    else GoodRows(rows[..|rows| - 1]) + (if Good(rows[|rows| - 1]) then [rows[|rows| - 1]] else [])
  }

  /** The report for a set of rows, if any row is bad. */
  function Validate(rows: seq<Row>): Option<FormatError>
  {
    if BadLines(rows) == [] then None else Some(FormatError(BadLines(rows), LastIsBad(rows)))
  }

  /** The error readEntries returns for a file. */
  function ReadError(text: string): Option<Error>
  {
    match ReadAll(text)
    case None => Some(ReadFailed)
    case Some(rows) => if Validate(rows).None? then None else Some(Format(Validate(rows).value))
  }

  /** The rows readEntries returns for a file. */
  function Entries(text: string, filter: bool): seq<Row>
  {
    match ReadAll(text)
    case None => []
    case Some(rows) => if filter && Validate(rows).Some? then GoodRows(rows) else rows
  }

  /** readEntries: classify every row, then (with `filter`, and only when some row is bad) keep the good ones. */
  method ReadEntries(text: string, filter: bool) returns (entries: seq<Row>, err: Option<Error>)
    ensures err == ReadError(text)
    ensures entries == Entries(text, filter)
  {
    var read := ReadAll(text);
    if read.None? {
      return [], Some(ReadFailed);
    }
    var rows := read.value;
    var badLines, lastIsBad := Classify(rows);
    entries, err := rows, None;
    if badLines != [] {
      err := Some(Format(FormatError(badLines, lastIsBad)));
      if filter {
        entries := KeepGood(rows, |rows| - |badLines|);
      }
    }
  }

  /** The classifying loop of readEntries: the numbers of the bad rows, and whether the last row is bad. */
  method Classify(rows: seq<Row>) returns (badLines: seq<int>, lastIsBad: bool)
    ensures badLines == BadLines(rows)
    ensures lastIsBad == LastIsBad(rows)
  {
    badLines, lastIsBad := [], false;
    var i := 0;
    while i < |rows|
      invariant 0 <= i <= |rows|
      invariant badLines == BadLines(rows[..i])
      invariant lastIsBad == LastIsBad(rows[..i])
    {
      assert rows[..i + 1][..i] == rows[..i];
      if |rows[i]| == 2 {
        lastIsBad := false;
      } else {
        lastIsBad := true;
        badLines := badLines + [i + 1];
      }
      i := i + 1;
    }
    assert rows[..|rows|] == rows;
  }

  /** The filtering loop of readEntries: fills a slice of `n` rows, by index, with the good rows. */
  method KeepGood(rows: seq<Row>, n: nat) returns (filtered: seq<Row>)
    requires n == |rows| - |BadLines(rows)|
    ensures filtered == GoodRows(rows)
  {
    GoodRowsCount(rows);
    var buffer := new Row[n];
    var j := 0;
    for k := 0 to |rows|
      invariant j == |GoodRows(rows[..k])| <= n
      invariant buffer[..j] == GoodRows(rows[..k])
    {
      assert rows[..k + 1][..k] == rows[..k];
      GoodRowsPrefix(rows, k + 1);
      if |rows[k]| == 2 {
        buffer[j] := rows[k];
        j := j + 1;
      }
    }
    assert rows[..|rows|] == rows;
    filtered := buffer[..];
  }

  /** A line number is reported exactly when it is the number of a bad row. */
  lemma {:induction false} BadLinesMembers(rows: seq<Row>)
    ensures forall k :: k in BadLines(rows) <==> 1 <= k <= |rows| && !Good(rows[k - 1])
  {
    if rows != [] {
      var init := rows[..|rows| - 1];
      BadLinesMembers(init);
      assert forall i :: 0 <= i < |init| ==> rows[i] == init[i];
    }
  }

  /** The reported line numbers are strictly increasing. */
  lemma {:induction false} BadLinesIncreasing(rows: seq<Row>)
    ensures forall i, j :: 0 <= i < j < |BadLines(rows)| ==> BadLines(rows)[i] < BadLines(rows)[j]
  {
    if rows != [] {
      var init := rows[..|rows| - 1];
      BadLinesIncreasing(init);
      BadLinesMembers(init);
      var b := BadLines(init);
      assert forall i :: 0 <= i < |b| ==> b[i] in b && b[i] <= |init|;
    }
  }

  /** LastIsBad holds exactly when the last reported line is the last row. */
  lemma LastIsBadIsLastLine(rows: seq<Row>)
    ensures LastIsBad(rows) <==> |BadLines(rows)| > 0 && BadLines(rows)[|BadLines(rows)| - 1] == |rows|
  {
    if rows != [] && !LastIsBad(rows) {
      var init := rows[..|rows| - 1];
      BadLinesMembers(init);
      var b := BadLines(init);
      assert BadLines(rows) == b;
      if |b| > 0 {
        assert b[|b| - 1] in b;
      }
    }
  }

  /** No error exactly when every row has two fields; an empty log has no error. */
  lemma NoErrorIffAllGood(rows: seq<Row>)
    ensures Validate(rows).None? <==> Complete(rows)
  {
    BadLinesMembers(rows);
    if BadLines(rows) != [] {
      assert BadLines(rows)[0] in BadLines(rows);
    } else {
      forall i | 0 <= i < |rows| ensures Good(rows[i]) {
        assert i + 1 !in BadLines(rows);
      }
    }
  }

  /** The report is "just incomplete" exactly when the last row, and only it, is bad. */
  lemma JustIncompleteIff(rows: seq<Row>)
    ensures (Validate(rows).Some? && Validate(rows).value.JustIncomplete())
        <==> (LastIsBad(rows) && Complete(rows[..|rows| - 1]))
  {
    if rows != [] {
      var init := rows[..|rows| - 1];
      NoErrorIffAllGood(init);
      assert forall i :: 0 <= i < |rows| - 1 ==> rows[i] == init[i];
      if LastIsBad(rows) {
        assert BadLines(rows) == BadLines(init) + [|rows|];
      } else {
        LastIsBadIsLastLine(rows);
      }
    }
  }

  lemma {:induction false} GoodRowsCount(rows: seq<Row>)
    ensures |GoodRows(rows)| == |rows| - |BadLines(rows)|
  {
    if rows != [] {
      GoodRowsCount(rows[..|rows| - 1]);
    }
  }

  /** Filtering keeps the order: the good rows of a concatenation are the concatenation of the good rows. */
  lemma {:induction false} GoodRowsConcat(a: seq<Row>, b: seq<Row>)
    ensures GoodRows(a + b) == GoodRows(a) + GoodRows(b)
    decreases |b|
  {
    if b == [] {
      assert a + b == a;
    } else {
      assert (a + b)[..|a + b| - 1] == a + b[..|b| - 1];
      GoodRowsConcat(a, b[..|b| - 1]);
    }
  }

  /** A prefix of the log has no more good rows than the whole. */
  lemma GoodRowsPrefix(rows: seq<Row>, k: nat)
    requires k <= |rows|
    ensures |GoodRows(rows[..k])| <= |GoodRows(rows)|
  {
    GoodRowsConcat(rows[..k], rows[k..]);
    assert rows[..k] + rows[k..] == rows;
  }

  /** A row survives filtering exactly when it is a row of the log with two fields. */
  lemma {:induction false} GoodRowsMembers(rows: seq<Row>)
    ensures forall r :: r in GoodRows(rows) <==> r in rows && Good(r)
  {
    if rows != [] {
      var init := rows[..|rows| - 1];
      GoodRowsMembers(init);
      assert rows == init + [rows[|rows| - 1]];
    }
  }

  /** A log of good rows is left as it is by filtering. */
  lemma {:induction false} GoodRowsOfGood(rows: seq<Row>)
    requires Complete(rows)
    ensures GoodRows(rows) == rows
  {
    if rows != [] {
      GoodRowsOfGood(rows[..|rows| - 1]);
    }
  }

  /**
   * readEntries' contract in the file's terms: an error exactly for a bad row
   * (or a failed read); without `filter` every row comes back, bad ones
   * included; with `filter` exactly the two-field rows come back, in order.
   */
  lemma EntriesContract(text: string)
    requires ReadAll(text).Some?
    ensures var rows := ReadAll(text).value;
      && (ReadError(text).None? <==> Complete(rows))
      && Entries(text, false) == rows
      && Entries(text, true) == GoodRows(rows)
      && |Entries(text, true)| == |rows| - |BadLines(rows)|
  {
    var rows := ReadAll(text).value;
    NoErrorIffAllGood(rows);
    GoodRowsCount(rows);
    if Validate(rows).None? {
      GoodRowsOfGood(rows);
    }
  }
}
