/**
 * The interval mutators as functions of the file's text: what beginEntry,
 * endEntry and the dispatch rule of the next command return, what the file
 * holds afterwards and which lines they print. The current time is the
 * parameter `now`.
 */
module Mutators {
  import opened Wrappers
  import opened Csv
  import opened Validator

  /**
   * A line printed: an informative message on standard output, or the
   * warning about a format error on standard error.
   */
  datatype Output = Stdout(line: string) | Warning(report: FormatError)
  {
    /** The text of the line. */
    function Text(): string
    {
      if Stdout? then line else "Warning: " + report.Message()
    }
  }

  /** The result of one operation: the error it returns, the new text of the file, what it printed. */
  datatype Outcome = Outcome(err: Option<Error>, text: string, out: seq<Output>)

  /** inform: print unless quiet. */
  function Inform(quiet: bool, line: string): seq<Output>
  {
    if quiet then [] else [Stdout(line)]
  }

  /** The shape of the timestamps the program writes: non-empty and written without quotes. */
  predicate Stamp(now: string)
  {
    now != [] && !NeedsQuotes(now)
  }

  /** Writing `data` at `pos`: the bytes there are replaced, and the file grows when the data runs past its end. */
  function Overwrite(file: string, pos: nat, data: string): (r: string)
    requires pos <= |file|
    ensures |r| == if pos + |data| > |file| then pos + |data| else |file|
    ensures r[..pos] == file[..pos]
    ensures r[pos..pos + |data|] == data
    ensures pos + |data| < |file| ==> r[pos + |data|..] == file[pos + |data|..]
  {
    file[..pos] + data + (if pos + |data| < |file| then file[pos + |data|..] else [])
  }

  /**
   * Where endEntry starts writing: |first| + 1 bytes back from the end of the
   * file. A seek before the start of the file fails; the source ignores that
   * error, so the position stays at the end, where reading left it.
   */
  function RewriteOffset(size: nat, first: string): (p: nat)
    ensures p <= size
    ensures size >= |first| + 1 ==> p + |first| + 1 == size
    ensures size < |first| + 1 ==> p == size
  {
    if size >= |first| + 1 then size - (|first| + 1) else size
  }

  /** The file after endEntry has written the completed last row. */
  function Rewrite(text: string, last: Row, now: string): string
    requires |last| >= 1
  {
    Overwrite(text, RewriteOffset(|text|, last[0]), EncodeRow(last + [now]))
  }

  /**
   * The byte accounting of the rewrite: the completed row is longer than the
   * stretch it starts over, so nothing of the old file is left after it.
   */
  lemma RewriteReachesEnd(text: string, last: Row, now: string)
    requires |last| >= 1
    ensures Rewrite(text, last, now) == text[..RewriteOffset(|text|, last[0])] + EncodeRow(last + [now])
  {
    var r := last + [now];
    assert r[0] == last[0];
    assert EncodeFields(r) == EncodeField(r[0]) + [','] + EncodeFields(r[1..]);
  }

  /** beginEntry: refuse on a read failure, or on any format error in strict mode; otherwise append a row holding `now`. */
  function Begin(text: string, fail: bool, quiet: bool, now: string): Outcome
  {
    var e := ReadError(text);
    if e.Some? && (fail || !e.value.Format?) then Outcome(e, text, [])
    else
      Outcome(None, text + EncodeRow([now]),
              (if e.Some? then [Warning(e.value.report)] else []) + Inform(quiet, "BEGIN"))
  }

  /**
   * endEntry: complete the last row with `now` by writing it over the old
   * last line, when the last row is bad; refuse when no row is bad, when the
   * last row is good, or (in strict mode) when other rows are bad as well.
   */
  function End(text: string, fail: bool, quiet: bool, now: string): Outcome
  {
    match ReadAll(text)
    case None => Outcome(Some(ReadFailed), text, [])
    case Some(rows) =>
      match Validate(rows)
      case None => Outcome(Some(NoIncompleteEntry), text, [])
      case Some(report) =>
        if !report.lastIsBad || (|report.badLines| > 1 && fail) then Outcome(Some(Format(report)), text, [])
        else
          var last := rows[|rows| - 1];
          Outcome(None, Rewrite(text, last, now),
                  (if |report.badLines| > 1 then [Warning(report)] else []) + Inform(quiet, "END"))
  }

  /** The next command's rule: end when the last row is bad, begin otherwise (unless strict mode meets a bad row). */
  function Next(text: string, fail: bool, quiet: bool, now: string): Outcome
  {
    match ReadError(text)
    case None => Begin(text, fail, quiet, now)
    case Some(e) =>
      if e.Format? && e.report.lastIsBad then End(text, fail, quiet, now)
      else if e.Format? && !fail then Begin(text, fail, quiet, now)
      else Outcome(Some(e), text, [])
  }

  /** A row of one bare field written by the program is that field on a line of its own. */
  lemma SingleFieldLine(s: string)
    requires Stamp(s)
    ensures Writable([s]) && EncodeRow([s]) == s + "\n"
  {
    EncodeRowBare([s]);
  }

  /** A line `s` appended to a text of complete lines reads back as one more row, [s]. */
  lemma AppendLine(log: string, s: string)
    requires Plain(log) && Terminated(log) && Stamp(s)
    ensures Plain(log + (s + "\n")) && Terminated(log + (s + "\n"))
    ensures Records(log + (s + "\n")) == Records(log) + [[s]]
    ensures ReadAll(log + (s + "\n")) == Some(Records(log) + [[s]])
  {
    SingleFieldLine(s);
    EncodedRowReadsBack([s]);
    AppendRecord(log, s + "\n", Records(log), [s]);
  }

  /** The line `s,now` appended to a text of complete lines reads back as one more row, [s, now]. */
  lemma AppendClosedLine(log: string, s: string, now: string)
    requires Plain(log) && Terminated(log) && Stamp(s) && Stamp(now)
    ensures Plain(log + (s + "," + now + "\n")) && Terminated(log + (s + "," + now + "\n"))
    ensures Records(log + (s + "," + now + "\n")) == Records(log) + [[s, now]]
  {
    assert Writable([s, now]) && EncodeRow([s, now]) == s + "," + now + "\n" by {
      EncodeRowBare([s, now]);
      assert Join([s, now], ',') == s + [','] + now;
    }
    EncodedRowReadsBack([s, now]);
    AppendRecord(log, s + "," + now + "\n", Records(log), [s, now]);
  }

  /** A text of complete rows followed by the open entry `s` is reported as just incomplete. */
  lemma OpenLineReport(log: string, s: string)
    requires Plain(log) && Terminated(log) && Stamp(s)
    requires Complete(Records(log))
    ensures ReadError(log + (s + "\n")) == Some(Format(FormatError([|Records(log)| + 1], true)))
  {
    AppendLine(log, s);
    OpenTailError(log + (s + "\n"), Records(log), [s]);
  }

  /** A file that reads as complete rows and then one bad row: readEntries reports that row, and that the last entry is incomplete. */
  lemma OpenTailError(text: string, rows: seq<Row>, r: Row)
    requires ReadAll(text) == Some(rows + [r])
    requires Complete(rows) && !Good(r)
    ensures ReadError(text) == Some(Format(FormatError([|rows| + 1], true)))
  {
    OpenTailReport(rows, r);
  }

  /** A log of complete rows followed by one bad row is reported as just incomplete. */
  lemma OpenTailReport(rows: seq<Row>, r: Row)
    requires Complete(rows) && !Good(r)
    ensures Validate(rows + [r]) == Some(FormatError([|rows| + 1], true))
  {
    NoErrorIffAllGood(rows);
    var all := rows + [r];
    assert all[..|all| - 1] == rows;
    assert BadLines(rows) == [];
    assert BadLines(all) == [|rows| + 1];
    assert LastIsBad(all);
  }

  /** A log of complete rows followed by one more complete row has no error. */
  lemma ClosedTailGood(rows: seq<Row>, r: Row)
    requires Complete(rows) && Good(r)
    ensures Validate(rows + [r]).None?
  {
    NoErrorIffAllGood(rows + [r]);
  }

  /** beginEntry refuses exactly on a read failure, or on a format error in strict mode, and then changes nothing. */
  lemma BeginRefusal(text: string, fail: bool, quiet: bool, now: string)
    ensures var o := Begin(text, fail, quiet, now);
      && (o.err.Some? <==> !Plain(text) || (fail && !Complete(Records(text))))
      && (o.err.Some? ==> o.err == ReadError(text) && o.text == text && o.out == [])
  {
    if Plain(text) {
      var rows := Records(text);
      NoErrorIffAllGood(rows);
      assert ReadError(text).Some? <==> Validate(rows).Some?;
      assert ReadError(text).Some? ==> ReadError(text).value.Format?;
      var o := Begin(text, fail, quiet, now);
      assert o.err.Some? <==> ReadError(text).Some? && fail;
    }
  }

  /**
   * beginEntry appends one open entry: when it succeeds on a file ending in a
   * complete line, the file reads back as the old rows, unchanged, followed by
   * the single row [now].
   */
  lemma BeginAppendsEntry(text: string, fail: bool, quiet: bool, now: string)
    requires Begin(text, fail, quiet, now).err.None?
    requires Terminated(text) && Stamp(now)
    ensures Plain(text)
    ensures ReadAll(Begin(text, fail, quiet, now).text) == Some(Records(text) + [[now]])
  {
    assert Plain(text) && Begin(text, fail, quiet, now).text == text + (now + "\n") by {
      SingleFieldLine(now);
    }
    AppendLine(text, now);
  }

  /**
   * begin on a log whose rows are all complete: it succeeds without a
   * warning and appends the line `now`.
   */
  lemma BeginOnGoodLog(log: string, fail: bool, quiet: bool, now: string)
    requires Plain(log) && Stamp(now)
    requires Complete(Records(log))
    ensures Begin(log, fail, quiet, now) == Outcome(None, log + (now + "\n"), Inform(quiet, "BEGIN"))
  {
    NoErrorIffAllGood(Records(log));
    SingleFieldLine(now);
  }

  /**
   * begin on a file whose only bad row is the last (an entry begun and not
   * ended): strict mode refuses with that report and changes nothing; the
   * other mode appends the new row after the warning "last entry is incomplete".
   */
  lemma BeginOnIncomplete(text: string, fail: bool, quiet: bool, now: string, report: FormatError)
    requires ReadError(text) == Some(Format(report)) && report.JustIncomplete()
    ensures Begin(text, fail, quiet, now) ==
      if fail then Outcome(Some(Format(report)), text, [])
      else Outcome(None, text + EncodeRow([now]), [Warning(report)] + Inform(quiet, "BEGIN"))
  {
  }

  /**
   * begin run twice on a log of complete rows: the second run meets the
   * first one's open entry; strict mode refuses, the other mode writes a
   * second open entry after the warning.
   */
  lemma BeginTwice(log: string, fail: bool, quiet: bool, first: string, second: string)
    requires Plain(log) && Terminated(log) && Complete(Records(log)) && Stamp(first) && Stamp(second)
    ensures Begin(log, fail, quiet, first).text == log + (first + "\n")
    ensures var t := log + (first + "\n"); var report := FormatError([|Records(log)| + 1], true);
      Begin(t, fail, quiet, second) ==
        if fail then Outcome(Some(Format(report)), t, [])
        else Outcome(None, t + (second + "\n"), [Warning(report)] + Inform(quiet, "BEGIN"))
  {
    BeginOnGoodLog(log, fail, quiet, first);
    var t := log + (first + "\n");
    var report := FormatError([|Records(log)| + 1], true);
    OpenLineReport(log, first);
    SingleFieldLine(second);
    BeginOnIncomplete(t, fail, quiet, second, report);
  }

  /** endEntry refuses, and changes nothing, when no row is bad, when the last row is good, or in strict mode when other rows are bad too. */
  lemma EndRefusal(text: string, fail: bool, quiet: bool, now: string)
    ensures var o := End(text, fail, quiet, now);
      && (o.err.Some? ==> o.text == text && o.out == [])
      && (ReadError(text) == None ==> o.err == Some(NoIncompleteEntry))
      && (ReadError(text) == Some(ReadFailed) ==> o.err == Some(ReadFailed))
      && (forall report :: ReadError(text) == Some(Format(report)) ==>
            (o.err.Some? <==> !report.lastIsBad || (|report.badLines| > 1 && fail))
            && (o.err.Some? ==> o.err == ReadError(text)))
  {
  }

  /** On a log whose every row is complete (an empty one included) endEntry finds nothing to end. */
  lemma EndWithoutOpenEntry(text: string, fail: bool, quiet: bool, now: string)
    requires Plain(text) && Complete(Records(text))
    ensures End(text, fail, quiet, now) == Outcome(Some(NoIncompleteEntry), text, [])
  {
    NoErrorIffAllGood(Records(text));
  }

  /** endEntry on a file whose last row is bad: it proceeds unless strict mode meets other bad rows, and then writes the rewrite. */
  lemma EndOnBadLast(text: string, fail: bool, quiet: bool, now: string)
    requires Plain(text) && LastIsBad(Records(text))
    ensures var rows := Records(text); var o := End(text, fail, quiet, now);
      && (o.err.None? <==> !fail || |BadLines(rows)| == 1)
      && (o.err.None? ==> |rows| >= 1 && |rows[|rows| - 1]| >= 1 && o.text == Rewrite(text, rows[|rows| - 1], now))
  {
    var rows := Records(text);
    assert ReadAll(text) == Some(rows);
    assert Validate(rows) == Some(FormatError(BadLines(rows), true)) by {
      LastIsBadIsLastLine(rows);
    }
  }

  /** What endEntry prints when it proceeds: the warning only when rows other than the last are bad too. */
  lemma EndWarning(text: string, fail: bool, quiet: bool, now: string)
    requires Plain(text) && LastIsBad(Records(text))
    ensures var rows := Records(text); var o := End(text, fail, quiet, now);
      o.err.None? ==>
        o.out == if |BadLines(rows)| == 1 then Inform(quiet, "END")
                 else [Warning(FormatError(BadLines(rows), true))] + Inform(quiet, "END")
  {
    LastIsBadIsLastLine(Records(text));
  }

  /** The rewrite of a file ending in the open entry's line `s`: the bytes before the line stay, and the line becomes `s,now`. */
  lemma RewriteOpenLine(log: string, s: string, now: string)
    requires Stamp(s) && Stamp(now)
    ensures Rewrite(log + (s + "\n"), [s], now) == log + (s + "," + now + "\n")
  {
    RewriteReachesEnd(log + (s + "\n"), [s], now);
    assert [s] + [now] == [s, now];
    EncodeRowBare([s, now]);
    assert Join([s, now], ',') == s + [','] + now;
    assert (log + (s + "\n"))[..|log|] == log;
  }

  /**
   * endEntry on a file that ends with the open entry's line `s`: strict mode
   * ends it only when every row before it is complete; the other mode always
   * ends it.
   */
  lemma EndOpenLineRefusal(prefix: string, fail: bool, quiet: bool, now: string, s: string)
    requires Plain(prefix) && Terminated(prefix) && Stamp(s)
    ensures End(prefix + (s + "\n"), fail, quiet, now).err.None? <==> !fail || Complete(Records(prefix))
  {
    var t := prefix + (s + "\n");
    var rows := Records(prefix) + [[s]];
    assert Plain(t) && Records(t) == rows by {
      AppendLine(prefix, s);
    }
    assert LastIsBad(rows) && rows[..|rows| - 1] == Records(prefix);
    assert |BadLines(rows)| == 1 <==> Complete(Records(prefix)) by {
      JustIncompleteIff(rows);
      LastIsBadIsLastLine(rows);
    }
    assert End(t, fail, quiet, now).err.None? <==> !fail || |BadLines(rows)| == 1 by {
      EndOnBadLast(t, fail, quiet, now);
    }
  }

  /**
   * endEntry, when it ends the open entry `s`: the line becomes `s,now`,
   * every byte before it stays, and the file reads back as the same rows with
   * `now` added to the last one.
   */
  lemma EndClosesEntry(prefix: string, fail: bool, quiet: bool, now: string, s: string)
    requires Plain(prefix) && Terminated(prefix) && Stamp(s) && Stamp(now)
    ensures var o := End(prefix + (s + "\n"), fail, quiet, now);
      o.err.None? ==>
        && o.text == prefix + (s + "," + now + "\n")
        && ReadAll(o.text) == Some(Records(prefix) + [[s, now]])
  {
    var t := prefix + (s + "\n");
    var rows := Records(prefix) + [[s]];
    assert Plain(t) && Records(t) == rows by {
      AppendLine(prefix, s);
    }
    var o := End(t, fail, quiet, now);
    assert o.err.None? ==> o.text == Rewrite(t, [s], now) by {
      EndOnBadLast(t, fail, quiet, now);
      assert rows[|rows| - 1] == [s];
    }
    assert Rewrite(t, [s], now) == prefix + (s + "," + now + "\n") by {
      RewriteOpenLine(prefix, s, now);
    }
    assert ReadAll(prefix + (s + "," + now + "\n")) == Some(Records(prefix) + [[s, now]]) by {
      AppendClosedLine(prefix, s, now);
    }
  }

  /**
   * end right after begin on a log of complete rows, in either mode: no
   * warning, and the open line `start` becomes `start,stop`.
   */
  lemma EndAfterBegin(log: string, fail: bool, quiet: bool, start: string, stop: string)
    requires Plain(log) && Terminated(log) && Complete(Records(log)) && Stamp(start) && Stamp(stop)
    ensures End(log + (start + "\n"), fail, quiet, stop) == Outcome(None, log + (start + "," + stop + "\n"), Inform(quiet, "END"))
  {
    var t := log + (start + "\n");
    var rows := Records(log) + [[start]];
    assert Plain(t) && Records(t) == rows by {
      AppendLine(log, start);
    }
    assert BadLines(rows) == [|Records(log)| + 1] && LastIsBad(rows) by {
      OpenTailReport(Records(log), [start]);
    }
    var o := End(t, fail, quiet, stop);
    assert o.err.None? && o.text == Rewrite(t, [start], stop) by {
      EndOnBadLast(t, fail, quiet, stop);
      assert rows[|rows| - 1] == [start];
    }
    assert o.out == Inform(quiet, "END") by {
      EndWarning(t, fail, quiet, stop);
    }
    assert Rewrite(t, [start], stop) == log + (start + "," + stop + "\n") by {
      RewriteOpenLine(log, start, stop);
    }
  }

  /** The line `start,stop` completes the log again: it reads back as the old rows and [start, stop], with no error. */
  lemma ClosedLogGood(log: string, start: string, stop: string)
    requires Plain(log) && Terminated(log) && Complete(Records(log)) && Stamp(start) && Stamp(stop)
    ensures ReadAll(log + (start + "," + stop + "\n")) == Some(Records(log) + [[start, stop]])
    ensures ReadError(log + (start + "," + stop + "\n")) == None
  {
    AppendClosedLine(log, start, stop);
    ClosedTailGood(Records(log), [start, stop]);
  }

  /** The next command ends the entry exactly when the file's last row is bad. */
  lemma NextEndsOpenEntry(text: string, fail: bool, quiet: bool, now: string)
    requires Plain(text) && LastIsBad(Records(text))
    ensures Next(text, fail, quiet, now) == End(text, fail, quiet, now)
  {
    LastIsBadIsLastLine(Records(text));
  }

  /**
   * Otherwise it begins a new entry, unless strict mode meets a bad row,
   * which it returns as the error.
   */
  lemma NextBeginsOtherwise(text: string, fail: bool, quiet: bool, now: string)
    requires Plain(text) && !LastIsBad(Records(text))
    ensures Next(text, fail, quiet, now) ==
      if Complete(Records(text)) || !fail then Begin(text, fail, quiet, now)
      else Outcome(ReadError(text), text, [])
  {
    NoErrorIffAllGood(Records(text));
  }

  /** A failed read stops the next command with that error. */
  lemma NextReadFailure(text: string, fail: bool, quiet: bool, now: string)
    requires !Plain(text)
    ensures Next(text, fail, quiet, now) == Outcome(Some(ReadFailed), text, [])
  {
  }

  /**
   * Two runs of the next command on a log of complete rows: the first
   * begins an entry, the second ends it.
   */
  lemma NextTwice(log: string, fail: bool, quiet: bool, start: string, stop: string)
    requires Plain(log) && Terminated(log) && Complete(Records(log)) && Stamp(start) && Stamp(stop)
    ensures Next(log, fail, quiet, start) == Outcome(None, log + (start + "\n"), Inform(quiet, "BEGIN"))
    ensures Next(log + (start + "\n"), fail, quiet, stop) == Outcome(None, log + (start + "," + stop + "\n"), Inform(quiet, "END"))
  {
    assert ReadError(log) == None by {
      NoErrorIffAllGood(Records(log));
    }
    BeginOnGoodLog(log, fail, quiet, start);
    OpenLineReport(log, start);
    EndAfterBegin(log, fail, quiet, start, stop);
  }
}
