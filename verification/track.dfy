/**
 * The times file as the commands see it: an open file whose contents the
 * mutators read from the start and then write into, and the lines the
 * program has printed so far. Each method reads the file through
 * readEntries, decides as the source does and writes in place; its contract
 * ties the new state to the functions of the Mutators module, about which
 * the properties of the commands are proved.
 */
module Track {
  import opened Wrappers
  import opened Csv
  import opened Validator
  import opened Mutators
  import opened Aggregate

  class TimesFile {
    /** The bytes of the file. */
    var text: string
    /** Every line printed so far, on standard output or standard error. */
    var emitted: seq<Output>

    constructor (contents: string)
      ensures text == contents && emitted == []
    {
      text := contents;
      emitted := [];
    }

    /** inform: print the line unless quiet. */
    method Inform(quiet: bool, line: string)
      modifies this
      ensures text == old(text)
      ensures emitted == old(emitted) + Mutators.Inform(quiet, line)
    {
      if !quiet {
        emitted := emitted + [Stdout(line)];
      }
    }

    /**
     * beginEntry: read every row; on a read failure, or on a format error in
     * strict mode, return the error; otherwise warn about a format error and
     * write a row holding `now` where the reading stopped, at the end.
     */
    method BeginEntry(fail: bool, quiet: bool, now: string) returns (err: Option<Error>)
      modifies this
      ensures var o := Mutators.Begin(old(text), fail, quiet, now);
        err == o.err && text == o.text && emitted == old(emitted) + o.out
    {
      var _, e := ReadEntries(text, false);
      if e.Some? {
        if fail || !e.value.Format? {
          return e;
        }
        emitted := emitted + [Warning(e.value.report)];
      }
      text := text + EncodeRow([now]);
      Inform(quiet, "BEGIN");
      err := None;
    }

    /**
     * endEntry: read every row; when the last one is bad (and, in strict
     * mode, no other is), seek |first field| + 1 bytes back from the end and
     * write the last row completed with `now` over what is there.
     */
    method EndEntry(fail: bool, quiet: bool, now: string) returns (err: Option<Error>)
      modifies this
      ensures var o := Mutators.End(old(text), fail, quiet, now);
        err == o.err && text == o.text && emitted == old(emitted) + o.out
    {
      var entries, e := ReadEntries(text, false);
      if e.None? {
        return Some(NoIncompleteEntry);
      }
      if !e.value.Format? || !e.value.report.lastIsBad {
        return e;
      }
      var report := e.value.report;
      assert Plain(text) && entries == Records(text) && Validate(entries) == Some(report);
      assert |entries| > 0 && |entries[|entries| - 1]| >= 1;
      if |report.badLines| > 1 && fail {
        return e;
      }
      var warning := if |report.badLines| > 1 then [Warning(report)] else [];
      emitted := emitted + warning;
      var last := entries[|entries| - 1];
      RewindAndWrite(last + [now]);
      Inform(quiet, "END");
      assert emitted == old(emitted) + (warning + Mutators.Inform(quiet, "END"));
      err := None;
    }

    /**
     * endEntry's rewrite: reading left the position at the end; seek
     * |first field| + 1 bytes back (a seek before the start fails and leaves
     * the position where it was) and write the row there.
     */
    method RewindAndWrite(row: Row)
      requires |row| >= 1
      modifies this
      ensures emitted == old(emitted)
      ensures text == Overwrite(old(text), RewriteOffset(|old(text)|, row[0]), EncodeRow(row))
    {
      var pos := |text|;
      if |row[0]| + 1 <= pos {
        pos := pos - (|row[0]| + 1);
      }
      text := Overwrite(text, pos, EncodeRow(row));
    }

    /** The next command: end the entry when the last row is bad, otherwise begin one (unless strict mode meets a bad row). */
    method Next(fail: bool, quiet: bool, now: string) returns (err: Option<Error>)
      modifies this
      ensures var o := Mutators.Next(old(text), fail, quiet, now);
        err == o.err && text == o.text && emitted == old(emitted) + o.out
    {
      var _, e := ReadEntries(text, false);
      if e.None? {
        err := BeginEntry(fail, quiet, now);
      } else if e.value.Format? && e.value.report.lastIsBad {
        err := EndEntry(fail, quiet, now);
      } else if e.value.Format? && !fail {
        err := BeginEntry(fail, quiet, now);
      } else {
        err := e;
      }
    }

    /** The end command: endEntry in strict mode, whatever the fail flag says. */
    method End(quiet: bool, now: string) returns (err: Option<Error>)
      modifies this
      ensures var o := Mutators.End(old(text), true, quiet, now);
        err == o.err && text == o.text && emitted == old(emitted) + o.out
    {
      err := EndEntry(true, quiet, now);
    }

    /**
     * The total command: read the good rows; a read failure, or in strict
     * mode a format error other than an incomplete last entry, is returned;
     * any other format error is a warning. Then add up the duration of every
     * good row into a 64-bit sum. The file is not changed.
     */
    method Total(fail: bool, seconds: string -> int) returns (sum: int, err: Option<Error>)
      modifies this
      ensures text == old(text)
      ensures var e := ReadError(text);
        if e.Some? && (!e.value.Format? || (fail && !e.value.report.JustIncomplete())) then
          err == e && sum == 0 && emitted == old(emitted)
        else
          && err == None
          && emitted == old(emitted) + (if e.Some? then [Warning(e.value.report)] else [])
          && HasEnd(Entries(text, true))
          && sum == Wrap(Sum(seconds, Entries(text, true)))
    {
      var entries, e := ReadEntries(text, true);
      if e.Some? {
        if !e.value.Format? || (fail && !e.value.report.JustIncomplete()) {
          return 0, e;
        }
        emitted := emitted + [Warning(e.value.report)];
      }
      assert HasEnd(entries) by {
        GoodEntries(text);
      }
      sum := SumDurations(seconds, entries);
      err := None;
    }
  }

  /** With filtering, readEntries returns only rows of two fields, whatever the file holds. */
  lemma GoodEntries(text: string)
    ensures Complete(Entries(text, true))
    ensures forall i :: 0 <= i < |Entries(text, true)| ==> |Entries(text, true)[i]| == 2
  {
    if ReadAll(text).Some? {
      EntriesContract(text);
    }
  }
}
