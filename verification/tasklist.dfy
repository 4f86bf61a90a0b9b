/** Parsing the output of `tasklist /FO CSV /NH` into process records, as both
    revisions of the program do it: the stdout is stripped and split on
    newlines, blank lines are skipped, each remaining line has its outer
    quotes stripped and is split on the literal `","` (not a real CSV parse),
    and the name is the first field with quotes stripped. The tray revision
    keeps every non-blank line; the window revision keeps only lines with at
    least four fields and also takes the memory column (field 3).
 */
module Tasklist {
  import opened Wrappers
  import opened PyStr

  /** The field separator of tasklist's CSV output: `","`. */
  const FieldSep: string := "\",\""

  const Quotes: set<char> := {'"'}

  /** One line of tasklist output. The tray revision records only the image
      name; the window revision also records the memory column. */
  datatype TaskRecord = TaskRecord(name: string, memory: Option<string>)

  /** The fields of a line as the program sees them. */
  function Fields(line: string): (parts: seq<string>)
    ensures |parts| >= 1
  {
    Split(Strip(line, Quotes), FieldSep)
  }

  /** The image name read from a line: the first field with its quotes
      stripped. It neither starts nor ends with a quote and never contains
      the field separator. */
  function NameOf(line: string): (name: string)
    ensures |name| > 0 ==> name[0] != '"' && name[|name| - 1] != '"'
    ensures !Contains(name, FieldSep)
  {
    var f := Fields(line)[0];
    var i := StripStart(f, Quotes, 0);
    SliceFree(f, FieldSep, i, StripEnd(f, Quotes, i, |f|));
    Strip(f, Quotes)
  }

  /** The image name is the text of the quote-stripped line before its
      first `","` (all of it when there is none), with quotes stripped. */
  lemma NameBeforeFirstSeparator(line: string)
    ensures var s := Strip(line, Quotes);
      NameOf(line) == Strip(match FindFrom(s, FieldSep, 0) case Some(k) => s[..k] case None => s, Quotes)
  {
    var s := Strip(line, Quotes);
    assert Fields(line) == Split(s, FieldSep);
  }

  /** The tray revision reads one record from every non-blank line. */
  function TrayLine(line: string): (r: Option<TaskRecord>)
    ensures r.Some? <==> !IsBlank(line)
    ensures r.Some? ==> r.value.name == NameOf(line) && r.value.memory.None?
  {
    if Strip(line, Whitespace) == [] then None else Some(TaskRecord(NameOf(line), None))
  }

  /** The window revision reads a record only from a non-blank line with at
      least four fields; the fourth field, quotes stripped, is the memory
      column. */
  function WindowLine(line: string): (r: Option<TaskRecord>)
    ensures r.Some? <==> !IsBlank(line) && |Fields(line)| >= 4
    ensures r.Some? ==> r.value.name == NameOf(line) && r.value.memory.Some?
  {
    if Strip(line, Whitespace) == [] then None
    else
      var parts := Fields(line);
      if |parts| >= 4 then Some(TaskRecord(Strip(parts[0], Quotes), Some(Strip(parts[3], Quotes))))
      else None
  }

  /** The lines of a tasklist stdout: `stdout.strip().split('\n')`. */
  function Lines(stdout: string): (lines: seq<string>)
    ensures |lines| >= 1
  {
    Split(Strip(stdout, Whitespace), "\n")
  }

  /** The records read from a list of lines, one per line that yields one,
      in line order. */
  function Collect(lines: seq<string>, read: string -> Option<TaskRecord>): (r: seq<TaskRecord>)
    ensures |r| <= |lines|
    decreases |lines|
  {
    if |lines| == 0 then []
    else
      var head := match read(lines[0]) case Some(rec) => [rec] case None => [];
      head + Collect(lines[1..], read)
  }

  /** Lines are read independently and in order: the records of two blocks
      of lines are the records of the first block followed by those of the
      second. */
  lemma {:induction false} CollectAppend(a: seq<string>, b: seq<string>, read: string -> Option<TaskRecord>)
    ensures Collect(a + b, read) == Collect(a, read) + Collect(b, read)
    decreases |a|
  {
    if |a| > 0 {
      assert (a + b)[1..] == a[1..] + b;
      assert (a + b)[0] == a[0];
      CollectAppend(a[1..], b, read);
    } else {
      assert a + b == b;
    }
  }

  /** Every line that yields a record contributes exactly that record. */
  lemma CollectKeeps(lines: seq<string>, read: string -> Option<TaskRecord>, i: nat)
    requires i < |lines| && read(lines[i]).Some?
    ensures read(lines[i]).value in Collect(lines, read)
  {
    assert lines == lines[..i] + [lines[i]] + lines[i + 1..];
    CollectAppend(lines[..i] + [lines[i]], lines[i + 1..], read);
    CollectAppend(lines[..i], [lines[i]], read);
    assert [lines[i]][1..] == [];
  }

  /** `get_current_processes` in the tray revision, before merging: one
      record per non-blank line of the stripped stdout. */
  function TrayRecords(stdout: string): seq<TaskRecord>
  {
    Collect(Lines(stdout), TrayLine)
  }

  /** `refresh_processes` in the window revision, before merging: one record
      per non-blank line with at least four fields. */
  function WindowRecords(stdout: string): seq<TaskRecord>
  {
    Collect(Lines(stdout), WindowLine)
  }

  /** A line as tasklist writes it: every field wrapped in quotes, fields
      separated by commas. */
  function CsvLine(fields: seq<string>): string
    requires |fields| >= 1
  {
    "\"" + Join(fields, FieldSep) + "\""
  }

  /** A field as tasklist writes it: non-empty and free of quotes. */
  predicate PlainField(f: string) {
    |f| > 0 && '"' !in f
  }

  /** The parser recovers the fields of a well-formed tasklist line. */
  lemma {:induction false} FieldsOfCsvLine(fields: seq<string>)
    requires |fields| >= 1
    requires forall k :: 0 <= k < |fields| ==> PlainField(fields[k])
    ensures Fields(CsvLine(fields)) == fields
  {
    var body := Join(fields, FieldSep);
    JoinEnds(fields);
    StripWrapped(body, '"', Quotes);
    assert CsvLine(fields) == ['"'] + body + ['"'];
    SplitJoin(fields, FieldSep);
  }

  /** A joined line starts with its first field and ends with its last. */
  lemma {:induction false} JoinEnds(fields: seq<string>)
    requires |fields| >= 1
    requires forall k :: 0 <= k < |fields| ==> PlainField(fields[k])
    ensures var s := Join(fields, FieldSep);
      |s| > 0 && s[0] != '"' && s[|s| - 1] != '"'
    decreases |fields|
  {
    var f := fields[0];
    assert PlainField(f);
    assert f[0] in f;
    if |fields| > 1 {
      JoinEnds(fields[1..]);
    } else {
      assert f[|f| - 1] in f;
    }
  }

  /** A well-formed line is never blank: it starts with a quote. */
  lemma CsvLineNotBlank(fields: seq<string>)
    requires |fields| >= 1
    ensures Strip(CsvLine(fields), Whitespace) != []
  {
    var line := CsvLine(fields);
    assert line[0] == '"';
    assert '"' !in Whitespace;
  }

  /** On a well-formed line the tray revision reads the first field as the
      name. */
  lemma TrayLineOfCsvLine(fields: seq<string>)
    requires |fields| >= 1
    requires forall k :: 0 <= k < |fields| ==> PlainField(fields[k])
    ensures TrayLine(CsvLine(fields)) == Some(TaskRecord(fields[0], None))
  {
    CsvLineNotBlank(fields);
    FieldsOfCsvLine(fields);
    PlainStripped(fields[0]);
  }

  /** On a well-formed line the window revision reads the first field as the
      name and the fourth as the memory column, and drops lines with fewer
      than four fields. */
  lemma WindowLineOfCsvLine(fields: seq<string>)
    requires |fields| >= 1
    requires forall k :: 0 <= k < |fields| ==> PlainField(fields[k])
    ensures WindowLine(CsvLine(fields))
      == if |fields| >= 4 then Some(TaskRecord(fields[0], Some(fields[3]))) else None
  {
    var line := CsvLine(fields);
    CsvLineNotBlank(fields);
    FieldsOfCsvLine(fields);
    if |fields| >= 4 {
      assert PlainField(fields[0]) && PlainField(fields[3]);
      WindowLineOfPlainFields(line);
    }
  }

  lemma WindowLineOfPlainFields(line: string)
    requires Strip(line, Whitespace) != []
    requires |Fields(line)| >= 4 && PlainField(Fields(line)[0]) && PlainField(Fields(line)[3])
    ensures WindowLine(line) == Some(TaskRecord(Fields(line)[0], Some(Fields(line)[3])))
  {
    PlainStripped(Fields(line)[0]);
    PlainStripped(Fields(line)[3]);
  }

  /** Stripping quotes leaves a plain field unchanged. */
  lemma PlainStripped(f: string)
    requires PlainField(f)
    ensures Strip(f, Quotes) == f
  {
    assert f[0] in f && f[|f| - 1] in f;
    assert StripStart(f, Quotes, 0) == 0;
    assert StripEnd(f, Quotes, 0, |f|) == |f|;
    assert f[0..|f|] == f;
  }
}
