/** The persisted file: one `status|description|date` line per task.
    The file is a string (the bytes `save_tasks` writes, as characters);
    a file that cannot be opened, whether missing or refused, is `None`. */
module Store {
  import opened Wrappers
  import opened Text
  import opened Fields
  import opened Tasks

  /** The line `save_tasks` writes for one task, without its newline. */
  function EncodeLine(t: Task): string {
    StatusName(t.status) + "|" + t.description + "|" + t.date
  }

  /** The written line is the three fields joined by '|'. */
  lemma EncodeLineIsJoin(t: Task)
    ensures EncodeLine(t) == Join([StatusName(t.status), t.description, t.date], '|')
  {
    var fields := [StatusName(t.status), t.description, t.date];
    assert fields[1..] == [t.description, t.date];
    assert fields[1..][1..] == [t.date];
    assert Join([t.date], '|') == t.date;
    assert Join([t.description, t.date], '|') == t.description + "|" + t.date;
    assert Join(fields, '|') == StatusName(t.status) + "|" + (t.description + "|" + t.date);
  }

  /** The per-line step of `load_tasks`: a line with exactly three
      `|`-separated fields is a task, any other line is dropped. The status
      field goes through `ParseStatus`; the other two are kept verbatim. */
  function DecodeLine(line: string): (r: Option<Task>)
    ensures r.Some? <==> Occurrences(line, '|') == 2
    ensures r.Some? ==> '|' !in r.value.description && '|' !in r.value.date
    ensures r.Some? ==> exists name :: line == Join([name, r.value.description, r.value.date], '|')
                                       && ParseStatus(name) == r.value.status
  {
    var parts := Split(line, '|');
    if |parts| == 3 then
      JoinSplit(line, '|');
      assert line == Join([parts[0], parts[1], parts[2]], '|') by {
        assert parts == [parts[0], parts[1], parts[2]];
      }
      Some(Task(parts[1], ParseStatus(parts[0]), parts[2]))
    else None
  }

  /** A task survives a line round trip exactly when neither its description
      nor its date contains the separator. */
  lemma LineRoundTrip(t: Task)
    ensures DecodeLine(EncodeLine(t)) == Some(t) <==> ('|' !in t.description && '|' !in t.date)
  {
    var fields := [StatusName(t.status), t.description, t.date];
    EncodeLineIsJoin(t);
    if '|' !in t.description && '|' !in t.date {
      SplitJoin(fields, '|');
      StatusRoundTrip(t.status);
    }
  }

  /** `BufRead::lines`: the text cut at each '\n'; a '\r' right before a
      '\n' is dropped with it; text after the last '\n' is a final line
      only if it is non-empty. */
  function Lines(content: string): (r: seq<string>)
    ensures forall k :: 0 <= k < |r| ==> '\n' !in r[k]
    decreases |content|
  {
    if |content| == 0 then []
    else match IndexOf(content, '\n')
      case None => [content]
      case Some(i) => [StripCr(content[..i])] + Lines(content[i + 1..])
  }

  /** Drops one trailing '\r'. */
  function StripCr(line: string): (r: string)
    ensures '\n' !in line ==> '\n' !in r
  {
    if |line| > 0 && line[|line| - 1] == '\r' then line[..|line| - 1] else line
  }

  /** Lines each followed by '\n', as `save_tasks` writes them. */
  function Unlines(lines: seq<string>): string
    decreases |lines|
  {
    if |lines| == 0 then "" else lines[0] + "\n" + Unlines(lines[1..])
  }

  /** A line that `BufRead::lines` gives back unchanged after its '\n'. */
  predicate PlainLine(line: string) {
    '\n' !in line && !(|line| > 0 && line[|line| - 1] == '\r')
  }

  /** Reading back newline-terminated plain lines gives the same lines. */
  lemma {:induction false} LinesUnlines(lines: seq<string>)
    requires forall k :: 0 <= k < |lines| ==> PlainLine(lines[k])
    ensures Lines(Unlines(lines)) == lines
    decreases |lines|
  {
    if |lines| > 0 {
      LinesCons(lines[0], Unlines(lines[1..]));
      LinesUnlines(lines[1..]);
      assert lines == [lines[0]] + lines[1..];
    }
  }

  /** A plain line and its '\n' in front of more text read back as that
      line followed by the lines of the rest. */
  lemma LinesCons(line: string, rest: string)
    requires PlainLine(line)
    ensures Lines(line + "\n" + rest) == [line] + Lines(rest)
  {
    IndexOfAfter(line, '\n', rest);
    var s := line + ['\n'] + rest;
    assert s[..|line|] == line;
    assert s[|line| + 1..] == rest;
  }

  /** A line ended by "\r\n" reads back without the '\r', followed by the
      lines of the rest. */
  lemma LinesCrLf(line: string, rest: string)
    requires '\n' !in line
    ensures Lines(line + "\r\n" + rest) == [line] + Lines(rest)
  {
    var head := line + "\r";
    IndexOfAfter(head, '\n', rest);
    var s := head + ['\n'] + rest;
    assert s == line + "\r\n" + rest;
    assert s[..|head|] == head;
    assert s[|head| + 1..] == rest;
    assert head[..|head| - 1] == line;
  }

  /** The encoded line of each task, in order. */
  function EncodeAll(tasks: seq<Task>): (r: seq<string>)
    ensures |r| == |tasks|
    ensures forall k :: 0 <= k < |r| ==> r[k] == EncodeLine(tasks[k])
    decreases |tasks|
  {
    if |tasks| == 0 then [] else [EncodeLine(tasks[0])] + EncodeAll(tasks[1..])
  }

  /** The body of `save_tasks`: the whole file content, one
      newline-terminated line per task. */
  function Save(tasks: seq<Task>): string {
    Unlines(EncodeAll(tasks))
  }

  /** The loop of `load_tasks` over already-split lines. */
  function LoadLines(lines: seq<string>): (r: seq<Task>)
    ensures |r| <= |lines|
    ensures forall k :: 0 <= k < |r| ==> '|' !in r[k].description && '|' !in r[k].date
    decreases |lines|
  {
    if |lines| == 0 then []
    else LineTasks(lines[0]) + LoadLines(lines[1..])
  }

  /** What one line contributes to the collection: its task, or nothing. */
  function LineTasks(line: string): (r: seq<Task>)
    ensures |r| <= 1
    ensures forall k :: 0 <= k < |r| ==> '|' !in r[k].description && '|' !in r[k].date
  {
    match DecodeLine(line)
    case Some(t) => [t]
    case None => []
  }

  /** `load_tasks`: a file that cannot be opened is an empty collection.
      Loading never returns an error. */
  function Load(file: Option<string>): (r: seq<Task>)
    ensures file.None? ==> r == []
  {
    match file
    case None => []
    case Some(content) => LoadLines(Lines(content))
  }

  /** Loading is line by line: the tasks of two runs of lines are the tasks
      of the first followed by the tasks of the second, so well-formed lines
      keep their relative order. */
  lemma {:induction false} LoadLinesAppend(a: seq<string>, b: seq<string>)
    ensures LoadLines(a + b) == LoadLines(a) + LoadLines(b)
    decreases |a|
  {
    if |a| > 0 {
      assert (a + b)[0] == a[0];
      assert (a + b)[1..] == a[1..] + b;
      LoadLinesAppend(a[1..], b);
      calc {
        LoadLines(a + b);
        LineTasks(a[0]) + LoadLines(a[1..] + b);
        LineTasks(a[0]) + (LoadLines(a[1..]) + LoadLines(b));
        (LineTasks(a[0]) + LoadLines(a[1..])) + LoadLines(b);
      }
    } else {
      assert a + b == b;
    }
  }

  /** One line yields one task when it has exactly three fields and nothing
      otherwise. */
  lemma LoadOneLine(line: string)
    ensures Occurrences(line, '|') == 2 ==> LoadLines([line]) == [DecodeLine(line).value]
    ensures Occurrences(line, '|') != 2 ==> LoadLines([line]) == []
  {
    assert [line][1..] == [];
  }

  /** A malformed line between two runs of lines is skipped without
      disturbing the tasks around it. */
  lemma SkipMalformed(before: seq<string>, bad: string, after: seq<string>)
    requires Occurrences(bad, '|') != 2
    ensures LoadLines(before + [bad] + after) == LoadLines(before) + LoadLines(after)
  {
    LoadOneLine(bad);
    LoadLinesAppend(before, [bad]);
    var kept := LoadLines(before + [bad]);
    assert kept == LoadLines(before) by {
      assert kept == LoadLines(before) + [];
    }
    LoadLinesAppend(before + [bad], after);
  }

  /** A task whose fields the file format can carry: no '|' or '\n' in the
      description or date, and no '\r' ending the date (it would be taken for
      part of a "\r\n" line end). */
  predicate Storable(t: Task) {
    && '|' !in t.description && '|' !in t.date
    && '\n' !in t.description && '\n' !in t.date
    && !(|t.date| > 0 && t.date[|t.date| - 1] == '\r')
  }

  /** Every task of the collection is storable. */
  predicate AllStorable(tasks: seq<Task>) {
    forall k :: 0 <= k < |tasks| ==> Storable(tasks[k])
  }

  /** An encoded storable task is a plain line. */
  lemma EncodedIsPlain(t: Task)
    requires Storable(t)
    ensures PlainLine(EncodeLine(t))
  {
    var l := EncodeLine(t);
    if |t.date| > 0 {
      assert l[|l| - 1] == t.date[|t.date| - 1];
    }
  }

  /** Loading what was saved gives back the same collection: same order,
      statuses, descriptions and dates. */
  lemma SaveLoadRoundTrip(tasks: seq<Task>)
    requires AllStorable(tasks)
    ensures Load(Some(Save(tasks))) == tasks
  {
    forall k | 0 <= k < |tasks| ensures PlainLine(EncodeAll(tasks)[k]) {
      EncodedIsPlain(tasks[k]);
    }
    LinesUnlines(EncodeAll(tasks));
    DecodeEncoded(tasks);
  }

  /** A storable task's line loads as that task. */
  lemma StorableLineTasks(t: Task)
    requires Storable(t)
    ensures LineTasks(EncodeLine(t)) == [t]
  {
    LineRoundTrip(t);
  }

  /** Lines each of which decodes to the task at the same position load as
      exactly those tasks. */
  lemma {:induction false} LoadDecodable(lines: seq<string>, tasks: seq<Task>)
    requires |lines| == |tasks|
    requires forall k :: 0 <= k < |lines| ==> LineTasks(lines[k]) == [tasks[k]]
    ensures LoadLines(lines) == tasks
    decreases |lines|
  {
    if |lines| > 0 {
      LoadDecodable(lines[1..], tasks[1..]);
      assert tasks == [tasks[0]] + tasks[1..];
    }
  }

  /** Decoding the encoded lines of storable tasks gives the tasks back. */
  lemma DecodeEncoded(tasks: seq<Task>)
    requires AllStorable(tasks)
    ensures LoadLines(EncodeAll(tasks)) == tasks
  {
    var ls := EncodeAll(tasks);
    forall k | 0 <= k < |ls| ensures LineTasks(ls[k]) == [tasks[k]] {
      StorableLineTasks(tasks[k]);
    }
    LoadDecodable(ls, tasks);
  }
}
