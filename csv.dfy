/** The CSV text the component exports.

    One header line, then one line per task with its five fields in a fixed order; fields are joined
    by commas and lines by newlines, with no quoting or escaping at all (so the text is not RFC 4180
    CSV when a field holds a comma, a newline or a double quote). `Split` is the inverse of `Join`
    used to state what the text encodes and when it can be read back. */
module TaskCsv {
  import opened Tasks

  /** Concatenate `parts` with `sep` between neighbours, as JavaScript's `Array.prototype.join`. */
  function Join(parts: seq<string>, sep: char): string {
    if |parts| == 0 then ""
    else if |parts| == 1 then parts[0]
    else parts[0] + [sep] + Join(parts[1..], sep)
  }

  /** Cut `s` at every `sep`, as JavaScript's `String.prototype.split` with a one-character separator. */
  function Split(s: string, sep: char): (parts: seq<string>)
    ensures |parts| >= 1
  {
    if s == [] then [""]
    else
      var rest := Split(s[1..], sep);
      if s[0] == sep then [""] + rest
      else [[s[0]] + rest[0]] + rest[1..]
  }

  /** The header line: the five column names joined by commas. */
  const Header: string := "Title,Description,Due Date,Priority,Status"

  /** The five cells of a task's line, in the header's order. */
  function Fields(t: Task): (cells: seq<string>)
    ensures |cells| == 5
  {
    [t.title, t.description, t.dueDate, PriorityName(t.priority), t.status]
  }

  /** The five cells determine the task: two tasks with the same cells are the same task, so any
      loss of information in the export comes from joining the cells, not from choosing them. */
  lemma FieldsInjective(a: Task, b: Task)
    ensures Fields(a) == Fields(b) ==> a == b
  {
    if Fields(a) == Fields(b) {
      assert PriorityName(a.priority) == PriorityName(b.priority);
    }
  }

  /** One line per task, in list order. */
  function Rows(tasks: seq<Task>): (rows: seq<string>)
    ensures |rows| == |tasks|
    ensures forall i :: 0 <= i < |tasks| ==> rows[i] == Join(Fields(tasks[i]), ',')
  {
    if tasks == [] then [] else [Join(Fields(tasks[0]), ',')] + Rows(tasks[1..])
  }

  /** The exported text: the header line, then the task lines, joined by newlines. */
  function GenerateCSV(tasks: seq<Task>): (csv: string)
    ensures Header <= csv
  {
    Join([Header] + Rows(tasks), '\n')
  }

  /** Joining one more part appends a separator and that part. */
  lemma {:induction false} JoinSnoc(parts: seq<string>, p: string, sep: char)
    requires parts != []
    ensures Join(parts + [p], sep) == Join(parts, sep) + [sep] + p
  {
    if |parts| == 1 {
      assert parts + [p] == [parts[0], p];
    } else {
      assert (parts + [p])[1..] == parts[1..] + [p];
      JoinSnoc(parts[1..], p, sep);
    }
  }

  /** Splitting a part free of the separator gives that part alone. */
  lemma {:induction false} SplitPlain(p: string, sep: char)
    requires sep !in p
    ensures Split(p, sep) == [p]
  {
    if p != [] {
      SplitPlain(p[1..], sep);
      assert [p[0]] + p[1..] == p;
    }
  }

  /** Splitting stops at the first separator after a separator-free prefix. */
  lemma {:induction false} SplitAfter(p: string, rest: string, sep: char)
    requires sep !in p
    ensures Split(p + [sep] + rest, sep) == [p] + Split(rest, sep)
  {
    if p == [] {
      assert p + [sep] + rest == [sep] + rest;
      assert ([sep] + rest)[1..] == rest;
    } else {
      var s := p + [sep] + rest;
      assert s[0] == p[0] && s[1..] == p[1..] + [sep] + rest;
      SplitAfter(p[1..], rest, sep);
      assert [p[0]] + p[1..] == p;
    }
  }

  /** `Split` inverts `Join` exactly when no part contains the separator. */
  lemma {:induction false} SplitJoin(parts: seq<string>, sep: char)
    requires parts != []
    requires forall i :: 0 <= i < |parts| ==> sep !in parts[i]
    ensures Split(Join(parts, sep), sep) == parts
  {
    if |parts| == 1 {
      SplitPlain(parts[0], sep);
    } else {
      SplitJoin(parts[1..], sep);
      SplitAfter(parts[0], Join(parts[1..], sep), sep);
    }
  }

  /** Joining the parts of a split gives the text back, whatever the text holds: `Split` loses
      nothing, so a text is fixed by its parts. */
  lemma {:induction false} JoinSplit(s: string, sep: char)
    ensures Join(Split(s, sep), sep) == s
  {
    if s != [] {
      var rest := Split(s[1..], sep);
      JoinSplit(s[1..], sep);
      if s[0] == sep {
        assert ([""] + rest)[1..] == rest;
        assert s == [sep] + s[1..];
      } else if |rest| == 1 {
        assert s == [s[0]] + s[1..];
      } else {
        var parts := [[s[0]] + rest[0]] + rest[1..];
        assert parts[1..] == rest[1..];
        assert Join(parts, sep) == [s[0]] + (rest[0] + [sep] + Join(rest[1..], sep));
        assert s == [s[0]] + s[1..];
      }
    }
  }

  /** With no tasks, the export is the header line and nothing else. */
  lemma EmptyListIsHeaderOnly()
    ensures GenerateCSV([]) == "Title,Description,Due Date,Priority,Status"
  {
    assert [Header] + Rows([]) == [Header];
  }

  /** One more task adds one more line at the end, and changes nothing before it. */
  lemma GenerateCSVAppend(tasks: seq<Task>, t: Task)
    ensures GenerateCSV(tasks + [t]) == GenerateCSV(tasks) + "\n" + Join(Fields(t), ',')
  {
    var lines := [Header] + Rows(tasks);
    assert [Header] + Rows(tasks + [t]) == lines + [Join(Fields(t), ',')];
    JoinSnoc(lines, Join(Fields(t), ','), '\n');
  }

  /** No cell of any task holds a newline. */
  predicate NoNewlines(tasks: seq<Task>) {
    forall i, j :: 0 <= i < |tasks| && 0 <= j < 5 ==> '\n' !in Fields(tasks[i])[j]
  }

  /** When no cell holds a newline, the text has exactly 1 + |tasks| lines: the header, then the line
      of each task in list order. */
  lemma Lines(tasks: seq<Task>)
    ensures NoNewlines(tasks) ==> Split(GenerateCSV(tasks), '\n') == [Header] + Rows(tasks)
  {
    if NoNewlines(tasks) {
      var lines := [Header] + Rows(tasks);
      HeaderIsOneLine();
      forall i | 0 <= i < |lines| ensures '\n' !in lines[i] {
        if i > 0 {
          var fields := Fields(tasks[i - 1]);
          forall j | 0 <= j < 5 ensures '\n' !in fields[j] {
          }
          JoinFree(fields, ',', '\n');
        }
      }
      SplitJoin(lines, '\n');
    }
  }

  lemma HeaderIsOneLine()
    ensures '\n' !in Header
  {
  }

  /** A joined text holds a character other than the separator only if some part holds it. */
  lemma {:induction false} JoinFree(parts: seq<string>, sep: char, c: char)
    requires c != sep
    requires forall i :: 0 <= i < |parts| ==> c !in parts[i]
    ensures c !in Join(parts, sep)
  {
    if |parts| > 1 {
      JoinFree(parts[1..], sep, c);
    }
  }

  /** No cell of the task holds a comma. */
  predicate NoCommas(t: Task) {
    forall j :: 0 <= j < 5 ==> ',' !in Fields(t)[j]
  }

  /** A task's line splits back into its five cells exactly when no cell holds a comma. */
  lemma RowFields(t: Task)
    ensures NoCommas(t) ==> Split(Join(Fields(t), ','), ',') == Fields(t)
    ensures !NoCommas(t) ==> |Split(Join(Fields(t), ','), ',')| > 5
  {
    if NoCommas(t) {
      SplitJoin(Fields(t), ',');
    } else {
      SplitJoinCount(Fields(t), ',');
    }
  }

  /** The number of separators in a text. */
  function Count(s: string, c: char): nat {
    if s == [] then 0 else (if s[0] == c then 1 else 0) + Count(s[1..], c)
  }

  lemma {:induction false} CountAppend(a: string, b: string, c: char)
    ensures Count(a + b, c) == Count(a, c) + Count(b, c)
  {
    if a == [] {
      assert a + b == b;
    } else {
      assert (a + b)[1..] == a[1..] + b;
      CountAppend(a[1..], b, c);
    }
  }

  /** `Split` yields one more part than there are separators. */
  lemma {:induction false} SplitCount(s: string, sep: char)
    ensures |Split(s, sep)| == Count(s, sep) + 1
  {
    if s != [] {
      SplitCount(s[1..], sep);
    }
  }

  /** A character occurs in a text exactly when it is counted at least once. */
  lemma {:induction false} CountPositive(s: string, c: char)
    ensures c in s <==> Count(s, c) > 0
  {
    if s != [] {
      CountPositive(s[1..], c);
      assert s == [s[0]] + s[1..];
    }
  }

  /** Joining puts one separator between neighbours, on top of those inside the parts, so a part that
      holds the separator makes splitting return more parts than were joined. */
  lemma {:induction false} SplitJoinCount(parts: seq<string>, sep: char)
    requires parts != []
    ensures |Split(Join(parts, sep), sep)| >= |parts|
    ensures (exists i :: 0 <= i < |parts| && sep in parts[i]) ==> |Split(Join(parts, sep), sep)| > |parts|
  {
    SplitCount(Join(parts, sep), sep);
    JoinCount(parts, sep);
    if exists i :: 0 <= i < |parts| && sep in parts[i] {
      var i :| 0 <= i < |parts| && sep in parts[i];
      CountPositive(parts[i], sep);
      SumCountsAtLeast(parts, sep, i);
    }
  }

  /** The sum of the separator counts of the parts. */
  function SumCounts(parts: seq<string>, sep: char): nat {
    if parts == [] then 0 else Count(parts[0], sep) + SumCounts(parts[1..], sep)
  }

  lemma {:induction false} SumCountsAtLeast(parts: seq<string>, sep: char, i: nat)
    requires i < |parts|
    ensures SumCounts(parts, sep) >= Count(parts[i], sep)
  {
    if i > 0 {
      SumCountsAtLeast(parts[1..], sep, i - 1);
    }
  }

  /** A joined text holds the separators of its parts plus one between each pair of neighbours. */
  lemma {:induction false} JoinCount(parts: seq<string>, sep: char)
    requires parts != []
    ensures Count(Join(parts, sep), sep) == SumCounts(parts, sep) + |parts| - 1
  {
    if |parts| == 1 {
      assert parts[1..] == [];
    } else {
      JoinCount(parts[1..], sep);
      CountAppend(parts[0] + [sep], Join(parts[1..], sep), sep);
      CountAppend(parts[0], [sep], sep);
      assert Count([sep], sep) == 1 by {
        assert [sep][1..] == [];
      }
    }
  }

  /** A line of five cells. */
  lemma JoinFive(a: string, b: string, c: string, d: string, e: string, sep: char)
    ensures Join([a, b, c, d, e], sep) == a + ([sep] + (b + ([sep] + (c + ([sep] + (d + ([sep] + e)))))))
  {
    assert [a, b, c, d, e][1..] == [b, c, d, e];
    assert [b, c, d, e][1..] == [c, d, e];
    assert [c, d, e][1..] == [d, e];
    assert [d, e][1..] == [e];
    assert Join([d, e], sep) == d + ([sep] + e);
    assert Join([c, d, e], sep) == c + ([sep] + Join([d, e], sep));
    assert Join([b, c, d, e], sep) == b + ([sep] + Join([c, d, e], sep));
  }

  /** The header line is the five column names joined by commas. */
  lemma HeaderIsJoin()
    ensures Header == Join(["Title", "Description", "Due Date", "Priority", "Status"], ',')
  {
    JoinFive("Title", "Description", "Due Date", "Priority", "Status", ',');
  }

  /** The export of a single task: the header line, a newline, the task's line. */
  lemma SingleTask(t: Task)
    ensures GenerateCSV([t]) == Header + "\n" + Join(Fields(t), ',')
  {
    GenerateCSVAppend([], t);
  }

  /** Without quoting the export loses information: two different tasks can give the same text. */
  lemma UnquotedLinesCollide()
    ensures var a := Task("a,b", "c", "2024-01-01", High, "to-do");
            var b := Task("a", "b,c", "2024-01-01", High, "to-do");
            a != b && GenerateCSV([a]) == GenerateCSV([b])
  {
    var a := Task("a,b", "c", "2024-01-01", High, "to-do");
    var b := Task("a", "b,c", "2024-01-01", High, "to-do");
    assert a.title != b.title;
    SingleTask(a);
    SingleTask(b);
    var tail := [','] + ("2024-01-01" + ([','] + ("high" + ([','] + "to-do"))));
    JoinFive("a,b", "c", "2024-01-01", "high", "to-do", ',');
    JoinFive("a", "b,c", "2024-01-01", "high", "to-do", ',');
    assert "a,b" == ['a', ',', 'b'] && "c" == ['c'] && "a" == ['a'] && "b,c" == ['b', ',', 'c'];
    CommaMoves('a', 'b', 'c', tail);
  }

  /** A comma inside the first cell and one inside the second are indistinguishable after joining. */
  lemma CommaMoves(a: char, b: char, c: char, tail: string)
    ensures [a, ',', b] + ([','] + ([c] + tail)) == [a] + ([','] + ([b, ',', c] + tail))
  {
    assert [a, ',', b] + ([','] + ([c] + tail)) == [a, ',', b, ',', c] + tail;
    assert [a] + ([','] + ([b, ',', c] + tail)) == [a, ',', b, ',', c] + tail;
  }

  /** The example export of a single task: the header, a newline, then the task's five cells
      separated by commas. */
  lemma SingleTaskExample()
    ensures GenerateCSV([Task("A", "B", "2024-01-01", High, "to-do")])
         == "Title,Description,Due Date,Priority,Status" + "\n"
          + "A" + "," + "B" + "," + "2024-01-01" + "," + "high" + "," + "to-do"
  {
    var t := Task("A", "B", "2024-01-01", High, "to-do");
    SingleTask(t);
    JoinFive("A", "B", "2024-01-01", "high", "to-do", ',');
    FlattenFive(Header + "\n", "A", "B", "2024-01-01", "high", "to-do", ",");
  }

  lemma FlattenFive<T>(h: seq<T>, a: seq<T>, b: seq<T>, c: seq<T>, d: seq<T>, e: seq<T>, sep: seq<T>)
    ensures h + (a + (sep + (b + (sep + (c + (sep + (d + (sep + e))))))))
         == h + a + sep + b + sep + c + sep + d + sep + e
  {
  }
}
