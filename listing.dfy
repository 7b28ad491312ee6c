/** The `GET /students` handler: the rows of the query result, rendered as a
    fixed-width text table inside a `<pre>` block. The rows come in whatever
    order the query returns them; the renderer keeps that order. */
module Listing {

  import opened Wrappers
  import opened Format
  import opened Lines
  import opened StudentModel

  const NameWidth: nat := 10
  const GpaWidth: nat := 5
  const Title: string := "Students:"

  /** `"{:<10} {:>5}".format(left, right)` without its newline. */
  function Columns(left: string, right: string): string {
    PadRight(left, NameWidth) + " " + PadLeft(right, GpaWidth)
  }

  /** The header line without its newline, as `"{:<10} {:>5}".format("Name", "GPA")`
      prints it (see `HeaderFormatted`). */
  const Header: string := "Name         GPA"

  /** One student's line, without its newline: the name padded to 10 and the
      GPA rendered with `.2f` and right-aligned to 5. */
  function RowText(s: Student): string {
    Columns(s.name, Fmt2(s.gpa))
  }

  /** The row texts, one per row, in query order. */
  function RowTexts(rs: seq<Student>): (ts: seq<string>)
    ensures |ts| == |rs|
    ensures forall k :: 0 <= k < |rs| ==> ts[k] == RowText(rs[k])
  {
    seq(|rs|, k requires 0 <= k < |rs| => RowText(rs[k]))
  }

  /** The `output` text: the title line, the header line, then one line per
      row, each followed by a newline. */
  function Output(rs: seq<Student>): string {
    JoinLines([Title, Header] + RowTexts(rs))
  }

  /** The response body. */
  function Page(rs: seq<Student>): string {
    "<pre>" + Output(rs) + "</pre>"
  }

  /** `get_students`: builds the output line by line over the query result. */
  method GetStudents(students: seq<Student>) returns (body: string)
    ensures body == Page(students)
  {
    ghost var lines := [Title, Header] + RowTexts(students);
    var output := Title + "\n";
    HeaderFormatted();
    output := output + Columns("Name", "GPA") + "\n";
    assert lines[..2] == [Title, Header];
    HeadLines();
    for i := 0 to |students|
      invariant output == JoinLines(lines[..2 + i])
    {
      JoinLinesSnoc(lines, 2 + i);
      output := output + RowText(students[i]) + "\n";
    }
    assert lines[..2 + |students|] == lines;
    body := "<pre>" + output + "</pre>";
  }

  /** The title line and the header line, as the first two appends build them. */
  lemma HeadLines()
    ensures JoinLines([Title, Header]) == Title + "\n" + Header + "\n"
  {
    JoinTwoLines(Title, Header);
  }

  /** Lines after the title and the header follow them directly. */
  lemma HeadThenRows(ts: seq<string>)
    ensures JoinLines([Title, Header] + ts) == Title + "\n" + Header + "\n" + JoinLines(ts)
  {
    JoinLinesAppend([Title, Header], ts);
    HeadLines();
  }

  lemma NameWithoutNewline(s: Student)
    ensures NoNewline(RowText(s)) <==> NoNewline(s.name)
  {
    var p := PadRight(s.name, NameWidth);
    var g := PadLeft(Fmt2(s.gpa), GpaWidth);
    PadRightShape(s.name, NameWidth);
    PadLeftShape(Fmt2(s.gpa), GpaWidth);
    Fmt2Chars(s.gpa);
    assert RowText(s) == p + " " + g;
    assert NoNewline(g);
    if NoNewline(s.name) {
      assert NoNewline(p);
    } else {
      var i :| 0 <= i < |s.name| && s.name[i] == '\n';
      assert RowText(s)[i] == '\n';
    }
  }

  lemma HeadAndRowsWithoutNewline(ts: seq<string>)
    requires forall k :: 0 <= k < |ts| ==> NoNewline(ts[k])
    ensures forall k :: 0 <= k < 2 + |ts| ==> NoNewline(([Title, Header] + ts)[k])
  {
  }

  lemma HeadAndRowsSplit(ts: seq<string>)
    requires forall k :: 0 <= k < |ts| ==> NoNewline(ts[k])
    ensures SplitLines(JoinLines([Title, Header] + ts)) == [Title, Header] + ts
  {
    HeadAndRowsWithoutNewline(ts);
    SplitJoin([Title, Header] + ts);
  }

  /** When no name holds a newline, the output splits into exactly 2 + |rs|
      lines: the title, the header, and the row lines in query order. */
  lemma OutputLines(rs: seq<Student>)
    requires forall k :: 0 <= k < |rs| ==> NoNewline(rs[k].name)
    ensures SplitLines(Output(rs)) == [Title, Header] + RowTexts(rs)
    ensures |SplitLines(Output(rs))| == 2 + |rs|
    ensures forall k :: 0 <= k < |rs| ==> SplitLines(Output(rs))[2 + k] == RowText(rs[k])
  {
    var ts := RowTexts(rs);
    forall k | 0 <= k < |ts| ensures NoNewline(ts[k]) {
      NameWithoutNewline(rs[k]);
    }
    HeadAndRowsSplit(ts);
  }

  lemma BodyFrame(ts: seq<string>)
    ensures "<pre>" + Title + "\n" + Header + "\n" <= "<pre>" + JoinLines([Title, Header] + ts) + "</pre>"
    ensures var b := "<pre>" + JoinLines([Title, Header] + ts) + "</pre>"; b[|b| - 6..] == "</pre>"
  {
    HeadThenRows(ts);
    Enclosed("<pre>", Title + "\n" + Header + "\n", JoinLines(ts), "</pre>");
  }

  /** The body opens with the `<pre>` tag, the title line and the header
      line, and closes with the `</pre>` tag. */
  lemma PageFrame(rs: seq<Student>)
    ensures "<pre>" + Title + "\n" + Header + "\n" <= Page(rs)
    ensures |Page(rs)| >= 6 && Page(rs)[|Page(rs)| - 6..] == "</pre>"
  {
    BodyFrame(RowTexts(rs));
  }

  lemma Enclosed(open: string, head: string, rest: string, close: string)
    ensures open + head <= open + (head + rest) + close
    ensures (open + (head + rest) + close)[|open + (head + rest) + close| - |close|..] == close
  {
    var whole := open + (head + rest) + close;
    assert whole == (open + head) + (rest + close);
  }

  /** The header is the column layout applied to the two column titles. */
  lemma HeaderFormatted()
    ensures Header == Columns("Name", "GPA")
  {
    assert PadRight("Name", NameWidth) == "Name      ";
    assert PadLeft("GPA", GpaWidth) == "  GPA";
  }

  /** With no rows, the body holds only the title and the header. */
  lemma EmptyPage()
    ensures Page([]) == "<pre>Students:\nName         GPA\n</pre>"
  {
    assert RowTexts([]) == [];
    assert [Title, Header] + [] == [Title, Header];
    HeadLines();
  }

  lemma ExampleGpas()
    ensures Fmt2(100) == "1.00" && Fmt2(250) == "2.50"
  {
    assert NatToString(1) == "1";
    assert NatToString(2) == "2";
  }

  /** The two example rows render as the program prints them. */
  lemma TwoRowTexts()
    ensures RowTexts([Student(1, "A", 100), Student(2, "B", 250)]) == ["A           1.00", "B           2.50"]
  {
    ExampleGpas();
    assert RowText(Student(1, "A", 100)) == "A           1.00";
    assert RowText(Student(2, "B", 250)) == "B           2.50";
  }

  /** Two rows worth 1.00 and 2.50, rendered in the order given. */
  lemma TwoRowPage()
    ensures Page([Student(1, "A", 100), Student(2, "B", 250)])
         == "<pre>Students:\n" + "Name         GPA\n" + "A           1.00\n" + "B           2.50\n" + "</pre>"
  {
    var a, b := "A           1.00", "B           2.50";
    var rows := [Student(1, "A", 100), Student(2, "B", 250)];
    var body := Title + "\n" + Header + "\n" + (a + "\n" + b + "\n");
    assert Page(rows) == "<pre>" + body + "</pre>" by {
      TwoRowTexts();
      HeadThenRows([a, b]);
      JoinTwoLines(a, b);
    }
    assert "<pre>" + body + "</pre>"
        == "<pre>Students:\n" + "Name         GPA\n" + "A           1.00\n" + "B           2.50\n" + "</pre>";
  }

  /** A row line is never truncated: the name field is the whole name padded
      with spaces to its column or its own width, whichever is larger, then
      one space, then the GPA field, which ends with the whole GPA text and
      has only spaces before it. */
  lemma RowLayout(s: Student)
    ensures |RowText(s)| == Max(|s.name|, NameWidth) + 1 + Max(|Fmt2(s.gpa)|, GpaWidth)
    ensures RowText(s)[..|s.name|] == s.name
    ensures RowText(s)[|RowText(s)| - |Fmt2(s.gpa)|..] == Fmt2(s.gpa)
    ensures RowText(s)[..Max(|s.name|, NameWidth)] == PadRight(s.name, NameWidth)
    ensures RowText(s)[Max(|s.name|, NameWidth)] == ' '
    ensures forall i :: |s.name| <= i < |RowText(s)| - |Fmt2(s.gpa)| ==> RowText(s)[i] == ' '
  {
    var p := PadRight(s.name, NameWidth);
    var g := PadLeft(Fmt2(s.gpa), GpaWidth);
    PadRightShape(s.name, NameWidth);
    PadLeftShape(Fmt2(s.gpa), GpaWidth);
    assert RowText(s) == p + " " + g;
    assert RowText(s)[..|s.name|] == p[..|s.name|];
    assert RowText(s)[|RowText(s)| - |Fmt2(s.gpa)|..] == g[|g| - |Fmt2(s.gpa)|..];
    assert RowText(s)[..|p|] == p;
    forall i | |s.name| <= i < |RowText(s)| - |Fmt2(s.gpa)| ensures RowText(s)[i] == ' ' {
      if i < |p| {
        assert RowText(s)[i] == p[i];
      } else if i > |p| {
        assert RowText(s)[i] == g[i - |p| - 1];
      }
    }
  }

  /** For a stored row, the last five characters of its line are the GPA
      column, and they read back as the stored GPA. */
  lemma GpaColumnReadsBack(s: Student)
    requires ValidStudent(s)
    ensures |RowText(s)| >= NameWidth + 1 + GpaWidth
    ensures ParseFixed2(TrimLeft(RowText(s)[|RowText(s)| - GpaWidth..])) == Some(s.gpa)
  {
    var f := Fmt2(s.gpa);
    Fmt2Width(s.gpa);
    var g := PadLeft(f, GpaWidth);
    assert RowText(s) == PadRight(s.name, NameWidth) + " " + g;
    assert RowText(s)[|RowText(s)| - GpaWidth..] == g;
    TrimPadded(f, GpaWidth);
    Fmt2RoundTrip(s.gpa);
  }

  lemma TrimPadded(f: string, width: nat)
    requires f != [] && f[0] != ' '
    ensures TrimLeft(PadLeft(f, width)) == f
  {
    PadLeftShape(f, width);
    TrimLeftShape(PadLeft(f, width));
  }

  /** A stored row whose name fits the name column lines up with the header:
      both lines are 16 characters, with the GPA text ending under "GPA". */
  lemma RowAlignedWithHeader(s: Student)
    requires ValidStudent(s) && |s.name| <= NameWidth
    ensures |RowText(s)| == |Header| == NameWidth + 1 + GpaWidth
  {
    Fmt2Width(s.gpa);
  }
}
