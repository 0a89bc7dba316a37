/** `parse_comments`: a single forward pass over the lines of a page that
    collects HTML comments (`<!--` ... `-->`) by substring search. The only
    state carried from one line to the next is whether a comment is still
    open (`continuing`) and the list of records built so far. */
module Comments {
  import opened PyStr

  const Open: string := "<!--"
  const Close: string := "-->"

  /** One entry of the result: the index of the line where the comment was
      found or started, and its text. */
  datatype Record = Record(line: nat, text: string)

  /** The scanner's state between two lines. */
  datatype ScanState = ScanState(continuing: bool, comments: seq<Record>)

  /** An open comment always has a record to extend: this is what keeps the
      `comments[-1]` updates of the continuation branches from failing. */
  predicate Consistent(st: ScanState) {
    st.continuing ==> st.comments != []
  }

  /** `comments[-1][1] += suffix`: the last record gets `suffix` appended to
      its text; its line index and every earlier record stay as they were. */
  function AppendToLast(comments: seq<Record>, suffix: string): (r: seq<Record>)
    requires comments != []
    ensures |r| == |comments| && r[..|r| - 1] == comments[..|comments| - 1]
    ensures r[|r| - 1].line == comments[|comments| - 1].line
    ensures r[|r| - 1].text == comments[|comments| - 1].text + suffix
  {
    var last := comments[|comments| - 1];
    comments[|comments| - 1 := Record(last.line, last.text + suffix)]
  }

  /** `line[:line.find('-->') + 3]`: the closing line up to and including
      its first `-->`. */
  function CutAfterClose(line: string): (r: string)
    requires Contains(line, Close)
    ensures |r| >= |Close| && r[|r| - |Close|..] == Close
    ensures |r| <= |line| && r == line[..|r|]
    ensures forall j :: 0 <= j < |r| - |Close| ==> !OccursAt(line, Close, j)
  {
    var k := Find(line, Close);
    line[..k + |Close|]
  }

  /** The text the continuation lines add: `'\n' + line` for each. */
  function JoinLines(lines: seq<string>): string {
    if lines == [] then []
    else JoinLines(lines[..|lines| - 1]) + "\n" + lines[|lines| - 1]
  }

  /** The effect of line `i` on the scanner: the four branches of the
      source's if/elif chain, tried in order, and "no change" otherwise.
      Each `line.find(x) != -1` test is written here as `Contains(line, x)`,
      which `Find`'s contract makes the same thing. */
  function Step(st: ScanState, i: nat, line: string): (r: ScanState)
    requires Consistent(st)
    ensures Consistent(r)
  {
    if st.continuing && !Contains(line, Close) then
      ScanState(true, AppendToLast(st.comments, "\n" + line))
    else if st.continuing && Contains(line, Close) then
      ScanState(false, AppendToLast(st.comments, "\n" + CutAfterClose(line)))
    else if Contains(line, Open) && Contains(line, Close) then
      ScanState(false, st.comments + [Record(i, line)])
    else if Contains(line, Open) && !Contains(line, Close) then
      ScanState(true, st.comments + [Record(i, "\n" + line)])
    else
      st
  }

  /** The scanner's state after the first `n` lines of `content`. */
  function Scan(content: seq<string>, n: nat): (r: ScanState)
    requires n <= |content|
    ensures Consistent(r)
  {
    if n == 0 then ScanState(false, [])
    else Step(Scan(content, n - 1), n - 1, content[n - 1])
  }

  /** What `parse_comments(content)` returns. */
  function Parse(content: seq<string>): seq<Record> {
    Scan(content, |content|).comments
  }

  /** `parse_comments`, line by line, with the record list updated in place
      as the source does. */
  method ParseComments(content: seq<string>) returns (comments: seq<Record>)
    ensures comments == Parse(content)
    ensures |comments| <= |content|
    ensures forall k :: 0 <= k < |comments| ==> comments[k].line < |content|
    ensures forall k, l :: 0 <= k < l < |comments| ==> comments[k].line < comments[l].line
  {
    comments := [];
    var continuing := false;
    for i := 0 to |content|
      invariant ScanState(continuing, comments) == Scan(content, i)
    {
      var line := content[i];
      if continuing && Find(line, Close) == -1 {
        var last := comments[|comments| - 1];
        comments := comments[|comments| - 1 := Record(last.line, last.text + ("\n" + line))];
      } else if continuing && Find(line, Close) != -1 {
        continuing := false;
        var last := comments[|comments| - 1];
        comments := comments[|comments| - 1 := Record(last.line, last.text + ("\n" + line[..Find(line, Close) + 3]))];
      } else if Find(line, Open) != -1 && Find(line, Close) != -1 {
        comments := comments + [Record(i, line)];
      } else if Find(line, Open) != -1 && Find(line, Close) == -1 {
        continuing := true;
        comments := comments + [Record(i, "\n" + line)];
      }
    }
    ScanOrdered(content, |content|);
  }

  // -----------------------------------------------------------------------
  // Properties of the scan
  // -----------------------------------------------------------------------

  /** One line either leaves the number of records as it was, keeping every
      record's line index, or appends exactly one record, for that line, and
      keeps all earlier records. A comment that was not open and is open
      afterwards always comes with a new record. */
  lemma StepShape(st: ScanState, i: nat, line: string)
    requires Consistent(st)
    ensures var r := Step(st, i, line);
      (|r.comments| == |st.comments| &&
       forall k :: 0 <= k < |st.comments| ==> r.comments[k].line == st.comments[k].line) ||
      (|r.comments| == |st.comments| + 1 && r.comments[..|st.comments|] == st.comments &&
       r.comments[|st.comments|].line == i)
    ensures var r := Step(st, i, line);
      !st.continuing && r.continuing ==> |r.comments| == |st.comments| + 1
  {
  }

  /** At most one record per line; record line indices are valid indices of
      the lines read so far and strictly increase. */
  lemma {:induction false} ScanOrdered(content: seq<string>, n: nat)
    requires n <= |content|
    ensures var cs := Scan(content, n).comments;
      |cs| <= n &&
      (forall k :: 0 <= k < |cs| ==> cs[k].line < n) &&
      (forall k, l :: 0 <= k < l < |cs| ==> cs[k].line < cs[l].line)
  {
    if n > 0 {
      ScanOrdered(content, n - 1);
      var st := Scan(content, n - 1);
      StepShape(st, n - 1, content[n - 1]);
    }
  }

  /** `b` is what `a` can become: every record of `a` but the last is
      untouched, the last keeps its line index and can only have grown at
      the end, and new records come after. When `a` had no open comment, all
      of its records are untouched, and a comment open in `b` has a record
      of its own. */
  predicate Extends(a: ScanState, b: ScanState) {
    |a.comments| <= |b.comments| &&
    (forall k :: 0 <= k < |a.comments| - 1 ==> b.comments[k] == a.comments[k]) &&
    (a.comments != [] ==>
       b.comments[|a.comments| - 1].line == a.comments[|a.comments| - 1].line &&
       a.comments[|a.comments| - 1].text <= b.comments[|a.comments| - 1].text) &&
    (!a.continuing ==> forall k :: 0 <= k < |a.comments| ==> b.comments[k] == a.comments[k]) &&
    (!a.continuing && b.continuing ==> |a.comments| < |b.comments|)
  }

  lemma StepExtends(st: ScanState, i: nat, line: string)
    requires Consistent(st)
    ensures Extends(st, Step(st, i, line))
  {
  }

  lemma ExtendsTransitive(a: ScanState, b: ScanState, c: ScanState)
    requires Consistent(b) && Extends(a, b) && Extends(b, c)
    ensures Extends(a, c)
  {
    if a.comments != [] {
      var k := |a.comments| - 1;
      if k < |b.comments| - 1 {
        assert c.comments[k] == b.comments[k];
      } else {
        var ta, tb, tc := a.comments[k].text, b.comments[k].text, c.comments[k].text;
        assert ta == tb[..|ta|] && tb == tc[..|tb|];
        assert ta == tc[..|ta|];
      }
    }
  }

  /** Lines read later never remove a record, never change an earlier
      record's line index, and only ever append text to the record that was
      open. */
  lemma {:induction false} ScanOnlyExtends(content: seq<string>, m: nat, n: nat)
    requires m <= n <= |content|
    ensures Extends(Scan(content, m), Scan(content, n))
  {
    if m < n {
      var k := n - 1;
      ScanOnlyExtends(content, m, k);
      ScanStepExtends(content, k);
      ExtendsTransitive(Scan(content, m), Scan(content, k), Scan(content, k + 1));
    }
  }

  lemma ScanStepExtends(content: seq<string>, k: nat)
    requires k < |content|
    ensures Extends(Scan(content, k), Scan(content, k + 1))
  {
    ScanNext(content, k);
    StepExtends(Scan(content, k), k, content[k]);
  }

  // -----------------------------------------------------------------------
  // The decision table, one line at a time
  // -----------------------------------------------------------------------

  lemma ScanNext(content: seq<string>, n: nat)
    requires n < |content|
    ensures Scan(content, n + 1) == Step(Scan(content, n), n, content[n])
  {
  }

  /** Outside a comment, a line with no `<!--` adds no record and leaves no
      comment open; a stray `-->` alone is ignored. */
  lemma NoOpenerNoChange(content: seq<string>, i: nat)
    requires i < |content|
    requires !Scan(content, i).continuing && !Contains(content[i], Open)
    ensures Scan(content, i + 1) == Scan(content, i)
  {
    ScanNext(content, i);
  }

  /** A page on which no line holds `<!--` yields no record, however many
      stray `-->` it holds. */
  lemma {:induction false} NoOpenerAnywhere(content: seq<string>, n: nat)
    requires n <= |content|
    requires forall k :: 0 <= k < |content| ==> !Contains(content[k], Open)
    ensures Scan(content, n) == ScanState(false, [])
  {
    if n > 0 {
      NoOpenerAnywhere(content, n - 1);
      NoOpenerNoChange(content, n - 1);
    }
  }

  /** Outside a comment, a line holding both `<!--` and `-->`, in either
      order, yields the record `(i, line)` with the whole line unchanged. */
  lemma SingleLineComment(content: seq<string>, i: nat)
    requires i < |content|
    requires !Scan(content, i).continuing
    requires Contains(content[i], Open) && Contains(content[i], Close)
    ensures Scan(content, i + 1) == ScanState(false, Scan(content, i).comments + [Record(i, content[i])])
  {
    ScanNext(content, i);
  }

  /** A line that opens a comment with no `-->` anywhere on it starts a
      record whose text is a line break followed by the whole line. */
  lemma OpeningLine(content: seq<string>, i: nat)
    requires i < |content|
    requires !Scan(content, i).continuing
    requires Contains(content[i], Open) && !Contains(content[i], Close)
    ensures Scan(content, i + 1) == ScanState(true, Scan(content, i).comments + [Record(i, "\n" + content[i])])
  {
    ScanNext(content, i);
  }

  /** Inside a comment, a line without `-->` is appended whole. */
  lemma ContinuationLine(st: ScanState, i: nat, line: string)
    requires st.continuing && st.comments != [] && !Contains(line, Close)
    ensures Step(st, i, line) == ScanState(true, AppendToLast(st.comments, "\n" + line))
  {
  }

  /** Inside a comment, a line with `-->` is appended up to its first
      `-->`, and the comment is closed. */
  lemma ClosingLine(st: ScanState, i: nat, line: string)
    requires st.continuing && st.comments != [] && Contains(line, Close)
    ensures Step(st, i, line) == ScanState(false, AppendToLast(st.comments, "\n" + CutAfterClose(line)))
  {
  }

  lemma AppendToLastOfSnoc(cs: seq<Record>, rec: Record, suffix: string)
    ensures AppendToLast(cs + [rec], suffix) == cs + [Record(rec.line, rec.text + suffix)]
  {
  }

  lemma JoinLinesSnoc(content: seq<string>, a: nat, b: nat)
    requires a < b <= |content|
    ensures JoinLines(content[a..b]) == JoinLines(content[a..b - 1]) + "\n" + content[b - 1]
  {
    var lines := content[a..b];
    assert lines[..|lines| - 1] == content[a..b - 1];
  }

  /** The text of a comment opened at line `i` once lines up to `n - 1`
      have been appended: each line after a line break. */
  function OpenText(content: seq<string>, i: nat, n: nat): string
    requires i < n <= |content|
  {
    "\n" + content[i] + JoinLines(content[i + 1..n])
  }

  lemma {:induction false} AccumulateStep(content: seq<string>, i: nat, n: nat)
    requires i < n < |content|
    requires Scan(content, n) == ScanState(true, Scan(content, i).comments + [Record(i, OpenText(content, i, n))])
    requires !Contains(content[n], Close)
    ensures Scan(content, n + 1) == ScanState(true, Scan(content, i).comments + [Record(i, OpenText(content, i, n + 1))])
  {
    var cs := Scan(content, i).comments;
    var st := Scan(content, n);
    ScanNext(content, n);
    ContinuationLine(st, n, content[n]);
    AppendToLastOfSnoc(cs, Record(i, OpenText(content, i, n)), "\n" + content[n]);
    OpenTextSnoc(content, i, n);
  }

  lemma OpenTextFirst(content: seq<string>, i: nat)
    requires i < |content|
    ensures OpenText(content, i, i + 1) == "\n" + content[i]
  {
    assert content[i + 1..i + 1] == [];
  }

  lemma OpenTextSnoc(content: seq<string>, i: nat, n: nat)
    requires i < n < |content|
    ensures OpenText(content, i, n + 1) == OpenText(content, i, n) + ("\n" + content[n])
  {
    JoinLinesSnoc(content, i + 1, n + 1);
  }

  /** While a comment opened at line `i` stays open, every following line
      without `-->` is appended, whole and after a line break, to its
      record; a `<!--` on such a line is plain text. */
  lemma {:induction false} OpenCommentAccumulates(content: seq<string>, i: nat, k: nat)
    requires i < k <= |content|
    requires !Scan(content, i).continuing
    requires Contains(content[i], Open) && !Contains(content[i], Close)
    requires forall j :: i < j < k ==> !Contains(content[j], Close)
    ensures Scan(content, k) == ScanState(true, Scan(content, i).comments + [Record(i, OpenText(content, i, k))])
  {
    if k == i + 1 {
      OpeningLine(content, i);
      OpenTextFirst(content, i);
    } else {
      var n := k - 1;
      OpenCommentAccumulates(content, i, n);
      assert !Contains(content[n], Close);
      AccumulateStep(content, i, n);
    }
  }

  /** A comment opened at line `i` and first closed at line `j` gives one
      record at index `i` whose text is the opening line, each line in
      between and the closing line up to its `-->`, each after a line break;
      the text ends with `-->` and no comment is left open. */
  lemma MultiLineComment(content: seq<string>, i: nat, j: nat)
    requires i < j < |content|
    requires !Scan(content, i).continuing
    requires Contains(content[i], Open) && !Contains(content[i], Close)
    requires forall k :: i < k < j ==> !Contains(content[k], Close)
    requires Contains(content[j], Close)
    ensures var text := "\n" + content[i] + JoinLines(content[i + 1..j]) + "\n" + CutAfterClose(content[j]);
      Scan(content, j + 1) == ScanState(false, Scan(content, i).comments + [Record(i, text)]) &&
      |text| >= 3 && text[|text| - 3..] == "-->"
  {
    OpenCommentAccumulates(content, i, j);
    var cs := Scan(content, i).comments;
    var prev := OpenText(content, i, j);
    var cut := CutAfterClose(content[j]);
    ScanNext(content, j);
    ClosingLine(Scan(content, j), j, content[j]);
    AppendToLastOfSnoc(cs, Record(i, prev), "\n" + cut);
    assert prev + ("\n" + cut) == prev + "\n" + cut;
    var text := prev + "\n" + cut;
    assert text[|text| - 3..] == cut[|cut| - 3..];
  }

  /** When the page ends inside a comment, the partial record is returned
      as it stands, with no closing `-->` added and no error. */
  lemma UnterminatedComment(content: seq<string>, i: nat)
    requires i < |content|
    requires !Scan(content, i).continuing
    requires Contains(content[i], Open) && !Contains(content[i], Close)
    requires forall k :: i < k < |content| ==> !Contains(content[k], Close)
    ensures Parse(content) ==
      Scan(content, i).comments + [Record(i, "\n" + content[i] + JoinLines(content[i + 1..|content|]))]
  {
    OpenCommentAccumulates(content, i, |content|);
  }

  // -----------------------------------------------------------------------
  // Worked examples
  // -----------------------------------------------------------------------

  /** A comment alone on the middle line of three is returned with that
      line's index. */
  lemma ExampleSingleLine(content: seq<string>)
    requires content == ["<p>hi</p>", "<!-- secret token -->", "<p>bye</p>"]
    ensures Parse(content) == [Record(1, content[1])]
  {
    FindAbsentChar(content[0], Open, 1);
    NoOpenerNoChange(content, 0);
    assert OccursAt(content[1], Open, 0);
    assert OccursAt(content[1], Close, 18);
    SingleLineComment(content, 1);
    FindAbsentChar(content[2], Open, 1);
    NoOpenerNoChange(content, 2);
  }

  /** A comment over three lines is one record at the opening line, whose
      text starts with a line break and joins the lines with line breaks. */
  lemma ExampleMultiLine(content: seq<string>)
    requires content == ["<!-- start", "middle", "end -->"]
    ensures Parse(content) == [Record(0, "\n" + content[0] + "\n" + content[1] + "\n" + content[2])]
  {
    assert OccursAt(content[0], Open, 0);
    FindAbsentChar(content[0], Close, 2);
    FindAbsentChar(content[1], Close, 0);
    assert OccursAt(content[2], Close, 4);
    FindFirstByHead(content[2], Close, 4);
    ThreeLineComment(content);
  }

  /** A comment opened on the first of three lines and closed at the very
      end of the third. */
  lemma ThreeLineComment(content: seq<string>)
    requires |content| == 3
    requires Contains(content[0], Open) && !Contains(content[0], Close)
    requires !Contains(content[1], Close) && Contains(content[2], Close)
    requires CutAfterClose(content[2]) == content[2]
    ensures Parse(content) == [Record(0, "\n" + content[0] + "\n" + content[1] + "\n" + content[2])]
  {
    var a, b, c := content[0], content[1], content[2];
    var middle := content[1..2];
    JoinOne(middle);
    assert Scan(content, 0).comments == [];
    MultiLineComment(content, 0, 2);
    var text := "\n" + a + JoinLines(middle) + "\n" + CutAfterClose(c);
    assert Parse(content) == [Record(0, text)];
    Reassociate(a, b, c);
  }

  lemma Reassociate(a: string, b: string, c: string)
    ensures "\n" + a + ("\n" + b) + "\n" + c == "\n" + a + "\n" + b + "\n" + c
  {
  }

  lemma JoinOne(lines: seq<string>)
    requires |lines| == 1
    ensures JoinLines(lines) == "\n" + lines[0]
  {
    assert lines[..0] == [];
  }

  /** The source does not check that `-->` follows `<!--`: a line that
      closes one comment and opens another is taken as a whole one-line
      comment, and the `-->` that really ends the second comment on the next
      line is then ignored. */
  lemma ExampleCloseBeforeOpen(content: seq<string>)
    requires content == ["x --> y <!-- z", "w -->"]
    ensures Parse(content) == [Record(0, content[0])]
  {
    assert OccursAt(content[0], Open, 8);
    assert OccursAt(content[0], Close, 2);
    SingleLineComment(content, 0);
    FindAbsentChar(content[1], Open, 0);
    NoOpenerNoChange(content, 1);
  }
}
