/** `recognize_yaml`: a file is recognised when every one of its lines,
    stripped of surrounding whitespace, is accepted by `is_yaml_line`. The
    scan stops at the first rejected line; a file that cannot be opened or
    read is not recognised. */
module YamlFile {
  import opened Text
  import opened YamlLine

  /** What iterating over the open file produces: the lines it yields, in
      order, each with its line terminator, and whether an `IOError` is
      raised after them (when the file is opened, or while reading the next
      line). A file that cannot be opened yields no line and raises. */
  datatype LineSource = LineSource(lines: seq<string>, ioError: bool)

  /** The test applied to each line: `is_yaml_line(line.strip())`. */
  predicate LineAccepted(line: string) {
    IsYamlLine(Strip(line))
  }

  /** Every line is accepted. */
  predicate AllAccepted(lines: seq<string>) {
    forall i :: 0 <= i < |lines| ==> LineAccepted(lines[i])
  }

  /** The verdict `recognize_yaml` should return: the source was read
      without error and every line is accepted. */
  predicate Recognized(src: LineSource) {
    !src.ioError && AllAccepted(src.lines)
  }

  /** Index of the first rejected line, or the number of lines when there
      is none. */
  function FirstRejected(lines: seq<string>): (k: nat)
    ensures k <= |lines|
    ensures forall i :: 0 <= i < k ==> LineAccepted(lines[i])
    ensures k < |lines| ==> !LineAccepted(lines[k])
  {
    if lines == [] || !LineAccepted(lines[0]) then 0
    else
      var k := FirstRejected(lines[1..]);
      assert forall i :: 0 < i <= k ==> lines[i] == lines[1..][i - 1];
      k + 1
  }

  /** The number of lines the scan reads: up to and including the first
      rejected line, or all of them. */
  function Examined(lines: seq<string>): (n: nat)
    ensures n <= |lines|
  {
    var k := FirstRejected(lines);
    if k < |lines| then k + 1 else |lines|
  }

  /** `recognize_yaml`: scan the lines in order and return false at the
      first line whose stripped text `is_yaml_line` rejects; after the last
      line return true, unless reading failed. `examined` counts the lines
      the scan has looked at. */
  method RecognizeYaml(src: LineSource) returns (ok: bool, ghost examined: nat)
    ensures ok == Recognized(src)
    ensures examined == Examined(src.lines)
  {
    var lines := src.lines;
    var i := 0;
    while i < |lines|
      invariant 0 <= i <= |lines|
      invariant forall j :: 0 <= j < i ==> LineAccepted(lines[j])
    {
      if !IsYamlLine(Strip(lines[i])) {
        FirstRejectedIs(lines, i);
        return false, i + 1;
      }
      i := i + 1;
    }
    FirstRejectedIs(lines, |lines|);
    if src.ioError {
      return false, |lines|;
    }
    return true, |lines|;
  }

  /** `FirstRejected` is determined by its contract: the first `k` lines are
      accepted and line `k`, if any, is not. */
  lemma FirstRejectedIs(lines: seq<string>, k: nat)
    requires k <= |lines|
    requires forall i :: 0 <= i < k ==> LineAccepted(lines[i])
    requires k < |lines| ==> !LineAccepted(lines[k])
    ensures FirstRejected(lines) == k
  {
  }

  /** The file is recognised exactly when reading succeeded and the scan
      found no rejected line. */
  lemma RecognizedIffNoneRejected(src: LineSource)
    ensures Recognized(src) <==> !src.ioError && FirstRejected(src.lines) == |src.lines|
  {
  }

  /** The first rejected line decides: whatever follows it, and whether or
      not reading would fail later, the file is not recognised, and the
      first rejected line stays where it is. */
  lemma FirstRejectionDecides(lines: seq<string>, k: nat, rest: seq<string>, ioError: bool)
    requires k < |lines| && FirstRejected(lines) == k
    ensures FirstRejected(lines[..k + 1] + rest) == k
    ensures !Recognized(LineSource(lines[..k + 1] + rest, ioError))
  {
    var l := lines[..k + 1] + rest;
    assert forall i :: 0 <= i <= k ==> l[i] == lines[i];
    FirstRejectedIs(l, k);
  }

  /** Two sources that agree on the lines up to and including the first
      rejected one of the first source get the same verdict, and the scan
      reads the same number of lines from both: nothing after that line is
      ever looked at. */
  lemma OnlyExaminedLinesMatter(a: LineSource, b: LineSource, k: nat)
    requires k < |a.lines| && FirstRejected(a.lines) == k
    requires k < |b.lines| && a.lines[..k + 1] == b.lines[..k + 1]
    ensures Examined(a.lines) == Examined(b.lines) == k + 1
    ensures !Recognized(a) && !Recognized(b)
  {
    assert b.lines == a.lines[..k + 1] + b.lines[k + 1..];
    FirstRejectionDecides(a.lines, k, b.lines[k + 1..], b.ioError);
  }

  /** An empty file that was read without error is recognised. */
  lemma EmptyFileRecognized()
    ensures Recognized(LineSource([], false))
  {
  }

  /** A file that cannot be read is never recognised, whatever was read. */
  lemma UnreadableNotRecognized(lines: seq<string>)
    ensures !Recognized(LineSource(lines, true))
  {
  }

  // ---------------------------------------------------------------------
  // Per-line facts, stated on the raw lines the file yields.

  /** A line as text-mode iteration yields it: a newline can only be its
      last character. */
  predicate IsFileLine(line: string) {
    forall i :: 0 <= i < |line| - 1 ==> line[i] != '\n'
  }

  /** Stripping a file line removes its terminator, leaving no newline. */
  lemma StripFileLine(line: string)
    requires IsFileLine(line)
    ensures AllOf(NotNewline, Strip(line))
  {
    var t := Strip(line);
    var n := Indent(line);
    if t != [] {
      assert t[|t| - 1] != '\n';
      forall i | 0 <= i < |t| ensures t[i] != '\n' {
        assert t[i] == line[n + i];
      }
    }
  }

  /** A file line is accepted exactly when its stripped text has the
      key-value shape (a non-empty run of word characters, a colon, then
      anything) or the sequence shape (a dash, whitespace, then anything). */
  lemma FileLineShapes(line: string)
    requires IsFileLine(line)
    ensures LineAccepted(line) <==> KeyValueShape(Strip(line)) || SequenceShape(Strip(line))
  {
    StripFileLine(line);
    StrippedLineShapes(Strip(line));
  }

  /** Leading and trailing whitespace never changes whether a line is
      accepted: indentation is ignored. */
  lemma PaddingIgnored(p: string, line: string, q: string)
    requires AllOf(Space, p) && AllOf(Space, q)
    ensures LineAccepted(p + line + q) == LineAccepted(line)
  {
    StripIgnoresPadding(p, line, q);
  }

  /** A blank line strips to the empty string and is rejected. */
  lemma BlankLineRejected(line: string)
    requires AllOf(Space, line)
    ensures !LineAccepted(line)
  {
    StripBlank(line);
    EmptyLineRejected();
  }

  /** A file containing a blank line is not recognised. */
  lemma BlankLineRejectsFile(src: LineSource, i: nat)
    requires i < |src.lines| && AllOf(Space, src.lines[i])
    ensures !Recognized(src)
  {
    BlankLineRejected(src.lines[i]);
  }

  /** A dash with only whitespace around it is rejected, even though the
      unstripped `- ` would match the sequence pattern: stripping removes
      the whitespace after the dash. */
  lemma LoneDashRejected(p: string, q: string)
    requires AllOf(Space, p) && AllOf(Space, q)
    ensures !LineAccepted(p + "-" + q)
  {
    StripUnique(p, "-", q);
    DashNeedsSpace("-");
  }

  /** A line that is already stripped is tested as it is. */
  lemma StrippedLineAccepted(line: string)
    requires Stripped(line)
    ensures LineAccepted(line) <==> IsYamlLine(line)
  {
    StripUnique("", line, "");
    assert "" + line + "" == line;
  }

  // ---------------------------------------------------------------------
  // Sample lines.

  /** A key with nothing after the colon is accepted. */
  lemma SampleEmptyValue()
    ensures LineAccepted("k:")
  {
    KeyWithAnyValue("k", "");
    StrippedLineAccepted("k:");
  }

  /** A value that starts with a dash is accepted: nothing after the colon
      is examined. */
  lemma SampleDashValue()
    ensures LineAccepted("k: - x")
  {
    KeyWithAnyValue("k", " - x");
    StrippedLineAccepted("k: - x");
  }

  /** An empty key is rejected. */
  lemma SampleEmptyKey()
    ensures !LineAccepted(": value")
  {
    StrippedLineAccepted(": value");
    BadKeyRejected(": value", 0);
  }

  /** A key holding a space is rejected. */
  lemma SampleSpaceInKey()
    ensures !LineAccepted("a b: c")
  {
    StrippedLineAccepted("a b: c");
    assert "a b: c"[..3][1] == ' ';
    BadKeyRejected("a b: c", 3);
  }

  /** A key holding a dash is rejected. */
  lemma SampleDashInKey()
    ensures !LineAccepted("a-b: c")
  {
    StrippedLineAccepted("a-b: c");
    assert "a-b: c"[..3][1] == '-';
    BadKeyRejected("a-b: c", 3);
  }

  /** An indented sequence item with its line terminator is accepted. */
  lemma SampleIndentedItem()
    ensures LineAccepted("    - x\n")
  {
    assert "    " + "- x" + "\n" == "    - x\n";
    StripUnique("    ", "- x", "\n");
    assert IsSequence("- x");
  }

  /** A dash directly followed by text is rejected. */
  lemma SampleDashWithoutSpace()
    ensures !LineAccepted("-x")
  {
    StrippedLineAccepted("-x");
    DashNeedsSpace("-x");
  }

  /** `- ` matches the sequence pattern as it stands but is rejected,
      because stripping leaves a lone dash. */
  lemma SampleDashSpace()
    ensures IsYamlLine("- ") && !LineAccepted("- ")
  {
    LoneDashRejected("", " ");
  }
}
