/** `is_yaml_line`: a line is accepted when it matches the key-value pattern
    `^\s*\w+:\s*.*$` or the sequence pattern `^\s*-\s+.*$` with `re.match`.

    Each pattern appears twice. The ghost predicates `KeyValuePattern` and
    `SequencePattern` say what a match is (some way of cutting the line into
    the pieces the pattern names). The functions `IsKeyValue` and
    `IsSequence` decide it with one greedy left-to-right scan. Lemmas prove
    the two agree on every string. */
module YamlLine {
  import opened Text

  /** `$` without MULTILINE matches at the end of the string or just before
      a final newline. */
  predicate AtEnd(s: string, m: nat) {
    m == |s| || (m + 1 == |s| && s[m] == '\n')
  }

  // ---------------------------------------------------------------------
  // What the patterns mean: a match is a way of cutting the line up.

  /** `\s*.*$` matches from `k` with whitespace on `[k, a)`, non-newline
      characters on `[a, m)` and `$` at `m`. */
  ghost predicate TailCut(s: string, k: nat, a: nat, m: nat) {
    k <= a <= m <= |s| && AllOf(Space, s[k..a]) && AllOf(NotNewline, s[a..m]) && AtEnd(s, m)
  }

  ghost predicate TailPattern(s: string, k: nat) {
    exists a: nat, m: nat :: TailCut(s, k, a, m)
  }

  /** `^\s*\w+:\s*.*$`: whitespace on `[0, i)`, word characters on `[i, j)`
      with `i < j`, a colon at `j`, then `\s*.*$` from `j + 1`. */
  ghost predicate KeyValueCut(s: string, i: nat, j: nat) {
    i < j < |s| && AllOf(Space, s[..i]) && AllOf(Word, s[i..j]) && s[j] == ':'
    && TailPattern(s, j + 1)
  }

  ghost predicate KeyValuePattern(s: string) {
    exists i: nat, j: nat :: KeyValueCut(s, i, j)
  }

  /** `^\s*-\s+.*$`: whitespace on `[0, i)`, a dash at `i`, whitespace on
      `[i + 1, b)` with at least one character, non-newline characters on
      `[b, m)` and `$` at `m`. */
  ghost predicate SequenceCut(s: string, i: nat, b: nat, m: nat) {
    i + 1 < b <= m <= |s| && AllOf(Space, s[..i]) && s[i] == '-'
    && AllOf(Space, s[i + 1..b]) && AllOf(NotNewline, s[b..m]) && AtEnd(s, m)
  }

  ghost predicate SequencePattern(s: string) {
    exists i: nat, b: nat, m: nat :: SequenceCut(s, i, b, m)
  }

  // ---------------------------------------------------------------------
  // The recogniser: one greedy scan per pattern.

  /** `\s*.*$` from `k`: take all whitespace, then all non-newlines, and
      check that `$` holds where that stops. */
  predicate TailMatches(s: string, k: nat)
    requires k <= |s|
  {
    AtEnd(s, Span(NotNewline, s, Span(Space, s, k)))
  }

  predicate IsKeyValue(s: string) {
    var i := Indent(s);
    var j := Span(Word, s, i);
    i < j < |s| && s[j] == ':' && TailMatches(s, j + 1)
  }

  predicate IsSequence(s: string) {
    var i := Indent(s);
    i + 1 < |s| && s[i] == '-' && IsSpace(s[i + 1]) && TailMatches(s, i + 2)
  }

  /** `is_yaml_line`: the disjunction of the two pattern matches. */
  predicate IsYamlLine(s: string) {
    IsKeyValue(s) || IsSequence(s)
  }

  // ---------------------------------------------------------------------
  // The scan decides exactly the patterns.

  lemma TailMatchesCorrect(s: string, k: nat)
    requires k <= |s|
    ensures TailMatches(s, k) <==> TailPattern(s, k)
  {
    var a := Span(Space, s, k);
    var m := Span(NotNewline, s, a);
    if TailMatches(s, k) {
      assert TailCut(s, k, a, m);
    }
    if TailPattern(s, k) {
      var a': nat, m': nat :| TailCut(s, k, a', m');
      SpanMaximal(Space, s, k, a');
      if a <= m' {
        // The greedy run of whitespace ends inside the cut's `.*` part, so
        // the greedy `.*` run reaches at least as far and stops at `m'`.
        assert s[a..m'] == s[a'..m'][a - a'..];
        SpanMaximal(NotNewline, s, a, m');
        assert m == m' || s[m'] == '\n';
        assert AtEnd(s, m);
      } else {
        // Whitespace reaches past `m'`: `m'` is the last position and holds
        // the final newline, which the greedy whitespace run swallowed.
        assert m' + 1 == |s| && a == |s|;
        assert AtEnd(s, m);
      }
    }
  }

  /** The leading whitespace of any match is the line's whole indentation,
      when the pattern's next character is not whitespace. */
  lemma IndentOfCut(s: string, i: nat)
    requires i < |s| && AllOf(Space, s[..i]) && !IsSpace(s[i])
    ensures Indent(s) == i
  {
    assert s[..i] == s[0..i];
    SpanUnique(Space, s, 0, i);
    assert Span(Space, s, 0) == Indent(s) by { assert s[..Indent(s)] == s[0..Indent(s)]; }
  }

  lemma IsKeyValueCorrect(s: string)
    ensures IsKeyValue(s) <==> KeyValuePattern(s)
  {
    if IsKeyValue(s) {
      var i := Indent(s);
      var j := Span(Word, s, i);
      TailMatchesCorrect(s, j + 1);
      assert KeyValueCut(s, i, j);
    }
    if KeyValuePattern(s) {
      var i: nat, j: nat :| KeyValueCut(s, i, j);
      assert IsWordChar(s[i..j][0]);
      IndentOfCut(s, i);
      SpanUnique(Word, s, i, j);
      TailMatchesCorrect(s, j + 1);
    }
  }

  lemma IsSequenceCorrect(s: string)
    ensures IsSequence(s) <==> SequencePattern(s)
  {
    if IsSequence(s) {
      var i := Indent(s);
      TailMatchesCorrect(s, i + 2);
      var a: nat, m: nat :| TailCut(s, i + 2, a, m);
      assert s[i + 1..a] == [s[i + 1]] + s[i + 2..a];
      assert SequenceCut(s, i, a, m);
    }
    if SequencePattern(s) {
      var i: nat, b: nat, m: nat :| SequenceCut(s, i, b, m);
      IndentOfCut(s, i);
      assert s[i + 1] == s[i + 1..b][0];
      assert TailCut(s, i + 2, b, m) by {
        assert s[i + 2..b] == s[i + 1..b][1..];
      }
      TailMatchesCorrect(s, i + 2);
    }
  }

  /** `is_yaml_line` accepts exactly the lines that match one of the two
      patterns. */
  lemma IsYamlLineCorrect(s: string)
    ensures IsYamlLine(s) <==> KeyValuePattern(s) || SequencePattern(s)
  {
    IsKeyValueCorrect(s);
    IsSequenceCorrect(s);
  }

  /** No line matches both patterns (the first non-blank character is a word
      character in one and a dash in the other), so the order in which
      the two are tried cannot change which one succeeds. */
  lemma ShapesExclusive(s: string)
    ensures !(IsKeyValue(s) && IsSequence(s))
  {
    var i := Indent(s);
    var j := Span(Word, s, i);
    if i < j {
      assert s[i..j][0] == s[i];
    }
  }

  // ---------------------------------------------------------------------
  // The shapes on a stripped line, as `recognize_yaml` passes it.

  /** A non-empty run of word characters, then a colon, then anything. */
  ghost predicate KeyValueShape(s: string) {
    exists j: nat :: 0 < j < |s| && AllOf(Word, s[..j]) && s[j] == ':'
  }

  /** A dash, a whitespace character, then anything. */
  predicate SequenceShape(s: string) {
    |s| >= 2 && s[0] == '-' && IsSpace(s[1])
  }

  /** On a string without a newline, `\s*.*$` matches from any position. */
  lemma TailMatchesWithoutNewline(s: string, k: nat)
    requires k <= |s|
    requires AllOf(NotNewline, s)
    ensures TailMatches(s, k)
  {
    var a := Span(Space, s, k);
    AllOfSlice(NotNewline, s, a, |s|);
    SpanUnique(NotNewline, s, a, |s|);
  }

  /** On a stripped line without newlines the leading `\s*` matches nothing
      and the trailing `\s*.*$` matches whatever is left, so each pattern
      reduces to its shape. */
  lemma StrippedLineShapes(s: string)
    requires Stripped(s) && AllOf(NotNewline, s)
    ensures IsKeyValue(s) <==> KeyValueShape(s)
    ensures IsSequence(s) <==> SequenceShape(s)
  {
    if s != [] {
      IndentOfCut(s, 0);
    }
    assert Indent(s) == 0;
    if IsKeyValue(s) {
      var j := Span(Word, s, 0);
      assert s[..j] == s[0..j];
    }
    if KeyValueShape(s) {
      var j: nat :| 0 < j < |s| && AllOf(Word, s[..j]) && s[j] == ':';
      assert s[..j] == s[0..j];
      SpanUnique(Word, s, 0, j);
      TailMatchesWithoutNewline(s, j + 1);
    }
    if SequenceShape(s) {
      TailMatchesWithoutNewline(s, 2);
    }
  }

  /** A non-empty key of word characters and a colon make a key-value line
      whatever follows the colon (`k:`, `k:v`, `k: - x`). */
  lemma KeyWithAnyValue(key: string, v: string)
    requires key != [] && AllOf(Word, key)
    requires AllOf(NotNewline, v)
    ensures IsKeyValue(key + ":" + v)
  {
    var s := key + ":" + v;
    assert forall i :: 0 <= i < |key| ==> s[i] == key[i];
    assert s[|key|] == ':';
    assert forall i :: |key| < i < |s| ==> s[i] == v[i - |key| - 1];
    assert s[..0] == [];
    IndentOfCut(s, 0);
    assert s[0..|key|] == key;
    SpanUnique(Word, s, 0, |key|);
    SpanToEnd(NotNewline, s, Span(Space, s, |key| + 1));
  }

  /** When the text before the first colon of a stripped line is empty or
      holds a character that is not a word character (`: value`,
      `a b: c`, `a-b: c`), the line is not a key-value line: it is accepted
      only if it is a sequence item. */
  lemma BadKeyRejected(s: string, j: nat)
    requires Stripped(s)
    requires j < |s| && s[j] == ':'
    requires forall i :: 0 <= i < j ==> s[i] != ':'
    requires j == 0 || !AllOf(Word, s[..j])
    ensures IsYamlLine(s) <==> IsSequence(s)
  {
    IndentOfCut(s, 0);
    var w := Span(Word, s, 0);
    assert s[..w] == s[0..w];
    assert w <= j;
    assert w < j || s[..w] == s[..j];
  }

  /** A stripped line that starts with a dash not followed by whitespace
      (`-x`, or a lone `-`) is rejected. */
  lemma DashNeedsSpace(s: string)
    requires Stripped(s)
    requires s != [] && s[0] == '-'
    requires |s| == 1 || !IsSpace(s[1])
    ensures !IsYamlLine(s)
  {
    IndentOfCut(s, 0);
    assert Span(Word, s, 0) == 0;
  }

  /** The empty line matches neither pattern. */
  lemma EmptyLineRejected()
    ensures !IsYamlLine("")
  {
  }
}
