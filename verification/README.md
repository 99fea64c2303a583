# recognize-yaml in Dafny

`recognize-yaml.py` decides whether a text file "is a YAML" by checking the
shape of each line. `is_yaml_line` accepts a line that matches one of two
regular expressions:

- the key-value pattern `^\s*\w+:\s*.*$`;
- the sequence pattern `^\s*-\s+.*$`.

`recognize_yaml` opens the file and reads it line by line. It strips each line
of surrounding whitespace and returns `False` at the first line that
`is_yaml_line` rejects. After the last line it returns `True`. If the file
cannot be opened or read (`IOError`), it returns `False`.

The model has three modules, one file each:

- `Text` (`text.dfy`) covers the characters and strings involved. It has
  Python's whitespace set, which `str.strip`, `str.isspace` and the regex
  class `\s` share. It also has the classes `\w` and `.`, greedy runs of a
  class, and `str.strip`. `Strip` is specified as "the text between the
  leading and the trailing whitespace". A lemma shows that this decomposition
  is unique.
- `YamlLine` (`yaml_line.dfy`) models `is_yaml_line`. Each pattern appears
  twice:
  - as a ghost predicate saying what a match is: some way of cutting the line
    into the pieces the pattern names, with `.` excluding the newline and `$`
    matching at the end or before a final newline;
  - as an executable greedy scan.

  Lemmas prove that the two agree on every string. Further lemmas reduce the
  patterns to plain shapes on the stripped lines that `recognize_yaml`
  actually passes in.
- `YamlFile` (`yaml_file.dfy`) models `recognize_yaml`. The method
  `RecognizeYaml` is a `while` loop with an early exit. It is proved equal to
  the specification `Recognized` ("read without error and every stripped line
  accepted"). A ghost result counts the lines the scan reads. Lemmas show
  that the first rejected line decides the verdict.

The file is given as a `LineSource`. It holds the lines that iterating over
the open file yields, each with its terminator, and says whether an `IOError`
is raised after them. A file that cannot be opened is a source with no lines
and an error.

This file has no indentation stack, no line-numbered diagnostics and no
special messages for a missing key or an inline sequence. It also does not
skip blank lines. The model follows the code:

- `k: - x` is accepted;
- `: value` is rejected only because it matches neither pattern;
- a blank line makes the whole file unrecognised.

## Model

| member | source | states |
|---|---|---|
| `Text.Strip` | recognize-yaml.py:15 | `line.strip()`: the result has no whitespace at either end, and it is the slice of the line between the leading whitespace and a suffix that is all whitespace |
| `Text.StripAt` | recognize-yaml.py:15 | when a line is whitespace before `n` and from `b` on, and characters `n` and `b - 1` are not whitespace, `strip()` returns the characters from `n` up to `b` |
| `Text.StripUnique` | recognize-yaml.py:15 | whitespace + `t` + whitespace, with `t` stripped, always strips to `t`, so the decomposition is unique |
| `Text.StripIgnoresPadding` | recognize-yaml.py:15 | extra leading and trailing whitespace never changes what `strip()` returns |
| `Text.StripIdempotent` | recognize-yaml.py:15 | stripping twice is stripping once |
| `Text.StripBlank` | recognize-yaml.py:15 | a line made only of whitespace strips to the empty string |
| `YamlLine.TailMatchesCorrect` | recognize-yaml.py:6-7 | the greedy scan for the tail `\s*.*$` succeeds iff some split into whitespace, non-newline characters and an end position exists |
| `YamlLine.IsKeyValueCorrect` | recognize-yaml.py:6 | the scan accepts exactly the strings matching `^\s*\w+:\s*.*$` (indentation, a non-empty word run, a colon, then the tail) |
| `YamlLine.IsSequenceCorrect` | recognize-yaml.py:7 | the scan accepts exactly the strings matching `^\s*-\s+.*$` (indentation, a dash, at least one whitespace character, then any non-newline text to the end) |
| `YamlLine.IsYamlLineCorrect` | recognize-yaml.py:4-9 | `is_yaml_line` holds iff the line matches the key-value pattern or the sequence pattern |
| `YamlLine.ShapesExclusive` | recognize-yaml.py:9 | no line matches both patterns, so trying them in either order gives the same answer |
| `YamlLine.StrippedLineShapes` | recognize-yaml.py:6-7 | on a stripped line without newlines: key-value iff a non-empty word run is followed by `:`; sequence iff it starts with `-` and then whitespace |
| `YamlLine.KeyWithAnyValue` | recognize-yaml.py:6 | a non-empty word key followed by `:` is a key-value line, whatever newline-free text follows |
| `YamlLine.BadKeyRejected` | recognize-yaml.py:6-9 | if the text before the first colon of a stripped line is empty or holds a non-word character, the line is accepted only as a sequence item |
| `YamlLine.DashNeedsSpace` | recognize-yaml.py:7 | a stripped line that starts with `-` not followed by whitespace (`-x`, `-`) is rejected |
| `YamlFile.FirstRejected` | recognize-yaml.py:14-16 | the index of the first line whose stripped text is rejected: every earlier line is accepted and that line is not |
| `YamlFile.RecognizeYaml` | recognize-yaml.py:11-20 | the loop returns exactly `Recognized(src)`: true iff reading succeeded and every stripped line is accepted; the lines it reads are those up to and including the first rejected one |
| `YamlFile.FirstRejectedIs` | recognize-yaml.py:14-16 | the first rejected line is the unique index with all lines before it accepted and itself rejected |
| `YamlFile.RecognizedIffNoneRejected` | recognize-yaml.py:14-17 | the file is recognised iff reading succeeded and the scan finds no rejected line |
| `YamlFile.FirstRejectionDecides` | recognize-yaml.py:15-16 | whatever follows the first rejected line, and whether or not reading fails later, the file is rejected at that same line |
| `YamlFile.OnlyExaminedLinesMatter` | recognize-yaml.py:14-16 | two sources that agree up to and including the first rejected line of one of them are both rejected, and the scan reads the same number of lines from each |
| `YamlFile.EmptyFileRecognized` | recognize-yaml.py:14-17 | an empty, readable file is recognised |
| `YamlFile.UnreadableNotRecognized` | recognize-yaml.py:18-20 | a file whose opening or reading raises `IOError` is never recognised |
| `YamlFile.StripFileLine` | recognize-yaml.py:14-15 | a line yielded by the file, once stripped, holds no newline |
| `YamlFile.FileLineShapes` | recognize-yaml.py:6-15 | a file line is accepted iff its stripped text has the key-value shape or the sequence shape |
| `YamlFile.PaddingIgnored` | recognize-yaml.py:15 | leading and trailing whitespace (indentation included) never changes whether a line is accepted |
| `YamlFile.BlankLineRejected` | recognize-yaml.py:15-16 | a blank line is rejected |
| `YamlFile.BlankLineRejectsFile` | recognize-yaml.py:14-16 | a file containing a blank line is not recognised |
| `YamlFile.LoneDashRejected` | recognize-yaml.py:7-15 | a dash with only whitespace around it is rejected, because stripping removes the whitespace that the pattern needs after the dash |
| `YamlFile.StrippedLineAccepted` | recognize-yaml.py:15 | an already stripped line is accepted iff `is_yaml_line` accepts it as it stands |
| `YamlFile.SampleEmptyValue` | recognize-yaml.py:6 | `k:` is accepted |
| `YamlFile.SampleDashValue` | recognize-yaml.py:6 | `k: - x` is accepted |
| `YamlFile.SampleEmptyKey` | recognize-yaml.py:6-9 | `: value` is rejected |
| `YamlFile.SampleSpaceInKey` | recognize-yaml.py:6-9 | `a b: c` is rejected |
| `YamlFile.SampleDashInKey` | recognize-yaml.py:6-9 | `a-b: c` is rejected |
| `YamlFile.SampleIndentedItem` | recognize-yaml.py:7-15 | `    - x` with its newline is accepted |
| `YamlFile.SampleDashWithoutSpace` | recognize-yaml.py:7 | `-x` is rejected |
| `YamlFile.SampleDashSpace` | recognize-yaml.py:7-15 | `- ` matches the sequence pattern as it stands, but the stripped line `-` is rejected |

## Left out

- Opening and reading the file is not modelled. The lines the file yields, and whether an `IOError` is raised, are the input `LineSource`. Splitting the text into lines (text mode, universal newlines) is not modelled either; `IsFileLine` states what it guarantees, namely that a newline can only end a line.
- The message printed on `IOError` (recognize-yaml.py:19) is console output and is not modelled.
- The usage block (recognize-yaml.py:22-27) is not modelled. It is program entry with a fixed path `deployment.yaml` and console messages.
- Text.IsWordChar: `\w` is restricted to ASCII letters, digits and `_`. Python also counts non-ASCII letters and digits as word characters, so the model rejects a key such as `clé:` that the source accepts.
- A `UnicodeDecodeError` raised while reading is not an `IOError` and escapes `recognize_yaml` as an exception. The model has no such outcome.
- The match object returned by `is_yaml_line` is modelled as a boolean, its truth value.
- `RecognizeYaml` returns the number of lines read only as a ghost value; the source does not return it.
