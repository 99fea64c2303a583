/** Character classes and the string operations the recogniser relies on:
    Python's whitespace set (shared by `str.strip` and the regex class `\s`),
    the regex classes `\w` and `.`, greedy runs of a class, and `str.strip`. */
module Text {

  /** Python's whitespace characters: those for which `str.isspace` holds,
      which is also the set `\s` matches in a `str` pattern and the set
      `str.strip()` removes when called without arguments. */
  predicate IsSpace(c: char) {
    var n := c as int;
    (0x09 <= n <= 0x0D) || (0x1C <= n <= 0x20) || n == 0x85 || n == 0xA0
    || n == 0x1680 || (0x2000 <= n <= 0x200A) || n == 0x2028 || n == 0x2029
    || n == 0x202F || n == 0x205F || n == 0x3000
  }

  /** The regex class `\w`, restricted to ASCII: letters, digits and underscore. */
  predicate IsWordChar(c: char) {
    ('a' <= c <= 'z') || ('A' <= c <= 'Z') || ('0' <= c <= '9') || c == '_'
  }

  /** The three character classes the two patterns use. */
  datatype CharClass =
    | Space          // `\s`
    | Word           // `\w`
    | NotNewline     // `.` without DOTALL

  predicate Matches(cl: CharClass, c: char) {
    match cl
    case Space => IsSpace(c)
    case Word => IsWordChar(c)
    case NotNewline => c != '\n'
  }

  /** Every character of `s` belongs to `cl`. */
  predicate AllOf(cl: CharClass, s: string) {
    forall i :: 0 <= i < |s| ==> Matches(cl, s[i])
  }

  /** The end of the longest run of `cl` characters starting at `k`. */
  function Span(cl: CharClass, s: string, k: nat): (e: nat)
    requires k <= |s|
    ensures k <= e <= |s|
    ensures AllOf(cl, s[k..e])
    ensures e == |s| || !Matches(cl, s[e])
    decreases |s| - k
  {
    if k == |s| || !Matches(cl, s[k]) then k
    else
      var e := Span(cl, s, k + 1);
      assert s[k..e] == [s[k]] + s[k + 1..e];
      e
  }

  /** No run of `cl` characters from `k` goes past `Span(cl, s, k)`. */
  lemma SpanMaximal(cl: CharClass, s: string, k: nat, e: nat)
    requires k <= e <= |s|
    requires AllOf(cl, s[k..e])
    ensures e <= Span(cl, s, k)
  {
  }

  /** A run of `cl` characters from `k` that stops at a character outside
      `cl` (or at the end) is exactly the greedy span. */
  lemma SpanUnique(cl: CharClass, s: string, k: nat, e: nat)
    requires k <= e <= |s|
    requires AllOf(cl, s[k..e])
    requires e == |s| || !Matches(cl, s[e])
    ensures Span(cl, s, k) == e
  {
    SpanMaximal(cl, s, k, e);
  }

  /** A slice of a string all of whose characters are in `cl`. */
  lemma AllOfSlice(cl: CharClass, s: string, a: nat, b: nat)
    requires a <= b <= |s|
    requires AllOf(cl, s)
    ensures AllOf(cl, s[a..b])
  {
    forall i | 0 <= i < b - a ensures Matches(cl, s[a..b][i]) {
      assert s[a..b][i] == s[a + i];
    }
  }

  /** A string with no whitespace at either end, as `str.strip()` leaves it. */
  predicate Stripped(t: string) {
    t == [] || (!IsSpace(t[0]) && !IsSpace(t[|t| - 1]))
  }

  /** Number of leading whitespace characters. */
  function Indent(s: string): (n: nat)
    ensures n <= |s|
    ensures AllOf(Space, s[..n])
    ensures n == |s| || !IsSpace(s[n])
  {
    var n := Span(Space, s, 0);
    assert s[..n] == s[0..n];
    n
  }

  /** The start of the run of whitespace that ends at `e`, looking back no
      further than `lo`. */
  function SpanBack(s: string, lo: nat, e: nat): (b: nat)
    requires lo <= e <= |s|
    ensures lo <= b <= e
    ensures forall i :: b <= i < e ==> IsSpace(s[i])
    ensures b == lo || !IsSpace(s[b - 1])
    decreases e
  {
    if e == lo || !IsSpace(s[e - 1]) then e else SpanBack(s, lo, e - 1)
  }

  /** A run of whitespace ending at `e` that starts at `lo` or just after a
      character that is not whitespace is exactly the one `SpanBack` finds. */
  lemma {:induction false} SpanBackUnique(s: string, lo: nat, b: nat, e: nat)
    requires lo <= b <= e <= |s|
    requires forall i :: b <= i < e ==> IsSpace(s[i])
    requires b == lo || !IsSpace(s[b - 1])
    ensures SpanBack(s, lo, e) == b
    decreases e - b
  {
    if b < e {
      assert IsSpace(s[e - 1]);
      SpanBackUnique(s, lo, b, e - 1);
    }
  }

  /** `str.strip()`: the part of `s` between its leading and its trailing
      whitespace. */
  function Strip(s: string): (t: string)
    ensures Stripped(t)
    ensures Indent(s) + |t| <= |s| && t == s[Indent(s)..Indent(s) + |t|]
    ensures AllOf(Space, s[Indent(s) + |t|..])
  {
    var n := Indent(s);
    var b := SpanBack(s, n, |s|);
    assert forall i :: 0 <= i < |s| - b ==> s[b..][i] == s[b + i];
    s[n..b]
  }

  /** A run of `cl` characters from `k` to the end of `s` is the greedy span. */
  lemma SpanToEnd(cl: CharClass, s: string, k: nat)
    requires k <= |s|
    requires forall i :: k <= i < |s| ==> Matches(cl, s[i])
    ensures Span(cl, s, k) == |s|
  {
    forall i | 0 <= i < |s| - k ensures Matches(cl, s[k..|s|][i]) {
      assert s[k..|s|][i] == s[k + i];
    }
    SpanUnique(cl, s, k, |s|);
  }

  /** When `s` is whitespace before `n` and from `b` on, and `s[n..b]` has
      no whitespace at either end, `Strip` returns `s[n..b]`. */
  lemma StripAt(s: string, n: nat, b: nat)
    requires n < b <= |s|
    requires forall i :: 0 <= i < n ==> IsSpace(s[i])
    requires forall i :: b <= i < |s| ==> IsSpace(s[i])
    requires !IsSpace(s[n]) && !IsSpace(s[b - 1])
    ensures Strip(s) == s[n..b]
  {
    forall i | 0 <= i < n ensures Matches(Space, s[0..n][i]) {
      assert s[0..n][i] == s[i];
    }
    SpanUnique(Space, s, 0, n);
    assert s[..n] == s[0..n];
    SpanBackUnique(s, n, b, |s|);
  }

  /** Whitespace around a stripped string is exactly what `Strip` removes:
      the decomposition `p + t + q` is unique. */
  lemma StripUnique(p: string, t: string, q: string)
    requires AllOf(Space, p) && AllOf(Space, q) && Stripped(t)
    ensures Strip(p + t + q) == t
  {
    var s := p + t + q;
    if t == [] {
      assert forall i :: 0 <= i < |s| ==> IsSpace(s[i]) by {
        assert s == p + q;
      }
      SpanToEnd(Space, s, 0);
      assert s[..|s|] == s[0..|s|];
    } else {
      assert forall i :: 0 <= i < |p| ==> s[i] == p[i];
      assert forall i :: |p| <= i < |p| + |t| ==> s[i] == t[i - |p|];
      assert forall i :: |p| + |t| <= i < |s| ==> s[i] == q[i - |p| - |t|];
      StripAt(s, |p|, |p| + |t|);
      assert s[|p|..|p| + |t|] == t;
    }
  }

  /** Leading and trailing whitespace never changes what `Strip` returns. */
  lemma {:induction false} StripIgnoresPadding(p: string, s: string, q: string)
    requires AllOf(Space, p) && AllOf(Space, q)
    ensures Strip(p + s + q) == Strip(s)
  {
    var t := Strip(s);
    var n := Indent(s);
    var p' := s[..n];
    var q' := s[n + |t|..];
    assert s == p' + t + q';
    assert p + s + q == (p + p') + t + (q' + q);
    StripUnique(p + p', t, q' + q);
  }

  /** `Strip` is idempotent. */
  lemma StripIdempotent(s: string)
    ensures Strip(Strip(s)) == Strip(s)
  {
    StripUnique([], Strip(s), []);
    assert [] + Strip(s) + [] == Strip(s);
  }

  /** A line made only of whitespace strips to the empty string. */
  lemma StripBlank(s: string)
    requires AllOf(Space, s)
    ensures Strip(s) == []
  {
    StripUnique(s, [], []);
    assert s + [] + [] == s;
  }
}
