/**
 * The string operations the parser relies on, restated over `seq<char>`:
 * Python's `str.strip`, `str.upper`, `str.startswith`, `str.split` (once and
 * for all occurrences), `str.splitlines` and `str.join`.
 *
 * Whitespace is a fixed ASCII set, case mapping is ASCII-only and lines end at
 * '\n' only; see README.md for what that leaves out.
 */
module Text {
  import opened Wrappers

  /**
   * Whitespace as `str.strip` and the regular expression `\s` see it, restricted
   * to ASCII: space, '\t' to '\r', and the separators U+001C to U+001F.
   */
  predicate IsSpace(c: char) {
    c == ' ' || '\t' <= c <= '\r' || '\U{001C}' <= c <= '\U{001F}'
  }

  predicate AllSpace(s: string) {
    forall i :: 0 <= i < |s| ==> IsSpace(s[i])
  }

  /** Neither starts nor ends with whitespace: what `strip` leaves behind. */
  predicate IsStripped(s: string) {
    s == [] || (!IsSpace(s[0]) && !IsSpace(s[|s| - 1]))
  }

  /** The number of whitespace characters that open `s`. */
  function LeadingSpace(s: string): (i: nat)
    ensures i <= |s| && AllSpace(s[..i])
    ensures i < |s| ==> !IsSpace(s[i])
  {
    if s != [] && IsSpace(s[0]) then
      var i := 1 + LeadingSpace(s[1..]);
      assert s[..i] == [s[0]] + s[1..][..i - 1];
      i
    else 0
  }

  /** The end of `s` once its trailing whitespace, down to index `lo`, is cut off. */
  function TrailingCut(s: string, lo: nat): (j: nat)
    requires lo <= |s|
    decreases |s|
    ensures lo <= j <= |s| && AllSpace(s[j..])
    ensures j > lo ==> !IsSpace(s[j - 1])
  {
    if |s| > lo && IsSpace(s[|s| - 1]) then
      var j := TrailingCut(s[..|s| - 1], lo);
      assert s[j..] == s[..|s| - 1][j..] + [s[|s| - 1]];
      j
    else |s|
  }

  /** `s.strip()`: `s` with its leading and trailing whitespace removed. */
  function Strip(s: string): (r: string)
    ensures IsStripped(r) && |r| <= |s|
    ensures AllSpace(s) <==> r == []
  {
    var i := LeadingSpace(s);
    var j := TrailingCut(s, i);
    if i == |s| then
      assert s[..i] == s;
      s[i..j]
    else
      assert s[i] == s[i..j][0];
      s[i..j]
  }

  /** Strip keeps a slice of `s` and removes only whitespace around it. */
  lemma StripShape(s: string)
    ensures var i := LeadingSpace(s);
      i + |Strip(s)| <= |s| && Strip(s) == s[i..i + |Strip(s)|] && AllSpace(s[i + |Strip(s)|..])
  {
  }

  /**
   * `strip` has exactly one answer: whatever whitespace surrounds a stripped
   * core, stripping gives back that core.
   */
  lemma StripPadded(a: string, x: string, b: string)
    requires AllSpace(a) && AllSpace(b) && IsStripped(x)
    ensures Strip(a + x + b) == x
  {
    var s := a + x + b;
    var i := LeadingSpace(s);
    var j := TrailingCut(s, i);
    if x == [] {
      assert AllSpace(s) by {
        forall k | 0 <= k < |s| ensures IsSpace(s[k]) {
          if k < |a| { assert s[k] == a[k]; } else { assert s[k] == b[k - |a|]; }
        }
      }
    } else {
      assert s[|a|] == x[0] && s[|a| + |x| - 1] == x[|x| - 1];
      forall k | 0 <= k < |a| ensures IsSpace(s[k]) { assert s[k] == a[k]; }
      forall k | |a| + |x| <= k < |s| ensures IsSpace(s[k]) { assert s[k] == b[k - |a| - |x|]; }
      assert i == |a|;
      assert j == |a| + |x|;
      assert s[|a|..|a| + |x|] == x;
    }
  }

  /** Stripping a string that is already stripped changes nothing. */
  lemma StripStripped(x: string)
    requires IsStripped(x)
    ensures Strip(x) == x
  {
    StripPadded([], x, []);
    assert [] + x + [] == x;
  }

  /** One character upper-cased: only the ASCII letters change. */
  function UpperChar(c: char): (u: char)
    ensures 'a' <= c <= 'z' ==> 'A' <= u <= 'Z' && u as int - 'A' as int == c as int - 'a' as int
    ensures !('a' <= c <= 'z') ==> u == c
  {
    if 'a' <= c <= 'z' then (c as int - 32) as char else c
  }

  /** Python's `s.upper()` on ASCII text: each character upper-cased in place. */
  function Upper(s: string): (r: string)
    ensures |r| == |s|
    ensures forall i :: 0 <= i < |s| ==> r[i] == UpperChar(s[i])
  {
    seq(|s|, i requires 0 <= i < |s| => UpperChar(s[i]))
  }

  /** Upper-casing keeps whitespace where it was, is idempotent, and adds no character but capitals. */
  lemma UpperKeeps(s: string)
    ensures IsStripped(s) ==> IsStripped(Upper(s))
    ensures Upper(Upper(s)) == Upper(s)
    ensures forall c :: c in Upper(s) && !('A' <= c <= 'Z') ==> c in s
  {
  }

  /** Stripping adds no character. */
  lemma StripWithin(s: string)
    ensures forall c :: c in Strip(s) ==> c in s
  {
    StripShape(s);
  }

  /** `s.startswith(p)`. */
  predicate StartsWith(s: string, p: string) {
    |p| <= |s| && s[..|p|] == p
  }

  /** Index of the first `c` in `s`, as `s.split(c, 1)` finds it. */
  function IndexOf(s: string, c: char): (r: nat)
    requires c in s
    ensures r < |s| && s[r] == c && c !in s[..r]
  {
    if s[0] == c then 0
    else
      assert s == [s[0]] + s[1..];
      var r := 1 + IndexOf(s[1..], c);
      assert s[..r] == [s[0]] + s[1..][..r - 1];
      r
  }

  /** `d` occurs in `s` at index `i`. */
  predicate OccursAt(s: string, d: string, i: nat) {
    i + |d| <= |s| && s[i..i + |d|] == d
  }

  /** The first index at or after `from` where `d` occurs in `s`, if there is one. */
  function Find(s: string, d: string, from: nat): (r: Option<nat>)
    requires |d| > 0
    decreases |s| - from
    ensures r.Some? ==> from <= r.value && OccursAt(s, d, r.value)
    ensures r.Some? ==> forall j :: from <= j < r.value ==> !OccursAt(s, d, j)
    ensures r.None? ==> forall j :: from <= j ==> !OccursAt(s, d, j)
  {
    if from + |d| > |s| then None
    else if s[from..from + |d|] == d then Some(from)
    else Find(s, d, from + 1)
  }

  /** `d in s`. */
  predicate Contains(s: string, d: string)
    requires |d| > 0
  {
    Find(s, d, 0).Some?
  }

  /** `s.split(d, 1)`: one part when `d` does not occur, else the text either side of its first occurrence. */
  function SplitOnce(s: string, d: string): (parts: seq<string>)
    requires |d| > 0
    ensures 1 <= |parts| <= 2
    ensures |parts| == 1 <==> !Contains(s, d)
    ensures |parts| == 1 ==> parts[0] == s
    ensures |parts| == 2 ==> s == parts[0] + d + parts[1] && !Contains(parts[0], d)
    ensures |parts| == 2 ==> Find(s, d, 0) == Some(|parts[0]|)
  {
    match Find(s, d, 0)
    case None => [s]
    case Some(k) =>
      assert s == s[..k] + d + s[k + |d|..];
      NoEarlierOccurrence(s, d, k);
      [s[..k], s[k + |d|..]]
  }

  /** A prefix that ends before the first occurrence of `d` contains no `d`. */
  lemma NoEarlierOccurrence(s: string, d: string, k: nat)
    requires |d| > 0 && k <= |s|
    requires forall j :: 0 <= j < k ==> !OccursAt(s, d, j)
    ensures !Contains(s[..k], d)
  {
    var p := s[..k];
    forall j: nat | j + |d| <= k
      ensures !OccursAt(p, d, j)
    {
      assert p[j..j + |d|] == s[j..j + |d|];
      assert !OccursAt(s, d, j);
    }
  }

  /** `s.split(d)`: the pieces between successive left-to-right, non-overlapping occurrences of `d`. */
  function SplitAll(s: string, d: string): (parts: seq<string>)
    requires |d| > 0
    decreases |s|
    ensures |parts| >= 1
    ensures forall i :: 0 <= i < |parts| ==> !Contains(parts[i], d)
  {
    match Find(s, d, 0)
    case None => [s]
    case Some(k) =>
      NoEarlierOccurrence(s, d, k);
      [s[..k]] + SplitAll(s[k + |d|..], d)
  }

  /**
   * Pieces cut at the leftmost occurrences of `d`: no piece but the last,
   * followed by all but the last character of `d`, contains `d`, so no
   * occurrence begins inside a piece and runs into the delimiter after it.
   */
  predicate CutLeftmost(parts: seq<string>, d: string)
    requires |d| > 0
  {
    forall i :: 0 <= i < |parts| - 1 ==> !Contains(parts[i] + d[..|d| - 1], d)
  }

  /** `split` cuts at the leftmost occurrences. */
  lemma {:induction false} SplitAllLeftmost(s: string, d: string)
    requires |d| > 0
    decreases |s|
    ensures CutLeftmost(SplitAll(s, d), d)
  {
    match Find(s, d, 0)
    case None =>
      assert SplitAll(s, d) == [s];
    case Some(k) =>
      var rest := s[k + |d|..];
      assert SplitAll(s, d) == [s[..k]] + SplitAll(rest, d);
      SplitAllLeftmost(rest, d);
      FirstCutClean(s, d, k);
      LeftmostCons(s[..k], SplitAll(rest, d), d);
  }

  /** A clean first piece before pieces cut leftmost: the whole is cut leftmost. */
  lemma LeftmostCons(first: string, tail: seq<string>, d: string)
    requires |d| > 0 && !Contains(first + d[..|d| - 1], d) && CutLeftmost(tail, d)
    ensures CutLeftmost([first] + tail, d)
  {
    var parts := [first] + tail;
    forall i | 1 <= i < |parts| - 1
      ensures !Contains(parts[i] + d[..|d| - 1], d)
    {
      assert parts[i] == tail[i - 1];
    }
  }

  /** Before the first occurrence of `d`, not even the start of `d` completes it. */
  lemma FirstCutClean(s: string, d: string, k: nat)
    requires |d| > 0 && Find(s, d, 0) == Some(k)
    ensures !Contains(s[..k] + d[..|d| - 1], d)
  {
    assert OccursAt(s, d, k) && forall j :: 0 <= j < k ==> !OccursAt(s, d, j);
    var q := s[..k + |d| - 1];
    forall j: nat | j + |d| <= |q|
      ensures !OccursAt(q, d, j)
    {
      assert q[j..j + |d|] == s[j..j + |d|];
      assert !OccursAt(s, d, j);
    }
    assert s[..k] + d[..|d| - 1] == q by {
      assert s[k..k + |d|] == d;
      assert q == s[..k] + s[k..k + |d| - 1];
    }
  }

  /** `sep.join(xs)`. */
  function Join(xs: seq<string>, sep: string): string
    decreases |xs|
  {
    if xs == [] then []
    else if |xs| == 1 then xs[0]
    else xs[0] + sep + Join(xs[1..], sep)
  }

  /** Splitting on every `d` and joining the pieces with `d` gives back the text. */
  lemma {:induction false} SplitAllJoin(s: string, d: string)
    requires |d| > 0
    decreases |s|
    ensures Join(SplitAll(s, d), d) == s
  {
    match Find(s, d, 0)
    case None =>
    case Some(k) =>
      var rest := s[k + |d|..];
      var parts := SplitAll(s, d);
      assert parts == [s[..k]] + SplitAll(rest, d);
      assert parts[1..] == SplitAll(rest, d);
      SplitAllJoin(rest, d);
      calc {
        Join(parts, d);
        s[..k] + d + Join(SplitAll(rest, d), d);
        s[..k] + d + rest;
        { assert s[k..k + |d|] == d; }
        s;
      }
  }

  /** The position of the first '\n' in `s`, or `|s|` when there is none. */
  function LineEnd(s: string): (k: nat)
    ensures k <= |s| && '\n' !in s[..k]
    ensures k < |s| ==> s[k] == '\n'
  {
    if '\n' in s then IndexOf(s, '\n') else |s|
  }

  /**
   * `s.splitlines()` with '\n' as the only line break: the empty text has no
   * lines and a final '\n' does not start another line.
   */
  function Lines(s: string): (ls: seq<string>)
    decreases |s|
    ensures s == [] <==> ls == []
    ensures forall i :: 0 <= i < |ls| ==> '\n' !in ls[i]
  {
    if s == [] then []
    else
      var k := LineEnd(s);
      if k == |s| then [s] else [s[..k]] + Lines(s[k + 1..])
  }

  /** `s` ends in a line break. */
  predicate EndsInBreak(s: string) {
    s != [] && s[|s| - 1] == '\n'
  }

  /**
   * Joining the lines with '\n' gives the text back, except that a final '\n'
   * started no line of its own.
   */
  lemma {:induction false} LinesJoin(s: string)
    decreases |s|
    ensures EndsInBreak(s) ==> Join(Lines(s), "\n") + "\n" == s
    ensures !EndsInBreak(s) ==> Join(Lines(s), "\n") == s
  {
    if s != [] {
      var k := LineEnd(s);
      if k < |s| {
        var rest := s[k + 1..];
        LinesJoin(rest);
        LinesJoinStep(s, k);
      } else {
        assert s[..k] == s;
        assert !EndsInBreak(s) by {
          assert s[|s| - 1] in s[..k];
        }
      }
    }
  }

  /** The first line, a '\n', and the rest: the claim of `LinesJoin` carries over from the rest to the whole. */
  lemma LinesJoinStep(s: string, k: nat)
    requires s != [] && k == LineEnd(s) && k < |s|
    requires var rest := s[k + 1..];
      && (EndsInBreak(rest) ==> Join(Lines(rest), "\n") + "\n" == rest)
      && (!EndsInBreak(rest) ==> Join(Lines(rest), "\n") == rest)
    ensures EndsInBreak(s) ==> Join(Lines(s), "\n") + "\n" == s
    ensures !EndsInBreak(s) ==> Join(Lines(s), "\n") == s
  {
    var rest := s[k + 1..];
    assert s == s[..k] + "\n" + rest;
    assert Lines(s) == [s[..k]] + Lines(rest);
    if rest == [] {
      assert EndsInBreak(s);
    } else {
      assert EndsInBreak(s) == EndsInBreak(rest) by {
        assert s[|s| - 1] == rest[|rest| - 1];
      }
      JoinCons(s[..k], Lines(rest), "\n");
      var j := Join(Lines(rest), "\n");
      assert s[..k] + "\n" + j + "\n" == s[..k] + "\n" + (j + "\n");
    }
  }

  /** Joining a non-empty tail after a first part puts one separator between them. */
  lemma JoinCons(x: string, xs: seq<string>, sep: string)
    requires xs != []
    ensures Join([x] + xs, sep) == x + sep + Join(xs, sep)
  {
    assert ([x] + xs)[1..] == xs;
  }

  /** A line without '\n' followed by '\n' is the first line of the text. */
  lemma LinesCons(a: string, b: string)
    requires '\n' !in a
    ensures Lines(a + "\n" + b) == [a] + Lines(b)
  {
    var s := a + "\n" + b;
    assert s[..|a|] == a;
    assert '\n' in s by { assert s[|a|] == '\n'; }
    assert LineEnd(s) == |a|;
    assert s[|a| + 1..] == b;
  }

  /** A non-empty text without '\n' is one line. */
  lemma LinesSingle(a: string)
    requires a != [] && '\n' !in a
    ensures Lines(a) == [a]
  {
  }

  /** A text with no '-' cannot contain "---". */
  lemma NoDashes(s: string)
    requires '-' !in s
    ensures !Contains(s, "---")
  {
    forall j: nat | j + 3 <= |s|
      ensures !OccursAt(s, "---", j)
    {
      assert s[j..j + 3][0] == s[j];
    }
  }

  /** When the first "---" of `a + "---" + b` is the one after `a`, `split` cuts there. */
  lemma SplitAtFirst(a: string, b: string)
    requires !Contains(a + "--", "---")
    ensures SplitOnce(a + "---" + b, "---") == [a, b]
    ensures SplitAll(a + "---" + b, "---") == [a] + SplitAll(b, "---")
  {
    var d := "---";
    var s := a + d + b;
    assert OccursAt(s, d, |a|) by { assert s[|a|..|a| + 3] == d; }
    forall j | 0 <= j < |a|
      ensures !OccursAt(s, d, j)
    {
      assert (a + "--")[j..j + 3] == s[j..j + 3];
      assert !OccursAt(a + "--", d, j);
    }
    assert Find(s, d, 0) == Some(|a|);
    assert s[..|a|] == a && s[|a| + 3..] == b;
  }
}
