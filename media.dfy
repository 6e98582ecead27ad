/**
 * `find_media_files`: the media names a field refers to. The source runs two
 * fixed regular expressions with `findall`, ignoring case:
 *
 *   an image tag   <img src="NAME"   then optional whitespace, an optional '/', then '>'
 *   a sound marker [sound:NAME]
 *
 * where NAME is non-empty and holds no '"' (image) or no ']' (sound). Both are
 * modelled as hand-written scanners that, like `findall`, try every position
 * from left to right and resume after the end of each match.
 */
module Media {
  import opened Wrappers
  import opened Text

  datatype Pattern = Image | Sound

  /** The literal text a match opens with, upper-cased: the literal is matched ignoring ASCII case. */
  function Opening(p: Pattern): string {
    match p
    case Image => "<IMG SRC=\""
    case Sound => "[SOUND:"
  }

  /** The character that ends the captured name. */
  function Closing(p: Pattern): char {
    match p
    case Image => '"'
    case Sound => ']'
  }

  /** The length of the run of characters other than `c` starting at index `i`. */
  function RunUntil(s: string, i: nat, c: char): (n: nat)
    requires i <= |s|
    decreases |s| - i
    ensures i + n <= |s| && c !in s[i..i + n]
    ensures i + n < |s| ==> s[i + n] == c
  {
    if i < |s| && s[i] != c then
      var n := 1 + RunUntil(s, i + 1, c);
      assert s[i..i + n] == [s[i]] + s[i + 1..i + n];
      n
    else 0
  }

  /** The first index at or after `i` that does not hold whitespace (the greedy `\s*`). */
  function SkipSpace(s: string, i: nat): (j: nat)
    requires i <= |s|
    decreases |s| - i
    ensures i <= j <= |s| && AllSpace(s[i..j])
    ensures j < |s| ==> !IsSpace(s[j])
  {
    if i < |s| && IsSpace(s[i]) then
      var j := SkipSpace(s, i + 1);
      assert s[i..j] == [s[i]] + s[i + 1..j];
      j
    else i
  }

  /**
   * The pattern tried at the start of `s`: the captured name and the length of
   * the matched text, or None when the pattern does not match there.
   */
  function MatchAt(p: Pattern, s: string): (m: Option<(string, nat)>)
    ensures m.Some? ==> 0 < m.value.1 <= |s|
    ensures m.Some? ==> m.value.0 != [] && Closing(p) !in m.value.0
  {
    var o := Opening(p);
    if |s| < |o| || Upper(s[..|o|]) != o then None
    else
      var n := RunUntil(s, |o|, Closing(p));
      if n == 0 || |o| + n == |s| then None
      else
        var name := s[|o|..|o| + n];
        var after := |o| + n + 1;
        match p
        case Sound => Some((name, after))
        case Image =>
          match TagEnd(s, after)
          case Some(len) => Some((name, len))
          case None => None
  }

  /** Where `\s*\/?>` starting at index `i` ends, if it matches there. */
  function TagEnd(s: string, i: nat): (r: Option<nat>)
    requires i <= |s|
    ensures r.Some? ==> i < r.value <= |s|
  {
    var j := SkipSpace(s, i);
    if j < |s| && s[j] == '>' then Some(j + 1)
    else if j + 1 < |s| && s[j] == '/' && s[j + 1] == '>' then Some(j + 2)
    else None
  }

  /** `t` is what `\s*\/?>` matches in full: whitespace, an optional '/', then '>'. */
  predicate IsTagEnd(t: string) {
    |t| >= 1 && t[|t| - 1] == '>' &&
    (AllSpace(t[..|t| - 1]) || (|t| >= 2 && t[|t| - 2] == '/' && AllSpace(t[..|t| - 2])))
  }

  /**
   * The pattern read as a regular expression: `s` begins with a match of `p`
   * that is `len` characters long and captures `name`.
   */
  ghost predicate IsMatch(p: Pattern, s: string, name: string, len: nat) {
    var o := Opening(p);
    var e := |o| + |name|;
    && e < len <= |s|
    && Upper(s[..|o|]) == o
    && name != [] && Closing(p) !in name
    && s[|o|..e] == name && s[e] == Closing(p)
    && match p
       case Sound => len == e + 1
       case Image => IsTagEnd(s[e + 1..len])
  }

  /** The greedy tag-end scan finds exactly the texts `IsTagEnd` describes. */
  lemma TagEndIsTagEnd(s: string, i: nat, len: nat)
    requires i <= len <= |s|
    ensures TagEnd(s, i) == Some(len) <==> IsTagEnd(s[i..len])
  {
    if TagEnd(s, i) == Some(len) {
      TagEndSound(s, i, len);
    }
    if IsTagEnd(s[i..len]) {
      TagEndComplete(s, i, len);
    }
  }

  lemma TagEndSound(s: string, i: nat, len: nat)
    requires i <= len <= |s| && TagEnd(s, i) == Some(len)
    ensures IsTagEnd(s[i..len])
  {
    var j := SkipSpace(s, i);
    var t := s[i..len];
    if s[j] == '>' {
      assert t[..|t| - 1] == s[i..j];
    } else {
      assert t[..|t| - 2] == s[i..j];
    }
  }

  lemma TagEndComplete(s: string, i: nat, len: nat)
    requires i <= len <= |s| && IsTagEnd(s[i..len])
    ensures TagEnd(s, i) == Some(len)
  {
    var t := s[i..len];
    var k := if AllSpace(t[..|t| - 1]) then len - 1 else len - 2;
    assert s[i..k] == t[..k - i];
    assert s[k] == t[k - i];
    SkipSpaceTo(s, i, k);
  }

  /** Whitespace up to a non-space character at `k`: the skip stops at `k`. */
  lemma {:induction false} SkipSpaceTo(s: string, i: nat, k: nat)
    requires i <= k < |s| && AllSpace(s[i..k]) && !IsSpace(s[k])
    decreases k - i
    ensures SkipSpace(s, i) == k
  {
    if i < k {
      assert s[i] == s[i..k][0];
      assert s[i + 1..k] == s[i..k][1..];
      SkipSpaceTo(s, i + 1, k);
    }
  }

  /** The run of non-closing characters is exactly the name a match captures. */
  lemma RunUntilExact(s: string, i: nat, c: char, name: string)
    requires i + |name| < |s| && s[i..i + |name|] == name && c !in name && s[i + |name|] == c
    ensures RunUntil(s, i, c) == |name|
  {
  }

  /** The scanner's single step agrees with the regular expression, in both directions. */
  lemma MatchAtIsMatch(p: Pattern, s: string, name: string, len: nat)
    ensures MatchAt(p, s) == Some((name, len)) <==> IsMatch(p, s, name, len)
  {
    if MatchAt(p, s) == Some((name, len)) {
      MatchAtSound(p, s, name, len);
    }
    if IsMatch(p, s, name, len) {
      MatchAtComplete(p, s, name, len);
    }
  }

  lemma MatchAtSound(p: Pattern, s: string, name: string, len: nat)
    requires MatchAt(p, s) == Some((name, len))
    ensures IsMatch(p, s, name, len)
  {
    if p == Image {
      TagEndIsTagEnd(s, |Opening(p)| + |name| + 1, len);
    }
  }

  lemma MatchAtComplete(p: Pattern, s: string, name: string, len: nat)
    requires IsMatch(p, s, name, len)
    ensures MatchAt(p, s) == Some((name, len))
  {
    RunUntilExact(s, |Opening(p)|, Closing(p), name);
    if p == Image {
      TagEndIsTagEnd(s, |Opening(p)| + |name| + 1, len);
    }
  }

  /**
   * `pattern.findall(text)` collected into a set: try the pattern at each
   * position, and after a match resume where it ended.
   */
  function FindAll(p: Pattern, s: string): (names: set<string>)
    decreases |s|
    ensures forall name :: name in names ==> name != [] && Closing(p) !in name
  {
    if s == [] then {}
    else
      match MatchAt(p, s)
      case Some((name, len)) => {name} + FindAll(p, s[len..])
      case None => FindAll(p, s[1..])
  }

  /** `find_media_files(text)`: image names and sound names together. */
  function FindMedia(text: string): (names: set<string>)
    ensures forall name :: name in names ==> name != []
  {
    FindAll(Image, text) + FindAll(Sound, text)
  }

  /** Some suffix of `s` starts with a match of `p` capturing `name`. */
  ghost predicate MatchedWithin(p: Pattern, s: string, name: string) {
    exists k, len :: 0 <= k < |s| && IsMatch(p, s[k..], name, len)
  }

  /** Every name the scanner reports is captured by a genuine match somewhere in the text. */
  lemma {:induction false} FindAllSound(p: Pattern, s: string, name: string)
    requires name in FindAll(p, s)
    decreases |s|
    ensures MatchedWithin(p, s, name)
  {
    match MatchAt(p, s)
    case Some((n, len)) =>
      if name == n {
        MatchAtIsMatch(p, s, n, len);
        assert s[0..] == s;
        assert IsMatch(p, s[0..], name, len);
      } else {
        FindAllSound(p, s[len..], name);
        var k, l :| 0 <= k < |s[len..]| && IsMatch(p, s[len..][k..], name, l);
        assert s[len..][k..] == s[len + k..];
        assert IsMatch(p, s[len + k..], name, l);
      }
    case None =>
      FindAllSound(p, s[1..], name);
      var k, l :| 0 <= k < |s[1..]| && IsMatch(p, s[1..][k..], name, l);
      assert s[1..][k..] == s[1 + k..];
      assert IsMatch(p, s[1 + k..], name, l);
  }

  /** A text whose first character cannot open the pattern does not start a match. */
  lemma NoMatchWithoutOpening(p: Pattern, s: string)
    requires s != [] && s[0] != Opening(p)[0]
    ensures MatchAt(p, s) == None
  {
    var o := Opening(p);
    if |s| >= |o| {
      assert Upper(s[..|o|])[0] == UpperChar(s[0]);
    }
  }

  /** Text in which the pattern's opening character never appears contributes no names. */
  lemma {:induction false} FindAllSkip(p: Pattern, a: string, s: string)
    requires Opening(p)[0] !in a
    decreases |a|
    ensures FindAll(p, a + s) == FindAll(p, s)
  {
    if a != [] {
      NoMatchWithoutOpening(p, a + s);
      assert FindAll(p, a + s) == FindAll(p, (a + s)[1..]);
      assert (a + s)[1..] == a[1..] + s;
      FindAllSkip(p, a[1..], s);
    } else {
      assert a + s == s;
    }
  }

  /** Upper-casing leaves a text without lower-case ASCII letters as it is. */
  lemma UpperUnchanged(x: string)
    requires forall i :: 0 <= i < |x| ==> !('a' <= x[i] <= 'z')
    ensures Upper(x) == x
  {
  }

  /** The lower-case spellings of both openings are recognised. */
  lemma LowerCaseOpenings()
    ensures Upper("<img src=\"") == Opening(Image)
    ensures Upper("[sound:") == Opening(Sound)
  {
  }

  /** A match at the start of the text contributes its name, and scanning resumes after it. */
  lemma FindAllAfterMatch(p: Pattern, s: string, name: string, len: nat)
    requires IsMatch(p, s, name, len)
    ensures FindAll(p, s) == {name} + FindAll(p, s[len..])
  {
    MatchAtIsMatch(p, s, name, len);
  }

  /** Where the pieces of an opening, a name, a closing character and a tail sit in their concatenation. */
  lemma PieceSlices(open: string, name: string, c: char, tail: string, rest: string)
    ensures var s := open + name + [c] + tail + rest;
      && s[..|open|] == open
      && s[|open|..|open| + |name|] == name
      && s[|open| + |name|] == c
      && s[|open| + |name| + 1..|open| + |name| + 1 + |tail|] == tail
  {
    assert open + name + [c] + tail + rest == open + name + [c] + (tail + rest);
    MarkerSlices(open, name, c, tail + rest);
    MiddleSlice(open + name + [c], tail, rest);
  }

  /** The middle piece of a three-piece concatenation. */
  lemma MiddleSlice(x: string, t: string, r: string)
    ensures (x + t + r)[|x|..|x| + |t|] == t
  {
    assert (x + t + r)[|x|..] == t + r;
  }

  /** An image tag, in any letter case, whose name is followed by a valid tag end is a match. */
  lemma ImageTagMatches(open: string, name: string, tail: string, rest: string)
    requires Upper(open) == Opening(Image) && name != [] && Closing(Image) !in name && IsTagEnd(tail)
    ensures IsMatch(Image, open + name + [Closing(Image)] + tail + rest, name, |open| + |name| + 1 + |tail|)
  {
    PieceSlices(open, name, Closing(Image), tail, rest);
  }

  /** A sound marker, in any letter case, with a non-empty name is a match. */
  lemma SoundMarkerMatches(open: string, name: string, rest: string)
    requires Upper(open) == Opening(Sound) && name != [] && Closing(Sound) !in name
    ensures IsMatch(Sound, open + name + [Closing(Sound)] + rest, name, |open| + |name| + 1)
  {
    MarkerSlices(open, name, Closing(Sound), rest);
  }

  /** Where the pieces of an opening, a name and a closing character sit in their concatenation. */
  lemma MarkerSlices(open: string, name: string, c: char, rest: string)
    ensures var s := open + name + [c] + rest;
      && s[..|open|] == open
      && s[|open|..|open| + |name|] == name
      && s[|open| + |name|] == c
  {
    var s := open + name + [c] + rest;
    var r := name + [c] + rest;
    assert s == open + r;
    assert s[|open|..] == r;
    assert s[|open|..|open| + |name|] == r[..|name|];
  }

  /**
   * The opening literal is matched ignoring case: `<IMG SRC="a.png">` names `a.png`.
   * The example's pieces are parameters pinned by `requires`, rather than literals
   * in the `ensures`, so that the verifier reasons about the concatenation piece
   * by piece instead of expanding one long literal, which keeps the proof cheap.
   * `ExamplePieces` below does the same.
   */
  lemma UpperCaseImage(open: string, name: string, tail: string)
    requires open == "<IMG SRC=\"" && name == "a.png" && tail == ">"
    ensures FindMedia(open + name + "\"" + tail) == {"a.png"}
  {
    UpperCaseImageFound(open, name, tail);
    UpperCaseImageNoSound(open, name, tail);
  }

  lemma UpperCaseImageFound(open: string, name: string, tail: string)
    requires open == "<IMG SRC=\"" && name == "a.png" && tail == ">"
    ensures FindAll(Image, open + name + "\"" + tail) == {"a.png"}
  {
    var s := open + name + "\"" + tail;
    UpperUnchanged(open);
    assert IsTagEnd(tail);
    ImageTagMatches(open, name, tail, []);
    assert s + [] == s;
    FindAllAfterMatch(Image, s, "a.png", |s|);
    assert s[|s|..] == [];
  }

  lemma UpperCaseImageNoSound(open: string, name: string, tail: string)
    requires open == "<IMG SRC=\"" && name == "a.png" && tail == ">"
    ensures FindAll(Sound, open + name + "\"" + tail) == {}
  {
    var s := open + name + "\"" + tail;
    assert Opening(Sound)[0] !in s;
    FindAllSkip(Sound, s, []);
    assert s + [] == s;
  }

  /** The literal pieces of the example field used below: a self-closing image tag, then a sound. */
  predicate ExamplePieces(open1: string, name1: string, tail: string, open2: string, name2: string) {
    open1 == "<img src=\"" && name1 == "a.png" && tail == " />" && open2 == "[sound:" && name2 == "b.mp3"
  }

  /** Neither piece holds the other pattern's opening character. */
  lemma ExampleOpenings(open1: string, name1: string, tail: string, open2: string, name2: string)
    requires ExamplePieces(open1, name1, tail, open2, name2)
    ensures Opening(Image)[0] !in open2 + name2 + "]"
    ensures Opening(Sound)[0] !in open1 + name1 + "\"" + tail
  {
  }

  lemma ExampleImages(open1: string, name1: string, tail: string, open2: string, name2: string)
    requires ExamplePieces(open1, name1, tail, open2, name2)
    ensures FindAll(Image, open1 + name1 + "\"" + tail + (open2 + name2 + "]")) == {"a.png"}
  {
    var snd := open2 + name2 + "]";
    var s := open1 + name1 + "\"" + tail + snd;
    var len := |open1| + |name1| + 1 + |tail|;
    LowerCaseOpenings();
    assert IsTagEnd(tail) by {
      assert AllSpace(tail[..1]);
    }
    ImageTagMatches(open1, name1, tail, snd);
    FindAllAfterMatch(Image, s, "a.png", len);
    assert s[len..] == snd;
    ExampleOpenings(open1, name1, tail, open2, name2);
    FindAllSkip(Image, snd, []);
    assert snd + [] == snd;
  }

  lemma ExampleSounds(open1: string, name1: string, tail: string, open2: string, name2: string)
    requires ExamplePieces(open1, name1, tail, open2, name2)
    ensures FindAll(Sound, open1 + name1 + "\"" + tail + (open2 + name2 + "]")) == {"b.mp3"}
  {
    var img := open1 + name1 + "\"" + tail;
    var snd := open2 + name2 + "]";
    LowerCaseOpenings();
    ExampleOpenings(open1, name1, tail, open2, name2);
    FindAllSkip(Sound, img, snd);
    SoundMarkerMatches(open2, name2, []);
    assert snd + [] == snd;
    FindAllAfterMatch(Sound, snd, "b.mp3", |snd|);
    assert snd[|snd|..] == [];
  }

  /** An image tag and a sound marker in one field: both names are found. */
  lemma ImageAndSound(open1: string, name1: string, tail: string, open2: string, name2: string)
    requires ExamplePieces(open1, name1, tail, open2, name2)
    ensures FindMedia(open1 + name1 + "\"" + tail + (open2 + name2 + "]")) == {"a.png", "b.mp3"}
  {
    ExampleImages(open1, name1, tail, open2, name2);
    ExampleSounds(open1, name1, tail, open2, name2);
  }
}
