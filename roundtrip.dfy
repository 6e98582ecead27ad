/**
 * A writer for deck source text, and the proof that the parser reads back
 * what it wrote.
 *
 * The writer puts one `KEY:value` line per header entry, then "---", then for
 * every note a `SUBDECK:` block naming the note's subdeck and a block with one
 * `FRONT:` line and one `BACK:` line, the blocks joined with "---". Parsing that
 * text gives back the header entries as a map (a later entry of a key wins)
 * and one card per note, in order, with the note's fields and subdeck and the
 * media its fields refer to.
 */
module RoundTrip {
  import opened Wrappers
  import opened Text
  import opened Parser
  import Media

  /** What the writer is given for one card: its two fields and its subdeck. */
  datatype Note = Note(front: string, back: string, subdeck: string)

  /** Text the writer can put after a marker: one line, no surrounding whitespace, no "---". */
  predicate Plain(x: string) {
    IsStripped(x) && '\n' !in x && !Contains(x, Delimiter)
  }

  /** A header key the parser reproduces: plain, no ':', already upper-case, not a comment. */
  predicate IsKey(k: string) {
    Plain(k) && ':' !in k && Upper(k) == k && (k == [] || k[0] != '#')
  }

  /** A header entry the writer can write. */
  predicate IsEntry(e: (string, string)) {
    IsKey(e.0) && Plain(e.1)
  }

  /** A note the writer can write: plain fields and subdeck. */
  predicate Writable(n: Note) {
    Plain(n.front) && Plain(n.back) && Plain(n.subdeck)
  }

  /** The card the parser makes of a note: its fields, its subdeck, the media its fields name. */
  function CardOfNote(n: Note): Card {
    Card(n.front, n.back, n.subdeck, Media.FindMedia(n.front) + Media.FindMedia(n.back))
  }

  /** The cards of the notes, in order. */
  function CardsOf(notes: seq<Note>): (cards: seq<Card>)
    ensures |cards| == |notes|
  {
    if notes == [] then []
    else CardsOf(notes[..|notes| - 1]) + [CardOfNote(notes[|notes| - 1])]
  }

  /** The header line of one entry. */
  function EntryLine(e: (string, string)): string {
    e.0 + ":" + e.1
  }

  /** The header region: one line per entry, each ended by '\n'. */
  function HeaderText(es: seq<(string, string)>): string {
    if es == [] then "" else EntryLine(es[0]) + "\n" + HeaderText(es[1..])
  }

  /** The line declaring a subdeck. */
  function DeclarationLine(subdeck: string): string {
    "SUBDECK:" + subdeck
  }

  /** The two lines of a note. */
  function NoteLines(n: Note): string {
    ("FRONT:" + n.front) + "\n" + ("BACK:" + n.back)
  }

  /** A block: its lines, each delimiter on a line of its own. */
  function Block(core: string): string {
    "\n" + core + "\n"
  }

  /** Two blocks per note: its subdeck's declaration, then the note. */
  function BodyBlocks(notes: seq<Note>): seq<string> {
    if notes == [] then []
    else
      var n := notes[|notes| - 1];
      BodyBlocks(notes[..|notes| - 1]) + [Block(DeclarationLine(n.subdeck)), Block(NoteLines(n))]
  }

  /** The deck source text of the given header entries and notes. */
  function Serialize(es: seq<(string, string)>, notes: seq<Note>): string {
    HeaderText(es) + Delimiter + Join(BodyBlocks(notes), Delimiter)
  }

  /** The map of the entries, a later entry of a key overwriting an earlier one. */
  function MapOf(es: seq<(string, string)>): map<string, string> {
    if es == [] then map[]
    else MapOf(es[..|es| - 1])[es[|es| - 1].0 := es[|es| - 1].1]
  }

  /**
   * What the writer writes, the parser reads: the header map of the entries
   * and one card per note, in order.
   */
  lemma ParseSerialize(es: seq<(string, string)>, notes: seq<Note>)
    requires forall i :: 0 <= i < |es| ==> IsEntry(es[i])
    requires forall i :: 0 <= i < |notes| ==> Writable(notes[i])
    ensures ParseText(Serialize(es, notes)) == (MapOf(es), CardsOf(notes))
  {
    var h := HeaderText(es);
    var body := Join(BodyBlocks(notes), Delimiter);
    HeaderFenced(es);
    NoDashTail(h);
    HeaderBeforeDelimiter(h, body);
    HeaderRoundTrip(es);
    BodyRoundTrip(notes);
  }

  // ---------------------------------------------------------------- header

  /** The parser reads an entry's line as that entry. */
  lemma EntryLineParses(e: (string, string))
    requires IsEntry(e)
    ensures HeaderEntry(EntryLine(e)) == Some(e)
  {
    var (k, v) := e;
    var line := EntryLine(e);
    EntryLineShape(k, v);
    StripStripped(k);
    StripStripped(v);
    StripStripped(line);
    assert Strip(line[..|k|]) == k && Strip(line[|k| + 1..]) == v;
    assert Upper(k) == k;
  }

  /** An entry's line: stripped, not a comment, its first ':' right after the key. */
  lemma EntryLineShape(k: string, v: string)
    requires IsKey(k) && Plain(v)
    ensures var line := k + ":" + v;
      && IsStripped(line) && !StartsWith(line, "#") && ':' in line
      && IndexOf(line, ':') == |k| && line[..|k|] == k && line[|k| + 1..] == v
  {
    var line := k + ":" + v;
    assert line[..|k|] == k && line[|k|] == ':' && line[|k| + 1..] == v;
    assert ':' in line;
    var i := IndexOf(line, ':');
    assert i == |k| by {
      assert line[i] !in k ==> i >= |k|;
      assert line[|k|] !in line[..i] ==> i <= |k|;
    }
    assert IsStripped(line) by {
      assert line[|line| - 1] == if v == [] then ':' else v[|v| - 1];
    }
    assert line[0] != '#';
  }

  /** The header region's lines are the entries' lines. */
  lemma {:induction false} HeaderLines(es: seq<(string, string)>)
    requires forall i :: 0 <= i < |es| ==> '\n' !in EntryLine(es[i])
    ensures |Lines(HeaderText(es))| == |es|
    ensures forall i :: 0 <= i < |es| ==> Lines(HeaderText(es))[i] == EntryLine(es[i])
  {
    if es != [] {
      HeaderLines(es[1..]);
      LinesCons(EntryLine(es[0]), HeaderText(es[1..]));
    }
  }

  /** Entries that are all present fold to the map of their values. */
  lemma {:induction false} CollectSomes(xs: seq<Option<(string, string)>>, es: seq<(string, string)>)
    requires |xs| == |es|
    requires forall i :: 0 <= i < |xs| ==> xs[i] == Some(es[i])
    ensures Collect(xs) == MapOf(es)
  {
    if xs != [] {
      var n := |xs| - 1;
      CollectSomes(xs[..n], es[..n]);
    }
  }

  /** The header region parses to the map of the entries. */
  lemma HeaderRoundTrip(es: seq<(string, string)>)
    requires forall i :: 0 <= i < |es| ==> IsEntry(es[i])
    ensures HeaderOf(Lines(HeaderText(es))) == MapOf(es)
  {
    forall i | 0 <= i < |es|
      ensures '\n' !in EntryLine(es[i]) && HeaderEntry(EntryLine(es[i])) == Some(es[i])
    {
      EntryLineParses(es[i]);
    }
    HeaderLines(es);
    var lines := Lines(HeaderText(es));
    CollectSomes(Entries(lines), es);
  }

  /** The header region holds no "---" and, unless empty, ends in a line break. */
  lemma {:induction false} HeaderFenced(es: seq<(string, string)>)
    requires forall i :: 0 <= i < |es| ==> IsEntry(es[i])
    ensures !Contains(HeaderText(es), Delimiter)
    ensures HeaderText(es) == [] || HeaderText(es)[|HeaderText(es)| - 1] == '\n'
  {
    if es != [] {
      var (k, v) := es[0];
      var rest := HeaderText(es[1..]);
      HeaderFenced(es[1..]);
      NoDashes(":");
      NoDashes("\n");
      Undelimited(k, ":");
      Undelimited(k + ":", v);
      Undelimited(EntryLine(es[0]), "\n");
      Undelimited(EntryLine(es[0]) + "\n", rest);
      assert rest == [] ==> EntryLine(es[0]) + "\n" + rest == EntryLine(es[0]) + "\n";
    }
  }

  /** A text without "---" that does not end in '-', followed by "--", holds no "---". */
  lemma NoDashTail(x: string)
    requires !Contains(x, Delimiter) && (x == [] || x[|x| - 1] != '-')
    ensures !Contains(x + "--", Delimiter)
  {
    if x == [] {
      assert x + "--" == "--";
    } else {
      Undelimited(x, "--");
    }
  }

  /**
   * Two texts without "---", one of them not dashed at the seam, joined:
   * no "---" can straddle the seam.
   */
  lemma Undelimited(x: string, y: string)
    requires !Contains(x, Delimiter) && !Contains(y, Delimiter)
    requires (x != [] && x[|x| - 1] != '-') || (y != [] && y[0] != '-')
    ensures !Contains(x + y, Delimiter)
  {
    var s := x + y;
    forall j: nat | j + 3 <= |s|
      ensures !OccursAt(s, Delimiter, j)
    {
      if j + 3 <= |x| {
        assert s[j..j + 3] == x[j..j + 3];
        assert !OccursAt(x, Delimiter, j);
      } else if j >= |x| {
        assert s[j..j + 3] == y[j - |x|..j - |x| + 3];
        assert !OccursAt(y, Delimiter, j - |x|);
      } else if x != [] && x[|x| - 1] != '-' {
        assert s[j..j + 3][|x| - 1 - j] == x[|x| - 1];
      } else {
        assert s[j..j + 3][|x| - j] == y[0];
      }
    }
  }

  // ---------------------------------------------------------------- body

  /** The body's blocks are the written blocks; with no notes there is one empty block. */
  lemma BodyRoundTrip(notes: seq<Note>)
    requires forall i :: 0 <= i < |notes| ==> Writable(notes[i])
    ensures RunBlocks(SplitAll(Join(BodyBlocks(notes), Delimiter), Delimiter)).cards == CardsOf(notes)
  {
    if notes == [] {
      NoNotes();
    } else {
      BlocksFenced(notes);
      SplitJoin(BodyBlocks(notes));
      RunBody(notes);
    }
  }

  /** With no notes the body is empty: one empty block, no cards. */
  lemma NoNotes()
    ensures RunBlocks(SplitAll(Join(BodyBlocks([]), Delimiter), Delimiter)).cards == []
  {
    assert SplitAll("", Delimiter) == [""];
    assert [""][..0] == [];
  }

  /** A block the splitter gives back: no "---" in it, and it ends in a character other than '-'. */
  predicate Fenced(b: string) {
    !Contains(b, Delimiter) && b != [] && b[|b| - 1] != '-'
  }

  /** Splitting fenced blocks joined by "---" gives the blocks back. */
  lemma {:induction false} SplitJoin(bs: seq<string>)
    requires bs != []
    requires forall i :: 0 <= i < |bs| ==> Fenced(bs[i])
    ensures SplitAll(Join(bs, Delimiter), Delimiter) == bs
  {
    if |bs| == 1 {
      assert Fenced(bs[0]);
    } else {
      SplitJoin(bs[1..]);
      assert Fenced(bs[0]);
      NoDashTail(bs[0]);
      SplitAtFirst(bs[0], Join(bs[1..], Delimiter));
      assert bs == [bs[0]] + bs[1..];
    }
  }

  /** Every written block is fenced. */
  lemma {:induction false} BlocksFenced(notes: seq<Note>)
    requires forall i :: 0 <= i < |notes| ==> Writable(notes[i])
    ensures forall i :: 0 <= i < |BodyBlocks(notes)| ==> Fenced(BodyBlocks(notes)[i])
  {
    if notes != [] {
      var k := |notes| - 1;
      var prev := BodyBlocks(notes[..k]);
      BlocksFenced(notes[..k]);
      assert Writable(notes[k]);
      NoteFenced(notes[k]);
      var bs := BodyBlocks(notes);
      forall i | 0 <= i < |bs|
        ensures Fenced(bs[i])
      {
        if i < |prev| {
          assert bs[i] == prev[i];
        }
      }
    }
  }

  /** A note's two blocks are fenced. */
  lemma NoteFenced(n: Note)
    requires Writable(n)
    ensures Fenced(Block(DeclarationLine(n.subdeck))) && Fenced(Block(NoteLines(n)))
  {
    SubdeckMarker();
    FrontMarker();
    BackMarker();
    MarkedText("SUBDECK:", n.subdeck);
    MarkedText("FRONT:", n.front);
    MarkedText("BACK:", n.back);
    NoDashes("\n");
    Undelimited("FRONT:" + n.front, "\n");
    Undelimited("FRONT:" + n.front + "\n", "BACK:" + n.back);
    BlockFenced(DeclarationLine(n.subdeck));
    BlockFenced(NoteLines(n));
  }

  /** A core without "---" between two line breaks is a fenced block. */
  lemma BlockFenced(core: string)
    requires !Contains(core, Delimiter)
    ensures Fenced(Block(core))
  {
    NoDashes("\n");
    Undelimited("\n", core);
    Undelimited("\n" + core, "\n");
  }

  /** The block loop over the written blocks makes the notes' cards and ends in the last note's subdeck. */
  lemma {:induction false} RunBody(notes: seq<Note>)
    requires forall i :: 0 <= i < |notes| ==> Writable(notes[i])
    ensures RunBlocks(BodyBlocks(notes)) ==
      Body(if notes == [] then "" else notes[|notes| - 1].subdeck, CardsOf(notes))
  {
    if notes != [] {
      var k := |notes| - 1;
      RunBody(notes[..k]);
      assert Writable(notes[k]);
      RunPair(BodyBlocks(notes[..k]), notes[k]);
    }
  }

  /** A note's two written blocks, after any blocks: the subdeck is the note's, and its card is added. */
  lemma RunPair(prev: seq<string>, n: Note)
    requires Writable(n)
    ensures RunBlocks(prev + [Block(DeclarationLine(n.subdeck)), Block(NoteLines(n))]) ==
      Body(n.subdeck, RunBlocks(prev).cards + [CardOfNote(n)])
  {
    var d := Block(DeclarationLine(n.subdeck));
    var bs := prev + [d, Block(NoteLines(n))];
    assert bs[..|bs| - 1] == prev + [d];
    assert (prev + [d])[..|prev|] == prev;
    var st := RunBlocks(prev);
    DeclarationStep(st, n.subdeck);
    NoteStep(Body(n.subdeck, st.cards), n);
  }

  /** A written declaration sets the subdeck and adds no card. */
  lemma DeclarationStep(st: Body, subdeck: string)
    requires Plain(subdeck)
    ensures StepBlock(st, Block(DeclarationLine(subdeck))) == Body(subdeck, st.cards)
  {
    var line := DeclarationLine(subdeck);
    DeclarationBlock(subdeck);
    SubdeckNameAfterMarker(line);
    StripStripped(subdeck);
  }

  /** A written declaration strips to its one line, which declares a subdeck. */
  lemma DeclarationBlock(subdeck: string)
    requires Plain(subdeck)
    ensures var line := DeclarationLine(subdeck);
      && Strip(Block(line)) == line && line != []
      && FirstLine(line) == line
      && IsSubdeckLine(line)
      && line[|"SUBDECK:"|..] == subdeck
  {
    var m := "SUBDECK:";
    var line := m + subdeck;
    SubdeckMarker();
    MarkedText(m, subdeck);
    UpperMarked(m, subdeck);
    Padded(line);
    LinesSingle(line);
    StripStripped(line);
  }

  /** A written note block adds exactly the note's card, under the running subdeck. */
  lemma NoteStep(st: Body, n: Note)
    requires Writable(n) && st.subdeck == n.subdeck
    ensures StepBlock(st, Block(NoteLines(n))) == Body(st.subdeck, st.cards + [CardOfNote(n)])
  {
    NoteBlock(n);
    NoteFields(n.front, n.back);
    assert Join([n.front], LineBreak) == n.front;
    assert Join([n.back], LineBreak) == n.back;
  }

  /** A written note block strips to its two lines, the first of which declares no subdeck. */
  lemma NoteBlock(n: Note)
    requires Plain(n.front) && Plain(n.back)
    ensures var l1 := "FRONT:" + n.front;
      var l2 := "BACK:" + n.back;
      && Strip(Block(NoteLines(n))) == NoteLines(n)
      && Lines(NoteLines(n)) == [l1, l2]
      && NoteLines(n) != [] && !IsSubdeckLine(FirstLine(NoteLines(n)))
  {
    var l1 := "FRONT:" + n.front;
    var l2 := "BACK:" + n.back;
    NoteCore(n);
    TwoLines(l1, l2);
    NotDeclaration(n.front);
  }

  /** A written note's lines are stripped as a whole, so its block strips to them. */
  lemma NoteCore(n: Note)
    requires Plain(n.front) && Plain(n.back)
    ensures '\n' !in "FRONT:" + n.front && '\n' !in "BACK:" + n.back && "BACK:" + n.back != []
    ensures Strip(Block(NoteLines(n))) == NoteLines(n)
  {
    var l1 := "FRONT:" + n.front;
    var l2 := "BACK:" + n.back;
    var core := NoteLines(n);
    FrontMarker();
    BackMarker();
    MarkedText("FRONT:", n.front);
    MarkedText("BACK:", n.back);
    assert IsStripped(core) by {
      assert core[0] == l1[0] && core[|core| - 1] == l2[|l2| - 1];
    }
    Padded(core);
  }

  /** Two lines without '\n' joined by '\n', the second non-empty, are two lines. */
  lemma TwoLines(l1: string, l2: string)
    requires '\n' !in l1 && '\n' !in l2 && l2 != []
    ensures Lines(l1 + "\n" + l2) == [l1, l2]
  {
    LinesCons(l1, l2);
    LinesSingle(l2);
  }

  /** A `FRONT:` line does not declare a subdeck. */
  lemma NotDeclaration(x: string)
    requires Plain(x)
    ensures var l := "FRONT:" + x;
      Strip(l) == l && !IsSubdeckLine(l)
  {
    var l := "FRONT:" + x;
    FrontMarker();
    MarkedText("FRONT:", x);
    StripStripped(l);
    assert Upper(l)[0] == 'F';
  }

  /** The two lines of a written note yield its fields. */
  lemma NoteFields(front: string, back: string)
    requires Plain(front) && Plain(back)
    ensures RunLines(["FRONT:" + front, "BACK:" + back]) == Fields(Back, [front], [back])
  {
    var l1, l2 := "FRONT:" + front, "BACK:" + back;
    assert [l1, l2][..1] == [l1];
    assert [l1][..0] == [];
    assert RunLines([l1]) == StepLine(Fields(NoField, [], []), l1);
    assert RunLines([l1, l2]) == StepLine(RunLines([l1]), l2);
    FrontLine(Fields(NoField, [], []), front);
    BackLine(Fields(Front, [front], []), back);
  }

  /** A written `FRONT:` line moves the cursor to FRONT and adds its text there. */
  lemma FrontLine(st: Fields, x: string)
    requires Plain(x)
    ensures StepLine(st, "FRONT:" + x) == Fields(Front, st.front + [x], st.back)
  {
    FrontLineParts(x);
  }

  /** A written `FRONT:` line is a content line marking FRONT, with text `x`. */
  lemma FrontLineParts(x: string)
    requires Plain(x)
    ensures var l := "FRONT:" + x;
      IsContent(l) && Marker(l) == Front && Fragment(l) == x
  {
    FrontMarker();
    MarkedContent("FRONT:", x);
    UpperMarked("FRONT:", x);
    StripStripped(x);
  }

  /** A written `BACK:` line moves the cursor to BACK and adds its text there. */
  lemma BackLine(st: Fields, x: string)
    requires Plain(x)
    ensures StepLine(st, "BACK:" + x) == Fields(Back, st.front, st.back + [x])
  {
    BackLineParts(x);
  }

  /** A written `BACK:` line is a content line marking BACK, with text `x`. */
  lemma BackLineParts(x: string)
    requires Plain(x)
    ensures var l := "BACK:" + x;
      IsContent(l) && Marker(l) == Back && Fragment(l) == x
  {
    BackMarker();
    MarkedContent("BACK:", x);
    UpperMarked("BACK:", x);
    NotFront(x);
    StripStripped(x);
  }

  /** A `BACK:` line does not open with `FRONT:`, in any case. */
  lemma NotFront(x: string)
    ensures !StartsWith(Upper("BACK:" + x), "FRONT:")
  {
    var l := "BACK:" + x;
    assert Upper(l)[0] == 'B';
  }

  /** A marker the writer uses: capitals and ':' only, so stripped, one line, no '-' or '#'. */
  predicate IsMarker(m: string) {
    m != [] && IsStripped(m) && m[0] != '#' && '\n' !in m && '-' !in m && Upper(m) == m
  }

  lemma FrontMarker()
    ensures IsMarker("FRONT:")
  {
    UpperCapitals("FRONT:");
  }

  lemma BackMarker()
    ensures IsMarker("BACK:")
  {
    UpperCapitals("BACK:");
  }

  lemma SubdeckMarker()
    ensures IsMarker("SUBDECK:")
  {
    UpperCapitals("SUBDECK:");
  }

  /** Text of capitals and ':' is its own upper case. */
  lemma UpperCapitals(m: string)
    requires forall i :: 0 <= i < |m| ==> 'A' <= m[i] <= 'Z' || m[i] == ':'
    ensures Upper(m) == m
  {
  }

  /** A marker followed by plain text: a stripped, one-line text holding the text after the marker. */
  lemma MarkedText(m: string, x: string)
    requires IsMarker(m) && Plain(x)
    ensures var l := m + x;
      && '\n' !in l && !Contains(l, Delimiter) && IsStripped(l)
      && l != [] && l[0] == m[0] && l[|m|..] == x
  {
    var l := m + x;
    NoDashes(m);
    Undelimited(m, x);
    assert l[..|m|] == m && l[|m|..] == x;
    assert l[0] == m[0];
    assert IsStripped(l) by {
      assert l[|l| - 1] == if x == [] then m[|m| - 1] else x[|x| - 1];
    }
  }

  /** A marker followed by plain text is a content line that strips to itself. */
  lemma MarkedContent(m: string, x: string)
    requires IsMarker(m) && Plain(x)
    ensures Strip(m + x) == m + x && IsContent(m + x) && (m + x)[|m|..] == x
  {
    MarkedText(m, x);
    StripStripped(m + x);
  }

  /** A marker in capitals still opens the text once it is upper-cased. */
  lemma UpperMarked(m: string, x: string)
    requires Upper(m) == m
    ensures StartsWith(Upper(m + x), m)
  {
    var l := m + x;
    forall i | 0 <= i < |m|
      ensures Upper(l)[i] == m[i]
    {
      assert l[i] == m[i];
      assert Upper(m)[i] == UpperChar(m[i]);
    }
    assert Upper(l)[..|m|] == m;
  }

  /** A stripped core between two line breaks strips back to the core. */
  lemma Padded(core: string)
    requires IsStripped(core)
    ensures Strip(Block(core)) == core
  {
    StripPadded("\n", core, "\n");
  }
}
