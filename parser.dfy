/**
 * The parsing part of `parse_input_file` in create_anki_deck.py: from the text
 * of a deck source file to its header map and its list of cards.
 *
 * The text is cut at its first "---" into a header region and a body; the
 * header region gives `KEY: value` entries; the body is cut at every "---"
 * into blocks. A block whose first line opens with `SUBDECK:` changes the
 * running subdeck; any other block is read line by line with a field cursor
 * (none, FRONT or BACK) and becomes a card when both fields received a
 * fragment.
 *
 * Each loop of the source is a method here (`ParseHeader`, `ParseCardBlock`,
 * `ParseInput`), proved equal to a function (`HeaderOf`, `CardOf`,
 * `RunBlocks`, `ParseText`) about which the properties are proved.
 */
module Parser {
  import opened Wrappers
  import opened Text
  import Media

  /** The delimiter between the header region and the body, and between blocks. */
  const Delimiter: string := "---"
  /** What the fragments of a field are joined with. */
  const LineBreak: string := "<br>"

  datatype Card = Card(front: string, back: string, subdeck: string, mediaFiles: set<string>)

  // ---------------------------------------------------------------- header

  /**
   * The entry one header line contributes: a line holding ':' that is not a
   * comment gives the stripped, upper-cased text before its first ':' as key
   * and the stripped text after it as value.
   */
  function HeaderEntry(line: string): (e: Option<(string, string)>)
    ensures e.Some? <==> ':' in line && !StartsWith(Strip(line), "#")
  {
    if ':' in line && !StartsWith(Strip(line), "#") then
      var i := IndexOf(line, ':');
      Some((Upper(Strip(line[..i])), Strip(line[i + 1..])))
    else None
  }

  /** A header key holds no ':', and key and value carry no surrounding whitespace; the key is in capitals. */
  lemma EntryShape(line: string)
    requires HeaderEntry(line).Some?
    ensures var (key, value) := HeaderEntry(line).value;
      && ':' !in key && IsStripped(key) && Upper(key) == key
      && IsStripped(value)
  {
    var i := IndexOf(line, ':');
    var key := Strip(line[..i]);
    StripWithin(line[..i]);
    UpperKeeps(key);
  }

  /** The entries of the given lines, line by line. */
  function Entries(lines: seq<string>): (es: seq<Option<(string, string)>>)
    ensures |es| == |lines|
    ensures forall i :: 0 <= i < |lines| ==> es[i] == HeaderEntry(lines[i])
  {
    if lines == [] then [] else [HeaderEntry(lines[0])] + Entries(lines[1..])
  }

  /** The map the entries build in order, a later entry overwriting an earlier one with its key. */
  function Collect(es: seq<Option<(string, string)>>): map<string, string> {
    if es == [] then map[]
    else Put(Collect(es[..|es| - 1]), es[|es| - 1])
  }

  /** The map with one more entry, if there is one. */
  function Put(m: map<string, string>, e: Option<(string, string)>): map<string, string> {
    match e
    case None => m
    case Some((k, v)) => m[k := v]
  }

  /** The header map the given header lines build. */
  function HeaderOf(lines: seq<string>): map<string, string> {
    Collect(Entries(lines))
  }

  /** The header loop of `parse_input_file`. */
  method ParseHeader(region: string) returns (header: map<string, string>)
    ensures header == HeaderOf(Lines(region))
  {
    var lines := Lines(region);
    ghost var entries := Entries(lines);
    header := map[];
    var i := 0;
    while i < |lines|
      invariant 0 <= i <= |lines|
      invariant header == Collect(entries[..i])
    {
      header := ReadHeaderLine(header, lines[i]);
      assert entries[..i + 1][..i] == entries[..i];
      assert entries[..i + 1][i] == HeaderEntry(lines[i]);
      i := i + 1;
    }
    assert entries[..i] == entries;
  }

  /** One pass of the header loop's body: the line's entry, if any, goes into the map. */
  method ReadHeaderLine(header: map<string, string>, line: string) returns (header': map<string, string>)
    ensures header' == Put(header, HeaderEntry(line))
  {
    if ':' in line && !StartsWith(Strip(line), "#") {
      var colon := IndexOf(line, ':');
      var key, value := line[..colon], line[colon + 1..];
      assert HeaderEntry(line) == Some((Upper(Strip(key)), Strip(value)));
      header' := header[Upper(Strip(key)) := Strip(value)];
    } else {
      assert HeaderEntry(line) == None;
      header' := header;
    }
  }

  /** Entry `e` sets `key`. */
  predicate Sets(e: Option<(string, string)>, key: string) {
    e.Some? && e.value.0 == key
  }

  /** A key is collected exactly when some entry sets it. */
  lemma {:induction false} CollectKeys(es: seq<Option<(string, string)>>, key: string)
    ensures key in Collect(es) <==> exists i :: 0 <= i < |es| && Sets(es[i], key)
  {
    if es != [] {
      var n := |es| - 1;
      var init := es[..n];
      CollectKeys(init, key);
      if key in Collect(es) {
        if key in Collect(init) {
          var i :| 0 <= i < |init| && Sets(init[i], key);
          assert es[i] == init[i];
        } else {
          assert Sets(es[n], key);
        }
      }
      if exists i :: 0 <= i < |es| && Sets(es[i], key) {
        var i :| 0 <= i < |es| && Sets(es[i], key);
        if i < n {
          assert init[i] == es[i];
        }
      }
    }
  }

  /** An entry that no later entry overrides gives its key's value. */
  lemma {:induction false} CollectLastWins(es: seq<Option<(string, string)>>, i: nat)
    requires i < |es| && es[i].Some?
    requires forall j :: i < j < |es| ==> !Sets(es[j], es[i].value.0)
    ensures es[i].value.0 in Collect(es) && Collect(es)[es[i].value.0] == es[i].value.1
  {
    var n := |es| - 1;
    if i < n {
      var init := es[..n];
      assert init[i] == es[i];
      forall j | i < j < |init|
        ensures !Sets(init[j], init[i].value.0)
      {
        assert init[j] == es[j];
      }
      CollectLastWins(init, i);
      assert !Sets(es[n], es[i].value.0);
    }
  }

  /** `line` is a header line that sets `key`. */
  predicate Defines(line: string, key: string) {
    Sets(HeaderEntry(line), key)
  }

  /** A key is in the header exactly when some header line sets it. */
  lemma HeaderKeys(lines: seq<string>, key: string)
    ensures key in HeaderOf(lines) <==> exists i :: 0 <= i < |lines| && Defines(lines[i], key)
  {
    var es := Entries(lines);
    CollectKeys(es, key);
    if exists i :: 0 <= i < |es| && Sets(es[i], key) {
      var i :| 0 <= i < |es| && Sets(es[i], key);
      assert Defines(lines[i], key);
    }
    if exists i :: 0 <= i < |lines| && Defines(lines[i], key) {
      var i :| 0 <= i < |lines| && Defines(lines[i], key);
      assert Sets(es[i], key);
    }
  }

  /** The value of a key is the one on the last line that sets it. */
  lemma HeaderLastWins(lines: seq<string>, i: nat)
    requires i < |lines| && HeaderEntry(lines[i]).Some?
    requires forall j :: i < j < |lines| ==> !Defines(lines[j], HeaderEntry(lines[i]).value.0)
    ensures HeaderEntry(lines[i]).value.0 in HeaderOf(lines)
    ensures HeaderOf(lines)[HeaderEntry(lines[i]).value.0] == HeaderEntry(lines[i]).value.1
  {
    var es := Entries(lines);
    forall j | i < j < |es|
      ensures !Sets(es[j], es[i].value.0)
    {
      assert !Defines(lines[j], HeaderEntry(lines[i]).value.0);
    }
    CollectLastWins(es, i);
  }

  // ---------------------------------------------------------------- card blocks

  /** The cursor of the per-block state machine: which field further lines go to. */
  datatype Field = NoField | Front | Back

  /** The state of the card loop: the cursor and the fragments gathered for each field. */
  datatype Fields = Fields(cursor: Field, front: seq<string>, back: seq<string>)

  /** The field a stripped line names by its marker, ignoring case: `FRONT:` before `BACK:`. */
  function MarkerOf(t: string): Field {
    if StartsWith(Upper(t), "FRONT:") then Front
    else if StartsWith(Upper(t), "BACK:") then Back
    else NoField
  }

  /** A line the card loop reads: not blank and not a comment once stripped. */
  predicate IsContent(raw: string) {
    var t := Strip(raw);
    t != [] && !StartsWith(t, "#")
  }

  /** The field a line's marker names, or NoField for blank, comment and plain lines. */
  function Marker(raw: string): Field {
    if IsContent(raw) then MarkerOf(Strip(raw)) else NoField
  }

  /** The text a content line contributes: after its marker if it has one, stripped. */
  function Fragment(raw: string): (x: string)
    ensures IsStripped(x)
  {
    var t := Strip(raw);
    match MarkerOf(t)
    case Front => Strip(t[|"FRONT:"|..])
    case Back => Strip(t[|"BACK:"|..])
    case NoField => t
  }

  /**
   * One line of a card block through the state machine: a content line moves
   * the cursor to the field its marker names, if any, and its fragment goes
   * to the field under the cursor, if any.
   */
  function StepLine(st: Fields, raw: string): Fields {
    if !IsContent(raw) then st
    else
      var cursor := if Marker(raw) != NoField then Marker(raw) else st.cursor;
      match cursor
      case NoField => st
      case Front => Fields(Front, st.front + [Fragment(raw)], st.back)
      case Back => Fields(Back, st.front, st.back + [Fragment(raw)])
  }

  /** The state after the given lines, starting with no field and no fragments. */
  function RunLines(lines: seq<string>): Fields {
    if lines == [] then Fields(NoField, [], [])
    else StepLine(RunLines(lines[..|lines| - 1]), lines[|lines| - 1])
  }

  /**
   * The card a (stripped, non-directive) block gives under the current
   * subdeck: present when both fields got a fragment, its fields the
   * fragments joined with `<br>`, its media the names found in either field.
   */
  function CardOf(block: string, subdeck: string): (c: Option<Card>)
    ensures c.Some? ==> c.value.subdeck == subdeck
    ensures c.Some? ==> c.value.mediaFiles == Media.FindMedia(c.value.front) + Media.FindMedia(c.value.back)
  {
    var f := RunLines(Lines(block));
    if f.front != [] && f.back != [] then
      var front := Join(f.front, LineBreak);
      var back := Join(f.back, LineBreak);
      Some(Card(front, back, subdeck, Media.FindMedia(front) + Media.FindMedia(back)))
    else None
  }

  /** A content line through the state machine, in the terms the card loop computes it. */
  lemma ContentStep(st: Fields, raw: string)
    requires IsContent(raw)
    ensures var t := Strip(raw);
      var (cursor, text) :=
        if StartsWith(Upper(t), "FRONT:") then (Front, t[|"FRONT:"|..])
        else if StartsWith(Upper(t), "BACK:") then (Back, t[|"BACK:"|..])
        else (st.cursor, t);
      StepLine(st, raw) ==
        match cursor
        case NoField => st
        case Front => Fields(Front, st.front + [Strip(text)], st.back)
        case Back => Fields(Back, st.front, st.back + [Strip(text)])
  {
    StripStripped(Strip(raw));
  }

  /** One pass of the card loop's body: the line moves the cursor and feeds the field under it. */
  method ReadCardLine(cursor: Field, front: seq<string>, back: seq<string>, raw: string)
    returns (cursor': Field, front': seq<string>, back': seq<string>)
    ensures Fields(cursor', front', back') == StepLine(Fields(cursor, front, back), raw)
  {
    cursor', front', back' := cursor, front, back;
    var line := Strip(raw);
    if line != [] && !StartsWith(line, "#") {
      ContentStep(Fields(cursor, front, back), raw);
      if StartsWith(Upper(line), "FRONT:") {
        cursor' := Front;
        line := line[|"FRONT:"|..];
      } else if StartsWith(Upper(line), "BACK:") {
        cursor' := Back;
        line := line[|"BACK:"|..];
      }
      if cursor' == Front {
        front' := front' + [Strip(line)];
      } else if cursor' == Back {
        back' := back' + [Strip(line)];
      }
    }
  }

  /** The card loop of `parse_input_file` for one block. */
  method ParseCardBlock(block: string, subdeck: string) returns (card: Option<Card>)
    ensures card == CardOf(block, subdeck)
  {
    var lines := Lines(block);
    var front: seq<string> := [];
    var back: seq<string> := [];
    var cursor := NoField;
    var i := 0;
    while i < |lines|
      invariant 0 <= i <= |lines|
      invariant Fields(cursor, front, back) == RunLines(lines[..i])
    {
      cursor, front, back := ReadCardLine(cursor, front, back, lines[i]);
      assert lines[..i + 1][..i] == lines[..i];
      i := i + 1;
    }
    assert lines[..i] == lines;
    if front != [] && back != [] {
      var frontText := Join(front, LineBreak);
      var backText := Join(back, LineBreak);
      card := Some(Card(frontText, backText, subdeck, Media.FindMedia(frontText) + Media.FindMedia(backText)));
    } else {
      card := None;
    }
  }

  /** Some line of `lines` is a marker for field `f`. */
  ghost predicate HasMarker(lines: seq<string>, f: Field) {
    exists i :: 0 <= i < |lines| && Marker(lines[i]) == f
  }

  /** The field named by the last marker line among `lines`, or NoField when there is none. */
  function LastMarker(lines: seq<string>): Field {
    if lines == [] then NoField
    else if Marker(lines[|lines| - 1]) != NoField then Marker(lines[|lines| - 1])
    else LastMarker(lines[..|lines| - 1])
  }

  /**
   * The fragments of field `f`, in source order: one per content line whose
   * most recent marker (counting the line itself) names `f`.
   */
  function Attributed(lines: seq<string>, f: Field): (xs: seq<string>)
    ensures forall k :: 0 <= k < |xs| ==> IsStripped(xs[k])
  {
    if lines == [] then []
    else
      var last := lines[|lines| - 1];
      Attributed(lines[..|lines| - 1], f) +
        (if IsContent(last) && LastMarker(lines) == f then [Fragment(last)] else [])
  }

  /**
   * The state machine files every content line under the field of the latest
   * marker: lines before the first marker, blank lines and comments are
   * dropped, and a repeated marker keeps appending to its field.
   */
  lemma {:induction false} RunLinesAttributes(lines: seq<string>)
    ensures RunLines(lines) == Fields(LastMarker(lines), Attributed(lines, Front), Attributed(lines, Back))
  {
    if lines != [] {
      var init := lines[..|lines| - 1];
      RunLinesAttributes(init);
    }
  }

  lemma {:induction false} LastMarkerIsMarker(lines: seq<string>)
    requires LastMarker(lines) != NoField
    ensures HasMarker(lines, LastMarker(lines))
  {
    var n := |lines| - 1;
    if Marker(lines[n]) == NoField {
      var init := lines[..n];
      LastMarkerIsMarker(init);
      var i :| 0 <= i < |init| && Marker(init[i]) == LastMarker(init);
      assert lines[i] == init[i];
    }
  }

  /** A field receives a fragment exactly when a marker line for it exists. */
  lemma AttributedNonEmpty(lines: seq<string>, f: Field)
    requires f != NoField
    ensures Attributed(lines, f) != [] <==> HasMarker(lines, f)
  {
    if Attributed(lines, f) != [] {
      AttributedHasMarker(lines, f);
    }
    if HasMarker(lines, f) {
      var i :| 0 <= i < |lines| && Marker(lines[i]) == f;
      MarkerAttributed(lines, f, i);
    }
  }

  lemma {:induction false} AttributedHasMarker(lines: seq<string>, f: Field)
    requires f != NoField && Attributed(lines, f) != []
    ensures HasMarker(lines, f)
  {
    var n := |lines| - 1;
    var init := lines[..n];
    if Attributed(init, f) != [] {
      AttributedHasMarker(init, f);
      var i :| 0 <= i < |init| && Marker(init[i]) == f;
      assert lines[i] == init[i];
    } else {
      assert LastMarker(lines) == f;
      LastMarkerIsMarker(lines);
    }
  }

  lemma {:induction false} MarkerAttributed(lines: seq<string>, f: Field, i: nat)
    requires f != NoField && i < |lines| && Marker(lines[i]) == f
    ensures Attributed(lines, f) != []
  {
    var n := |lines| - 1;
    if i == n {
      LastLineAttributed(lines, f);
    } else {
      var init := lines[..n];
      assert init[i] == lines[i];
      MarkerAttributed(init, f, i);
      AttributedGrows(lines, f);
    }
  }

  /** A further line never takes fragments away. */
  lemma AttributedGrows(lines: seq<string>, f: Field)
    requires lines != []
    ensures |Attributed(lines[..|lines| - 1], f)| <= |Attributed(lines, f)|
  {
  }

  /** A marker on the last line files that line under its field. */
  lemma LastLineAttributed(lines: seq<string>, f: Field)
    requires lines != [] && f != NoField && Marker(lines[|lines| - 1]) == f
    ensures Attributed(lines, f) != []
  {
    var last := lines[|lines| - 1];
    assert IsContent(last);
    assert LastMarker(lines) == f;
  }

  /**
   * A block becomes a card exactly when it has a FRONT: marker line and a
   * BACK: marker line (even with nothing after the marker); the fields are
   * the attributed fragments joined with `<br>`.
   */
  lemma CardOfFields(block: string, subdeck: string)
    ensures var lines := Lines(block);
      CardOf(block, subdeck).Some? <==> HasMarker(lines, Front) && HasMarker(lines, Back)
    ensures var lines := Lines(block);
      CardOf(block, subdeck).Some? ==>
        CardOf(block, subdeck).value.front == Join(Attributed(lines, Front), LineBreak) &&
        CardOf(block, subdeck).value.back == Join(Attributed(lines, Back), LineBreak)
  {
    var lines := Lines(block);
    RunLinesAttributes(lines);
    AttributedNonEmpty(lines, Front);
    AttributedNonEmpty(lines, Back);
  }

  // ---------------------------------------------------------------- blocks and subdecks

  /** The running state of the block loop: the current subdeck and the cards so far. */
  datatype Body = Body(subdeck: string, cards: seq<Card>)

  /** The first line of a stripped, non-empty block, stripped. */
  function FirstLine(block: string): string
    requires block != []
  {
    Strip(Lines(block)[0])
  }

  /** A first line that declares a subdeck. */
  predicate IsSubdeckLine(first: string) {
    StartsWith(Upper(first), "SUBDECK:")
  }

  /** The subdeck a declaration names: the stripped text after its first ':'. */
  function SubdeckName(first: string): string
    requires IsSubdeckLine(first)
  {
    assert Upper(first)[7] == "SUBDECK:"[7];
    assert first[7] in first;
    Strip(first[IndexOf(first, ':') + 1..])
  }

  /** The first ':' of a declaration closes its `SUBDECK:`, so `SUBDECK:` alone names the base deck "". */
  lemma SubdeckNameAfterMarker(first: string)
    requires IsSubdeckLine(first)
    ensures SubdeckName(first) == Strip(first[|"SUBDECK:"|..])
  {
    DeclarationColon(first);
    var i := IndexOf(first, ':');
    assert i == 7 by {
      assert first[7] !in first[..i] ==> i <= 7;
    }
  }

  /** The marker's ':' is the first one of a declaration line. */
  lemma DeclarationColon(first: string)
    requires IsSubdeckLine(first)
    ensures first[7] == ':'
    ensures forall j :: 0 <= j < 7 ==> first[j] != ':'
  {
    var u := Upper(first);
    assert u[..8] == "SUBDECK:";
    assert u[7] == ':';
    assert u[..7] == "SUBDECK";
    forall j | 0 <= j < 7
      ensures first[j] != ':'
    {
      assert u[j] in u[..7];
    }
  }

  /** One block through the block loop. */
  function StepBlock(st: Body, raw: string): (r: Body)
    ensures |st.cards| <= |r.cards| <= |st.cards| + 1
    ensures r.cards[..|st.cards|] == st.cards
  {
    var block := Strip(raw);
    if block == [] then st
    else
      var first := FirstLine(block);
      if IsSubdeckLine(first) then Body(SubdeckName(first), st.cards)
      else
        match CardOf(block, st.subdeck)
        case None => st
        case Some(c) => Body(st.subdeck, st.cards + [c])
  }

  /** A declaration block sets the subdeck and yields no card. */
  lemma DeclarationSetsSubdeck(st: Body, raw: string)
    requires IsDirective(raw)
    ensures StepBlock(st, raw) == Body(SubdeckName(FirstLine(Strip(raw))), st.cards)
  {
  }

  /** `SUBDECK:` with nothing after it returns to the base deck "". */
  lemma BareDeclarationResets(first: string)
    requires IsSubdeckLine(first) && AllSpace(first[|"SUBDECK:"|..])
    ensures SubdeckName(first) == ""
  {
    SubdeckNameAfterMarker(first);
  }

  /** The state of the block loop after the given blocks, from the base deck and no cards. */
  function RunBlocks(blocks: seq<string>): Body {
    if blocks == [] then Body("", [])
    else StepBlock(RunBlocks(blocks[..|blocks| - 1]), blocks[|blocks| - 1])
  }

  /** The blocks of the body: the text after the first "---", cut at every "---". */
  function Blocks(content: string): seq<string> {
    var parts := SplitOnce(content, Delimiter);
    var body := if |parts| > 1 then parts[1] else "";
    SplitAll(body, Delimiter)
  }

  /** `parse_input_file` on text already read: the header map and the cards. */
  function ParseText(content: string): (map<string, string>, seq<Card>) {
    var parts := SplitOnce(content, Delimiter);
    (HeaderOf(Lines(parts[0])), RunBlocks(Blocks(content)).cards)
  }

  /** The parsing part of `parse_input_file`, loops as in the source. */
  method ParseInput(content: string) returns (header: map<string, string>, cards: seq<Card>)
    ensures (header, cards) == ParseText(content)
  {
    var parts := SplitOnce(content, Delimiter);
    var headerContent := parts[0];
    var cardsContent := if |parts| > 1 then parts[1] else "";
    header := ParseHeader(headerContent);

    var blocks := SplitAll(cardsContent, Delimiter);
    var currentSubdeck := "";
    cards := [];
    var i := 0;
    while i < |blocks|
      invariant 0 <= i <= |blocks|
      invariant Body(currentSubdeck, cards) == RunBlocks(blocks[..i])
    {
      currentSubdeck, cards := ReadBlock(currentSubdeck, cards, blocks[i]);
      assert blocks[..i + 1][..i] == blocks[..i];
      i := i + 1;
    }
    assert blocks[..i] == blocks;
  }

  /** One pass of the block loop's body: a declaration changes the subdeck, a card block may add a card. */
  method ReadBlock(subdeck: string, cards: seq<Card>, raw: string) returns (subdeck': string, cards': seq<Card>)
    ensures Body(subdeck', cards') == StepBlock(Body(subdeck, cards), raw)
  {
    subdeck', cards' := subdeck, cards;
    var block := Strip(raw);
    if block != [] {
      var firstLine := Strip(Lines(block)[0]);
      if StartsWith(Upper(firstLine), "SUBDECK:") {
        subdeck' := SubdeckName(firstLine);
      } else {
        var card := ParseCardBlock(block, subdeck);
        if card.Some? {
          cards' := cards' + [card.value];
        }
      }
    }
  }

  // ---------------------------------------------------------------- properties of the body

  /** A block that declares a subdeck. */
  predicate IsDirective(raw: string) {
    var block := Strip(raw);
    block != [] && IsSubdeckLine(FirstLine(block))
  }

  /** A block read as a card: non-empty once stripped and not a declaration. */
  predicate IsCardBlock(raw: string) {
    Strip(raw) != [] && !IsDirective(raw)
  }

  /** The subdeck named by the last declaration among `blocks`, or "" (the base deck) if none. */
  function LastSubdeck(blocks: seq<string>): string {
    if blocks == [] then ""
    else
      var last := blocks[|blocks| - 1];
      if IsDirective(last) then SubdeckName(FirstLine(Strip(last)))
      else LastSubdeck(blocks[..|blocks| - 1])
  }

  /** Block `i` yields a card: a card block whose card exists under the subdeck in force before it. */
  predicate Emits(blocks: seq<string>, i: nat)
    requires i < |blocks|
  {
    IsCardBlock(blocks[i]) && CardOf(Strip(blocks[i]), LastSubdeck(blocks[..i])).Some?
  }

  /** The number of card blocks among `blocks`. */
  function CardBlockCount(blocks: seq<string>): nat {
    if blocks == [] then 0
    else CardBlockCount(blocks[..|blocks| - 1]) + (if IsCardBlock(blocks[|blocks| - 1]) then 1 else 0)
  }

  /** The positions of the set flags, in increasing order. */
  function Hits(flags: seq<bool>): (o: seq<nat>)
    ensures forall k :: 0 <= k < |o| ==> o[k] < |flags| && flags[o[k]]
    ensures forall k, l :: 0 <= k < l < |o| ==> o[k] < o[l]
    ensures forall i :: 0 <= i < |flags| && flags[i] ==> i in o
  {
    if flags == [] then []
    else
      var n := |flags| - 1;
      var o := Hits(flags[..n]);
      assert forall i :: 0 <= i < n ==> flags[..n][i] == flags[i];
      o + (if flags[n] then [n] else [])
  }

  /** For each block, whether it yields a card. */
  function EmitFlags(blocks: seq<string>): (flags: seq<bool>)
    ensures |flags| == |blocks|
    ensures forall i :: 0 <= i < |blocks| ==> flags[i] == Emits(blocks, i)
  {
    seq(|blocks|, i requires 0 <= i < |blocks| => Emits(blocks, i))
  }

  /**
   * The indices of the blocks that yield a card: each one yields a card, they
   * increase, and no block that yields a card is missing.
   */
  function Origins(blocks: seq<string>): (o: seq<nat>)
    ensures forall k :: 0 <= k < |o| ==> o[k] < |blocks| && Emits(blocks, o[k])
    ensures forall k, l :: 0 <= k < l < |o| ==> o[k] < o[l]
    ensures forall i :: 0 <= i < |blocks| && Emits(blocks, i) ==> i in o
  {
    Hits(EmitFlags(blocks))
  }

  /** Whether a block yields a card depends only on the blocks up to it. */
  lemma EmitsPrefix(blocks: seq<string>, n: nat, i: nat)
    requires i < n <= |blocks|
    ensures Emits(blocks[..n], i) == Emits(blocks, i)
  {
    assert blocks[..n][..i] == blocks[..i];
    assert blocks[..n][i] == blocks[i];
  }

  /** One more block adds its own index, if it yields a card. */
  lemma OriginsSnoc(blocks: seq<string>)
    requires blocks != []
    ensures var n := |blocks| - 1;
      Origins(blocks) == Origins(blocks[..n]) + (if Emits(blocks, n) then [n] else [])
  {
    var n := |blocks| - 1;
    forall i | 0 <= i < n
      ensures EmitFlags(blocks)[..n][i] == EmitFlags(blocks[..n])[i]
    {
      EmitsPrefix(blocks, n, i);
    }
    assert EmitFlags(blocks)[..n] == EmitFlags(blocks[..n]);
  }

  /** There are no more origins than card blocks. */
  lemma {:induction false} OriginsBound(blocks: seq<string>)
    ensures |Origins(blocks)| <= CardBlockCount(blocks)
  {
    if blocks != [] {
      OriginsSnoc(blocks);
      OriginsBound(blocks[..|blocks| - 1]);
    }
  }

  /**
   * The cards are, in order, those of the blocks that yield one; each carries
   * the subdeck of the most recent declaration before its block ("" if none);
   * and the loop ends in the subdeck of the last declaration.
   */
  lemma {:induction false} CardsFollowBlocks(blocks: seq<string>)
    ensures var r := RunBlocks(blocks);
      var o := Origins(blocks);
      && r.subdeck == LastSubdeck(blocks)
      && |r.cards| == |o|
      && forall k :: 0 <= k < |o| ==>
           Some(r.cards[k]) == CardOf(Strip(blocks[o[k]]), LastSubdeck(blocks[..o[k]]))
  {
    if blocks != [] {
      var n := |blocks| - 1;
      var init := blocks[..n];
      CardsFollowBlocks(init);
      StepBlockSubdeck(RunBlocks(init), blocks);
      StepBlockCards(RunBlocks(init), blocks);
      OriginsSnoc(blocks);
      var o := Origins(init);
      forall k | 0 <= k < |o|
        ensures blocks[o[k]] == init[o[k]] && blocks[..o[k]] == init[..o[k]]
      {
      }
    }
  }

  /** The last block under the subdeck in force before it: what it does to the subdeck. */
  lemma StepBlockSubdeck(st: Body, blocks: seq<string>)
    requires blocks != [] && st.subdeck == LastSubdeck(blocks[..|blocks| - 1])
    ensures StepBlock(st, blocks[|blocks| - 1]).subdeck == LastSubdeck(blocks)
  {
  }

  /** The last block under the subdeck in force before it: what it does to the cards. */
  lemma StepBlockCards(st: Body, blocks: seq<string>)
    requires blocks != [] && st.subdeck == LastSubdeck(blocks[..|blocks| - 1])
    ensures var n := |blocks| - 1;
      StepBlock(st, blocks[n]).cards ==
        st.cards + (if Emits(blocks, n) then [CardOf(Strip(blocks[n]), st.subdeck).value] else [])
  {
  }

  /** No more cards than card blocks: declarations and empty blocks never yield one. */
  lemma CardCountBound(blocks: seq<string>)
    ensures |RunBlocks(blocks).cards| <= CardBlockCount(blocks)
  {
    CardsFollowBlocks(blocks);
    OriginsBound(blocks);
  }

  /** Every card's subdeck is the one declared last before its block, or "". */
  lemma CardSubdecks(blocks: seq<string>)
    ensures var r := RunBlocks(blocks);
      var o := Origins(blocks);
      |r.cards| == |o| &&
      forall k :: 0 <= k < |o| ==> r.cards[k].subdeck == LastSubdeck(blocks[..o[k]])
  {
    CardsFollowBlocks(blocks);
  }

  // ---------------------------------------------------------------- header and body split

  /** Without a "---" the whole text is header and there are no cards. */
  lemma NoDelimiterNoCards(content: string)
    requires !Contains(content, Delimiter)
    ensures ParseText(content) == (HeaderOf(Lines(content)), [])
  {
    assert Blocks(content) == SplitAll("", Delimiter) == [""];
    assert [""][..0] == [];
  }

  /** The header comes from the text before the first "---" only, whatever follows. */
  lemma HeaderBeforeDelimiter(h: string, b: string)
    requires !Contains(h + "--", Delimiter)
    ensures ParseText(h + Delimiter + b).0 == HeaderOf(Lines(h))
    ensures Blocks(h + Delimiter + b) == SplitAll(b, Delimiter)
  {
    SplitAtFirst(h, b);
  }
}
