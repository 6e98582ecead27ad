# Anki deck source parser, modelled in Dafny

`create_anki_deck.py` turns a plain-text deck source into an Anki package. This
project models the part that decides what the package contains: how
`parse_input_file` reads the text into a header map and a list of cards, how
`find_media_files` finds the media a card field refers to, and how a card's
subdeck becomes the full deck name it is filed under.

The deck source has this layout:

- Everything before the first `---` is the header region. Each line holding a `:` that is
  not a `#` comment gives an entry. The key is the stripped, upper-cased text before the
  first `:`. The value is the stripped text after it. A later line with the same key wins.
- The rest is cut at every `---` into blocks. A blank block is skipped.
- A block whose first line starts with `SUBDECK:` (any case) sets the running subdeck.
  `SUBDECK:` with nothing after it goes back to the base deck `""`.
- Any other block is read line by line:
  - Blank and `#` lines are skipped.
  - A `FRONT:` or `BACK:` line (any case) moves the cursor to that field.
  - Each content line's text, stripped, goes to the field under the cursor.
  - Lines before the first marker go nowhere.
- A block becomes a card only when both fields got at least one fragment. Each field is
  its fragments joined with `<br>`. The card also gets the running subdeck and the media
  named in either field.
- Media are the `NAME` of `<img src="NAME">` tags and `[sound:NAME]` markers. In an
  image tag only whitespace and an optional `/` may come between the closing quote and
  the `>`, so a tag with further attributes after `src` names no media. The literal
  parts of both are matched in any letter case.

Modules:

- `Wrappers`: `Option`.
- `Text`: the Python string operations the parser uses, over `seq<char>`.
- `Media`: `find_media_files` as two hand-written scanners. At each position, the
  scanner's match attempt is proved equivalent to a declarative reading of the regular
  expression, both ways. For the scan as a whole only soundness is proved: every name
  reported comes from a match in the text.
- `Parser`: the three loops of `parse_input_file` as methods. Each is proved equal to a
  specification function, and the properties are proved about those functions.
- `Deck`: the full deck name built in `main`.
- `RoundTrip`: a writer that lays out header entries and notes (front, back, subdeck)
  in the format above. It comes with the proof that the parser reads back the entries'
  map and one card per note, in order. This is a partner to the parser, not part of
  the source. The writer's domain is text of one line, without surrounding whitespace
  and without `---`. Keys must also be upper-case, hold no `:` and not start with `#`.
  Single and double `-` are allowed anywhere, as in dates and hyphenated file names.

## Model

| member | source | states |
|---|---|---|
| Parser.HeaderEntry | create_anki_deck.py:60-63 | a header line gives an entry exactly when it holds ':' and its stripped form does not start with '#' |
| Parser.EntryShape | create_anki_deck.py:62-63 | a header key holds no ':', is stripped and already upper-case; the value is stripped |
| Parser.ReadHeaderLine | create_anki_deck.py:61-63 | one pass of the header loop puts the line's entry, if any, into the map and leaves it unchanged otherwise |
| Parser.ParseHeader | create_anki_deck.py:59-63 | the header loop builds exactly the map of the header lines' entries folded in order |
| Parser.Entries | create_anki_deck.py:60-63 | one entry per header line, in order |
| Parser.CollectKeys | create_anki_deck.py:60-63 | folding entries into a map collects a key exactly when some entry sets it |
| Parser.CollectLastWins | create_anki_deck.py:63 | an entry not overridden by a later one with the same key gives that key's value |
| Parser.HeaderKeys | create_anki_deck.py:59-63 | a key is in the header map if and only if some header line defines it |
| Parser.HeaderLastWins | create_anki_deck.py:63 | a key's value is the one on the last header line that defines it |
| Parser.Fragment | create_anki_deck.py:83-93 | the text a content line contributes to a field carries no surrounding whitespace |
| Parser.ContentStep | create_anki_deck.py:83-93 | the line state machine, on a content line, does what the source's marker checks, slicing and strip do |
| Parser.ReadCardLine | create_anki_deck.py:82-93 | one pass of the card loop moves the cursor and feeds the field under it, as one step of the state machine |
| Parser.ParseCardBlock | create_anki_deck.py:79-103 | the card loop of one block yields exactly the card the block's state machine run gives |
| Parser.CardOf | create_anki_deck.py:95-103 | a card carries the running subdeck, and its media are the names found in its front or its back |
| Parser.Attributed | create_anki_deck.py:82-93 | every fragment filed under a field is stripped |
| Parser.RunLinesAttributes | create_anki_deck.py:82-93 | after a block's lines, the cursor is the field of the last marker, and each field holds, in order, the fragments of the content lines whose latest marker names it |
| Parser.AttributedNonEmpty | create_anki_deck.py:84-95 | a field receives a fragment if and only if the block has a marker line for it |
| Parser.CardOfFields | create_anki_deck.py:80-97 | a block yields a card if and only if it has both a FRONT: and a BACK: marker line; the fields are the attributed fragments joined with `<br>` |
| Parser.SubdeckNameAfterMarker | create_anki_deck.py:75-76 | the first ':' of a declaration is the one of `SUBDECK:`, so the name is the stripped text after the marker |
| Parser.DeclarationColon | create_anki_deck.py:75-76 | a line that starts with `SUBDECK:` in any case has its first ':' at index 7 |
| Parser.BareDeclarationResets | create_anki_deck.py:75-76 | `SUBDECK:` followed only by whitespace names the base deck "" |
| Parser.StepBlock | create_anki_deck.py:67-103 | one block adds at most one card and never changes the cards before it |
| Parser.DeclarationSetsSubdeck | create_anki_deck.py:74-77 | a declaration block replaces the subdeck and adds no card |
| Parser.ReadBlock | create_anki_deck.py:68-103 | one pass of the block loop does what one step of the block fold does |
| Parser.Put | create_anki_deck.py:62-63 | definition (no contract of its own): one header entry written into the map; properties in CollectKeys, CollectLastWins |
| Parser.Collect | create_anki_deck.py:59-63 | definition (no contract of its own): the header loop's entries folded into the map in order; properties in CollectKeys, CollectLastWins |
| Parser.HeaderOf | create_anki_deck.py:59-63 | definition (no contract of its own): the header map of the header lines; properties in HeaderKeys, HeaderLastWins, ParseHeader |
| Parser.MarkerOf | create_anki_deck.py:84-89 | definition (no contract of its own): the field a stripped line's upper-cased `FRONT:`/`BACK:` prefix names, FRONT tested first; properties in ContentStep |
| Parser.IsContent | create_anki_deck.py:83-85 | definition (no contract of its own): a line that is neither blank nor a `#` comment once stripped; properties in ContentStep, RunLinesAttributes |
| Parser.Marker | create_anki_deck.py:83-89 | definition (no contract of its own): the marker of the stripped line; properties in ContentStep, AttributedNonEmpty |
| Parser.StepLine | create_anki_deck.py:82-93 | definition (no contract of its own): one step of the card state machine; properties in ReadCardLine, ContentStep, RunLinesAttributes |
| Parser.RunLines | create_anki_deck.py:82-93 | definition (no contract of its own): the card state machine over a block's lines; properties in RunLinesAttributes, AttributedNonEmpty, CardOfFields |
| Parser.FirstLine | create_anki_deck.py:72 | definition (no contract of its own): the stripped first line of a stripped block; properties in DeclarationSetsSubdeck |
| Parser.IsSubdeckLine | create_anki_deck.py:75 | definition (no contract of its own): a first line whose upper case starts with `SUBDECK:`; properties in DeclarationColon, DeclarationSetsSubdeck |
| Parser.SubdeckName | create_anki_deck.py:76 | definition (no contract of its own): the stripped text after the first ':'; properties in SubdeckNameAfterMarker, BareDeclarationResets |
| Parser.Blocks | create_anki_deck.py:55-67 | definition (no contract of its own): the text after the first "---" split at every "---"; properties in HeaderBeforeDelimiter, NoDelimiterNoCards |
| Parser.RunBlocks | create_anki_deck.py:66-103 | definition (no contract of its own): the block loop as a fold of StepBlock; properties in CardsFollowBlocks, CardSubdecks, CardCountBound, ReadBlock |
| Parser.ParseText | create_anki_deck.py:53-105 | definition (no contract of its own): the header map and cards of the text; properties in ParseInput, HeaderBeforeDelimiter, NoDelimiterNoCards, CardsFollowBlocks, RoundTrip.ParseSerialize |
| Parser.ParseInput | create_anki_deck.py:53-105 | the loops of `parse_input_file` compute exactly the header map and card list of the text |
| Parser.Hits | create_anki_deck.py:67-103 | helper that `Origins` is built on, modelling no source line itself: the indices of the set flags, each set, strictly increasing, none missing |
| Parser.EmitFlags | create_anki_deck.py:67-98 | for each block, whether it yields a card |
| Parser.Origins | create_anki_deck.py:67-98 | the indices of the blocks that yield a card: each yields one, in increasing order, none missing |
| Parser.EmitsPrefix | create_anki_deck.py:66-98 | whether a block yields a card depends only on the blocks up to it |
| Parser.OriginsSnoc | create_anki_deck.py:67-98 | one more block adds its own index to the origins exactly when it yields a card |
| Parser.OriginsBound | create_anki_deck.py:67-98 | no more blocks yield a card than there are card blocks |
| Parser.CardsFollowBlocks | create_anki_deck.py:66-103 | the cards are, in order, those of the blocks that yield one, each under the subdeck of the last declaration before its block, and the loop ends in the last declared subdeck |
| Parser.StepBlockSubdeck | create_anki_deck.py:74-77 | a block sets the running subdeck to the last declared one |
| Parser.StepBlockCards | create_anki_deck.py:95-103 | a block appends its card exactly when it yields one |
| Parser.CardCountBound | create_anki_deck.py:67-98 | there are no more cards than card blocks |
| Parser.CardSubdecks | create_anki_deck.py:66-77 | every card's subdeck is the one declared last before its block, or "" |
| Parser.NoDelimiterNoCards | create_anki_deck.py:55-57 | a text without "---" is all header and gives no cards |
| Parser.HeaderBeforeDelimiter | create_anki_deck.py:55-67 | the header comes only from the text before the first "---", and the blocks are the rest cut at every "---" |
| Media.RunUntil | create_anki_deck.py:36-37 | the captured run stops at the first closing character or at the end |
| Media.SkipSpace | create_anki_deck.py:36 | the greedy `\s*` stops at the first non-space character |
| Media.MatchAt | create_anki_deck.py:36-37 | a match has a non-empty name without the closing character and lies within the text |
| Media.TagEnd | create_anki_deck.py:36 | a tag end lies after its start and within the text |
| Media.TagEndIsTagEnd | create_anki_deck.py:36 | the greedy tag-end scan ends exactly where `\s*\/?>` matches in full |
| Media.SkipSpaceTo | create_anki_deck.py:36 | whitespace up to a non-space character makes the skip stop there |
| Media.RunUntilExact | create_anki_deck.py:36-37 | the captured run is exactly a name followed by its closing character |
| Media.IsTagEnd | create_anki_deck.py:36 | definition (no contract of its own): the declarative reading of `\s*\/?>`; properties in TagEndIsTagEnd |
| Media.IsMatch | create_anki_deck.py:36-37 | definition (no contract of its own): the declarative reading of both patterns at the start of a text, literals in any case; properties in MatchAtIsMatch, FindAllSound |
| Media.MatchAtIsMatch | create_anki_deck.py:36-37 | the scanner matches at the start of a text if and only if the regular expression does, with the same name and length |
| Media.FindAll | create_anki_deck.py:36-39 | every name found is non-empty and holds no closing character |
| Media.FindMedia | create_anki_deck.py:34-40 | every media name found is non-empty |
| Media.FindAllSound | create_anki_deck.py:38-39 | every name found is captured by a genuine match somewhere in the text |
| Media.NoMatchWithoutOpening | create_anki_deck.py:36-37 | no match starts at a character that cannot open the pattern |
| Media.FindAllSkip | create_anki_deck.py:38-39 | text without the opening character contributes no names |
| Media.FindAllAfterMatch | create_anki_deck.py:38-39 | a match at the start contributes its name and scanning resumes after it |
| Media.UpperUnchanged | create_anki_deck.py:36-37 | upper-casing leaves text without lower-case letters as it is |
| Media.LowerCaseOpenings | create_anki_deck.py:36-37 | the lower-case spellings of both openings are recognised |
| Media.ImageTagMatches | create_anki_deck.py:36 | an image tag in any case with a valid name and tag end is a match |
| Media.SoundMarkerMatches | create_anki_deck.py:37 | a sound marker in any case with a non-empty name is a match |
| Media.UpperCaseImage | create_anki_deck.py:36 | `<IMG SRC="a.png">` names `a.png` |
| Media.ImageAndSound | create_anki_deck.py:34-40 | a field with a self-closing image tag and a sound marker names both files |
| Text.LeadingSpace | create_anki_deck.py:61 | the leading whitespace run is all space and stops at a non-space character |
| Text.TrailingCut | create_anki_deck.py:61 | the trailing whitespace run is all space and stops at a non-space character |
| Text.Strip | create_anki_deck.py:61 | `strip` leaves no surrounding whitespace and gives "" exactly for all-space text |
| Text.StripShape | create_anki_deck.py:61 | `strip` keeps a slice and drops only whitespace |
| Text.StripPadded | create_anki_deck.py:68 | stripping whitespace around a stripped core gives the core back |
| Text.StripStripped | create_anki_deck.py:83 | stripping is idempotent on stripped text |
| Text.UpperChar | create_anki_deck.py:63 | each lower-case ASCII letter becomes its own capital; every other character is unchanged |
| Text.Upper | create_anki_deck.py:63 | upper-casing keeps the length and maps each character |
| Text.UpperKeeps | create_anki_deck.py:63 | upper-casing keeps stripped text stripped and is idempotent |
| Text.IndexOf | create_anki_deck.py:62 | the index of the first occurrence of a character |
| Text.Find | create_anki_deck.py:55 | the first occurrence of a delimiter at or after a position, or none |
| Text.SplitOnce | create_anki_deck.py:55-57 | one part when the delimiter is absent; otherwise the text either side of its first occurrence, the cut being where `Find` first finds it |
| Text.SplitAll | create_anki_deck.py:67 | at least one piece, and no piece contains the delimiter |
| Text.StartsWith | create_anki_deck.py:61 | definition (no contract of its own): `str.startswith`, used at lines 61, 75 and 84-89; those uses are pinned by HeaderEntry, DeclarationColon and ContentStep |
| Text.Contains | create_anki_deck.py:55-57 | definition (no contract of its own): `d in s`, through Find; properties in SplitOnce, NoDashes, Undelimited |
| Text.Join | create_anki_deck.py:96-97 | definition (no contract of its own): `sep.join`, as `'<br>'.join` builds the fields; properties in SplitAllJoin, LinesJoin, CardOfFields |
| Text.SplitAllJoin | create_anki_deck.py:67 | joining the pieces with the delimiter gives the text back |
| Text.SplitAllLeftmost | create_anki_deck.py:67 | every cut is at the leftmost occurrence: no piece but the last, followed by the start of the delimiter, contains the delimiter |
| Text.FirstCutClean | create_anki_deck.py:55-67 | no occurrence of the delimiter begins before its first one, even running into it |
| Text.Lines | create_anki_deck.py:60 | the empty text has no lines and no line holds a line break |
| Text.LinesJoin | create_anki_deck.py:60 | joining the lines with '\n' gives back a text that does not end in '\n'; a text ending in '\n' is given back less that final '\n', which starts no line |
| Text.SplitAtFirst | create_anki_deck.py:55-67 | when the first "---" is after `a`, both splits cut there |
| RoundTrip.ParseSerialize | create_anki_deck.py:53-105 | for any entries and notes of one-line, stripped text without "---" (keys upper-case, without ':'), text written in the deck layout parses back to the header map of its entries (a later entry of a key wins) and to one card per note, in order, with the note's fields, its subdeck and the media the fields name |
| RoundTrip.EntryLineParses | create_anki_deck.py:60-63 | a `KEY:value` line with an upper-case, stripped key and a stripped value is read as exactly that entry |
| RoundTrip.EntryLineShape | create_anki_deck.py:61-62 | the first ':' of such a line is the one right after the key, and the line is no comment |
| RoundTrip.HeaderRoundTrip | create_anki_deck.py:59-63 | the written header region parses to the map of its entries |
| RoundTrip.CollectSomes | create_anki_deck.py:60-63 | header lines that all give entries build the map of those entries, later ones winning |
| RoundTrip.SplitJoin | create_anki_deck.py:67 | blocks without "---" that do not end in '-', joined with "---", split back into exactly those blocks |
| RoundTrip.Undelimited | create_anki_deck.py:55-67 | two texts without "---", one of them not dashed at the seam, hold no "---" when joined |
| RoundTrip.HeaderFenced | create_anki_deck.py:55-57 | the written header region holds no "---" and ends in a line break, so its first "---" is the delimiter written after it |
| RoundTrip.BodyRoundTrip | create_anki_deck.py:66-103 | the written body parses to one card per note, in order; no notes give no cards |
| RoundTrip.RunBody | create_anki_deck.py:66-103 | the block loop over the written blocks makes the notes' cards and ends in the last note's subdeck |
| RoundTrip.DeclarationStep | create_anki_deck.py:72-77 | a written `SUBDECK:` block sets the subdeck to the name written and adds no card |
| RoundTrip.NoteStep | create_anki_deck.py:79-103 | a written note block adds exactly the note's card under the running subdeck |
| RoundTrip.NoteFields | create_anki_deck.py:82-93 | a `FRONT:` line then a `BACK:` line give one fragment to each field |
| RoundTrip.FrontLineParts | create_anki_deck.py:84-88 | a `FRONT:` line is a content line that marks FRONT, and its fragment is the text after the marker |
| RoundTrip.BackLineParts | create_anki_deck.py:84-91 | a `BACK:` line is a content line that marks BACK, and its fragment is the text after the marker |
| Deck.DeckPath | create_anki_deck.py:141 | a card without a subdeck goes to the base deck; otherwise to base, "::" and the subdeck, so every subdeck's deck sits under the base deck |
| Deck.SubdeckOfDeckPath | create_anki_deck.py:141 | the full deck name gives back its subdeck |
| Deck.DeckPathInjective | create_anki_deck.py:141 | cards of different subdecks land in different decks |

## Left out

- Reading the file (lines 46-51): the model takes the text already read. The
  missing-file branch, which prints a message and returns an empty header and no
  cards, is not modelled.
- `main` apart from line 141: argument parsing, the deck-name fallback chain of line
  135, deck ids, the genanki model and CSS (`create_anki_model`, `DEFAULT_CSS`),
  media existence checks and writing the package. These are file-system and
  library calls.
- Whitespace is the ASCII whitespace of `str.isspace`: space, `\t`, `\n`, `\v`,
  `\f`, `\r` and `\x1c`-`\x1f`. Python's `strip` and the regular expression `\s`
  also treat non-ASCII whitespace (`\x85`, `\xa0`, U+2000-U+200A and others) so.
- Text.Lines: splits on '\n' only. Python's `splitlines` also breaks at `\r`,
  `\r\n`, `\v`, `\f`, `\x1c`-`\x1e`, `\x85`, U+2028 and U+2029.
- Text.Upper: maps ASCII letters only. Python's `upper` maps every cased letter, and
  `re.IGNORECASE` also matches U+0130, U+0131 and U+017F against ASCII
  letters of the literals.
- Media: the two fixed patterns are modelled as scanners, not through a general
  regular-expression engine. `findall`'s list, with duplicates, is modelled as the
  set the source makes of it.
