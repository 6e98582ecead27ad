/**
 * The deck a card is filed under: the base deck, or a subdeck of it
 * written with Anki's `::` separator.
 */
module Deck {

  /** The separator Anki reads as "subdeck of". */
  const Separator := "::"

  /** The full deck name for a card of subdeck `subdeck` in deck `base`. */
  function DeckPath(base: string, subdeck: string): (path: string)
    ensures subdeck == [] ==> path == base
    ensures subdeck != [] ==> |path| == |base| + |Separator| + |subdeck|
    ensures subdeck != [] ==> path[..|base|] == base && path[|base|..|base| + |Separator|] == Separator
    ensures subdeck != [] ==> path[|base| + |Separator|..] == subdeck
  {
    if subdeck != [] then base + Separator + subdeck else base
  }

  /** The subdeck part of a full deck name under `base`: "" for the base deck itself. */
  function SubdeckOf(base: string, path: string): string {
    if |path| > |base| + |Separator| then path[|base| + |Separator|..] else ""
  }

  /** The base deck and each subdeck keep their names apart: the path gives back its subdeck. */
  lemma SubdeckOfDeckPath(base: string, subdeck: string)
    ensures SubdeckOf(base, DeckPath(base, subdeck)) == subdeck
  {
    if subdeck != [] {
      assert DeckPath(base, subdeck)[|base| + |Separator|..] == subdeck;
    }
  }

  /** Cards of different subdecks land in different decks. */
  lemma DeckPathInjective(base: string, s1: string, s2: string)
    requires DeckPath(base, s1) == DeckPath(base, s2)
    ensures s1 == s2
  {
    SubdeckOfDeckPath(base, s1);
    SubdeckOfDeckPath(base, s2);
  }
}
