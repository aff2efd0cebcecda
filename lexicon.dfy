/**
 * The abstract view of one `DictSegment` trie as the dictionary manager uses it.
 * The trie keeps a node for every entry ever filled and never removes one;
 * `disableSegment` only clears the entry flag. So a lexicon is a map from every
 * entry ever filled to whether it is currently enabled. The trie code itself is
 * not part of this model: `Fill`, `Disable` and `Contains` state the interface the
 * manager relies on.
 */
module Lexicons {

  datatype Lexicon = Lexicon(entries: map<string, bool>) {

    /** `match(word).isMatch()`: the word is an enabled entry (a zero-length match never is). */
    predicate Contains(w: string) {
      |w| > 0 && w in entries && entries[w]
    }

    /** `fillSegment`: insert the entry, or re-enable it when it was disabled. */
    function Fill(w: string): (r: Lexicon)
      ensures r.entries.Keys == entries.Keys + (if |w| > 0 then {w} else {})
      ensures forall v :: r.Contains(v) <==> Contains(v) || (v == w && |w| > 0)
    {
      if |w| > 0 then Lexicon(entries[w := true]) else this
    }

    /**
     * `disableSegment`: mark an existing entry disabled; an absent word changes
     * nothing, and no entry is removed, so longer entries keep their prefix.
     */
    function Disable(w: string): (r: Lexicon)
      ensures r.entries.Keys == entries.Keys
      ensures forall v :: r.Contains(v) <==> Contains(v) && v != w
    {
      if w in entries then Lexicon(entries[w := false]) else this
    }
  }

  /** `new DictSegment((char) 0)`: a root with no entries. */
  const Empty := Lexicon(map[])

  /** Filling an entry twice leaves the same lexicon as filling it once. */
  lemma FillIdempotent(lex: Lexicon, w: string)
    ensures lex.Fill(w).Fill(w) == lex.Fill(w)
  {
  }

  /** Filling a disabled entry again reinstates it. */
  lemma RefillReinstates(lex: Lexicon, w: string)
    requires |w| > 0
    ensures lex.Disable(w).Fill(w).Contains(w)
    ensures lex.Disable(w).Fill(w) == lex.Fill(w)
  {
  }
}
