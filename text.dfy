/** `Question.question.ilike('%term%')`: case-insensitive substring match,
    with ASCII letters folded to lower case. */
module Text {

  function LowerChar(c: char): (d: char)
    ensures !('A' <= d <= 'Z')
    ensures !('A' <= c <= 'Z') ==> d == c
  {
    if 'A' <= c <= 'Z' then (c as int + 32) as char else c
  }

  /** Folding leaves no upper-case ASCII letter behind. */
  function Lower(s: string): (r: string)
    ensures forall i :: 0 <= i < |r| ==> !('A' <= r[i] <= 'Z')
  {
    seq(|s|, i requires 0 <= i < |s| => LowerChar(s[i]))
  }

  /** `needle` occurs somewhere in `hay`. */
  predicate Occurs(needle: string, hay: string)
    decreases |hay|
  {
    needle <= hay || (hay != [] && Occurs(needle, hay[1..]))
  }

  /** The match the search applies to a question's text. */
  predicate ContainsIgnoringCase(text: string, term: string) {
    Occurs(Lower(term), Lower(text))
  }

  /** `needle` sits in `hay` at offset `k`. */
  predicate OccursAt(needle: string, hay: string, k: int) {
    0 <= k <= |hay| - |needle| && hay[k..k + |needle|] == needle
  }

  /** `Occurs` agrees with the window definition: some slice of `hay` of the
      needle's length equals it. */
  lemma {:induction false} OccursIff(needle: string, hay: string)
    ensures Occurs(needle, hay) <==> exists k :: OccursAt(needle, hay, k)
    decreases |hay|
  {
    if needle <= hay {
      assert OccursAt(needle, hay, 0);
    } else if hay == [] {
      assert forall k :: !OccursAt(needle, hay, k);
    } else {
      OccursIff(needle, hay[1..]);
      if exists k :: OccursAt(needle, hay, k) {
        var k :| OccursAt(needle, hay, k);
        if k != 0 {
          assert hay[1..][k - 1..k - 1 + |needle|] == hay[k..k + |needle|];
          assert OccursAt(needle, hay[1..], k - 1);
        }
      }
      if Occurs(needle, hay[1..]) {
        var k :| OccursAt(needle, hay[1..], k);
        assert hay[k + 1..k + 1 + |needle|] == hay[1..][k..k + |needle|];
        assert OccursAt(needle, hay, k + 1);
      }
    }
  }

  /** Some window of `text` at offset `k` equals `term` up to case. */
  predicate MatchesAt(text: string, term: string, k: int) {
    0 <= k <= |text| - |term| && Lower(text[k..k + |term|]) == Lower(term)
  }

  /** The text matches exactly when some window of it equals the term once
      both are folded to lower case. */
  lemma ContainsIgnoringCaseIff(text: string, term: string)
    ensures ContainsIgnoringCase(text, term) <==> exists k :: MatchesAt(text, term, k)
  {
    OccursIff(Lower(term), Lower(text));
    forall k ensures OccursAt(Lower(term), Lower(text), k) <==> MatchesAt(text, term, k) {
      if 0 <= k <= |text| - |term| {
        assert Lower(text)[k..k + |term|] == Lower(text[k..k + |term|]);
      }
    }
  }

  /** Folding twice is folding once. */
  lemma LowerIdempotent(s: string)
    ensures Lower(Lower(s)) == Lower(s)
  {
  }

  /** The case of the term does not matter. */
  lemma TermCaseIrrelevant(text: string, term: string)
    ensures ContainsIgnoringCase(text, term) <==> ContainsIgnoringCase(text, Lower(term))
  {
    LowerIdempotent(term);
  }

  /** Every text contains itself, whatever its case. */
  lemma {:induction false} ContainsItself(text: string)
    ensures ContainsIgnoringCase(text, text)
  {
    assert Lower(text) <= Lower(text);
  }
}
