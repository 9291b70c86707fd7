/** Substring search, as used by the relevance matcher through JavaScript's
    `String.prototype.includes`. `Occurs` is the declarative meaning; `Includes`
    is the left-to-right search that computes it. */
module Text {

  /** `needle` sits in `hay` starting at index `i`. */
  ghost predicate OccursAt(needle: string, hay: string, i: int) {
    0 <= i && i + |needle| <= |hay| && hay[i..i + |needle|] == needle
  }

  /** `needle` is a (contiguous) substring of `hay`. */
  ghost predicate Occurs(needle: string, hay: string) {
    exists i :: OccursAt(needle, hay, i)
  }

  /** `hay.includes(needle)`: try each start position from the left. The empty
      needle is found in every string, as in JavaScript. */
  function Includes(hay: string, needle: string): (r: bool)
    ensures r <==> Occurs(needle, hay)
    decreases |hay|
  {
    if |needle| > |hay| then
      false
    else if hay[..|needle|] == needle then
      assert OccursAt(needle, hay, 0);
      true
    else
      OccursInTail(needle, hay);
      Includes(hay[1..], needle)
  }

  /** When `needle` does not start `hay`, it occurs in `hay` exactly when it
      occurs in the tail of `hay`. */
  lemma OccursInTail(needle: string, hay: string)
    requires |hay| > 0
    requires !OccursAt(needle, hay, 0)
    ensures Occurs(needle, hay) <==> Occurs(needle, hay[1..])
  {
    var tail := hay[1..];
    if Occurs(needle, hay) {
      var i :| OccursAt(needle, hay, i);
      assert tail[i - 1..i - 1 + |needle|] == hay[i..i + |needle|];
      assert OccursAt(needle, tail, i - 1);
    }
    if Occurs(needle, tail) {
      var i :| OccursAt(needle, tail, i);
      assert tail[i..i + |needle|] == hay[i + 1..i + 1 + |needle|];
      assert OccursAt(needle, hay, i + 1);
    }
  }

  /** A needle containing a character that `hay` lacks cannot occur in `hay`. */
  lemma AbsentCharBlocksOccurrence(needle: string, hay: string, c: char)
    requires c in needle
    requires c !in hay
    ensures !Occurs(needle, hay)
  {
    var j :| 0 <= j < |needle| && needle[j] == c;
    forall i
      ensures !OccursAt(needle, hay, i)
    {
      if 0 <= i && i + |needle| <= |hay| {
        assert hay[i..i + |needle|][j] == hay[i + j];
      }
    }
  }

  /** The same, with the missing character given by its index in the needle. */
  lemma AbsentCharAtBlocksOccurrence(needle: string, hay: string, j: nat)
    requires j < |needle|
    requires needle[j] !in hay
    ensures !Occurs(needle, hay)
  {
    AbsentCharBlocksOccurrence(needle, hay, needle[j]);
  }

  /** A non-empty needle never occurs in the empty string. */
  lemma NothingOccursInEmpty(needle: string)
    requires needle != []
    ensures !Occurs(needle, [])
  {
  }
}
