/**
 * The case-insensitive substring test behind the author lookup
 * `findByNombreContainsIgnoreCase`: both strings are folded to lower case
 * (ASCII letters only) and the stored name must contain the query.
 */
module Text {

  /** ASCII case folding of one character; every other character is kept. */
  function LowerChar(c: char): (d: char)
    ensures 'a' <= d <= 'z' <==> ('a' <= c <= 'z' || 'A' <= c <= 'Z')
    ensures 'A' <= c <= 'Z' ==> d as int - 'a' as int == c as int - 'A' as int
    ensures !('A' <= c <= 'Z') ==> d == c
  {
    if 'A' <= c <= 'Z' then (c as int + 32) as char else c
  }

  function Lower(s: string): (r: string)
    ensures |r| == |s|
    ensures forall i :: 0 <= i < |s| ==> r[i] == LowerChar(s[i])
  {
    if s == [] then [] else [LowerChar(s[0])] + Lower(s[1..])
  }

  /** Folding twice is folding once. */
  lemma LowerIdempotent(s: string)
    ensures Lower(Lower(s)) == Lower(s)
  {
  }

  /** `needle` occurs as a contiguous block of `hay`, searching from the left. */
  predicate Contains(hay: string, needle: string)
    decreases |hay|
  {
    needle <= hay || (|hay| > 0 && Contains(hay[1..], needle))
  }

  /** The left-to-right search agrees with "some offset of `hay` starts with `needle`". */
  lemma {:induction false} ContainsAt(hay: string, needle: string)
    ensures Contains(hay, needle) <==> exists i :: 0 <= i <= |hay| && needle <= hay[i..]
  {
    if Contains(hay, needle) {
      if needle <= hay {
        assert hay[0..] == hay;
      } else {
        ContainsAt(hay[1..], needle);
        var i :| 0 <= i <= |hay[1..]| && needle <= hay[1..][i..];
        assert hay[1..][i..] == hay[i + 1..];
      }
    }
    if exists i :: 0 <= i <= |hay| && needle <= hay[i..] {
      var i :| 0 <= i <= |hay| && needle <= hay[i..];
      if i == 0 {
        assert hay[0..] == hay;
      } else {
        assert hay[1..][i - 1..] == hay[i..];
        ContainsAt(hay[1..], needle);
      }
    }
  }

  /** The stored name `hay` contains the query `needle` once both are folded to lower case. */
  predicate ContainsIgnoreCase(hay: string, needle: string): (r: bool)
    ensures |needle| > |hay| ==> !r
    ensures Lower(needle) <= Lower(hay) ==> r
  {
    ContainsAt(Lower(hay), Lower(needle));
    Contains(Lower(hay), Lower(needle))
  }

  /** The case-insensitive match holds iff some offset of the folded name starts with the folded query. */
  lemma ContainsIgnoreCaseAt(hay: string, needle: string)
    ensures ContainsIgnoreCase(hay, needle) <==> exists i :: 0 <= i <= |hay| && Lower(needle) <= Lower(hay)[i..]
  {
    assert |Lower(hay)| == |hay|;
    ContainsAt(Lower(hay), Lower(needle));
  }

  /** Every name matches itself, so an author stored under a name is found again by that name. */
  lemma ContainsIgnoreCaseSelf(s: string)
    ensures ContainsIgnoreCase(s, s)
  {
  }

  /** The match ignores case on both sides: the query and the stored name may be folded first. */
  lemma {:induction false} ContainsIgnoreCaseFolds(hay: string, needle: string)
    ensures ContainsIgnoreCase(hay, needle) == ContainsIgnoreCase(Lower(hay), needle)
    ensures ContainsIgnoreCase(hay, needle) == ContainsIgnoreCase(hay, Lower(needle))
  {
    LowerIdempotent(hay);
    LowerIdempotent(needle);
  }
}
