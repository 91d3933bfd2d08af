/** The genre test of the source, `str.contains(pattern, case=False)`, read as a
    case-insensitive search for a literal substring (the pattern is taken to
    hold no regular-expression metacharacters). */
module Text {

  /** Case folding of one character; only the ASCII letters A-Z change. */
  function Lower(c: char): char {
    if 'A' <= c <= 'Z' then (c as int + 32) as char else c
  }

  /** Case folding of a whole string, character by character. */
  function Fold(s: string): (r: string)
    ensures |r| == |s|
  {
    seq(|s|, i requires 0 <= i < |s| => Lower(s[i]))
  }

  /** `pattern` sits at offset `i` of `text`. */
  predicate OccursAt(text: string, pattern: string, i: nat) {
    i + |pattern| <= |text| && text[i..i + |pattern|] == pattern
  }

  /** Literal substring search: `pattern` is a prefix of some suffix of `text`. */
  predicate Contains(text: string, pattern: string) {
    pattern <= text || (text != [] && Contains(text[1..], pattern))
  }

  /** The search finds `pattern` exactly when it occurs at some offset of `text`. */
  lemma ContainsIffOccurs(text: string, pattern: string)
    ensures Contains(text, pattern) <==> exists i: nat :: OccursAt(text, pattern, i)
  {
    if Contains(text, pattern) {
      var i := FoundAt(text, pattern);
    }
    if i: nat :| OccursAt(text, pattern, i) {
      OccursImpliesContains(text, pattern, i);
    }
  }

  /** A successful search yields an offset where the pattern occurs. */
  lemma {:induction false} FoundAt(text: string, pattern: string) returns (i: nat)
    requires Contains(text, pattern)
    ensures OccursAt(text, pattern, i)
  {
    if pattern <= text {
      i := 0;
    } else {
      var j := FoundAt(text[1..], pattern);
      i := j + 1;
      assert text[1..][j..j + |pattern|] == text[i..i + |pattern|];
    }
  }

  /** An occurrence at any offset is found by the search. */
  lemma {:induction false} OccursImpliesContains(text: string, pattern: string, i: nat)
    requires OccursAt(text, pattern, i)
    ensures Contains(text, pattern)
  {
    if i == 0 {
      assert pattern == text[..|pattern|];
    } else {
      assert text[1..][i - 1..i - 1 + |pattern|] == text[i..i + |pattern|];
      OccursImpliesContains(text[1..], pattern, i - 1);
    }
  }

  /** `str.contains(pattern, case=False)` on the model's terms. */
  predicate ContainsIgnoreCase(text: string, pattern: string) {
    Contains(Fold(text), Fold(pattern))
  }

  /** The case-insensitive test holds exactly when the folded pattern occurs in
      the folded text; in particular a pattern written in any mix of cases is
      found wherever its letters occur. */
  lemma ContainsIgnoreCaseIff(text: string, pattern: string)
    ensures ContainsIgnoreCase(text, pattern) <==> exists i: nat :: OccursAt(Fold(text), Fold(pattern), i)
  {
    ContainsIffOccurs(Fold(text), Fold(pattern));
  }

  /** A literal occurrence of the pattern is found whatever the case of either side. */
  lemma LiteralOccurrenceFound(text: string, pattern: string, i: nat)
    requires OccursAt(text, pattern, i)
    ensures ContainsIgnoreCase(text, pattern)
  {
    assert Fold(text)[i..i + |pattern|] == Fold(pattern);
    OccursImpliesContains(Fold(text), Fold(pattern), i);
  }
}
