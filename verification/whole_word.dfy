/** Whole-word matching: the regular expression `\b<word>\b` on a literal word,
    written out as predicates over positions of the text. */
module WholeWord {
  import opened Ascii

  /** Position `p` holds a word character (positions outside the text do not). */
  predicate WordAt(t: string, p: int) {
    0 <= p < |t| && IsWordChar(t[p])
  }

  /** The zero-width assertion `\b` at position `p`: word-ness changes between
      the character before `p` and the character at `p`; the text edges count
      as non-word. */
  predicate BoundaryAt(t: string, p: int) {
    WordAt(t, p - 1) != WordAt(t, p)
  }

  /** `\bw\b` matches case-sensitively at position `i`. */
  predicate LiteralAt(t: string, w: string, i: int) {
    0 <= i && i + |w| <= |t| && t[i..i + |w|] == w && BoundaryAt(t, i) && BoundaryAt(t, i + |w|)
  }

  /** `re.search(r"\bw\b", t)` succeeds (case-sensitive). */
  predicate Search(t: string, w: string) {
    exists i :: 0 <= i <= |t| - |w| && LiteralAt(t, w, i)
  }

  /** The characters of `t` from position `i` on equal those of `w` up to
      ASCII case. */
  predicate FoldedEqualAt(t: string, w: string, i: int)
    requires 0 <= i && i + |w| <= |t|
  {
    forall k :: 0 <= k < |w| ==> Lower(t[i + k]) == Lower(w[k])
  }

  /** `\bw\b` matches at position `i` with `re.IGNORECASE` (ASCII case folding). */
  predicate MatchAt(t: string, w: string, i: int) {
    0 <= i && i + |w| <= |t| && FoldedEqualAt(t, w, i)
    && BoundaryAt(t, i) && BoundaryAt(t, i + |w|)
  }

  /** The word has a whole-word, case-insensitive occurrence in the text. */
  predicate Occurs(t: string, w: string) {
    exists i :: 0 <= i <= |t| - |w| && MatchAt(t, w, i)
  }

  /** `w` appears in `t` at position `i`, as plain characters. */
  predicate ContainsAt(t: string, w: string, i: int) {
    0 <= i && i + |w| <= |t| && t[i..i + |w|] == w
  }

  /** Python's substring test `w in t`. */
  predicate Contains(t: string, w: string) {
    exists i :: 0 <= i <= |t| - |w| && ContainsAt(t, w, i)
  }

  /** A forbidden word as the filter expects one: non-empty, word characters only. */
  predicate IsWord(w: string) {
    |w| > 0 && forall k :: 0 <= k < |w| ==> IsWordChar(w[k])
  }

  predicate AllWords(ws: seq<string>) {
    forall k :: 0 <= k < |ws| ==> IsWord(ws[k])
  }

  /** Lower-casing keeps every position's word-ness. */
  lemma WordAtLower(t: string)
    ensures forall p :: WordAt(LowerStr(t), p) == WordAt(t, p)
  {
    var lt := LowerStr(t);
    forall p ensures WordAt(lt, p) == WordAt(t, p) {
    }
  }

  /** The folded text holds the folded word at position `i` exactly when the
      text equals the word there up to case. */
  lemma FoldedSliceIff(t: string, w: string, i: int)
    requires 0 <= i && i + |w| <= |t|
    ensures LowerStr(t)[i..i + |w|] == LowerStr(w) <==> FoldedEqualAt(t, w, i)
  {
    var lt, lw := LowerStr(t), LowerStr(w);
    if lt[i..i + |w|] == lw {
      forall k | 0 <= k < |w| ensures Lower(t[i + k]) == Lower(w[k]) {
        assert lt[i..i + |w|][k] == lw[k];
      }
    }
    if FoldedEqualAt(t, w, i) {
      forall k | 0 <= k < |w| ensures lt[i..i + |w|][k] == lw[k] {
        assert Lower(t[i + k]) == Lower(w[k]);
      }
      assert lt[i..i + |w|] == lw;
    }
  }

  /** Searching the folded text for the folded word finds exactly the
      case-insensitive matches of the word in the original text. */
  lemma LiteralInFoldedIsMatch(t: string, w: string, i: int)
    ensures LiteralAt(LowerStr(t), LowerStr(w), i) <==> MatchAt(t, w, i)
  {
    WordAtLower(t);
    if 0 <= i && i + |w| <= |t| {
      FoldedSliceIff(t, w, i);
    }
  }

  /** Detection as the source performs it (fold text and word, then search)
      agrees with case-insensitive whole-word occurrence. */
  lemma {:induction false} SearchFoldedIsOccurs(t: string, w: string)
    ensures Search(LowerStr(t), LowerStr(w)) <==> Occurs(t, w)
  {
    if Occurs(t, w) {
      var i :| 0 <= i <= |t| - |w| && MatchAt(t, w, i);
      LiteralInFoldedIsMatch(t, w, i);
    }
    if Search(LowerStr(t), LowerStr(w)) {
      var i :| 0 <= i <= |LowerStr(t)| - |LowerStr(w)| && LiteralAt(LowerStr(t), LowerStr(w), i);
      LiteralInFoldedIsMatch(t, w, i);
    }
  }

  /** Occurrence depends on the text and the word only through their case
      folding: "IDIOTA" is found wherever "idiota" is. */
  lemma OccursIgnoresCase(t1: string, t2: string, w1: string, w2: string)
    requires LowerStr(t1) == LowerStr(t2) && LowerStr(w1) == LowerStr(w2)
    ensures Occurs(t1, w1) <==> Occurs(t2, w2)
  {
    SearchFoldedIsOccurs(t1, w1);
    SearchFoldedIsOccurs(t2, w2);
  }

  /** Every character covered by a match of a forbidden word is a word character. */
  lemma MatchIsWordChars(t: string, w: string, a: int, p: int)
    requires IsWord(w) && MatchAt(t, w, a) && a <= p < a + |w|
    ensures IsWordChar(t[p])
  {
    assert Lower(t[a + (p - a)]) == Lower(w[p - a]);
  }

  /** Two whole-word matches of forbidden words that share a position are the
      same maximal run of word characters. */
  lemma MatchesShareRun(t: string, u: string, v: string, a: int, b: int, p: int)
    requires IsWord(u) && IsWord(v) && MatchAt(t, u, a) && MatchAt(t, v, b)
    requires a <= p < a + |u| && b <= p < b + |v|
    ensures a == b && |u| == |v|
  {
    if a < b {
      MatchIsWordChars(t, u, a, b - 1);
      MatchIsWordChars(t, v, b, b);
    } else if b < a {
      MatchIsWordChars(t, v, b, a - 1);
      MatchIsWordChars(t, u, a, a);
    } else if |u| < |v| {
      MatchIsWordChars(t, u, a, a + |u| - 1);
      MatchIsWordChars(t, v, b, a + |u|);
    } else if |v| < |u| {
      MatchIsWordChars(t, v, b, b + |v| - 1);
      MatchIsWordChars(t, u, a, b + |v|);
    }
  }

  /** Detection ignores case: the test sentence "Eres IDIOTA" contains "idiota". */
  lemma UpperCaseDetected()
    ensures Occurs("Eres IDIOTA", "idiota")
  {
    var t := "Eres IDIOTA";
    assert MatchAt(t, "idiota", 5);
  }

  /** A forbidden word inside a larger word is not a whole-word occurrence:
      "analisis" does not contain the word "anal". */
  lemma EmbeddedNotDetected()
    ensures !Occurs("analisis", "anal")
  {
    var t := "analisis";
    forall i | 0 <= i <= |t| - 4 ensures !MatchAt(t, "anal", i) {
      if i == 0 {
        assert WordAt(t, 3) && WordAt(t, 4);
      } else {
        assert WordAt(t, i - 1) && WordAt(t, i);
      }
    }
  }
}
