/** Masking of forbidden words: `re.sub(r"\bw\b", "*" * len(w), t, flags=re.IGNORECASE)`
    applied once per forbidden word, in list order.

    `SubFrom` is the substitution as the regular-expression engine performs it
    (leftmost match first, scanning on after each replacement).  `RefMask` is an
    independent, pointwise reference: a character becomes `*` exactly when some
    whole-word occurrence of some forbidden word in the ORIGINAL text covers it.
    For forbidden words made of word characters the two agree (`MaskAllIsRef`),
    and the properties the filter promises are proved from the reference. */
module Masking {
  import opened Ascii
  import opened WholeWord

  /** A run of `n` asterisks. */
  function Stars(n: nat): (r: string)
    ensures |r| == n && forall k :: 0 <= k < n ==> r[k] == '*'
  {
    seq(n, _ => '*')
  }

  /** The substituted text for the suffix `t[pos..]`, searching from `pos`
      (matches still see the characters before `pos`, as regex assertions do). */
  function SubFrom(t: string, w: string, pos: nat): (r: string)
    requires 0 < |w| && pos <= |t|
    ensures |r| == |t| - pos
    decreases |t| - pos
  {
    if pos == |t| then []
    else if MatchAt(t, w, pos) then Stars(|w|) + SubFrom(t, w, pos + |w|)
    else [t[pos]] + SubFrom(t, w, pos + 1)
  }

  /** One pass of the masking loop: substitute every whole-word occurrence of
      `w` by `len(w)` asterisks.  With an empty word the pattern `\b\b` matches
      only the empty string and the replacement is empty, so the text is kept. */
  function MaskWord(t: string, w: string): (r: string)
    ensures |r| == |t|
    ensures !Occurs(t, w) ==> r == t
  {
    if w == [] then t else SubFromNoMatch(t, w, 0); SubFrom(t, w, 0)
  }

  /** Where the word does not occur, the scan copies the text. */
  lemma {:induction false} SubFromNoMatch(t: string, w: string, pos: nat)
    requires 0 < |w| && pos <= |t|
    ensures (forall a :: pos <= a ==> !MatchAt(t, w, a)) ==> SubFrom(t, w, pos) == t[pos..]
    decreases |t| - pos
  {
    if pos < |t| && forall a :: pos <= a ==> !MatchAt(t, w, a) {
      SubFromNoMatch(t, w, pos + 1);
      assert t[pos..] == [t[pos]] + t[pos + 1..];
    }
  }

  /** The masking loop over the whole word list: the passes run in list order,
      each on the result of the previous one. */
  function MaskAll(ws: seq<string>, t: string): (r: string)
    ensures |r| == |t|
    ensures (forall k :: 0 <= k < |ws| ==> !Occurs(t, ws[k])) ==> r == t
    decreases |ws|
  {
    if ws == [] then t else MaskWord(MaskAll(ws[..|ws| - 1], t), ws[|ws| - 1])
  }

  /** Position `j` lies inside a whole-word occurrence of `w` in `t`. */
  ghost predicate Covered(t: string, w: string, j: int) {
    exists a :: a <= j < a + |w| && MatchAt(t, w, a)
  }

  /** Position `j` lies inside a whole-word occurrence of some word of `ws`. */
  ghost predicate CoveredAny(t: string, ws: seq<string>, j: int) {
    exists k :: 0 <= k < |ws| && Covered(t, ws[k], j)
  }

  /** Reference masking: every covered position becomes `*`, the others keep
      their character. */
  ghost function RefMask(ws: seq<string>, t: string): (r: string)
    ensures |r| == |t|
  {
    seq(|t|, j requires 0 <= j < |t| => if CoveredAny(t, ws, j) then '*' else t[j])
  }

  /** No occurrence of `w` starts strictly before `pos` and ends after it. */
  ghost predicate NotInside(t: string, w: string, pos: int) {
    forall a :: a < pos < a + |w| ==> !MatchAt(t, w, a)
  }

  /** After a match at `pos`, the scan resumes at a position no occurrence straddles. */
  lemma NotInsideAfterMatch(t: string, w: string, pos: int)
    requires IsWord(w) && MatchAt(t, w, pos) && NotInside(t, w, pos)
    ensures NotInside(t, w, pos + |w|)
  {
    forall a | a < pos + |w| < a + |w| ensures !MatchAt(t, w, a) {
      if pos < a && MatchAt(t, w, a) {
        MatchesShareRun(t, w, w, pos, a, a);
      }
    }
  }

  /** Where nothing matches, the first position is left alone. */
  lemma SkippedNotCovered(t: string, w: string, pos: int)
    requires !MatchAt(t, w, pos) && NotInside(t, w, pos)
    ensures !Covered(t, w, pos) && NotInside(t, w, pos + 1)
  {
  }

  /** The engine's scan masks exactly the covered positions. */
  lemma {:induction false} SubFromIsPointwise(t: string, w: string, pos: nat, j: int)
    requires IsWord(w) && pos <= j < |t| && NotInside(t, w, pos)
    ensures SubFrom(t, w, pos)[j - pos] == (if Covered(t, w, j) then '*' else t[j])
    decreases |t| - pos, 1
  {
    if MatchAt(t, w, pos) {
      MatchStep(t, w, pos, j);
    } else {
      SkipStep(t, w, pos, j);
    }
  }

  /** A match at `pos`: its characters become `*`; the scan resumes after it. */
  lemma {:induction false} MatchStep(t: string, w: string, pos: nat, j: int)
    requires IsWord(w) && pos <= j < |t| && NotInside(t, w, pos) && MatchAt(t, w, pos)
    ensures SubFrom(t, w, pos)[j - pos] == (if Covered(t, w, j) then '*' else t[j])
    decreases |t| - pos, 0
  {
    var next := pos + |w|;
    var rest := SubFrom(t, w, next);
    var stars := Stars(|w|);
    assert SubFrom(t, w, pos) == stars + rest;
    if j < next {
      assert Covered(t, w, j);
      assert (stars + rest)[j - pos] == stars[j - pos] == '*';
    } else {
      assert (stars + rest)[j - pos] == rest[j - next];
      NotInsideAfterMatch(t, w, pos);
      SubFromIsPointwise(t, w, next, j);
    }
  }

  /** No match at `pos`: its character is kept; the scan moves on by one. */
  lemma {:induction false} SkipStep(t: string, w: string, pos: nat, j: int)
    requires IsWord(w) && pos <= j < |t| && NotInside(t, w, pos) && !MatchAt(t, w, pos)
    ensures SubFrom(t, w, pos)[j - pos] == (if Covered(t, w, j) then '*' else t[j])
    decreases |t| - pos, 0
  {
    SkippedNotCovered(t, w, pos);
    var rest := SubFrom(t, w, pos + 1);
    assert SubFrom(t, w, pos) == [t[pos]] + rest;
    if pos < j {
      SubFromIsPointwise(t, w, pos + 1, j);
      assert ([t[pos]] + rest)[j - pos] == rest[j - (pos + 1)];
    } else {
      assert ([t[pos]] + rest)[0] == t[pos];
    }
  }

  /** One pass of the masking loop agrees with the reference for a single word. */
  lemma MaskWordIsRef(t: string, w: string)
    requires IsWord(w)
    ensures MaskWord(t, w) == RefMask([w], t)
  {
    var r := MaskWord(t, w);
    forall j | 0 <= j < |t| ensures r[j] == RefMask([w], t)[j] {
      SubFromIsPointwise(t, w, 0, j);
      assert CoveredAny(t, [w], j) <==> Covered(t, w, j) by {
        if Covered(t, w, j) {
          assert [w][0] == w;
        }
      }
    }
  }

  /** Characters covered by an occurrence of a forbidden word are word characters,
      so masking never touches whitespace, punctuation or `*`. */
  lemma CoveredIsWordChar(t: string, ws: seq<string>, j: int)
    requires AllWords(ws) && 0 <= j < |t| && CoveredAny(t, ws, j)
    ensures IsWordChar(t[j])
  {
    var k :| 0 <= k < |ws| && Covered(t, ws[k], j);
    var a :| a <= j < a + |ws[k]| && MatchAt(t, ws[k], a);
    MatchIsWordChars(t, ws[k], a, j);
  }

  /** The character just before an unmasked word character that starts an
      occurrence cannot be masked. */
  lemma UncoveredBefore(t: string, ws: seq<string>, a: int)
    requires AllWords(ws) && 0 < a < |t| && IsWordChar(t[a]) && !CoveredAny(t, ws, a)
    ensures !CoveredAny(t, ws, a - 1)
  {
    if CoveredAny(t, ws, a - 1) {
      var k :| 0 <= k < |ws| && Covered(t, ws[k], a - 1);
      var b :| b <= a - 1 < b + |ws[k]| && MatchAt(t, ws[k], b);
      if a < b + |ws[k]| {
        assert Covered(t, ws[k], a);
      } else {
        MatchIsWordChars(t, ws[k], b, a - 1);
      }
    }
  }

  /** The character just after an unmasked word character that ends an
      occurrence cannot be masked. */
  lemma UncoveredAfter(t: string, ws: seq<string>, e: int)
    requires AllWords(ws) && 0 < e < |t| && IsWordChar(t[e - 1]) && !CoveredAny(t, ws, e - 1)
    ensures !CoveredAny(t, ws, e)
  {
    if CoveredAny(t, ws, e) {
      var k :| 0 <= k < |ws| && Covered(t, ws[k], e);
      var b :| b <= e < b + |ws[k]| && MatchAt(t, ws[k], b);
      if b < e {
        assert Covered(t, ws[k], e - 1);
      } else {
        MatchIsWordChars(t, ws[k], b, b);
      }
    }
  }

  /** A whole-word occurrence in the masked text was an occurrence in the
      original text, and none of its characters was masked. */
  lemma MatchInRefMask(t: string, ws: seq<string>, u: string, a: int)
    requires AllWords(ws) && IsWord(u) && MatchAt(RefMask(ws, t), u, a)
    ensures MatchAt(t, u, a)
    ensures forall p :: a <= p < a + |u| ==> !CoveredAny(t, ws, p)
  {
    var r := RefMask(ws, t);
    var e := a + |u|;
    forall p | a <= p < e ensures !CoveredAny(t, ws, p) && r[p] == t[p] && IsWordChar(t[p]) {
      MatchIsWordChars(r, u, a, p);
    }
    assert FoldedEqualAt(t, u, a) by {
      forall k | 0 <= k < |u| ensures Lower(t[a + k]) == Lower(u[k]) {
        assert r[a + k] == t[a + k];
      }
    }
    if a > 0 {
      UncoveredBefore(t, ws, a);
      assert r[a - 1] == t[a - 1];
    }
    if e < |t| {
      UncoveredAfter(t, ws, e);
      assert r[e] == t[e];
    }
  }

  /** If one character of an occurrence is not masked, none of it is. */
  lemma RunUntouched(t: string, ws: seq<string>, u: string, a: int, j: int, p: int)
    requires AllWords(ws) && IsWord(u) && MatchAt(t, u, a)
    requires a <= j < a + |u| && !CoveredAny(t, ws, j) && a <= p < a + |u|
    ensures !CoveredAny(t, ws, p)
  {
    if CoveredAny(t, ws, p) {
      var k :| 0 <= k < |ws| && Covered(t, ws[k], p);
      var b :| b <= p < b + |ws[k]| && MatchAt(t, ws[k], b);
      MatchesShareRun(t, u, ws[k], a, b, p);
    }
  }

  /** An occurrence in the original text that masking did not touch is still an
      occurrence in the masked text. */
  lemma MatchSurvivesRefMask(t: string, ws: seq<string>, u: string, a: int, j: int)
    requires AllWords(ws) && IsWord(u) && MatchAt(t, u, a)
    requires a <= j < a + |u| && !CoveredAny(t, ws, j)
    ensures MatchAt(RefMask(ws, t), u, a)
  {
    var r := RefMask(ws, t);
    var e := a + |u|;
    forall p | a <= p < e ensures !CoveredAny(t, ws, p) && r[p] == t[p] {
      RunUntouched(t, ws, u, a, j, p);
    }
    assert FoldedEqualAt(r, u, a) by {
      forall k | 0 <= k < |u| ensures Lower(r[a + k]) == Lower(u[k]) {
        assert r[a + k] == t[a + k];
      }
    }
    if a > 0 {
      MatchIsWordChars(t, u, a, a);
      UncoveredBefore(t, ws, a);
      assert r[a - 1] == t[a - 1];
    }
    if e < |t| {
      MatchIsWordChars(t, u, a, e - 1);
      UncoveredAfter(t, ws, e);
      assert r[e] == t[e];
    }
  }

  /** Masking `w` after the words `ws` is reference masking by `ws + [w]`. */
  lemma RefMaskCompose(t: string, ws: seq<string>, w: string)
    requires AllWords(ws) && IsWord(w)
    ensures RefMask([w], RefMask(ws, t)) == RefMask(ws + [w], t)
  {
    var r := RefMask(ws, t);
    var f := RefMask([w], r);
    var g := RefMask(ws + [w], t);
    assert AllWords([w]);
    forall j | 0 <= j < |t| ensures f[j] == g[j] {
      assert CoveredAny(r, [w], j) <==> Covered(r, w, j) by {
        if Covered(r, w, j) { assert [w][0] == w; }
      }
      assert CoveredAny(t, ws + [w], j) <==> CoveredAny(t, ws, j) || Covered(t, w, j) by {
        if CoveredAny(t, ws, j) {
          var k :| 0 <= k < |ws| && Covered(t, ws[k], j);
          assert (ws + [w])[k] == ws[k];
        }
        if Covered(t, w, j) {
          assert (ws + [w])[|ws|] == w;
        }
        if CoveredAny(t, ws + [w], j) {
          var k :| 0 <= k < |ws + [w]| && Covered(t, (ws + [w])[k], j);
          if k < |ws| { assert (ws + [w])[k] == ws[k]; }
        }
      }
      if !CoveredAny(t, ws, j) {
        if Covered(t, w, j) {
          var a :| a <= j < a + |w| && MatchAt(t, w, a);
          MatchSurvivesRefMask(t, ws, w, a, j);
          assert Covered(r, w, j);
        } else if Covered(r, w, j) {
          var a :| a <= j < a + |w| && MatchAt(r, w, a);
          MatchInRefMask(t, ws, w, a);
          assert Covered(t, w, j);
        }
      }
    }
  }

  /** The masking loop equals reference masking by the whole list. */
  lemma {:induction false} MaskAllIsRef(ws: seq<string>, t: string)
    requires AllWords(ws)
    ensures MaskAll(ws, t) == RefMask(ws, t)
    decreases |ws|
  {
    if ws == [] {
      assert RefMask(ws, t) == t;
    } else {
      var init, w := ws[..|ws| - 1], ws[|ws| - 1];
      assert AllWords(init);
      MaskAllIsRef(init, t);
      MaskWordIsRef(MaskAll(init, t), w);
      RefMaskCompose(t, init, w);
      assert init + [w] == ws;
    }
  }

  /** Masking replaces each whole-word occurrence of a forbidden word by a run of
      asterisks of the same length. */
  lemma OccurrenceBecomesStars(ws: seq<string>, t: string, k: int, i: int)
    requires AllWords(ws) && 0 <= k < |ws| && MatchAt(t, ws[k], i)
    ensures MaskAll(ws, t)[i..i + |ws[k]|] == Stars(|ws[k]|)
  {
    MaskAllIsRef(ws, t);
    forall p | i <= p < i + |ws[k]| ensures CoveredAny(t, ws, p) {
      assert Covered(t, ws[k], p);
    }
  }

  /** Masking changes only characters inside occurrences, and only to `*`. */
  lemma MaskOnlyCovered(ws: seq<string>, t: string, j: int)
    requires AllWords(ws) && 0 <= j < |t|
    ensures MaskAll(ws, t)[j] == t[j] || (MaskAll(ws, t)[j] == '*' && IsWordChar(t[j]))
  {
    MaskAllIsRef(ws, t);
    if CoveredAny(t, ws, j) {
      CoveredIsWordChar(t, ws, j);
    }
  }

  /** After masking, no forbidden word of the list occurs any more. */
  lemma NoneOccursAfterMask(ws: seq<string>, t: string, k: int)
    requires AllWords(ws) && 0 <= k < |ws|
    ensures !Occurs(MaskAll(ws, t), ws[k])
  {
    MaskAllIsRef(ws, t);
    if Occurs(MaskAll(ws, t), ws[k]) {
      var a :| 0 <= a <= |t| - |ws[k]| && MatchAt(RefMask(ws, t), ws[k], a);
      MatchInRefMask(t, ws, ws[k], a);
      assert Covered(t, ws[k], a);
    }
  }

  /** Masking twice is masking once. */
  lemma MaskIdempotent(ws: seq<string>, t: string)
    requires AllWords(ws)
    ensures MaskAll(ws, MaskAll(ws, t)) == MaskAll(ws, t)
  {
    forall k | 0 <= k < |ws| ensures !Occurs(MaskAll(ws, t), ws[k]) {
      NoneOccursAfterMask(ws, t, k);
    }
  }

  /** The order of the passes does not matter: two lists with the same words
      mask every text the same way. */
  lemma MaskOrderIrrelevant(ws1: seq<string>, ws2: seq<string>, t: string)
    requires AllWords(ws1) && AllWords(ws2)
    requires forall w :: w in ws1 <==> w in ws2
    ensures MaskAll(ws1, t) == MaskAll(ws2, t)
  {
    MaskAllIsRef(ws1, t);
    MaskAllIsRef(ws2, t);
    forall j | 0 <= j < |t| ensures CoveredAny(t, ws1, j) <==> CoveredAny(t, ws2, j) {
      if CoveredAny(t, ws1, j) {
        var k :| 0 <= k < |ws1| && Covered(t, ws1[k], j);
        assert ws1[k] in ws2;
        var k2 :| 0 <= k2 < |ws2| && ws2[k2] == ws1[k];
      }
      if CoveredAny(t, ws2, j) {
        var k :| 0 <= k < |ws2| && Covered(t, ws2[k], j);
        assert ws2[k] in ws1;
        var k1 :| 0 <= k1 < |ws1| && ws1[k1] == ws2[k];
      }
    }
  }
}
