/** The content filter (`FiltroContenido`): a fixed list of forbidden words,
    chosen once at construction, used to detect and to mask whole-word,
    case-insensitive occurrences in a text. */
module ContentFilter {
  import opened Wrappers
  import opened Ascii
  import opened WholeWord
  import opened Masking

  /** The configured default list (`PALABRAS_PROHIBIDAS`). */
  const DefaultWords: seq<string> := [
    "idiota", "estupido", "imbecil", "maldito", "carajo",
    "mierda", "puta", "bastardo", "pendejo", "cabron"
  ]

  /** The default list has ten entries, each non-empty and made of word
      characters, so every masking property holds for it. */
  lemma DefaultWordsAreWords()
    ensures |DefaultWords| == 10 && AllWords(DefaultWords)
  {
    forall k | 0 <= k < |DefaultWords| ensures IsWord(DefaultWords[k]) {
      var w := DefaultWords[k];
      assert |w| > 0;
      forall i | 0 <= i < |w| ensures IsWordChar(w[i]) {
        assert 'a' <= w[i] <= 'z';
      }
    }
  }

  /** `palabras_prohibidas or config.PALABRAS_PROHIBIDAS`: a missing list and an
      empty list (falsy in Python) both fall back to the default list. */
  function EffectiveWords(given: Option<seq<string>>): (ws: seq<string>)
    ensures ws != []
    ensures given.Some? && given.value != [] ==> ws == given.value
    ensures given.None? || given.value == [] ==> ws == DefaultWords
    ensures (given.Some? ==> AllWords(given.value)) ==> AllWords(ws)
  {
    DefaultWordsAreWords();
    if given.Some? && given.value != [] then given.value else DefaultWords
  }

  /** One detection step: search the folded text for `\b<folded word>\b`.
      It succeeds exactly when the word occurs as a whole word, ignoring case. */
  predicate Detected(t: string, w: string)
    ensures Detected(t, w) <==> Occurs(t, w)
  {
    SearchFoldedIsOccurs(t, w);
    Search(LowerStr(t), LowerStr(w))
  }

  /** The forbidden words found in the text, in list order and original casing. */
  function Matched(ws: seq<string>, t: string): (found: seq<string>)
    ensures |found| <= |ws|
    decreases |ws|
  {
    if ws == [] then []
    else Matched(ws[..|ws| - 1], t) + (if Detected(t, ws[|ws| - 1]) then [ws[|ws| - 1]] else [])
  }

  /** What `contiene_contenido_inapropiado` returns: the flag and the list. */
  function Inspect(ws: seq<string>, t: string): (r: (bool, seq<string>))
    ensures r.0 <==> r.1 != []
    ensures forall w :: w in r.1 <==> w in ws && Occurs(t, w)
  {
    forall w ensures w in Matched(ws, t) <==> w in ws && Occurs(t, w) {
      MatchedMembers(ws, t, w);
    }
    (|Matched(ws, t)| > 0, Matched(ws, t))
  }

  /** A word is reported exactly when it is in the list and occurs as a whole
      word, ignoring case. */
  lemma {:induction false} MatchedMembers(ws: seq<string>, t: string, w: string)
    ensures w in Matched(ws, t) <==> w in ws && Occurs(t, w)
    decreases |ws|
  {
    if ws != [] {
      var init, last := ws[..|ws| - 1], ws[|ws| - 1];
      MatchedMembers(init, t, w);
      SearchFoldedIsOccurs(t, last);
      assert ws == init + [last];
    }
  }

  /** The report keeps list order: reporting on a concatenation of lists is
      the concatenation of the reports. */
  lemma {:induction false} MatchedAppend(ws1: seq<string>, ws2: seq<string>, t: string)
    ensures Matched(ws1 + ws2, t) == Matched(ws1, t) + Matched(ws2, t)
    decreases |ws2|
  {
    if ws2 == [] {
      assert ws1 + ws2 == ws1;
    } else {
      var init, last := ws2[..|ws2| - 1], ws2[|ws2| - 1];
      var added := if Detected(t, last) then [last] else [];
      MatchedAppend(ws1, init, t);
      assert (ws1 + ws2)[..|ws1 + ws2| - 1] == ws1 + init;
      assert Matched(ws1 + ws2, t) == Matched(ws1 + init, t) + added;
      assert Matched(ws2, t) == Matched(init, t) + added;
    }
  }

  /** The flag is raised exactly when some forbidden word occurs. */
  lemma {:induction false} FlagIffSomeOccurs(ws: seq<string>, t: string)
    ensures Inspect(ws, t).0 <==> exists k :: 0 <= k < |ws| && Occurs(t, ws[k])
  {
    if |Matched(ws, t)| > 0 {
      var w := Matched(ws, t)[0];
      MatchedMembers(ws, t, w);
      var k :| 0 <= k < |ws| && ws[k] == w;
    }
    if exists k :: 0 <= k < |ws| && Occurs(t, ws[k]) {
      var k :| 0 <= k < |ws| && Occurs(t, ws[k]);
      MatchedMembers(ws, t, ws[k]);
    }
  }

  /** The test fixture's list on a clean sentence: nothing is reported. */
  lemma CleanSentenceNotFlagged()
    ensures Inspect(["idiota", "mierda", "estupido"], "Hola, buen dia") == (false, [])
  {
    var t := "Hola, buen dia";
    var ws := ["idiota", "mierda", "estupido"];
    forall k | 0 <= k < |ws| ensures !Occurs(t, ws[k]) {
      forall i | 0 <= i <= |t| - |ws[k]| ensures !MatchAt(t, ws[k], i) {
        assert Lower(t[i + 0]) != Lower(ws[k][0]);
      }
    }
    FlagIffSomeOccurs(ws, t);
  }

  /** Masked text passes the detector: no forbidden word is reported in it. */
  lemma MaskedNotFlagged(ws: seq<string>, t: string)
    requires AllWords(ws)
    ensures Inspect(ws, MaskAll(ws, t)) == (false, [])
  {
    forall k | 0 <= k < |ws| ensures !Occurs(MaskAll(ws, t), ws[k]) {
      NoneOccursAfterMask(ws, t, k);
    }
    FlagIffSomeOccurs(ws, MaskAll(ws, t));
  }

  /** `FiltroContenido`: holds the forbidden-word list. */
  class Filter {
    const words: seq<string>

    /** The forbidden words are non-empty and made of word characters. */
    predicate Valid() {
      AllWords(words)
    }

    /** `FiltroContenido(palabras_prohibidas=None)`. */
    constructor(given: Option<seq<string>> := None)
      requires given.Some? ==> AllWords(given.value)
      ensures words == EffectiveWords(given)
      ensures Valid()
    {
      words := EffectiveWords(given);
    }

    /** `contiene_contenido_inapropiado`: one search per forbidden word,
        collecting the words found. */
    method Detect(text: string) returns (found: bool, matches: seq<string>)
      ensures (found, matches) == Inspect(words, text)
      ensures found <==> |matches| > 0
      ensures forall w :: w in matches <==> w in words && Occurs(text, w)
    {
      var lowered := LowerStr(text);
      matches := [];
      var i := 0;
      while i < |words|
        invariant 0 <= i <= |words|
        invariant matches == Matched(words[..i], text)
      {
        var w := words[i];
        if Search(lowered, LowerStr(w)) {
          matches := matches + [w];
        }
        assert words[..i + 1][..i] == words[..i];
        i := i + 1;
      }
      assert words[..i] == words;
      found := |matches| > 0;
      forall w ensures w in matches <==> w in words && Occurs(text, w) {
        MatchedMembers(words, text, w);
      }
    }

    /** `filtrar_contenido`: one substitution pass per forbidden word, each on
        the result of the previous pass. */
    method Mask(text: string) returns (result: string)
      requires Valid()
      ensures result == MaskAll(words, text)
      ensures |result| == |text|
      ensures forall k :: 0 <= k < |words| ==> !Occurs(result, words[k])
      ensures (forall k :: 0 <= k < |words| ==> !Occurs(text, words[k])) ==> result == text
    {
      result := text;
      var i := 0;
      while i < |words|
        invariant 0 <= i <= |words|
        invariant result == MaskAll(words[..i], text)
      {
        result := MaskWord(result, words[i]);
        assert words[..i + 1][..i] == words[..i];
        i := i + 1;
      }
      assert words[..i] == words;
      forall k | 0 <= k < |words| ensures !Occurs(result, words[k]) {
        NoneOccursAfterMask(words, text, k);
      }
    }
  }
}
