/** The message processor (`ProcesadorMensajes`): validate the content, mask
    it when a forbidden word is detected, and attach metadata computed on the
    masked text. The processor holds nothing but its filter, so it is modelled
    by functions of the filter's word list. */
module Processor {
  import opened Errors
  import opened Whitespace
  import opened Ascii
  import opened WholeWord
  import opened Masking
  import opened ContentFilter

  /** An incoming message (`MensajeEntrada`). */
  datatype Incoming = Incoming(
    messageId: string, sessionId: string, content: string, timestamp: string, sender: string)

  /** The metadata computed for a message (`MetadatosMensaje`). */
  datatype Metadata = Metadata(wordCount: int, characterCount: int, processedAt: string)

  /** A processed message (`MensajeProcesado`). */
  datatype Processed = Processed(
    messageId: string, sessionId: string, content: string, timestamp: string, sender: string,
    metadata: Metadata)

  const MaxContentLength: nat := 5000

  /** The details of the error raised for blank content. */
  const BlankContentDetail: string := "El contenido del mensaje no puede estar vacio o ser solo espacios"

  /** What the input schema guarantees of every incoming message: non-empty
      ids, content of 1 to 5000 characters, and a sender that is "user" or
      "system". */
  predicate SchemaValid(m: Incoming) {
    |m.messageId| >= 1 && |m.sessionId| >= 1
    && 1 <= |m.content| <= MaxContentLength
    && (m.sender == "user" || m.sender == "system")
  }

  /** `_validar_formato`: content that strips to nothing is rejected. */
  function ValidateFormat(m: Incoming): (o: Outcome)
    ensures o.Fail? <==> AllSpace(m.content)
    ensures o.Fail? ==> o.error == InvalidFormat(BlankContentDetail)
  {
    if Strip(m.content) == [] then Fail(InvalidFormat(BlankContentDetail)) else Pass
  }

  /** `_filtrar_contenido`: mask only when the filter reports a forbidden word.
      Masking a text with no occurrence changes nothing, so the result is
      always the masked text. */
  function FilterContent(words: seq<string>, content: string): (r: string)
    requires AllWords(words)
    ensures r == MaskAll(words, content)
    ensures |r| == |content|
    ensures forall k :: 0 <= k < |words| ==> !Occurs(r, words[k])
    ensures (forall k :: 0 <= k < |words| ==> !Occurs(content, words[k])) ==> r == content
  {
    FlagIffSomeOccurs(words, content);
    forall k | 0 <= k < |words| ensures !Occurs(MaskAll(words, content), words[k]) {
      NoneOccursAfterMask(words, content, k);
    }
    var (found, _) := Inspect(words, content);
    if found then MaskAll(words, content) else content
  }

  /** `_generar_metadatos`: `len(contenido.split())` words, `len(contenido)`
      characters, and the clock reading `now`. */
  function GenerateMetadata(content: string, now: string): (md: Metadata)
    ensures md.wordCount == RunStarts(content)
    ensures md.characterCount == |content|
    ensures md.processedAt == now
  {
    SplitCountsRuns(content);
    Metadata(|Split(content)|, |content|, now)
  }

  /** `procesar`: validate, filter, then build the processed message. `now` is
      the clock reading `datetime.now(timezone.utc).isoformat()`. */
  function Process(words: seq<string>, m: Incoming, now: string): (r: Result<Processed>)
    requires AllWords(words) && SchemaValid(m)
    ensures r.Err? <==> AllSpace(m.content)
    ensures r.Err? ==> r.error == InvalidFormat(BlankContentDetail)
    ensures r.Ok? ==> r.value.messageId == m.messageId && r.value.sessionId == m.sessionId
                      && r.value.timestamp == m.timestamp && r.value.sender == m.sender
    ensures r.Ok? ==> r.value.content == MaskAll(words, m.content)
    ensures r.Ok? ==> r.value.metadata.characterCount == |r.value.content| == |m.content|
    ensures r.Ok? ==> r.value.metadata.wordCount == RunStarts(r.value.content)
    ensures r.Ok? ==> r.value.metadata.processedAt == now
  {
    match ValidateFormat(m)
    case Fail(e) => Err(e)
    case Pass =>
      var clean := FilterContent(words, m.content);
      Ok(Processed(m.messageId, m.sessionId, clean, m.timestamp, m.sender,
                   GenerateMetadata(clean, now)))
  }

  /** Masking only turns word characters into `*`, so the whitespace of the
      text, and with it the word count, is unchanged. */
  lemma MaskKeepsWordCount(words: seq<string>, t: string)
    requires AllWords(words)
    ensures RunStarts(MaskAll(words, t)) == RunStarts(t)
  {
    var r := MaskAll(words, t);
    forall j | 0 <= j < |t| ensures IsSpace(r[j]) == IsSpace(t[j]) {
      MaskOnlyCovered(words, t, j);
    }
    RunStartsSamePattern(r, t, true);
  }

  /** An accepted message has at least one word, and exactly as many words as
      its content had before masking. */
  lemma AcceptedHasWords(words: seq<string>, m: Incoming, now: string)
    requires AllWords(words) && SchemaValid(m)
    requires Process(words, m, now).Ok?
    ensures Process(words, m, now).value.metadata.wordCount == RunStarts(m.content) >= 1
  {
    MaskKeepsWordCount(words, m.content);
    NoRunsIffAllSpace(m.content);
  }

  /** The clock reading is the only input the result depends on besides the
      word list and the message: two runs at different times differ at most in
      `processedAt`. */
  lemma OnlyTimestampDependsOnClock(words: seq<string>, m: Incoming, now1: string, now2: string)
    requires AllWords(words) && SchemaValid(m)
    ensures Process(words, m, now1).Ok? == Process(words, m, now2).Ok?
    ensures Process(words, m, now1).Err? ==> Process(words, m, now1) == Process(words, m, now2)
    ensures Process(words, m, now1).Ok? ==>
      var p1, p2 := Process(words, m, now1).value, Process(words, m, now2).value;
      p1.(metadata := p1.metadata.(processedAt := now2)) == p2
  {
  }

  /** The test fixture's word list.

      The scenario lemmas below take the message text as a parameter fixed by
      a precondition rather than writing the literal in their statements:
      this keeps the solver from expanding the literal where it is not
      needed. */
  const FixtureWords: seq<string> := ["idiota", "mierda"]

  /** No word of the fixture list occurs in "Hola mundo". */
  lemma HolaMundoIsClean(t: string)
    requires t == "Hola mundo"
    ensures forall k :: 0 <= k < |FixtureWords| ==> !Occurs(t, FixtureWords[k])
  {
    forall k, i | 0 <= k < |FixtureWords| && 0 <= i <= |t| - |FixtureWords[k]|
      ensures !MatchAt(t, FixtureWords[k], i)
    {
      assert Lower(t[i + 0]) != Lower(FixtureWords[k][0]);
    }
  }

  /** A clean message passes through unchanged: "Hola mundo" keeps its
      content. */
  lemma CleanMessageUnchanged(t: string)
    requires t == "Hola mundo"
    ensures MaskAll(FixtureWords, t) == t
  {
    HolaMundoIsClean(t);
  }

  /** "Hola mundo" counts 2 words. */
  lemma HolaMundoTwoWords()
    ensures RunStarts("Hola mundo") == 2
  {
    var hola, space, mundo := "Hola", " ", "mundo";
    assert hola + (space + mundo) == "Hola mundo";
    OneRun(hola, true);
    OneRun(mundo, true);
    RunStartsAppend(space, mundo, false);
    RunStartsAppend(hola, space + mundo, true);
  }

  /** Whitespace-only content is rejected with InvalidFormat: this holds for
      every message whose content is three spaces, whatever its other fields. */
  lemma BlankMessageRejected(m: Incoming)
    requires m.content == "   "
    ensures ValidateFormat(m) == Fail(InvalidFormat(BlankContentDetail))
  {
  }

  /** The fixture words are non-empty and made of word characters. */
  lemma FixtureWordsAreWords()
    ensures AllWords(FixtureWords)
  {
    assert IsWord(FixtureWords[0]) && IsWord(FixtureWords[1]);
  }

  /** "idiota" occurs as a whole word at position 8 of "Eres un idiota total". */
  lemma IdiotaAtEight(t: string)
    requires t == "Eres un idiota total"
    ensures MatchAt(t, FixtureWords[0], 8)
  {
    var w := FixtureWords[0];
    assert t[8..14] == w;
    assert FoldedEqualAt(t, w, 8) by {
      forall k | 0 <= k < |w| ensures Lower(t[8 + k]) == Lower(w[k]) {
        assert t[8 + k] == t[8..14][k];
      }
    }
    assert t[7] == ' ' && t[14] == ' ';
  }

  /** The only whole-word occurrence of a fixture word in "Eres un idiota total"
      is "idiota" at position 8: "mierda" has no `m` to start on, and the other
      `i` is followed by `o`. */
  lemma InsultOnlyAtEight(t: string)
    requires t == "Eres un idiota total"
    ensures forall k, a :: 0 <= k < |FixtureWords| && MatchAt(t, FixtureWords[k], a) ==> k == 0 && a == 8
  {
    forall k, a | 0 <= k < |FixtureWords| && MatchAt(t, FixtureWords[k], a) ensures k == 0 && a == 8 {
      var w := FixtureWords[k];
      assert Lower(t[a + 0]) == Lower(w[0]);
      assert Lower(t[a + 1]) == Lower(w[1]);
    }
  }

  /** In "Eres un idiota total" exactly the characters of "idiota" are covered
      by an occurrence of a fixture word. */
  lemma InsultCovered(t: string, j: int)
    requires t == "Eres un idiota total" && 0 <= j < |t|
    ensures CoveredAny(t, FixtureWords, j) <==> 8 <= j < 14
  {
    InsultOnlyAtEight(t);
    if 8 <= j < 14 {
      IdiotaAtEight(t);
      assert Covered(t, FixtureWords[0], j);
    }
  }

  /** Masking "Eres un idiota total" turns exactly "idiota" into asterisks. */
  lemma InsultMaskedAtEight(t: string)
    requires t == "Eres un idiota total"
    ensures MaskAll(FixtureWords, t) == t[..8] + Stars(6) + t[14..]
  {
    var r := MaskAll(FixtureWords, t);
    var e := t[..8] + Stars(6) + t[14..];
    FixtureWordsAreWords();
    MaskAllIsRef(FixtureWords, t);
    forall j | 0 <= j < |t| ensures r[j] == e[j] {
      InsultCovered(t, j);
    }
  }

  /** Replacing characters 8 to 13 of "Eres un idiota total" by six
      asterisks gives "Eres un ****** total". */
  lemma StarredInsult(t: string)
    requires t == "Eres un idiota total"
    ensures t[..8] + Stars(6) + t[14..] == "Eres un ****** total"
  {
    var e := t[..8] + Stars(6) + t[14..];
    forall j | 0 <= j < 20 ensures e[j] == "Eres un ****** total"[j] {
      if j < 8 {
        assert e[j] == t[j];
      } else if j < 14 {
        assert e[j] == '*';
      } else {
        assert e[j] == t[j];
      }
    }
  }

  /** "Eres un ****** total" does not contain "idiota": it has no `d`. */
  lemma NoIdiotaIn(r: string)
    requires r == "Eres un ****** total"
    ensures !Contains(r, "idiota")
  {
    forall i | 0 <= i <= |r| - 6 ensures !ContainsAt(r, "idiota", i) {
      assert r[i..i + 6][1] == r[i + 1];
    }
  }

  /** "Eres un idiota total" is filtered to "Eres un ****** total", which no
      longer contains "idiota", not even as a substring. */
  lemma InsultMasked(t: string)
    requires t == "Eres un idiota total"
    ensures MaskAll(FixtureWords, t) == "Eres un ****** total"
    ensures !Contains(MaskAll(FixtureWords, t), "idiota")
  {
    InsultMaskedAtEight(t);
    StarredInsult(t);
    NoIdiotaIn(MaskAll(FixtureWords, t));
  }
}
