/** The message service (`ServicioMensajes`): runs the processor on incoming
    messages, stores them flattened, and lists a session's messages with their
    metadata nested again. */
module Service {
  import opened Wrappers
  import opened Errors
  import opened Whitespace
  import opened WholeWord
  import opened ContentFilter
  import opened Processor
  import opened Store

  /** The flat row stored for a processed message: the metadata fields become
      columns. */
  function Flatten(p: Processed): (row: Row)
    ensures Nest(row) == p
  {
    Row(p.messageId, p.sessionId, p.content, p.timestamp, p.sender,
        p.metadata.wordCount, p.metadata.characterCount, p.metadata.processedAt)
  }

  /** The listed form of a stored row: the metadata columns regrouped under
      `metadata`. */
  function Nest(row: Row): Processed {
    Processed(row.messageId, row.sessionId, row.content, row.timestamp, row.sender,
              Metadata(row.wordCount, row.characterCount, row.processedAt))
  }

  /** Nesting a row and flattening it again gives back the row. */
  lemma NestThenFlatten(row: Row)
    ensures Flatten(Nest(row)) == row
  {
  }

  /** Flattening a whole listing, item by item. */
  function FlattenAll(items: seq<Processed>): (rows: seq<Row>)
    ensures |rows| == |items|
    ensures forall i :: 0 <= i < |items| ==> rows[i] == Flatten(items[i])
  {
    seq(|items|, i requires 0 <= i < |items| => Flatten(items[i]))
  }

  /** `ServicioMensajes`: the repository and the processor. The processor is
      determined by its filter's forbidden words. */
  class MessageService {
    const store: MessageStore
    const words: seq<string>

    predicate Valid()
      reads this, store
    {
      AllWords(words) && store.Valid()
    }

    /** `ServicioMensajes(repositorio, procesador=None)`. A processor is given
        by the word list its filter was built with; without one, the default
        processor's filter uses the default word list. Either way the list
        goes through the filter's fallback, so an empty list also means the
        default list. */
    constructor(repository: MessageStore, processorWords: Option<seq<string>> := None)
      requires repository.Valid()
      requires processorWords.Some? ==> AllWords(processorWords.value)
      ensures store == repository
      ensures words == EffectiveWords(processorWords)
      ensures words != []
      ensures processorWords.None? ==> words == DefaultWords
      ensures Valid()
    {
      store := repository;
      words := EffectiveWords(processorWords);
    }

    /** `crear_mensaje`: process, then store the flattened result. A processing
        error or a failed insert propagates and leaves the table unchanged. */
    method CreateMessage(m: Incoming, now: string) returns (r: Result<Processed>)
      requires Valid() && SchemaValid(m)
      modifies store
      ensures Valid()
      ensures Process(words, m, now).Err? ==> r == Process(words, m, now) && store.rows == old(store.rows)
      ensures Process(words, m, now).Ok? && HasId(old(store.rows), m.messageId) ==>
                r == Err(DuplicateMessage(m.messageId)) && store.rows == old(store.rows)
      ensures Process(words, m, now).Ok? && !HasId(old(store.rows), m.messageId) ==>
                r == Process(words, m, now) && store.rows == old(store.rows) + [Flatten(r.value)]
    {
      r := Process(words, m, now);
      if r.Err? {
        return;
      }
      var saved := store.Save(Flatten(r.value));
      if saved.Fail? {
        r := Err(saved.error);
      }
    }

    /** `obtener_mensajes_sesion`: one page of the session's messages with
        their metadata nested, and the total. SessionNotFound is raised only
        for an empty first page. */
    method GetSessionMessages(sessionId: string, limit: nat := 50, offset: nat := 0, sender: Option<string> := None)
      returns (r: Result<(seq<Processed>, nat)>)
      ensures r.Err? <==> |Matching(store.rows, sessionId, sender)| == 0 && offset == 0
      ensures r.Err? ==> r.error == SessionNotFound(sessionId)
      ensures r.Ok? ==> r.value.1 == |Matching(store.rows, sessionId, sender)|
      ensures r.Ok? ==> IsPage(FlattenAll(r.value.0), Matching(store.rows, sessionId, sender), offset, limit)
      ensures r.Ok? && r.value.1 == 0 ==> r.value.0 == []
    {
      var page, total := store.FetchBySession(sessionId, limit, offset, sender);
      if total == 0 && offset == 0 {
        return Err(SessionNotFound(sessionId));
      }
      var items: seq<Processed> := [];
      var i := 0;
      while i < |page|
        invariant 0 <= i <= |page|
        invariant |items| == i
        invariant forall k :: 0 <= k < i ==> Flatten(items[k]) == page[k]
      {
        items := items + [Nest(page[i])];
        i := i + 1;
      }
      assert FlattenAll(items) == page;
      r := Ok((items, total));
    }
  }

  /** Creating a message in a session that has no rows yet and then listing
      that session from offset 0 returns exactly the created message, nested,
      with the metadata the processor computed. */
  method CreateThenFetch(service: MessageService, m: Incoming, now: string)
    returns (created: Result<Processed>, listed: Result<(seq<Processed>, nat)>)
    requires service.Valid() && SchemaValid(m) && !AllSpace(m.content)
    requires !HasId(service.store.rows, m.messageId)
    requires forall i :: 0 <= i < |service.store.rows| ==> service.store.rows[i].sessionId != m.sessionId
    modifies service.store
    ensures created == Process(service.words, m, now) && created.Ok?
    ensures listed == Ok(([created.value], 1))
  {
    ghost var before := service.store.rows;
    created := service.CreateMessage(m, now);
    var row := Flatten(created.value);
    OnlyRowOfSession(before, row, m.sessionId);
    listed := service.GetSessionMessages(m.sessionId);
    SinglePage(listed.value.0, created.value, 50);
  }

  /** A row added to a session that had none is the whole session. */
  lemma OnlyRowOfSession(before: seq<Row>, row: Row, sessionId: string)
    requires forall i :: 0 <= i < |before| ==> before[i].sessionId != sessionId
    requires row.sessionId == sessionId
    ensures Matching(before + [row], sessionId, None) == [row]
  {
    MatchingNoneWanted(before, sessionId, None);
    assert (before + [row])[..|before|] == before;
  }

  /** A first page of a single row lists that row's message. */
  lemma SinglePage(items: seq<Processed>, p: Processed, limit: nat)
    requires limit >= 1 && IsPage(FlattenAll(items), [Flatten(p)], 0, limit)
    ensures items == [p]
  {
    PageFacts(FlattenAll(items), [Flatten(p)], 0, limit);
    assert Nest(FlattenAll(items)[0]) == p;
  }
}
