/** The message repository (`RepositorioMensajes`) over the `mensajes` table,
    held in memory as a sequence of flat rows. */
module Store {
  import opened Wrappers
  import opened Errors
  import opened Ordering

  /** One row of the `mensajes` table: the processed message with its metadata
      flattened into columns. */
  datatype Row = Row(
    messageId: string, sessionId: string, content: string, timestamp: string, sender: string,
    wordCount: int, characterCount: int, processedAt: string)

  /** The table's `CHECK(sender IN ('user', 'system'))`. */
  predicate SenderAllowed(sender: string) {
    sender == "user" || sender == "system"
  }

  /** Some row already carries the id. */
  predicate HasId(rows: seq<Row>, id: string) {
    exists i :: 0 <= i < |rows| && rows[i].messageId == id
  }

  /** The table's constraints: `message_id` is the primary key and every
      `sender` passes the check. */
  predicate TableValid(rows: seq<Row>) {
    (forall i, j :: 0 <= i < j < |rows| ==> rows[i].messageId != rows[j].messageId)
    && forall i :: 0 <= i < |rows| ==> SenderAllowed(rows[i].sender)
  }

  /** Python truthiness of the optional sender filter: `None` and `""` are
      both falsy. */
  predicate FilterBySender(sender: Option<string>) {
    sender.Some? && sender.value != ""
  }

  /** The rows a session query is about: the session's rows, restricted to the
      given sender when the sender filter is truthy. */
  predicate Wanted(r: Row, sessionId: string, sender: Option<string>) {
    r.sessionId == sessionId && (FilterBySender(sender) ==> r.sender == sender.value)
  }

  /** The wanted rows, in table order. */
  function Matching(rows: seq<Row>, sessionId: string, sender: Option<string>): (sel: seq<Row>)
    decreases |rows|
  {
    if rows == [] then []
    else
      var last := rows[|rows| - 1];
      Matching(rows[..|rows| - 1], sessionId, sender) + (if Wanted(last, sessionId, sender) then [last] else [])
  }

  /** Each row is selected as often as it is stored if it is wanted, and not
      at all otherwise. */
  lemma {:induction false} MatchingCounts(rows: seq<Row>, sessionId: string, sender: Option<string>, r: Row)
    ensures multiset(Matching(rows, sessionId, sender))[r]
            == if Wanted(r, sessionId, sender) then multiset(rows)[r] else 0
    decreases |rows|
  {
    if rows != [] {
      var init, last := rows[..|rows| - 1], rows[|rows| - 1];
      var added := if Wanted(last, sessionId, sender) then [last] else [];
      MatchingCounts(init, sessionId, sender, r);
      assert rows == init + [last];
      assert multiset(Matching(rows, sessionId, sender))
          == multiset(Matching(init, sessionId, sender)) + multiset(added);
    }
  }

  /** When every stored row is wanted, all of them are selected, in order. */
  lemma {:induction false} MatchingAllWanted(rows: seq<Row>, sessionId: string, sender: Option<string>)
    requires forall i :: 0 <= i < |rows| ==> Wanted(rows[i], sessionId, sender)
    ensures Matching(rows, sessionId, sender) == rows
    decreases |rows|
  {
    if rows != [] {
      MatchingAllWanted(rows[..|rows| - 1], sessionId, sender);
    }
  }

  /** When no stored row is wanted, nothing is selected. */
  lemma {:induction false} MatchingNoneWanted(rows: seq<Row>, sessionId: string, sender: Option<string>)
    requires forall i :: 0 <= i < |rows| ==> !Wanted(rows[i], sessionId, sender)
    ensures Matching(rows, sessionId, sender) == []
    decreases |rows|
  {
    if rows != [] {
      MatchingNoneWanted(rows[..|rows| - 1], sessionId, sender);
    }
  }

  /** One condition of the `WHERE` clause. */
  datatype Condition = SessionIs(sessionId: string) | SenderIs(sender: string)

  predicate Holds(c: Condition, r: Row) {
    match c
    case SessionIs(s) => r.sessionId == s
    case SenderIs(s) => r.sender == s
  }

  /** The conditions joined with `AND`. */
  predicate HoldsAll(cs: seq<Condition>, r: Row) {
    forall k :: 0 <= k < |cs| ==> Holds(cs[k], r)
  }

  /** The rows the `WHERE` clause selects, in table order. */
  function Select(rows: seq<Row>, cs: seq<Condition>): (sel: seq<Row>)
    ensures |sel| <= |rows|
    ensures forall r :: r in sel ==> r in rows && HoldsAll(cs, r)
    decreases |rows|
  {
    if rows == [] then []
    else
      var last := rows[|rows| - 1];
      Select(rows[..|rows| - 1], cs) + (if HoldsAll(cs, last) then [last] else [])
  }

  /** The clause `session_id = ?`, followed by `sender = ?` when the sender
      filter is truthy, holds exactly for the wanted rows. */
  lemma WhereClauseSelectsWanted(cs: seq<Condition>, sessionId: string, sender: Option<string>)
    requires cs == [SessionIs(sessionId)] + (if FilterBySender(sender) then [SenderIs(sender.value)] else [])
    ensures forall r :: HoldsAll(cs, r) <==> Wanted(r, sessionId, sender)
  {
    forall r ensures HoldsAll(cs, r) <==> Wanted(r, sessionId, sender) {
      if HoldsAll(cs, r) {
        assert Holds(cs[0], r);
        if FilterBySender(sender) {
          assert Holds(cs[1], r);
        }
      }
    }
  }

  /** A `WHERE` clause that holds exactly for the wanted rows selects them. */
  lemma {:induction false} SelectIsMatching(rows: seq<Row>, cs: seq<Condition>, sessionId: string, sender: Option<string>)
    requires forall r :: HoldsAll(cs, r) <==> Wanted(r, sessionId, sender)
    ensures Select(rows, cs) == Matching(rows, sessionId, sender)
    decreases |rows|
  {
    if rows != [] {
      SelectIsMatching(rows[..|rows| - 1], cs, sessionId, sender);
    }
  }

  /** Non-decreasing by `timestamp`, compared as text. */
  predicate SortedByTime(s: seq<Row>) {
    forall i, j :: 0 <= i < j < |s| ==> LexLe(s[i].timestamp, s[j].timestamp)
  }

  /** Inserts a row into a sorted sequence, after every row that sorts strictly
      before it. */
  function Insert(r: Row, s: seq<Row>): (res: seq<Row>)
    requires SortedByTime(s)
    ensures SortedByTime(res)
    ensures multiset(res) == multiset(s) + multiset{r}
    decreases |s|
  {
    if s == [] then [r]
    else if LexLe(r.timestamp, s[0].timestamp) then
      assert s == [s[0]] + s[1..];
      FirstIsLeast(s);
      forall y | y in s ensures LexLe(r.timestamp, y.timestamp) {
        LexLeTrans(r.timestamp, s[0].timestamp, y.timestamp);
      }
      ConsSorted(r, s);
      [r] + s
    else
      LexLeTotal(r.timestamp, s[0].timestamp);
      var tail := Insert(r, s[1..]);
      assert s == [s[0]] + s[1..];
      FirstIsLeast(s);
      BoundCarriesOver(s[0], s[1..], r, tail);
      ConsSorted(s[0], tail);
      [s[0]] + tail
  }

  /** The first row of a sorted sequence sorts no later than any row in it. */
  lemma FirstIsLeast(s: seq<Row>)
    requires SortedByTime(s) && s != []
    ensures forall y :: y in s ==> LexLe(s[0].timestamp, y.timestamp)
  {
    forall y | y in s ensures LexLe(s[0].timestamp, y.timestamp) {
      var j :| 0 <= j < |s| && s[j] == y;
      if j == 0 {
        LexLeRefl(y.timestamp);
      }
    }
  }

  /** A row that sorts no later than every row of a sorted sequence can go in
      front of it. */
  lemma ConsSorted(x: Row, s: seq<Row>)
    requires SortedByTime(s)
    requires forall y :: y in s ==> LexLe(x.timestamp, y.timestamp)
    ensures SortedByTime([x] + s)
  {
    var c := [x] + s;
    forall i, j | 0 <= i < j < |c| ensures LexLe(c[i].timestamp, c[j].timestamp) {
      assert c[j] == s[j - 1];
      if i > 0 {
        assert c[i] == s[i - 1];
      }
    }
  }

  /** A lower bound of `r` and of every row of `s` is a lower bound of any
      rearrangement of `s` with `r` added. */
  lemma BoundCarriesOver(x: Row, s: seq<Row>, r: Row, res: seq<Row>)
    requires forall y :: y in [x] + s ==> LexLe(x.timestamp, y.timestamp)
    requires LexLe(x.timestamp, r.timestamp)
    requires multiset(res) == multiset(s) + multiset{r}
    ensures forall y :: y in res ==> LexLe(x.timestamp, y.timestamp)
  {
    forall y | y in res ensures LexLe(x.timestamp, y.timestamp) {
      assert y in multiset(res);
      if y != r {
        assert y in multiset(s);
        assert y in [x] + s;
      }
    }
  }

  /** `ORDER BY timestamp ASC`: a sorted permutation of `s` (insertion sort;
      rows with equal timestamps may come in any order). */
  function SortByTime(s: seq<Row>): (res: seq<Row>)
    ensures SortedByTime(res)
    ensures multiset(res) == multiset(s)
    decreases |s|
  {
    if s == [] then []
    else
      assert s == [s[0]] + s[1..];
      Insert(s[0], SortByTime(s[1..]))
  }

  function Min(a: int, b: int): int {
    if a <= b then a else b
  }

  /** `LIMIT limit OFFSET offset`. */
  function Window(s: seq<Row>, offset: nat, limit: nat): (w: seq<Row>)
    ensures |w| == if offset >= |s| then 0 else Min(limit, |s| - offset)
    ensures forall i :: 0 <= i < |w| ==> w[i] == s[offset + i]
  {
    if offset >= |s| then [] else s[offset..offset + Min(limit, |s| - offset)]
  }

  /** `page` is what the paged query may return for the selected rows: the
      window of some ordering of them by timestamp. */
  ghost predicate IsPage(page: seq<Row>, selected: seq<Row>, offset: nat, limit: nat) {
    exists s :: SortedByTime(s) && multiset(s) == multiset(selected) && page == Window(s, offset, limit)
  }

  /** A page keeps the order of the timestamps and holds only selected rows. */
  lemma PageFacts(page: seq<Row>, selected: seq<Row>, offset: nat, limit: nat)
    requires IsPage(page, selected, offset, limit)
    ensures SortedByTime(page)
    ensures forall r :: r in page ==> r in selected
    ensures |page| == if offset >= |selected| then 0 else Min(limit, |selected| - offset)
  {
    var s :| SortedByTime(s) && multiset(s) == multiset(selected) && page == Window(s, offset, limit);
    assert |s| == |multiset(s)| == |selected|;
    forall r | r in page ensures r in selected {
      var i :| 0 <= i < |page| && page[i] == r;
      assert s[offset + i] in multiset(s);
    }
  }

  /** Sorting orders rows with distinct timestamps completely: two sorted
      orderings of the same rows agree wherever the timestamps differ. Here:
      the first row of any ordering of two rows is the one with the earlier
      stamp. */
  lemma TwoRowsOrdered(a: Row, b: Row, s: seq<Row>)
    requires !LexLe(b.timestamp, a.timestamp)
    requires SortedByTime(s) && multiset(s) == multiset{a, b}
    ensures s == [a, b]
  {
    LexLeRefl(a.timestamp);
    assert |s| == |multiset(s)| == 2;
    assert s == [s[0], s[1]];
    assert multiset{s[0], s[1]} == multiset{a, b};
  }

  /** The repository's connection: the `mensajes` table. */
  class MessageStore {
    var rows: seq<Row>

    predicate Valid()
      reads this
    {
      TableValid(rows)
    }

    /** A fresh, empty table. */
    constructor()
      ensures Valid() && rows == []
    {
      rows := [];
    }

    /** `guardar_mensaje`: insert the row, or raise DuplicateMessage when the
        insert violates a constraint (the primary key or the sender check),
        leaving the table as it was. */
    method Save(row: Row) returns (o: Outcome)
      requires Valid()
      modifies this
      ensures Valid()
      ensures o.Pass? <==> !HasId(old(rows), row.messageId) && SenderAllowed(row.sender)
      ensures o.Pass? ==> rows == old(rows) + [row]
      ensures o.Fail? ==> o.error == DuplicateMessage(row.messageId) && rows == old(rows)
    {
      if HasId(rows, row.messageId) || !SenderAllowed(row.sender) {
        return Fail(DuplicateMessage(row.messageId));
      }
      rows := rows + [row];
      o := Pass;
    }

    /** `obtener_mensajes_por_sesion`: the count of the session's rows (of the
        given sender, when one is given) and one page of them in timestamp
        order. The table is only read. */
    method FetchBySession(sessionId: string, limit: nat := 50, offset: nat := 0, sender: Option<string> := None)
      returns (page: seq<Row>, total: nat)
      ensures total == |Matching(rows, sessionId, sender)|
      ensures IsPage(page, Matching(rows, sessionId, sender), offset, limit)
      ensures |page| == if offset >= total then 0 else Min(limit, total - offset)
      ensures SortedByTime(page)
      ensures forall r :: r in page ==> r in rows && Wanted(r, sessionId, sender)
    {
      var conditions := [SessionIs(sessionId)];
      if sender.Some? && sender.value != "" {
        conditions := conditions + [SenderIs(sender.value)];
      }
      WhereClauseSelectsWanted(conditions, sessionId, sender);
      var selected := Select(rows, conditions);
      SelectIsMatching(rows, conditions, sessionId, sender);
      total := |selected|;
      var ordered := SortByTime(selected);
      page := Window(ordered, offset, limit);
      PageFacts(page, selected, offset, limit);
      forall r | r in page ensures r in rows && Wanted(r, sessionId, sender) {
        MatchingCounts(rows, sessionId, sender, r);
      }
    }
  }

  /** A session with no stored row reads as no rows and a zero total. */
  lemma UnknownSessionIsEmpty(rows: seq<Row>, sessionId: string, sender: Option<string>, page: seq<Row>, offset: nat, limit: nat)
    requires forall i :: 0 <= i < |rows| ==> rows[i].sessionId != sessionId
    requires IsPage(page, Matching(rows, sessionId, sender), offset, limit)
    ensures Matching(rows, sessionId, sender) == [] && page == []
  {
    MatchingNoneWanted(rows, sessionId, sender);
    PageFacts(page, [], offset, limit);
  }

  /** An empty sender filter is no filter. */
  lemma EmptySenderIsNoFilter(rows: seq<Row>, sessionId: string)
    ensures Matching(rows, sessionId, Some("")) == Matching(rows, sessionId, None)
  {
  }

  /** Two rows of one session, with distinct ids and allowed senders, saved
      into a fresh table with the later stamp first, come back as a page of
      two in timestamp order. */
  method SaveTwoThenFetch(later: Row, earlier: Row) returns (page: seq<Row>, total: nat)
    requires later.messageId != earlier.messageId
    requires SenderAllowed(later.sender) && SenderAllowed(earlier.sender)
    requires later.sessionId == earlier.sessionId
    requires !LexLe(later.timestamp, earlier.timestamp)
    ensures total == 2 && page == [earlier, later]
  {
    var store := new MessageStore();
    var o1 := store.Save(later);
    var o2 := store.Save(earlier);
    assert store.rows == [later, earlier];
    MatchingAllWanted(store.rows, later.sessionId, None);
    page, total := store.FetchBySession(later.sessionId);
    PageOfTwo(later, earlier, page, 50);
  }

  /** Rows saved out of timestamp order come back in timestamp order: a row
      stamped 15:00 saved before one stamped 14:00 is returned second. */
  method OutOfOrderSaves() returns (page: seq<Row>, total: nat)
    ensures total == 2 && |page| == 2
    ensures page[0].messageId == "msg-001" && page[1].messageId == "msg-002"
  {
    var later := Row("msg-002", "session-001", "Hola mundo", "2023-06-15T15:00:00Z", "user", 2, 10, "2023-06-15T14:30:01Z");
    var earlier := Row("msg-001", "session-001", "Hola mundo", "2023-06-15T14:00:00Z", "user", 2, 10, "2023-06-15T14:30:01Z");
    assert later.messageId != earlier.messageId by {
      assert later.messageId[6] != earlier.messageId[6];
    }
    FifteenAfterFourteen();
    page, total := SaveTwoThenFetch(later, earlier);
  }

  /** A first page of two rows with distinct timestamps lists the earlier
      one first, whatever their order in the table. */
  lemma PageOfTwo(later: Row, earlier: Row, page: seq<Row>, limit: nat)
    requires !LexLe(later.timestamp, earlier.timestamp) && limit >= 2
    requires IsPage(page, [later, earlier], 0, limit)
    ensures page == [earlier, later]
  {
    var s :| SortedByTime(s) && multiset(s) == multiset([later, earlier]) && page == Window(s, 0, limit);
    TwoRowsOrdered(earlier, later, s);
  }
}
