/**
 * What the cursor protocol guarantees across calls, against a reference store: rows kept in
 * the order the store returns them, resumed at the row whose key text equals the decoded
 * cursor (inclusive seek), returning at most the number of rows the query asks for. Because `GetResult` takes the
 * cursor from the sentinel row (the first row NOT returned), resuming at that row makes the
 * pages tile the table: every row is returned once, in order.
 */
module Keyset {
  import opened Results
  import Base64
  import KeyText
  import opened Paginate

  /** Every key readable, every key text non-empty, no two rows with the same key text. */
  ghost predicate WellKeyed(rows: seq<Row>)
  {
    && (forall i :: 0 <= i < |rows| ==> rows[i].keyReadable && KeyText.Format(rows[i].key) != [])
    && (forall i, j :: 0 <= i < j < |rows| ==> KeyText.Format(rows[i].key) != KeyText.Format(rows[j].key))
  }

  /** The position of the first row whose key text is `text`, or |rows| when there is none. */
  function Seek(rows: seq<Row>, text: seq<Base64.byte>): (p: nat)
    ensures p <= |rows|
    ensures p < |rows| ==> KeyText.Format(rows[p].key) == text
    ensures forall i :: 0 <= i < p ==> KeyText.Format(rows[i].key) != text
  {
    if |rows| == 0 then 0
    else if KeyText.Format(rows[0].key) == text then 0
    else 1 + Seek(rows[1..], text)
  }

  /** At most `count` rows, starting at the resume position (the first row without a token). */
  function Window(rows: seq<Row>, count: nat, token: Option<seq<Base64.byte>>): seq<Row>
  {
    var start := if token.None? then 0 else Seek(rows, token.value);
    var stop := if start + count < |rows| then start + count else |rows|;
    rows[start..stop]
  }

  /** The reference store over `rows`; it never fails. */
  function Store<F>(rows: seq<Row>): Table<F>
  {
    Table(q => None, token => None, (q: PageQuery<F>, token) => Ok(Window(rows, q.limit, token)))
  }

  /** The cursor `GetResult` makes from row `p`. */
  function CursorAt(rows: seq<Row>, p: nat): string
    requires p < |rows|
  {
    Base64.Encode(KeyText.Format(rows[p].key))
  }

  /** The calls a client makes with the same query: each cursor it holds gives one outcome. */
  function Calls<F>(table: Table<F>, q: PageQuery<F>, limit: nat): string -> Result<Page, Error>
  {
    cursor => PageOutcome(table, q, cursor, limit)
  }

  /**
   * The rows a client collects by making the call `step` with `cursor` and feeding each new
   * cursor back, until the cursor comes back empty or `fuel` calls have been made.
   */
  function Crawl(step: string -> Result<Page, Error>, cursor: string, fuel: nat): Result<seq<Row>, Error>
    decreases fuel
  {
    if fuel == 0 then Ok([])
    else match step(cursor)
      case Err(e) => Err(e)
      case Ok(page) =>
        if page.cursor == "" then Ok(page.items)
        else match Crawl(step, page.cursor, fuel - 1)
          case Err(e) => Err(e)
          case Ok(rest) => Ok(page.items + rest)
  }

  /** The cursor of row `p` brings the store back to row `p`. */
  lemma SeekCursor(rows: seq<Row>, p: nat)
    requires WellKeyed(rows) && p < |rows|
    ensures Token(CursorAt(rows, p)) == Ok(Some(KeyText.Format(rows[p].key)))
    ensures Seek(rows, KeyText.Format(rows[p].key)) == p
  {
    Base64.DecodeEncode(KeyText.Format(rows[p].key));
  }

  /** A call against the reference store trims the window the store hands back. */
  lemma StoreOutcome<F>(rows: seq<Row>, q: PageQuery<F>, limit: nat, cursor: string, token: Option<seq<Base64.byte>>)
    requires Token(cursor) == Ok(token)
    ensures PageOutcome(Store<F>(rows), q, cursor, limit) == Ok(Trim(limit, cursor, Window(rows, q.limit, token)))
  {
  }

  /** The window from row `p`, with the token of `cursor`. */
  lemma WindowAt(rows: seq<Row>, limit: nat, p: nat, cursor: string) returns (token: Option<seq<Base64.byte>>)
    requires WellKeyed(rows)
    requires p <= |rows|
    requires cursor == "" ==> p == 0
    requires cursor != "" ==> p < |rows| && cursor == CursorAt(rows, p)
    ensures Token(cursor) == Ok(token)
    ensures Window(rows, limit + 1, token) == if |rows| - p <= limit then rows[p..] else rows[p..p + limit + 1]
  {
    token := if cursor == "" then None else Some(KeyText.Format(rows[p].key));
    if cursor != "" {
      SeekCursor(rows, p);
    }
  }

  /** Trimming a full window keeps its first `limit` rows and points the cursor at the row after them. */
  lemma TrimFullWindow(rows: seq<Row>, limit: nat, p: nat, cursor: string)
    requires WellKeyed(rows) && p + limit < |rows|
    ensures Trim(limit, cursor, rows[p..p + limit + 1]) == Page(CursorAt(rows, p + limit), rows[p..p + limit])
  {
    var w := rows[p..p + limit + 1];
    assert w[|w| - 1] == rows[p + limit];
    assert w[..|w| - 1] == rows[p..p + limit];
    TrimReadable(limit, cursor, w);
  }

  /**
   * One call from row `p`: the page is the next `limit` rows; the cursor is that of the row
   * after them, or empty when they were the last.
   */
  lemma PageAt<F>(rows: seq<Row>, q: PageQuery<F>, limit: nat, p: nat, cursor: string)
    requires WellKeyed(rows) && q.limit == limit + 1
    requires p <= |rows|
    requires cursor == "" ==> p == 0
    requires cursor != "" ==> p < |rows| && cursor == CursorAt(rows, p)
    ensures PageOutcome(Store<F>(rows), q, cursor, limit)
      == if |rows| - p <= limit then Ok(Page("", rows[p..]))
         else Ok(Page(CursorAt(rows, p + limit), rows[p..p + limit]))
  {
    var token := WindowAt(rows, limit, p, cursor);
    StoreOutcome(rows, q, limit, cursor, token);
    if |rows| - p > limit {
      TrimFullWindow(rows, limit, p, cursor);
    }
  }

  /**
   * The page a call from row `p` should return: the next `limit` rows, with the cursor
   * `cursorOf` names for the row after them, or the rest of the table and no cursor.
   */
  function Expected(rows: seq<Row>, limit: nat, cursorOf: nat -> string, p: nat): Result<Page, Error>
    requires p <= |rows|
  {
    if |rows| - p <= limit then Ok(Page("", rows[p..]))
    else Ok(Page(cursorOf(p + limit), rows[p..p + limit]))
  }

  /** The call with the cursor of row `p` returns the page from `p`. */
  ghost predicate ServesFrom(step: string -> Result<Page, Error>, rows: seq<Row>, limit: nat,
                             cursorOf: nat -> string, p: nat)
    requires p < |rows|
  {
    cursorOf(p) != "" && step(cursorOf(p)) == Expected(rows, limit, cursorOf, p)
  }

  /** The first call returns the page from row 0, and the cursor of every row resumes at that row. */
  ghost predicate ServesPages(step: string -> Result<Page, Error>, rows: seq<Row>, limit: nat, cursorOf: nat -> string)
  {
    && step("") == Expected(rows, limit, cursorOf, 0)
    && forall p :: 0 <= p < |rows| ==> ServesFrom(step, rows, limit, cursorOf, p)
  }

  /** The cursors `GetResult` makes, by row. */
  function Cursors(rows: seq<Row>): nat -> string
  {
    (p: nat) => if p < |rows| then CursorAt(rows, p) else ""
  }

  lemma StoreServesFirst<F>(rows: seq<Row>, q: PageQuery<F>, limit: nat)
    requires WellKeyed(rows) && q.limit == limit + 1
    ensures Calls(Store<F>(rows), q, limit)("") == Expected(rows, limit, Cursors(rows), 0)
  {
    PageAt(rows, q, limit, 0, "");
  }

  lemma StoreServesFrom<F>(rows: seq<Row>, q: PageQuery<F>, limit: nat, p: nat)
    requires WellKeyed(rows) && q.limit == limit + 1 && p < |rows|
    ensures ServesFrom(Calls(Store<F>(rows), q, limit), rows, limit, Cursors(rows), p)
  {
    var c := CursorAt(rows, p);
    CursorNonEmpty(rows, p);
    ExpectedAt(rows, limit, p);
    PageAt(rows, q, limit, p, c);
    assert Cursors(rows)(p) == c;
    assert Calls(Store<F>(rows), q, limit)(c) == PageOutcome(Store<F>(rows), q, c, limit);
  }

  lemma CursorNonEmpty(rows: seq<Row>, p: nat)
    requires WellKeyed(rows) && p < |rows|
    ensures CursorAt(rows, p) != ""
  {
    assert |KeyText.Format(rows[p].key)| > 0;
  }

  /** The expected page from row `p`, with the store's cursors. */
  lemma ExpectedAt(rows: seq<Row>, limit: nat, p: nat)
    requires p < |rows|
    ensures Expected(rows, limit, Cursors(rows), p)
      == if |rows| - p <= limit then Ok(Page("", rows[p..]))
         else Ok(Page(CursorAt(rows, p + limit), rows[p..p + limit]))
  {
    if |rows| - p > limit {
      assert Cursors(rows)(p + limit) == CursorAt(rows, p + limit);
    }
  }

  lemma StoreServesPages<F>(rows: seq<Row>, q: PageQuery<F>, limit: nat)
    requires WellKeyed(rows) && q.limit == limit + 1
    ensures ServesPages(Calls(Store<F>(rows), q, limit), rows, limit, Cursors(rows))
  {
    StoreServesFirst(rows, q, limit);
    forall p | 0 <= p < |rows|
      ensures ServesFrom(Calls(Store<F>(rows), q, limit), rows, limit, Cursors(rows), p)
    {
      StoreServesFrom(rows, q, limit, p);
    }
  }

  /** The answer to a call from row `p`, out of `ServesPages`. */
  lemma ServedAt(step: string -> Result<Page, Error>, rows: seq<Row>, limit: nat, cursorOf: nat -> string,
                 p: nat, cursor: string)
    requires ServesPages(step, rows, limit, cursorOf)
    requires p <= |rows|
    requires cursor == "" ==> p == 0
    requires cursor != "" ==> p < |rows| && cursor == cursorOf(p)
    ensures step(cursor) == Expected(rows, limit, cursorOf, p)
    ensures p < |rows| ==> cursorOf(p) != ""
  {
    if p < |rows| {
      assert ServesFrom(step, rows, limit, cursorOf, p);
    }
  }

  lemma {:induction false} CrawlFrom(step: string -> Result<Page, Error>, rows: seq<Row>, limit: nat,
                                     cursorOf: nat -> string, p: nat, cursor: string, fuel: nat)
    requires ServesPages(step, rows, limit, cursorOf) && limit >= 1
    requires p <= |rows|
    requires cursor == "" ==> p == 0
    requires cursor != "" ==> p < |rows| && cursor == cursorOf(p)
    requires fuel > |rows| - p
    ensures Crawl(step, cursor, fuel) == Ok(rows[p..])
    decreases |rows| - p
  {
    ServedAt(step, rows, limit, cursorOf, p, cursor);
    if |rows| - p > limit {
      var next := cursorOf(p + limit);
      assert ServesFrom(step, rows, limit, cursorOf, p + limit);
      CrawlFrom(step, rows, limit, cursorOf, p + limit, next, fuel - 1);
      assert step(cursor) == Ok(Page(next, rows[p..p + limit]));
      assert rows[p..p + limit] + rows[p + limit..] == rows[p..];
    }
  }

  /**
   * Starting without a cursor and feeding every cursor back returns the whole table, each
   * row exactly once and in order, when the page size is at least one.
   */
  lemma PagesTile<F>(rows: seq<Row>, q: PageQuery<F>, limit: nat)
    requires WellKeyed(rows) && q.limit == limit + 1 && limit >= 1
    ensures Crawl(Calls(Store<F>(rows), q, limit), "", |rows| + 1) == Ok(rows)
  {
    StoreServesPages(rows, q, limit);
    CrawlFrom(Calls(Store<F>(rows), q, limit), rows, limit, Cursors(rows), 0, "", |rows| + 1);
  }

  lemma {:induction false} StallsFrom(step: string -> Result<Page, Error>, rows: seq<Row>,
                                      cursorOf: nat -> string, p: nat, cursor: string, fuel: nat)
    requires ServesPages(step, rows, 0, cursorOf) && p < |rows|
    requires cursor == "" ==> p == 0
    requires cursor != "" ==> cursor == cursorOf(p)
    ensures Crawl(step, cursor, fuel) == Ok([])
    decreases fuel
  {
    if fuel > 0 {
      ServedAt(step, rows, 0, cursorOf, p, cursor);
      StallsFrom(step, rows, cursorOf, p, cursorOf(p), fuel - 1);
      assert rows[p..p] == [];
      assert Expected(rows, 0, cursorOf, p) == Ok(Page(cursorOf(p), rows[p..p]));
      assert step(cursor) == Ok(Page(cursorOf(p), []));
      var none: seq<Row> := [];
      assert none + none == none;
    }
  }

  /**
   * With a page size of zero over a non-empty table every page is empty and every cursor
   * names the same row again: the client never sees a row and never reaches the end.
   */
  lemma ZeroLimitStalls<F>(rows: seq<Row>, q: PageQuery<F>, fuel: nat)
    requires WellKeyed(rows) && q.limit == 1 && |rows| > 0
    ensures CursorAt(rows, 0) != ""
    ensures PageOutcome(Store<F>(rows), q, "", 0) == Ok(Page(CursorAt(rows, 0), []))
    ensures PageOutcome(Store<F>(rows), q, CursorAt(rows, 0), 0) == Ok(Page(CursorAt(rows, 0), []))
    ensures Crawl(Calls(Store<F>(rows), q, 0), "", fuel) == Ok([])
  {
    PageAt(rows, q, 0, 0, "");
    PageAt(rows, q, 0, 0, CursorAt(rows, 0));
    StoreServesPages(rows, q, 0);
    StallsFrom(Calls(Store<F>(rows), q, 0), rows, Cursors(rows), 0, "", fuel);
  }
}
