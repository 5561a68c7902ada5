/**
 * The cursor paginator of paginate.go. One call of `GetResult` assembles a query for
 * `limit + 1` rows, resumes the store at the position a base64 cursor names, reads the rows
 * into the caller's slice and, when more than `limit` came back, drops the extra (sentinel)
 * row and turns the sentinel's key into the next cursor; otherwise it clears the cursor.
 *
 * The store is an oracle: `Table` gives, for each call the paginator makes, the answer the
 * store returns. Go's map iteration order is unspecified, so the projection and order loops
 * pick their next key nondeterministically and their results are specified up to order.
 */
module Paginate {
  import opened Results
  import opened Json
  import Base64
  import KeyText

  /** The order-map value that selects a descending sort; any other value sorts ascending. */
  const OrderByDescending: string := "DESC"

  /** An entry of the projection list: `"*"`, `expr.Column(key)` or `expr.As(key, alias)`. */
  datatype Projection = Star | Column(name: string) | Alias(name: string, alias: string)

  /** `expr.Asc(key)` or `expr.Desc(key)`. */
  datatype OrderClause = Asc(field: string) | Desc(field: string)

  /** The query handed to the store: row limit, projection list, filter and order clauses. */
  datatype PageQuery<F> = PageQuery(limit: nat, selects: seq<Projection>, filter: F, orders: seq<OrderClause>)

  /**
   * A record read back from the store. `keyReadable` says whether reflection may read the
   * record's `Key` field (`CanInterface`); `payload` is the rest of the record.
   */
  datatype Row = Row(key: KeyText.KeyValue, keyReadable: bool, payload: Json)

  /** The error `GetResult` returns, tagged with the step that produced it. */
  datatype Error =
    | OpenFailed(reason: string)     // table.Paginate
    | CorruptCursor                  // base64 decoding of the cursor
    | ResumeFailed(reason: string)   // paginator.NextCursor
    | FetchFailed(reason: string)    // paginator.All

  /** The store, as the answers it gives to each call the paginator makes. */
  datatype Table<!F> = Table(
    open: PageQuery<F> -> Option<string>,
    resume: seq<Base64.byte> -> Option<string>,
    fetch: (PageQuery<F>, Option<seq<Base64.byte>>) -> Result<seq<Row>, string>)

  /** The page a successful call leaves behind: the paginator's cursor and the slice's rows. */
  datatype Page = Page(cursor: string, items: seq<Row>)

  // ---------------------------------------------------------------------------------------
  // Query assembly

  /** The projection for one `Select` entry: aliased exactly when the alias is non-empty. */
  function ProjectionFor(name: string, alias: string): (p: Projection)
    ensures !p.Star? && p.name == name
    ensures p.Alias? <==> alias != ""
    ensures p.Alias? ==> p.alias == alias
  {
    if alias != "" then Alias(name, alias) else Column(name)
  }

  /** The order clause for one `Order` entry: descending exactly when the value is "DESC". */
  function ClauseFor(field: string, direction: string): (c: OrderClause)
    ensures c.field == field
    ensures c.Desc? <==> direction == OrderByDescending
  {
    if direction == OrderByDescending then Desc(field) else Asc(field)
  }

  /**
   * `ps` is a projection list for `selection`: the single `"*"` when it is empty, otherwise
   * one projection per entry, in some order, each entry exactly once.
   */
  ghost predicate SelectsMatch(selection: map<string, string>, ps: seq<Projection>)
  {
    if |selection| == 0 then ps == [Star]
    else
      && |ps| == |selection|
      && (forall i :: 0 <= i < |ps| ==>
            !ps[i].Star? && ps[i].name in selection && ps[i] == ProjectionFor(ps[i].name, selection[ps[i].name]))
      && (forall k :: k in selection ==> ProjectionFor(k, selection[k]) in ps)
      && (forall i, j :: 0 <= i < j < |ps| ==> ps[i] != ps[j])
  }

  /** `os` holds one order clause per entry of `order`, in some order, each exactly once. */
  ghost predicate OrdersMatch(order: map<string, string>, os: seq<OrderClause>)
  {
    && |os| == |order|
    && (forall i :: 0 <= i < |os| ==> os[i].field in order && os[i] == ClauseFor(os[i].field, order[os[i].field]))
    && (forall k :: k in order ==> ClauseFor(k, order[k]) in os)
    && (forall i, j :: 0 <= i < j < |os| ==> os[i] != os[j])
  }

  /** `q` is the query `GetResult` builds from the paginator's settings. */
  ghost predicate IssuedFor<F>(q: PageQuery<F>, limit: nat, selection: map<string, string>,
                               order: map<string, string>, filter: F)
  {
    q.limit == limit + 1 && SelectsMatch(selection, q.selects) && q.filter == filter && OrdersMatch(order, q.orders)
  }

  // ---------------------------------------------------------------------------------------
  // Metadata

  /** `meta` holds "cursor", "limit" and "page" exactly when each is set, with its value, and nothing else. */
  ghost predicate IsMeta(meta: map<string, Json>, cursor: string, limit: int, page: int)
  {
    && ("cursor" in meta <==> cursor != "") && ("cursor" in meta ==> meta["cursor"] == JStr(cursor))
    && ("limit" in meta <==> limit != 0) && ("limit" in meta ==> meta["limit"] == JInt(limit))
    && ("page" in meta <==> page != 0) && ("page" in meta ==> meta["page"] == JInt(page))
    && meta.Keys <= {"cursor", "limit", "page"}
  }

  /** The settings determine the metadata completely. */
  lemma MetaUnique(m1: map<string, Json>, m2: map<string, Json>, cursor: string, limit: int, page: int)
    requires IsMeta(m1, cursor, limit, page) && IsMeta(m2, cursor, limit, page)
    ensures m1 == m2
  {
    assert m1.Keys == m2.Keys;
    assert forall k :: k in m1 ==> m1[k] == m2[k];
  }

  // ---------------------------------------------------------------------------------------
  // Trimming and the outcome of one call

  /**
   * The page and next cursor decided from the rows fetched. The cursor comes from the LAST
   * FETCHED row, index |fetched| - 1, which is the dropped sentinel.
   */
  function Trim(limit: nat, cursor: string, fetched: seq<Row>): (p: Page)
    ensures |fetched| <= limit ==> p == Page("", fetched)
    ensures |fetched| > limit && !fetched[|fetched| - 1].keyReadable ==> p == Page(cursor, fetched)
    ensures |fetched| > limit && fetched[|fetched| - 1].keyReadable ==>
      && p.items == fetched[..|fetched| - 1]
      && Base64.Decode(p.cursor) == Ok(KeyText.Format(fetched[|fetched| - 1].key))
  {
    var v := |fetched|;
    if v > limit then
      var sentinel := fetched[v - 1];
      if sentinel.keyReadable then
        Base64.DecodeEncode(KeyText.Format(sentinel.key));
        Page(Base64.Encode(KeyText.Format(sentinel.key)), fetched[..v - 1])
      else
        Page(cursor, fetched)
    else
      Page("", fetched)
  }

  /** The readable-sentinel case of `Trim`, spelled out: the cursor is the sentinel's encoded key text. */
  lemma TrimReadable(limit: nat, cursor: string, fetched: seq<Row>)
    requires |fetched| > limit && fetched[|fetched| - 1].keyReadable
    ensures Trim(limit, cursor, fetched)
      == Page(Base64.Encode(KeyText.Format(fetched[|fetched| - 1].key)), fetched[..|fetched| - 1])
  {
  }

  /**
   * A store that honours the limit of `limit + 1` rows: the page never holds more than
   * `limit` rows when the sentinel's key is readable, and the cursor is set exactly when
   * the sentinel was there (provided its key text is non-empty).
   */
  lemma TrimBounds(limit: nat, cursor: string, fetched: seq<Row>)
    requires |fetched| <= limit + 1
    requires |fetched| == limit + 1 ==> fetched[limit].keyReadable && KeyText.Format(fetched[limit].key) != []
    ensures var p := Trim(limit, cursor, fetched);
      && |p.items| <= limit
      && p.items == fetched[..|p.items|]
      && (p.cursor != "" <==> |fetched| == limit + 1)
      && |fetched| - |p.items| <= 1
  {
  }

  /**
   * A readable sentinel whose key text is empty (a string key "") is dropped, yet the cursor
   * it yields is the empty one: the caller is told the table has ended.
   */
  lemma EmptyKeyTextEndsEarly(limit: nat, cursor: string, fetched: seq<Row>)
    requires |fetched| == limit + 1
    requires fetched[limit].keyReadable && KeyText.Format(fetched[limit].key) == []
    ensures Trim(limit, cursor, fetched) == Page("", fetched[..limit])
  {
    assert Base64.Encode([]) == "";
  }

  /** The decoded resume token of a cursor: none for the empty cursor, an error if malformed. */
  function Token(cursor: string): (r: Result<Option<seq<Base64.byte>>, Error>)
    ensures r.Err? <==> cursor != "" && Base64.Decode(cursor).Err?
    ensures cursor == "" ==> r == Ok(None)
    ensures cursor != "" && Base64.Decode(cursor).Ok? ==> r == Ok(Some(Base64.Decode(cursor).value))
  {
    if cursor == "" then Ok(None)
    else match Base64.Decode(cursor)
      case Ok(b) => Ok(Some(b))
      case Err(_) => Err(CorruptCursor)
  }

  /**
   * What one `GetResult` call yields once the query `q` is built: the steps run in the order
   * paginate.go runs them (open, decode, resume, fetch), and the first failure is returned as is.
   */
  function PageOutcome<F>(table: Table<F>, q: PageQuery<F>, cursor: string, limit: nat): (r: Result<Page, Error>)
    ensures r == Err(CorruptCursor) <==> table.open(q).None? && cursor != "" && Base64.Decode(cursor).Err?
    ensures r.Ok? ==> table.open(q).None? && Token(cursor).Ok?
  {
    match table.open(q)
    case Some(e) => Err(OpenFailed(e))
    case None =>
      match Token(cursor)
      case Err(e) => Err(e)
      case Ok(token) =>
        if token.Some? && table.resume(token.value).Some? then Err(ResumeFailed(table.resume(token.value).value))
        else match table.fetch(q, token)
          case Err(e) => Err(FetchFailed(e))
          case Ok(rows) => Ok(Trim(limit, cursor, rows))
  }

  // ---------------------------------------------------------------------------------------
  // State

  /** The caller's result slice, which `GetResult` fills and trims through a pointer. */
  class Slice {
    var items: seq<Row>

    constructor ()
      ensures items == []
    {
      items := [];
    }
  }

  /** The pagination settings of one request; `GetResult` rewrites `cursor` in place. */
  class Paginator<F(==)> {
    var cursor: string
    var page: int
    var limit: nat
    var order: map<string, string>
    var selection: map<string, string>
    var query: F

    constructor (cursor: string, page: int, limit: nat, order: map<string, string>,
                 selection: map<string, string>, query: F)
      ensures this.cursor == cursor && this.page == page && this.limit == limit
      ensures this.order == order && this.selection == selection && this.query == query
    {
      this.cursor := cursor;
      this.page := page;
      this.limit := limit;
      this.order := order;
      this.selection := selection;
      this.query := query;
    }

    /** `BuildMeta`: the settings that differ from their defaults. */
    function BuildMeta(): (meta: map<string, Json>)
      reads this
      ensures IsMeta(meta, cursor, limit, page)
    {
      var withCursor: map<string, Json> := if cursor != "" then map["cursor" := JStr(cursor)] else map[];
      var withLimit := if limit != 0 then withCursor["limit" := JInt(limit)] else withCursor;
      if page != 0 then withLimit["page" := JInt(page)] else withLimit
    }

    /** The projection list built from `selection`. */
    method Projections() returns (ps: seq<Projection>)
      ensures SelectsMatch(selection, ps)
    {
      if |selection| > 0 {
        ps := [];
        var rest := selection.Keys;
        while rest != {}
          invariant rest <= selection.Keys
          invariant |ps| + |rest| == |selection|
          invariant forall i :: 0 <= i < |ps| ==>
            !ps[i].Star? && ps[i].name in selection && ps[i].name !in rest
            && ps[i] == ProjectionFor(ps[i].name, selection[ps[i].name])
          invariant forall k :: k in selection && k !in rest ==> ProjectionFor(k, selection[k]) in ps
          invariant forall i, j :: 0 <= i < j < |ps| ==> ps[i] != ps[j]
          decreases rest
        {
          var key :| key in rest;
          var value := selection[key];
          if value != "" {
            ps := ps + [Alias(key, value)];
          } else {
            ps := ps + [Column(key)];
          }
          rest := rest - {key};
        }
      } else {
        ps := [Star];
      }
    }

    /** The order clauses built from `order`. */
    method OrderClauses() returns (os: seq<OrderClause>)
      ensures OrdersMatch(order, os)
    {
      os := [];
      var rest := order.Keys;
      while rest != {}
        invariant rest <= order.Keys
        invariant |os| + |rest| == |order|
        invariant forall i :: 0 <= i < |os| ==>
          os[i].field in order && os[i].field !in rest && os[i] == ClauseFor(os[i].field, order[os[i].field])
        invariant forall k :: k in order && k !in rest ==> ClauseFor(k, order[k]) in os
        invariant forall i, j :: 0 <= i < j < |os| ==> os[i] != os[j]
        decreases rest
      {
        var key :| key in rest;
        if order[key] == OrderByDescending {
          os := os + [Desc(key)];
        } else {
          os := os + [Asc(key)];
        }
        rest := rest - {key};
      }
    }

    /**
     * `GetResult`: one page fetch. `issued` is the query handed to the store. On failure the
     * cursor is untouched, and so is the slice unless the failure came from reading rows.
     */
    method GetResult(table: Table<F>, result: Slice) returns (err: Option<Error>, ghost issued: PageQuery<F>)
      modifies this`cursor, result
      ensures IssuedFor(issued, limit, selection, order, query)
      ensures match PageOutcome(table, issued, old(cursor), limit)
        case Err(e) =>
          && err == Some(e) && cursor == old(cursor)
          && (!e.FetchFailed? ==> result.items == old(result.items))
        case Ok(p) => err == None && cursor == p.cursor && result.items == p.items
    {
      var selects := Projections();
      var orders := OrderClauses();
      var q := PageQuery(limit + 1, selects, query, orders);
      issued := q;

      var openErr := table.open(q);
      if openErr.Some? {
        return Some(OpenFailed(openErr.value)), issued;
      }

      var token: Option<seq<Base64.byte>> := None;
      if cursor != "" {
        var decoded := Base64.Decode(cursor);
        if decoded.Err? {
          return Some(CorruptCursor), issued;
        }
        var resumeErr := table.resume(decoded.value);
        if resumeErr.Some? {
          return Some(ResumeFailed(resumeErr.value)), issued;
        }
        token := Some(decoded.value);
      }

      var fetched := table.fetch(q, token);
      if fetched.Err? {
        return Some(FetchFailed(fetched.error)), issued;
      }
      result.items := fetched.value;
      TrimResult(result);
      assert PageOutcome(table, q, old(cursor), limit) == Ok(Trim(limit, old(cursor), fetched.value));
      err := None;
    }

    /**
     * The end of `GetResult`: with the fetched rows in the slice, drop the sentinel and set
     * the cursor from its key, or clear the cursor when no sentinel came back.
     */
    method TrimResult(result: Slice)
      modifies this`cursor, result
      ensures Page(cursor, result.items) == Trim(limit, old(cursor), old(result.items))
    {
      var v := |result.items|;
      if v > limit {
        var sentinel := result.items[v - 1];
        if sentinel.keyReadable {
          var text := KeyText.Format(sentinel.key);
          cursor := Base64.Encode(text);
          result.items := result.items[..v - 1];
        }
      } else {
        cursor := "";
      }
    }
  }
}
