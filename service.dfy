/**
 * The request handlers of service.go that feed the paginator: the parsing of the `order`
 * and `select` query strings, `Get` (one entity, page size one) and `Find` (a page of
 * entities with its metadata). Request binding and the HTTP context are not modelled: the
 * handlers take the bound query values and the filter (`model.ToQuery()`) as parameters,
 * and `toResult` stands for the model's `ToResult` conversion.
 */
module Service {
  import opened Results
  import opened Json
  import opened Paginate

  // ---------------------------------------------------------------------------------------
  // strings.Split(s, ",")

  /** The comma-separated pieces of `s`; an empty `s` gives one empty piece. */
  function Split(s: string): (parts: seq<string>)
    ensures |parts| >= 1
    ensures forall i :: 0 <= i < |parts| ==> ',' !in parts[i]
  {
    if |s| == 0 then [""]
    else
      var rest := Split(s[1..]);
      if s[0] == ',' then [""] + rest
      else [[s[0]] + rest[0]] + rest[1..]
  }

  /** strings.Join(parts, ","), the inverse of `Split`. */
  function Join(parts: seq<string>): string
    requires |parts| >= 1
  {
    if |parts| == 1 then parts[0] else parts[0] + "," + Join(parts[1..])
  }

  /** Joining the pieces gives back the text. */
  lemma {:induction false} JoinSplit(s: string)
    ensures Join(Split(s)) == s
  {
    if |s| > 0 {
      var rest := Split(s[1..]);
      JoinSplit(s[1..]);
      if s[0] != ',' && |rest| > 1 {
        assert Join(rest) == rest[0] + "," + Join(rest[1..]);
      }
    }
  }

  /** Splitting a text that starts with a comma-free piece. */
  lemma {:induction false} SplitAfterPiece(p: string, t: string)
    requires ',' !in p
    ensures Split(p + t) == [p + Split(t)[0]] + Split(t)[1..]
  {
    var st := Split(t);
    if |p| > 0 {
      SplitAfterPiece(p[1..], t);
      assert (p + t)[0] == p[0] && p[0] in p;
      assert (p + t)[1..] == p[1..] + t;
      var rest := Split(p[1..] + t);
      assert rest[0] == p[1..] + st[0] && rest[1..] == st[1..];
      assert Split(p + t) == [[p[0]] + rest[0]] + rest[1..];
      assert [p[0]] + (p[1..] + st[0]) == p + st[0];
    } else {
      assert p + t == t && p + st[0] == st[0];
      assert st == [st[0]] + st[1..];
    }
  }

  /** Splitting joined comma-free pieces gives back the pieces. */
  lemma {:induction false} SplitJoin(parts: seq<string>)
    requires |parts| >= 1 && forall i :: 0 <= i < |parts| ==> ',' !in parts[i]
    ensures Split(Join(parts)) == parts
  {
    if |parts| == 1 {
      SplitAfterPiece(parts[0], "");
      assert Split("") == [""] && Split("")[1..] == [];
      assert parts[0] + "" == parts[0];
      assert Join(parts) == parts[0];
      assert Split(parts[0] + "") == [parts[0] + ""] + [];
      assert Split(parts[0]) == [parts[0]];
      assert parts == [parts[0]];
    } else {
      SplitJoin(parts[1..]);
      var t := "," + Join(parts[1..]);
      assert parts[0] + "," + Join(parts[1..]) == parts[0] + t;
      SplitAfterPiece(parts[0], t);
      assert t[0] == ',' && t[1..] == Join(parts[1..]);
      assert Split(t) == [""] + parts[1..];
      assert parts[0] + "" == parts[0];
      assert parts == [parts[0]] + parts[1..];
    }
  }

  // ---------------------------------------------------------------------------------------
  // strings.ToLower(key) == "desc"

  function LowerAscii(c: char): char
  {
    if 'A' <= c <= 'Z' then (c as int + 32) as char else c
  }

  /**
   * strings.ToLower on the letters that matter here: the only characters that lower-case
   * to 'd', 'e', 's' or 'c' are those letters and their capitals.
   */
  function ToLower(s: string): (t: string)
    ensures |t| == |s|
    ensures forall i :: 0 <= i < |s| ==>
      && !('A' <= t[i] <= 'Z')
      && (t[i] == s[i] || ('A' <= s[i] <= 'Z' && t[i] as int == s[i] as int + 32))
  {
    seq(|s|, i requires 0 <= i < |s| => LowerAscii(s[i]))
  }

  predicate IsDesc(token: string)
  {
    ToLower(token) == "desc"
  }

  /** A token is `desc` exactly when it is those four letters in any mix of cases. */
  lemma DescSpellings(token: string)
    ensures IsDesc(token) <==>
      |token| == 4 && token[0] in "dD" && token[1] in "eE" && token[2] in "sS" && token[3] in "cC"
  {
    if |token| == 4 {
      var t := ToLower(token);
      assert t[0] == LowerAscii(token[0]) && t[1] == LowerAscii(token[1]);
      assert t[2] == LowerAscii(token[2]) && t[3] == LowerAscii(token[3]);
    }
  }

  // ---------------------------------------------------------------------------------------
  // The order string

  /** The state of the order loop: the map so far and the field a following `desc` marks. */
  datatype OrderScan = OrderScan(order: map<string, string>, lastKey: string)

  /** One token of the loop: `desc` marks the pending field (or ""), anything else is a new ascending field. */
  function ScanStep(st: OrderScan, token: string): OrderScan
  {
    if IsDesc(token) then OrderScan(st.order[st.lastKey := OrderByDescending], "")
    else OrderScan(st.order[token := ""], token)
  }

  /** The loop's state after the given tokens. */
  function Scan(tokens: seq<string>): OrderScan
    decreases |tokens|
  {
    if tokens == [] then OrderScan(map[], "")
    else ScanStep(Scan(tokens[..|tokens| - 1]), tokens[|tokens| - 1])
  }

  /** The order map `Find` builds from the `order` query string. */
  function OrderOf(s: string): (order: map<string, string>)
    ensures forall k :: k in order ==> k == "" || k in Split(s)
    ensures forall k :: k in order ==> order[k] in {"", OrderByDescending}
  {
    if s == "" then map[]
    else
      ScanKeys(Split(s));
      ScanValues(Split(s));
      Scan(Split(s)).order
  }

  /** The key that token `i` writes: itself, or for `desc` the field just before it if any, else "". */
  function Target(tokens: seq<string>, i: nat): string
    requires i < |tokens|
  {
    if !IsDesc(tokens[i]) then tokens[i]
    else if i > 0 && !IsDesc(tokens[i - 1]) then tokens[i - 1]
    else ""
  }

  /** The value that token `i` writes. */
  function Written(token: string): string
  {
    if IsDesc(token) then OrderByDescending else ""
  }

  lemma TargetOfPrefix(tokens: seq<string>, n: nat, i: nat)
    requires i < n <= |tokens|
    ensures Target(tokens[..n], i) == Target(tokens, i)
  {
  }

  /** The pending field is the last token, unless that was `desc`. */
  lemma ScanLastKey(tokens: seq<string>)
    ensures Scan(tokens).lastKey == if |tokens| > 0 && !IsDesc(tokens[|tokens| - 1]) then tokens[|tokens| - 1] else ""
  {
  }

  /** The last token writes its value under its target. */
  lemma ScanStepWrites(tokens: seq<string>)
    requires tokens != []
    ensures var n := |tokens| - 1;
      Scan(tokens).order == Scan(tokens[..n]).order[Target(tokens, n) := Written(tokens[n])]
  {
    var n := |tokens| - 1;
    ScanLastKey(tokens[..n]);
    assert n > 0 ==> tokens[..n][n - 1] == tokens[n - 1];
  }

  /** The keys of the map are exactly the targets of the tokens. */
  lemma {:induction false} ScanKeys(tokens: seq<string>)
    ensures forall k :: k in Scan(tokens).order <==> exists i :: 0 <= i < |tokens| && Target(tokens, i) == k
    decreases |tokens|
  {
    if tokens != [] {
      var n := |tokens| - 1;
      var pre := tokens[..n];
      ScanKeys(pre);
      ScanStepWrites(tokens);
      var k := Target(tokens, n);
      forall key | key in Scan(tokens).order
        ensures exists i :: 0 <= i < |tokens| && Target(tokens, i) == key
      {
        if key != k {
          var i :| 0 <= i < n && Target(pre, i) == key;
          TargetOfPrefix(tokens, n, i);
        }
      }
      forall key | exists i :: 0 <= i < |tokens| && Target(tokens, i) == key
        ensures key in Scan(tokens).order
      {
        var i :| 0 <= i < |tokens| && Target(tokens, i) == key;
        if i < n {
          TargetOfPrefix(tokens, n, i);
        }
      }
    }
  }

  /** A key holds what its last write wrote. */
  lemma {:induction false} ScanLastWrite(tokens: seq<string>, i: nat)
    requires i < |tokens|
    requires forall j :: i < j < |tokens| ==> Target(tokens, j) != Target(tokens, i)
    ensures Target(tokens, i) in Scan(tokens).order
    ensures Scan(tokens).order[Target(tokens, i)] == Written(tokens[i])
    decreases |tokens|
  {
    var n := |tokens| - 1;
    var pre := tokens[..n];
    ScanStepWrites(tokens);
    if i < n {
      assert Target(tokens, n) != Target(tokens, i);
      TargetOfPrefix(tokens, n, i);
      forall j | i < j < n
        ensures Target(pre, j) != Target(pre, i)
      {
        TargetOfPrefix(tokens, n, j);
      }
      ScanLastWrite(pre, i);
    }
  }

  /** Every value in the map is "" or "DESC". */
  lemma {:induction false} ScanValues(tokens: seq<string>)
    ensures forall k :: k in Scan(tokens).order ==> Scan(tokens).order[k] in {"", OrderByDescending}
    decreases |tokens|
  {
    if tokens != [] {
      ScanValues(tokens[..|tokens| - 1]);
    }
  }

  /** `desc` is never stored as a field, in any letter case. */
  lemma DescNeverAField(s: string, k: string)
    requires k in OrderOf(s)
    ensures !IsDesc(k)
  {
    var tokens := Split(s);
    ScanKeys(tokens);
    var i :| 0 <= i < |tokens| && Target(tokens, i) == k;
    DescSpellings(k);
    if i > 0 { DescSpellings(tokens[i - 1]); }
    DescSpellings(tokens[i]);
  }

  /** Every field token other than `desc` ends up in the map, and every value is "" or "DESC". */
  lemma OrderKeys(s: string)
    requires s != ""
    ensures forall t :: t in Split(s) && !IsDesc(t) ==> t in OrderOf(s)
    ensures forall k :: k in OrderOf(s) ==> OrderOf(s)[k] in {"", OrderByDescending}
  {
    var tokens := Split(s);
    ScanKeys(tokens);
    ScanValues(tokens);
    forall t | t in tokens && !IsDesc(t)
      ensures t in OrderOf(s)
    {
      var i :| 0 <= i < |tokens| && tokens[i] == t;
      assert Target(tokens, i) == t;
    }
  }

  /**
   * The last occurrence of a non-empty field decides its direction: "DESC" when the very next
   * token is `desc`, "" otherwise, whatever came before.
   */
  lemma LastOccurrenceWins(s: string, j: nat)
    requires s != "" && j < |Split(s)|
    requires var tokens := Split(s);
      tokens[j] != "" && !IsDesc(tokens[j]) && forall i :: j < i < |tokens| ==> tokens[i] != tokens[j]
    ensures var tokens := Split(s);
      tokens[j] in OrderOf(s) && OrderOf(s)[tokens[j]] == if j + 1 < |tokens| && IsDesc(tokens[j + 1]) then OrderByDescending else ""
  {
    var tokens := Split(s);
    var f := tokens[j];
    var last := if j + 1 < |tokens| && IsDesc(tokens[j + 1]) then j + 1 else j;
    assert Target(tokens, last) == f;
    forall i | last < i < |tokens|
      ensures Target(tokens, i) != f
    {
      if IsDesc(tokens[i]) && !IsDesc(tokens[i - 1]) {
        assert i - 1 > j;
      }
    }
    ScanLastWrite(tokens, last);
  }

  /**
   * A `desc` with no field pending (first token, or right after another `desc`) writes
   * "DESC" under the empty key; it stays there unless a later token writes that key.
   */
  lemma OrphanDesc(s: string, i: nat)
    requires s != "" && i < |Split(s)|
    requires var tokens := Split(s);
      IsDesc(tokens[i]) && (i == 0 || IsDesc(tokens[i - 1]))
    ensures "" in OrderOf(s)
    ensures var tokens := Split(s);
      (forall j :: i < j < |tokens| ==> Target(tokens, j) != "") ==> OrderOf(s)[""] == OrderByDescending
  {
    var tokens := Split(s);
    assert Target(tokens, i) == "";
    if forall j :: i < j < |tokens| ==> Target(tokens, j) != "" {
      ScanLastWrite(tokens, i);
    } else {
      ScanKeys(tokens);
    }
  }

  /** The loop of `Find` over the comma-separated `order` string. */
  method ParseOrder(s: string) returns (order: map<string, string>)
    ensures order == OrderOf(s)
  {
    order := map[];
    if s != "" {
      var tokens := Split(s);
      var lastKey := "";
      var i := 0;
      while i < |tokens|
        invariant 0 <= i <= |tokens|
        invariant OrderScan(order, lastKey) == Scan(tokens[..i])
      {
        var key := tokens[i];
        assert tokens[..i + 1][..i] == tokens[..i];
        if ToLower(key) == "desc" {
          order := order[lastKey := OrderByDescending];
          lastKey := "";
        } else {
          order := order[key := ""];
          lastKey := key;
        }
        i := i + 1;
      }
      assert tokens[..|tokens|] == tokens;
    }
  }

  // ---------------------------------------------------------------------------------------
  // The select string

  /** The select map: every comma-separated token, each with the empty alias. */
  function SelectFields(s: string): (fields: map<string, string>)
    ensures forall k :: k in fields <==> s != "" && k in Split(s)
    ensures forall k :: k in fields ==> fields[k] == ""
  {
    if s == "" then map[] else map t | t in Split(s) :: ""
  }

  /** The loop of `Get` and `Find` over the comma-separated `select` string. */
  method ParseSelect(s: string) returns (fields: map<string, string>)
    ensures fields == SelectFields(s)
  {
    fields := map[];
    if s != "" {
      var keys := Split(s);
      var i := 0;
      while i < |keys|
        invariant 0 <= i <= |keys|
        invariant forall k :: k in fields <==> k in keys[..i]
        invariant forall k :: k in fields ==> fields[k] == ""
      {
        fields := fields[keys[i] := ""];
        i := i + 1;
      }
      assert keys[..|keys|] == keys;
    }
  }

  /**
   * The projections the service asks for: all columns when `select` is empty, otherwise one
   * plain column per distinct token, never an alias.
   */
  lemma SelectProjections(s: string, ps: seq<Projection>)
    requires SelectsMatch(SelectFields(s), ps)
    ensures s == "" ==> ps == [Star]
    ensures s != "" ==> forall i :: 0 <= i < |ps| ==> ps[i].Column? && ps[i].name in Split(s)
    ensures s != "" ==> forall t :: t in Split(s) ==> Column(t) in ps
  {
    var fields := SelectFields(s);
    if s != "" {
      assert Split(s)[0] in fields;
      forall t | t in Split(s)
        ensures Column(t) in ps
      {
        assert ProjectionFor(t, fields[t]) == Column(t);
      }
    }
  }

  /** The order clauses the service asks for: a field is sorted descending exactly when a `desc` token marked it. */
  lemma OrderClausesOf(s: string, os: seq<OrderClause>, k: string)
    requires OrdersMatch(OrderOf(s), os) && k in OrderOf(s)
    ensures Desc(k) in os <==> OrderOf(s)[k] == OrderByDescending
    ensures Desc(k) in os || Asc(k) in os
  {
    var order := OrderOf(s);
    assert ClauseFor(k, order[k]) in os;
    if Desc(k) in os {
      var i :| 0 <= i < |os| && os[i] == Desc(k);
      assert os[i] == ClauseFor(k, order[k]);
    }
  }

  // ---------------------------------------------------------------------------------------
  // Handlers

  datatype Reason = Paging(error: Error) | EntityNotFound

  /** `ctx.JSON(status, body)` or `ctx.Stack`/`ctx.Error(status, reason)`. */
  datatype Response = Respond(status: int, body: Json) | Fail(status: int, reason: Reason)

  /** The bound `oscrud.Query` fields `Find` uses. */
  datatype FindQuery = FindQuery(cursor: string, page: int, limit: nat, order: string, select: string)

  /** `Get`: one page of size one; found exactly when one row is left in the slice. */
  method Get<F(==)>(select: string, filter: F, table: Table<F>, toResult: Row -> Json)
    returns (resp: Response, ghost issued: PageQuery<F>)
    ensures IssuedFor(issued, 1, SelectFields(select), map[], filter)
    ensures match PageOutcome(table, issued, "", 1)
      case Err(e) => resp == Fail(500, Paging(e))
      case Ok(page) =>
        if |page.items| == 1 then resp == Respond(200, toResult(page.items[0]))
        else resp == Fail(404, EntityNotFound)
  {
    var fields := ParseSelect(select);
    var paginator := new Paginator("", 0, 1, map[], fields, filter);
    var slice := new Slice();
    var err;
    err, issued := paginator.GetResult(table, slice);
    if err.Some? {
      return Fail(500, Paging(err.value)), issued;
    }
    if |slice.items| == 1 {
      resp := Respond(200, toResult(slice.items[0]));
    } else {
      resp := Fail(404, EntityNotFound);
    }
  }

  /**
   * What `Get` decides from the rows fetched: found exactly when one row came back, or two
   * came back and the second (the sentinel) had a readable key; the entity is the first row.
   */
  lemma GetFound(fetched: seq<Row>)
    ensures var page := Trim(1, "", fetched);
      && (|page.items| == 1 <==> |fetched| == 1 || (|fetched| == 2 && fetched[1].keyReadable))
      && (|page.items| == 1 ==> page.items[0] == fetched[0])
  {
    if |fetched| > 1 && fetched[|fetched| - 1].keyReadable {
      TrimReadable(1, "", fetched);
    }
  }

  /** `body` is the response `Find` sends for `page`: exactly "meta" and "result". */
  ghost predicate IsFindBody(body: Json, page: Page, query: FindQuery, toResult: Row -> Json)
  {
    && body.JObj? && body.fields.Keys == {"meta", "result"}
    && body.fields["meta"].JObj? && IsMeta(body.fields["meta"].fields, page.cursor, query.limit, query.page)
    && body.fields["result"].JArr?
    && |body.fields["result"].items| == |page.items|
    && forall i :: 0 <= i < |page.items| ==> body.fields["result"].items[i] == toResult(page.items[i])
  }

  /** `Find`: one page with the parsed order and select, answered with its metadata and results. */
  method Find<F(==)>(query: FindQuery, filter: F, table: Table<F>, toResult: Row -> Json)
    returns (resp: Response, ghost issued: PageQuery<F>)
    ensures IssuedFor(issued, query.limit, SelectFields(query.select), OrderOf(query.order), filter)
    ensures match PageOutcome(table, issued, query.cursor, query.limit)
      case Err(e) => resp == Fail(500, Paging(e))
      case Ok(page) => resp.Respond? && resp.status == 200 && IsFindBody(resp.body, page, query, toResult)
  {
    var order := ParseOrder(query.order);
    var fields := ParseSelect(query.select);
    var paginator := new Paginator(query.cursor, query.page, query.limit, order, fields, filter);
    var slice := new Slice();
    var err;
    err, issued := paginator.GetResult(table, slice);
    if err.Some? {
      return Fail(500, Paging(err.value)), issued;
    }

    var results := ToResults(slice.items, toResult);
    var meta := paginator.BuildMeta();
    resp := Respond(200, JObj(map["meta" := JObj(meta), "result" := JArr(results)]));
  }

  /** The loop of `Find` that converts each row of the page with `ToResult`. */
  method ToResults(data: seq<Row>, toResult: Row -> Json) returns (results: seq<Json>)
    ensures |results| == |data|
    ensures forall i :: 0 <= i < |data| ==> results[i] == toResult(data[i])
  {
    var result := new Json[|data|];
    var i := 0;
    while i < |data|
      invariant 0 <= i <= |data|
      invariant forall j :: 0 <= j < i ==> result[j] == toResult(data[j])
    {
      result[i] := toResult(data[i]);
      i := i + 1;
    }
    results := result[..];
  }
}
