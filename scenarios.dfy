/**
 * Five rows with integer keys 1..5 against the reference store: three calls with a page
 * size of two walk the table as [1, 2], [3, 4], [5]; a page size of ten returns it whole;
 * a cursor that is not base64 is refused before any row is read. Two order strings show
 * how `desc` marks the field before it, and what it does when there is none.
 */
module Scenarios {
  import opened Results
  import opened Json
  import Base64
  import KeyText
  import opened Paginate
  import opened Keyset
  import opened Service

  function FiveRows(): seq<Row>
  {
    seq(5, i => Row(KeyText.IntKey(i + 1), true, JNull))
  }

  /** The query the scenarios issue; only its row limit matters to the store. */
  function QueryFor(limit: nat): PageQuery<bool>
  {
    PageQuery(limit + 1, [Star], true, [])
  }

  lemma FiveRowsWellKeyed()
    ensures WellKeyed(FiveRows())
  {
    var rows := FiveRows();
    forall i, j | 0 <= i < j < |rows|
      ensures KeyText.Format(rows[i].key) != KeyText.Format(rows[j].key)
    {
      KeyText.IntKeyTextInjective(i + 1, j + 1);
    }
  }

  /** The text of key `n` is its decimal digit, one byte. */
  lemma SmallKeyText(n: nat)
    requires n < 10
    ensures KeyText.Format(KeyText.IntKey(n)) == [48 + n]
  {
  }

  /**
   * First call, page size 2, no cursor: rows 1 and 2, and a cursor that decodes to "3", the
   * key of the sentinel row that was dropped.
   */
  lemma FirstPage()
    ensures var rows := FiveRows();
      && PageOutcome(Store<bool>(rows), QueryFor(2), "", 2) == Ok(Page(CursorAt(rows, 2), rows[..2]))
      && Base64.Decode(CursorAt(rows, 2)) == Ok([51])
  {
    FirstPageRows();
    CursorOfRow(2);
  }

  lemma FirstPageRows()
    ensures var rows := FiveRows();
      PageOutcome(Store<bool>(rows), QueryFor(2), "", 2) == Ok(Page(CursorAt(rows, 2), rows[..2]))
  {
    var rows := FiveRows();
    FiveRowsWellKeyed();
    PageAt(rows, QueryFor(2), 2, 0, "");
    assert rows[0..2] == rows[..2];
  }

  /** The cursor of row `p` decodes to the one-digit text of its key, `p + 1`. */
  lemma CursorOfRow(p: nat)
    requires p < 5
    ensures Base64.Decode(CursorAt(FiveRows(), p)) == Ok([49 + p])
  {
    SmallKeyText(p + 1);
    Base64.DecodeEncode([49 + p]);
  }

  /** Second call, with the first call's cursor: rows 3 and 4, and a cursor that decodes to "5". */
  lemma SecondPage()
    ensures var rows := FiveRows();
      && PageOutcome(Store<bool>(rows), QueryFor(2), CursorAt(rows, 2), 2) == Ok(Page(CursorAt(rows, 4), rows[2..4]))
      && Base64.Decode(CursorAt(rows, 4)) == Ok([53])
  {
    var rows := FiveRows();
    FiveRowsWellKeyed();
    PageAt(rows, QueryFor(2), 2, 2, CursorAt(rows, 2));
    CursorOfRow(4);
  }

  /** Third call, with the second call's cursor: row 5 alone and no cursor: the end. */
  lemma ThirdPage()
    ensures var rows := FiveRows();
      PageOutcome(Store<bool>(rows), QueryFor(2), CursorAt(rows, 4), 2) == Ok(Page("", rows[4..]))
  {
    var rows := FiveRows();
    FiveRowsWellKeyed();
    PageAt(rows, QueryFor(2), 2, 4, CursorAt(rows, 4));
  }

  /** Page size 10: all five rows and no cursor. */
  lemma WholeTable()
    ensures PageOutcome(Store<bool>(FiveRows()), QueryFor(10), "", 10) == Ok(Page("", FiveRows()))
  {
    var rows := FiveRows();
    FiveRowsWellKeyed();
    PageAt(rows, QueryFor(10), 10, 0, "");
    assert rows[0..] == rows;
  }

  /** A cursor with characters outside the alphabet fails with a decoding error. */
  lemma MalformedCursor()
    ensures PageOutcome(Store<bool>(FiveRows()), QueryFor(2), "not-valid-base64!!", 2) == Err(CorruptCursor)
  {
    Base64.ForeignCharacterRejected("not-valid-base64!!", 3);
  }

  lemma SplitDescId()
    ensures Split("desc,id") == ["desc", "id"]
  {
    var parts := ["desc", "id"];
    assert parts[1..] == ["id"];
    assert Join(parts[1..]) == "id";
    assert Join(parts) == "desc,id";
    SplitJoin(parts);
  }

  lemma ScanDescId()
    ensures Scan(["desc", "id"]).order == map["" := "DESC", "id" := ""]
  {
    var parts := ["desc", "id"];
    DescSpellings("desc");
    DescSpellings("id");
    assert parts[..1] == ["desc"];
    assert parts[..1][..0] == [];
  }

  /** A leading `desc` has no field to mark and sorts the empty field descending. */
  lemma LeadingDesc()
    ensures OrderOf("desc,id") == map["" := "DESC", "id" := ""]
  {
    SplitDescId();
    ScanDescId();
  }

  lemma SplitNameDescAge()
    ensures Split("name,DeSc,age") == ["name", "DeSc", "age"]
  {
    var parts := ["name", "DeSc", "age"];
    assert parts[1..] == ["DeSc", "age"] && parts[1..][1..] == ["age"];
    assert Join(parts[1..][1..]) == "age";
    assert Join(parts[1..]) == "DeSc,age";
    assert Join(parts) == "name,DeSc,age";
    SplitJoin(parts);
  }

  lemma ScanNameDescAge()
    ensures Scan(["name", "DeSc", "age"]).order == map["name" := "DESC", "age" := ""]
  {
    var parts := ["name", "DeSc", "age"];
    DescSpellings("DeSc");
    DescSpellings("name");
    DescSpellings("age");
    assert parts[..2] == ["name", "DeSc"];
    assert parts[..2][..1] == ["name"];
    assert parts[..2][..1][..0] == [];
    assert Scan(["name"]) == OrderScan(map["name" := ""], "name");
    assert Scan(["name", "DeSc"]) == OrderScan(map["name" := "DESC"], "");
  }

  /** `desc` in any letter case marks the field just before it; a field on its own is ascending. */
  lemma FieldThenDesc()
    ensures OrderOf("name,DeSc,age") == map["name" := "DESC", "age" := ""]
  {
    SplitNameDescAge();
    ScanNameDescAge();
  }
}
