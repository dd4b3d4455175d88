/** `get_ILRS_numbers`: reading the active satellites' catalog numbers out of
    the ILRS mission table. The HTML download and parsing are not modelled:
    the table arrives as its data rows (header row removed), each row the
    sequence of its cells' texts. */
module Catalog {
  import opened Wrappers
  import opened Text
  import opened Numerals
  import opened Sorting
  import opened SatLists

  /** lxml's `col.text`: `None` for a cell without text. */
  type Cell = Option<string>

  type Row = seq<Cell>

  /** Index of the catalog-number column in a row. */
  const IdColumn: nat := 3

  /** The name under which the catalog numbers are stored. */
  const ActiveList := "ILRS_active"

  /** The exceptions a data row can raise, which abort the whole call. */
  datatype CatalogError =
    | IndexError          // the row has no fourth cell
    | AttributeError      // the fourth cell has no text (`None.strip()`)
    | ValueError(text: string)  // the stripped text is not an integer literal

  /** Placeholders for satellites without a catalog number. */
  predicate Placeholder(id: string)
  {
    id == "" || id == "N/A"
  }

  /** One iteration of the row loop: `Ok(None)` skips the row, `Ok(Some(n))`
      contributes `n`, `Err` is the exception the row raises. */
  function ReadRow(row: Row): (r: Result<Option<int>, CatalogError>)
    ensures r == Err(IndexError) <==> |row| <= IdColumn
    ensures r == Err(AttributeError) <==> |row| > IdColumn && row[IdColumn].None?
    ensures r == Ok(None) <==>
      |row| > IdColumn && row[IdColumn].Some? && Placeholder(Strip(row[IdColumn].value))
    ensures r.Ok? && r.value.Some? ==>
      |row| > IdColumn && row[IdColumn].Some? && !Placeholder(Strip(row[IdColumn].value))
      && ParseInt(Strip(row[IdColumn].value)) == Some(r.value.value)
    ensures (|row| > IdColumn && row[IdColumn].Some? && !Placeholder(Strip(row[IdColumn].value))
             && ParseInt(Strip(row[IdColumn].value)).Some?) ==>
      r == Ok(Some(ParseInt(Strip(row[IdColumn].value)).value))
    ensures r.Err? && r.error.ValueError? <==>
      |row| > IdColumn && row[IdColumn].Some? && !Placeholder(Strip(row[IdColumn].value))
      && ParseInt(Strip(row[IdColumn].value)).None?
  {
    if |row| <= IdColumn then Err(IndexError)
    else match row[IdColumn]
      case None => Err(AttributeError)
      case Some(text) =>
        var id := Strip(text);
        if Placeholder(id) then Ok(None)
        else match ParseInt(id)
          case None => Err(ValueError(id))
          case Some(n) => Ok(Some(n))
  }

  /** The outcome of every row, in table order. */
  function Outcomes(rows: seq<Row>): (r: seq<Result<Option<int>, CatalogError>>)
    ensures |r| == |rows| && forall i :: 0 <= i < |rows| ==> r[i] == ReadRow(rows[i])
  {
    if |rows| == 0 then [] else [ReadRow(rows[0])] + Outcomes(rows[1..])
  }

  /** Row `i` raises `e`, and no row before it raises anything. */
  predicate FirstError(rows: seq<Row>, i: int, e: CatalogError)
  {
    && 0 <= i < |rows|
    && ReadRow(rows[i]) == Err(e)
    && forall j :: 0 <= j < i ==> ReadRow(rows[j]).Ok?
  }

  /** The row loop: the catalog numbers in table order, or the exception of
      the first row that raises one. */
  function CollectIds(rows: seq<Row>): (r: Result<seq<int>, CatalogError>)
    ensures r.Ok? <==> forall i :: 0 <= i < |rows| ==> ReadRow(rows[i]).Ok?
    ensures r.Err? ==> exists i :: FirstError(rows, i, r.error)
  {
    if |rows| == 0 then Ok([])
    else match ReadRow(rows[0])
      case Err(e) =>
        assert FirstError(rows, 0, e);
        Err(e)
      case Ok(o) =>
        match CollectIds(rows[1..])
        case Err(e) =>
          var i :| FirstError(rows[1..], i, e);
          assert forall j :: 1 <= j < i + 1 ==> rows[j] == rows[1..][j - 1];
          assert FirstError(rows, i + 1, e);
          Err(e)
        case Ok(ids) =>
          Ok(if o.Some? then [o.value] + ids else ids)
  }

  /** Each integer is collected exactly as many times as there are rows whose
      stripped fourth cell reads as that integer: nothing is deduplicated and
      only placeholder rows are dropped. */
  lemma {:induction false} CollectedCounts(rows: seq<Row>, n: int)
    requires CollectIds(rows).Ok?
    ensures multiset(CollectIds(rows).value)[n] == multiset(Outcomes(rows))[Ok(Some(n))]
    decreases |rows|
  {
    if |rows| > 0 {
      var head := ReadRow(rows[0]);
      var tail := CollectIds(rows[1..]);
      assert head.Ok? && tail.Ok?;
      CollectedCounts(rows[1..], n);
      CountStep(head, Outcomes(rows[1..]), tail.value, n);
    }
  }

  /** One row's contribution to the counts of `CollectedCounts`. */
  lemma CountStep(head: Result<Option<int>, CatalogError>, outs: seq<Result<Option<int>, CatalogError>>,
                  tail: seq<int>, n: int)
    requires head.Ok?
    requires multiset(tail)[n] == multiset(outs)[Ok(Some(n))]
    ensures var ids := if head.value.Some? then [head.value.value] + tail else tail;
            multiset(ids)[n] == multiset([head] + outs)[Ok(Some(n))]
  {
    assert multiset([head] + outs) == multiset{head} + multiset(outs);
  }

  /** What a call leaves behind: the returned numbers (or the exception
      raised) and the retriever's `lists` afterwards. */
  datatype Fetched = Fetched(result: Result<seq<int>, CatalogError>, lists: Lists)

  /** `get_ILRS_numbers`: collect, sort, store the sorted list under
      `"ILRS_active"` and return it. An exception leaves `lists` as it was. */
  function GetIlrsNumbers(lists: Lists, rows: seq<Row>): (r: Fetched)
    requires Distinct(lists)
    ensures r.result.Ok? <==> CollectIds(rows).Ok?
    ensures r.result.Err? ==> r.result == CollectIds(rows) && r.lists == lists
    ensures r.result.Ok? ==>
      && Sorted(r.result.value)
      && multiset(r.result.value) == multiset(CollectIds(rows).value)
      && Distinct(r.lists)
      && Lookup(r.lists, ActiveList) == Some(r.result.value)
      && (forall other :: other != ActiveList ==> Lookup(r.lists, other) == Lookup(lists, other))
    ensures r.result.Ok? ==> r.lists == Put(lists, ActiveList, r.result.value)
    ensures r.result.Ok? ==>
      && (forall i :: 0 <= i < |lists| ==> r.lists[i].name == lists[i].name)
      && |r.lists| == (if IndexOf(lists, ActiveList).Some? then |lists| else |lists| + 1)
  {
    match CollectIds(rows)
    case Err(e) => Fetched(Err(e), lists)
    case Ok(ids) =>
      var numbers := Sort(ids);
      Fetched(Ok(numbers), Put(lists, ActiveList, numbers))
  }

  /** The returned list is the only ascending arrangement of the collected
      numbers, and each number occurs once per row that names it. */
  lemma {:induction false} ReturnedIsSortedRows(lists: Lists, rows: seq<Row>, numbers: seq<int>)
    requires Distinct(lists)
    requires Sorted(numbers)
    requires CollectIds(rows).Ok?
    requires forall n :: multiset(numbers)[n] == multiset(Outcomes(rows))[Ok(Some(n))]
    ensures GetIlrsNumbers(lists, rows).result == Ok(numbers)
  {
    var ids := CollectIds(rows).value;
    forall n
      ensures multiset(numbers)[n] == multiset(ids)[n]
    {
      CollectedCounts(rows, n);
    }
    assert multiset(numbers) == multiset(ids);
    SortedUnique(numbers, Sort(ids));
  }
}
