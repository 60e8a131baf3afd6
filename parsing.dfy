/** Ingredient extraction from the `ingr` table of a recipe page.
    The HTML itself is abstracted: a cell is its stripped text together with
    the stripped text of its first nested `span` and `nobr`, when present. */
module Parsing {
  import opened Wrappers
  import opened PyStr
  import opened QuantityUnit

  /** A `<td>`: `text` is the cell's stripped text; `span` and `nobr` hold the
      stripped text of the first such descendant tag, or `None` without one. */
  datatype Cell = Cell(text: string, span: Option<string>, nobr: Option<string>)

  /** The cells `find_all('td')` returns for one `<tr>`, which include those of any table nested in it. */
  type Row = seq<Cell>

  /** The `format` tag of an ingredient record: 'old', 'new' or 'new_unsplit'. */
  datatype Format = Old | New | NewUnsplit

  datatype Ingredient = Ingredient(name: string, quantity: string, unit: string, format: Format)

  /** The two Python exceptions `get_ingredients` can raise. */
  datatype ParseError = IndexError(message: string) | RuntimeError(message: string)

  const UnknownFormat := RuntimeError("Unknown format of recipe")
  /** Raised by `rows.pop(0)` on a table without rows. */
  const PopFromEmpty := IndexError("pop from empty list")

  const EmDash: char := '\U{2014}'

  /** `parse_old_format`: name, quantity and unit each come from their own cell;
      the name prefers a nested `span`, the unit a nested `nobr`. */
  function ParseOldFormat(cells: Row): (r: Ingredient)
    requires |cells| >= 3
    ensures cells[0].span.Some? ==> r.name == cells[0].span.value
    ensures cells[0].span.None? ==> r.name == cells[0].text
    ensures r.quantity == cells[1].text
    ensures cells[2].nobr.Some? ==> r.unit == cells[2].nobr.value
    ensures cells[2].nobr.None? ==> r.unit == cells[2].text
    ensures r.format == Old
  {
    var name := if cells[0].span.Some? then cells[0].span.value else cells[0].text;
    var quantity := cells[1].text;
    var unit := if cells[2].nobr.Some? then cells[2].nobr.value else cells[2].text;
    Ingredient(name, quantity, unit, Old)
  }

  /** `parse_new_format`: the `span` text is split on its first em-dash into a
      name and a quantity-with-unit; without an em-dash the whole text is the name. */
  function ParseNewFormat(cell: Cell): (r: Option<Ingredient>)
    ensures r.None? <==> cell.span.None?
    ensures r.Some? ==> r.value.format != Old
    ensures r.Some? ==> (r.value.format == NewUnsplit <==> EmDash !in cell.span.value)
    ensures r.Some? && r.value.format == New ==> EmDash !in r.value.name
  {
    match cell.span
    case None => None
    case Some(fullText) =>
      if EmDash !in fullText then
        Some(Ingredient(fullText, "", "", NewUnsplit))
      else
        var parts := SplitOnce(fullText, EmDash);
        if |parts| == 2 then
          var name := Strip(parts[0]);
          var (quantity, unit) := QuantityAndUnit(Strip(parts[1]));
          Some(Ingredient(name, quantity, unit, New))
        else
          None
  }

  /** A span text without an em-dash becomes the name, with empty quantity and unit. */
  lemma NewFormatUnsplit(cell: Cell, text: string)
    requires cell.span == Some(text) && EmDash !in text
    ensures ParseNewFormat(cell) == Some(Ingredient(text, "", "", NewUnsplit))
  {
  }

  /** A span text `before — after`, with `before` free of em-dashes, gives the
      stripped `before` as name and scans the stripped `after` for quantity and unit. */
  lemma NewFormatSplit(cell: Cell, before: string, after: string)
    requires cell.span == Some(before + [EmDash] + after) && EmDash !in before
    ensures ParseNewFormat(cell) == Some(Ingredient(Strip(before), QuantityAndUnit(Strip(after)).0,
                                                    QuantityAndUnit(Strip(after)).1, New))
  {
    var text := before + [EmDash] + after;
    assert EmDash in text by { assert text[|before|] == EmDash; }
    SplitOnceAtFirst(text, EmDash, before, after);
  }

  /** The row shapes `get_ingredients` understands: three cells or one. */
  predicate KnownShape(row: Row) {
    |row| == 3 || |row| == 1
  }

  /** One iteration of the loop in `get_ingredients`. */
  function ParseRow(row: Row): (r: Result<Option<Ingredient>, ParseError>)
    ensures r.Ok? <==> KnownShape(row)
    ensures r.Err? ==> r.error == UnknownFormat
    ensures r.Ok? && r.value.Some? ==> (r.value.value.format == Old <==> |row| == 3)
    ensures |row| == 1 ==> (r.Ok? && r.value.None? <==> row[0].span.None?)
    ensures |row| == 3 ==> r == Ok(Some(ParseOldFormat(row)))
    ensures |row| == 1 ==> r == Ok(ParseNewFormat(row[0]))
  {
    if |row| == 3 then Ok(Some(ParseOldFormat(row)))
    else if |row| == 1 then Ok(ParseNewFormat(row[0]))
    else Err(UnknownFormat)
  }

  /** Reference definition of the loop over the data rows, by recursion: the
      first unknown row shape aborts the whole list. */
  function ParseRows(rows: seq<Row>): (r: Result<seq<Option<Ingredient>>, ParseError>)
    ensures r.Ok? ==> |r.value| == |rows|
    ensures r.Err? ==> r.error == UnknownFormat
  {
    if |rows| == 0 then Ok([])
    else
      match ParseRow(rows[0])
      case Err(e) => Err(e)
      case Ok(x) =>
        match ParseRows(rows[1..])
        case Err(e) => Err(e)
        case Ok(xs) => Ok([x] + xs)
  }

  /** The rows parse exactly when every row has a known shape, and then the
      result has one entry per row, in order. */
  lemma {:induction false} ParseRowsSpec(rows: seq<Row>)
    ensures ParseRows(rows).Ok? <==> forall k :: 0 <= k < |rows| ==> KnownShape(rows[k])
    ensures ParseRows(rows).Ok? ==>
      forall k :: 0 <= k < |rows| ==> ParseRow(rows[k]) == Ok(ParseRows(rows).value[k])
  {
    if |rows| > 0 {
      ParseRowsSpec(rows[1..]);
      assert forall k :: 1 <= k < |rows| ==> rows[k] == rows[1..][k - 1];
    }
  }

  /** What `get_ingredients` returns for a page whose `ingr` table is `table`
      (`None` when the page has none): the header row is dropped, then each
      remaining row is parsed. */
  function Ingredients(table: Option<seq<Row>>): (r: Result<seq<Option<Ingredient>>, ParseError>) {
    match table
    case None => Ok([])
    case Some(rows) => if |rows| == 0 then Err(PopFromEmpty) else ParseRows(rows[1..])
  }

  /** No table gives no ingredients; a table without rows fails at the header
      pop; otherwise one entry per data row, in order, unless some data row has
      an unknown shape, which fails the whole table. */
  lemma IngredientsSpec(table: Option<seq<Row>>)
    ensures table.None? ==> Ingredients(table) == Ok([])
    ensures table == Some([]) ==> Ingredients(table) == Err(PopFromEmpty)
    ensures table.Some? && |table.value| > 0 ==>
      (Ingredients(table).Ok? <==> forall k :: 1 <= k < |table.value| ==> KnownShape(table.value[k]))
    ensures table.Some? && |table.value| > 0 && Ingredients(table).Err? ==>
      Ingredients(table).error == UnknownFormat
    ensures table.Some? && Ingredients(table).Ok? ==>
      && |Ingredients(table).value| == |table.value| - 1
      && forall k :: 0 <= k < |table.value| - 1 ==>
           ParseRow(table.value[k + 1]) == Ok(Ingredients(table).value[k])
  {
    if table.Some? && |table.value| > 0 {
      var rows := table.value;
      ParseRowsSpec(rows[1..]);
      assert forall k :: 1 <= k < |rows| ==> rows[k] == rows[1..][k - 1];
    }
  }

  /** `get_ingredients`: drops the header row with `pop(0)`, then appends one
      entry per remaining row, raising on the first row of unknown shape. */
  method GetIngredients(table: Option<seq<Row>>) returns (r: Result<seq<Option<Ingredient>>, ParseError>)
    ensures r == Ingredients(table)
    ensures table.Some? && r.Ok? ==>
      && |r.value| == |table.value| - 1
      && forall k :: 0 <= k < |r.value| ==> ParseRow(table.value[k + 1]) == Ok(r.value[k])
  {
    if table.None? {
      return Ok([]);
    }
    var rows := table.value;
    if |rows| == 0 {
      return Err(PopFromEmpty);
    }
    rows := rows[1..];  // the header row
    var ingredients: seq<Option<Ingredient>> := [];
    for i := 0 to |rows|
      invariant |ingredients| == i
      invariant forall k :: 0 <= k < i ==> ParseRow(rows[k]) == Ok(ingredients[k])
    {
      var cells := rows[i];
      var ingredient: Option<Ingredient>;
      if |cells| == 3 {
        ingredient := Some(ParseOldFormat(cells));
      } else if |cells| == 1 {
        ingredient := ParseNewFormat(cells[0]);
      } else {
        ParseRowsSpec(rows);
        return Err(UnknownFormat);
      }
      ingredients := ingredients + [ingredient];
    }
    ParseRowsSpec(rows);
    assert ParseRows(rows).Ok?;
    assert ParseRows(rows).value == ingredients;
    return Ok(ingredients);
  }

  /** A three-cell row shaped like ["Flour", "200", "g"] gives {Flour, 200, g, old}. */
  lemma OldFormatExample()
    ensures ParseRow([Cell("Flour", None, None), Cell("200", None, None), Cell("g", None, None)])
         == Ok(Some(Ingredient("Flour", "200", "g", Old)))
  {
  }

  /** Stripping both sides of the em-dash in "Мука — 200 г". */
  lemma StripAroundDash()
    ensures Strip("Мука ") == "Мука" && Strip(" 200 г") == "200 г"
  {
    var before, after := "Мука ", " 200 г";
    assert LeadingSpace(before) == 0;
    assert TrailingSpace(before) == 1;
    assert before[0..4] == "Мука";
    assert LeadingSpace(after) == 1;
    assert TrailingSpace(after) == 0;
    assert after[1..6] == "200 г";
  }

  /** "Мука — 200 г" gives name "Мука", quantity "200", unit "г". */
  lemma NewFormatExample()
    ensures ParseNewFormat(Cell("", Some("Мука — 200 г"), None))
         == Some(Ingredient("Мука", "200", "г", New))
  {
    var before, after := "Мука ", " 200 г";
    assert "Мука — 200 г" == before + [EmDash] + after;
    assert EmDash !in before by {
      assert forall k | 0 <= k < |before| :: before[k] != EmDash;
    }
    NewFormatSplit(Cell("", Some("Мука — 200 г"), None), before, after);
    StripAroundDash();
    ExampleSplits();
  }

  /** "Соль по вкусу" has no em-dash and stays whole. */
  lemma UnsplitExample()
    ensures ParseNewFormat(Cell("", Some("Соль по вкусу"), None))
         == Some(Ingredient("Соль по вкусу", "", "", NewUnsplit))
  {
    var text := "Соль по вкусу";
    assert EmDash !in text by {
      assert forall k | 0 <= k < |text| :: text[k] != EmDash;
    }
    NewFormatUnsplit(Cell("", Some(text), None), text);
  }

  /** A two-cell data row fails the whole table. */
  lemma TwoCellRowFails(header: Row, good: Row, bad: Row)
    requires |good| == 3 && |bad| == 2
    ensures Ingredients(Some([header, good, bad])) == Err(UnknownFormat)
  {
    var rows := [header, good, bad];
    assert !KnownShape(rows[2]);
    IngredientsSpec(Some(rows));
  }
}
