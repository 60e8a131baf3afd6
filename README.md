# Ingredient extraction from recipe pages

A Dafny model of the ingredient parser of a recipe scraper (`parsing.py`).
The parser takes the `ingr` table of a recipe page and turns it into an
ordered list of ingredient records `{name, quantity, unit, format}`. The
site uses two row layouts:

- an **old** row has three cells: name, quantity and unit;
- a **new** row has one cell whose `span` reads `name — quantity unit`.

Any other cell count aborts the page with `RuntimeError("Unknown format of recipe")`.

The HTML library is not modelled. A cell is a value `Cell(text, span, nobr)`:
its stripped text, plus the stripped text of its first nested `span` and
`nobr` tag when there is one (`Option`). A row is `seq<Cell>`. The table is
`Option<seq<Row>>`, where `None` means the page has no `ingr` table.
Python exceptions become `Result` errors: `IndexError` from `rows.pop(0)` on
an empty table, and `RuntimeError` for an unknown row shape. A new-format
cell without a `span` gives `None`, and that `None` is kept in the list.

Modules:

- `Wrappers` (`wrappers.dfy`): `Option` and `Result`.
- `PyStr` (`pystr.dfy`): Python's `str.strip()`, using the exact `str.isspace`
  set of code points, and `str.split(sep, 1)` for a one-character separator.
- `QuantityUnit` (`quantity.dfy`): the scan that splits `"200 г"` into a
  quantity and a unit. It has three parts:
  - a recursive reference function `QuantityAndUnit`;
  - the imperative loop `ExtractQuantityAndUnit`, proved equal to that function;
  - lemmas that describe the result without mentioning the scan.
- `Parsing` (`parsing.py`'s other three functions): cells, records, the two
  row formats, and `GetIngredients`. `GetIngredients` is a loop that pops the
  header and appends one entry per row. It is proved equal to the recursive
  reference `Ingredients`.

The scanner is modelled as the code is written. Its loop runs over
`range(len(s) - 1)`. So when no space is followed by a letter in
U+0410..U+044F, the last character never reaches the quantity: `"200"`
gives `("20", "")`. Inputs of length 0 or 1 give `("", "")`. One might
expect the quantity to be the whole string; the code drops the last
character instead, and the model does the same. The scanner also requires the letter after the space
to be in U+0410..U+044F, so "Ё" (U+0401) and "ё" (U+0451) never start a unit.

## Model

| member | source | states |
|---|---|---|
| `PyStr.Strip` | parsing.py:103-104 | the result is a slice `s[i..j]` with only whitespace outside it; it is empty iff `s` is all whitespace; otherwise it starts and ends with a non-whitespace character |
| `PyStr.StripUnchanged` | parsing.py:103-104 | a string that neither starts nor ends with whitespace is returned unchanged |
| `PyStr.StripIdempotent` | parsing.py:103-104 | stripping twice is the same as stripping once |
| `PyStr.SplitOnce` | parsing.py:90-91 | `split('—', 1)` gives one part (the whole string) iff the separator is absent; otherwise two parts that rejoin around the separator, and the first part has no separator |
| `PyStr.FirstSeparatorUnique` | parsing.py:91 | there is only one way to write a string as `a + sep + b` with `sep` not in `a` |
| `PyStr.SplitOnceAtFirst` | parsing.py:91 | `split(sep, 1)` splits at the first occurrence of the separator |
| `QuantityUnit.QuantityAndUnitAtSplit` | parsing.py:122-127 | at the first split point `i` (a space followed by code point 1040..1103), quantity is `s[..i]` and unit is `s[i+1..]` |
| `QuantityUnit.QuantityAndUnitNoSplit` | parsing.py:119-130 | with no split point, unit is empty and quantity is `s` without its last character (empty for length 0 or 1) |
| `QuantityUnit.QuantityAndUnitSpec` | parsing.py:118-130 | an empty unit means no split point exists and quantity is `s` minus its last character; a non-empty unit means quantity ends at the first split point and unit starts right after the space |
| `QuantityUnit.UnitIffSplit` | parsing.py:125-127 | unit is non-empty iff a split point exists; a non-empty unit starts with a letter in 1040..1103 and `quantity + " " + unit == s`; an empty unit leaves `max(|s|-1, 0)` characters of quantity |
| `QuantityUnit.ExtractQuantityAndUnit` | parsing.py:118-130 | the character loop with `break` returns the first-split-point result described above, and this equals the reference `QuantityAndUnit` |
| `QuantityUnit.DigitsOnlyLoseLastCharacter` | parsing.py:122 | `"200"` gives `("20", "")` and `"7"` gives `("", "")` |
| `QuantityUnit.ExampleSplits` | parsing.py:125-126 | `"200 г"` gives `("200", "г")`; `"2 ст. ложки"` splits at the first boundary only; `"1 ёж"` does not split because "ё" is outside the range |
| `Parsing.ParseOldFormat` | parsing.py:58-76 | name is cell 0's span text if present, else cell 0's text; quantity is cell 1's text; unit is cell 2's nobr text if present, else cell 2's text; format is `Old` |
| `Parsing.ParseNewFormat` | parsing.py:79-115 | the result is `None` exactly when the cell has no span, so `return None` at line 115 is unreachable; the format is `NewUnsplit` iff the text has no em-dash; a `New` name contains no em-dash |
| `Parsing.NewFormatUnsplit` | parsing.py:90-99 | span text without an em-dash becomes the name, with empty quantity and unit and format `NewUnsplit` |
| `Parsing.NewFormatSplit` | parsing.py:90-113 | for span text `before — after` where `before` has no em-dash: the name is the stripped `before`, and quantity and unit come from scanning the stripped `after` |
| `Parsing.ParseRow` | parsing.py:46-54 | a row parses iff it has 3 or 1 cells, and fails otherwise with "Unknown format of recipe"; a 3-cell row gives the old-format record of that row and a 1-cell row the new-format result of its cell; an `Old` record comes exactly from 3 cells; a 1-cell row gives `None` iff the cell has no span |
| `Parsing.ParseRows` | parsing.py:38-54 | a successful parse has one entry per row; a failure is always the unknown-format error |
| `Parsing.ParseRowsSpec` | parsing.py:38-54 | the rows parse iff every row has a known shape; entry `k` is then row `k`'s parse |
| `Parsing.IngredientsSpec` | parsing.py:27-55 | no table gives `[]`; a table with no rows fails at `pop(0)`; otherwise the result succeeds iff every row after the header has 3 or 1 cells, with exactly one entry per data row in order, and a failure returns no partial list |
| `Parsing.GetIngredients` | parsing.py:24-55 | the pop-then-append loop returns the reference `Ingredients(table)`, with entry `k` equal to the parse of row `k + 1` |
| `Parsing.OldFormatExample` | parsing.py:58-76 | a row `["Flour", "200", "g"]` gives `{Flour, 200, g, Old}` |
| `Parsing.StripAroundDash` | parsing.py:103-104 | `"Мука "` strips to `"Мука"` and `" 200 г"` to `"200 г"` |
| `Parsing.NewFormatExample` | parsing.py:90-113 | `"Мука — 200 г"` gives `{Мука, 200, г, New}` |
| `Parsing.UnsplitExample` | parsing.py:93-99 | `"Соль по вкусу"` gives `{Соль по вкусу, "", "", NewUnsplit}` |
| `Parsing.TwoCellRowFails` | parsing.py:52-53 | a 2-cell data row fails the whole table, even after a good row |

## Left out

- `get_page` (parsing.py:10-21) is left out. It is an HTTP request with error printing, which is network I/O.
- `parsing()` and `main()` (parsing.py:132-175) are left out. They are an interactive `input()` loop, console output and a JSON file write.
- HTML parsing is left out. BeautifulSoup's `find`, `find_all` and `get_text(strip=True)` are a foreign library. Their results are the given `Cell` strings and the row and table sequences. The model also does not capture:
  - how `get_text` joins nested text;
  - that `find_all('tr')` and `find_all('td')` also find the rows and cells of nested tables.
- The model uses bs4's rule that a found tag is always truthy. So `if not span` and `if not ingredients_table` test only for absence.
- `static/script.js`, `models.py`, `schemas.py` and `main.py` are not part of this model. They hold UI, schema declarations and HTTP/database glue.
- Title, category and description extraction, the batch collector and the recipe filter do not appear in `parsing.py`. They are not modelled.
- `Parsing.ParseOldFormat` requires at least three cells. Its only caller passes exactly three, so the `IndexError` for shorter lists is not modelled.
