# snax2 — a verified model of the product scraper and its SQLite loader

This project models, in Dafny, the core of a small scraping pipeline for a
retail website.

- **The link collector** (`Links`, in `links.dfy`) walks one product
  category page by page (`?pageNo=1`, `2`, …) and stops at the first page
  that has no product anchors. The links of all configured categories are
  concatenated in category order. Duplicates are then dropped, keeping each
  link's first occurrence.
- **The retry policy** (`Retry`, in `retry.dfy`) wraps every product-page
  fetch. It retries only a connection reset, makes at most 3 attempts, and
  waits 10 and then 100 seconds between them. Any other failure, or a third
  reset, reaches the caller.
- **The field extractor** (`Extraction`, in `extraction.dfy`) applies each
  field specification, in order, to each product page.
  - A `"multi"` field concatenates the stripped text of every matching node,
    each followed by a space. After every append, each run of `\n`, `\r`,
    `\t` is collapsed to one space.
  - Any other field takes the stripped text of the first matching node. When
    no node matches, the field is skipped.
  - The value is written into the row under the specification's attribute
    value.
- **The description resolver** (`Resolver`, in `resolver.dfy`) picks one
  `long_description` per row from the candidate columns `"13"` and `"14"`,
  then drops both columns.
- **The store** (`Store`, in `store.dfy`) is a `Database` class holding
  tables and unique indexes. It offers three operations:
  - importing a CSV as a new table, failing when the name is taken;
  - `CREATE UNIQUE INDEX IF NOT EXISTS`;
  - appending a CSV's `productid`, `name` and `PDP_productPrice` row by row
    with `ON CONFLICT DO NOTHING`.

  The invariant `Valid()` holds before and after every operation:
  - table and index names are distinct;
  - rows only use their table's columns;
  - every unique index holds.

Several things the program gets from its environment are parameters in the
model:

- the network: a page oracle per category and an attempt oracle per URL;
- the HTML parser: a page maps every `(tag, attribute, value)` selector to
  its matching nodes;
- CSV reading: a CSV is a `Frame`, or `None` when it cannot be read.

The resolver follows the code, not its docstring. The docstring says the
longer of the two candidates is taken. The code takes
`max([row["13"]], [row["14"]])`, which compares strings by code point.
`Resolver.ChoiceIgnoresLength` shows a shorter candidate winning.

## Model

| member | source | states |
|---|---|---|
| Links.PageCount | snax2.py:55-58 | the number of pages reported is the N for which pages 1..N have product anchors and page N+1 has none |
| Links.EndsAfterUnique | snax2.py:55-58 | that N is unique |
| Links.PagesLinksMembers | snax2.py:59-62 | a link is collected from pages 1..n iff it is an href on one of those pages |
| Links.TwoPagesOfTwo | snax2.py:48-65 | two pages of two links followed by an empty page yield 2 pages and 4 links |
| Links.GetLinksFromOneCategory | snax2.py:41-65 | fetches exactly pages 1..N+1, reports N pages, and returns the hrefs of pages 1..N in page and document order |
| Links.Dedup | snax2.py:85 | dropping duplicates leaves no duplicates and keeps exactly the same set of links |
| Links.DedupKeepsFirstOccurrenceOrder | snax2.py:85 | the kept links appear in the order of their first occurrences in the input |
| Links.DedupOfDistinct | snax2.py:85 | a list that already has no duplicates is returned unchanged |
| Links.CombinedLinksMembers | snax2.py:81-83 | a link is in the concatenation iff some category yields it |
| Links.MakeLinksOfAllCategories | snax2.py:78-92 | the result is the duplicate-free concatenation of the categories' links, holding exactly the links some category yields |
| Retry.AttemptsUsed | snax2.py:116 | between 1 and 3 attempts are made; every attempt before the last was a connection reset; fewer than 3 attempts means the last one was not a reset |
| Retry.Sleeps | snax2.py:116 | the i-th wait is 10 * 10^i seconds |
| Retry.Call | snax2.py:116-121 | the decorated call makes AttemptsUsed attempts, returns or raises the last one's outcome, and waits Sleeps(attempts - 1) |
| Retry.SucceedsOnThirdAttempt | snax2.py:116-121 | two resets and then a value: three attempts, the value is returned, waits of 10 and 100 |
| Retry.GivesUpAfterThreeResets | snax2.py:116-121 | a fetch that always resets is given up after 3 attempts and the reset is raised |
| Retry.OtherFailuresAreNotRetried | snax2.py:116-121 | any other failure is raised on the first attempt with no wait |
| Extraction.Strip | snax2.py:134 | str.strip: the result is a slice of the input starting after its leading whitespace; a non-empty result has non-space ends; the result is empty iff the input is all whitespace; everything after the result is whitespace |
| Extraction.CollapseRun | snax2.py:107 | `re.sub` of `[\n\r\t]+`: a text made of one run of control characters becomes a single space (with CollapseAppend and CollapseClean this fixes the cleaner on every text) |
| Extraction.CollapseIsClean | snax2.py:107 | the cleaner's output has no `\n`, `\r` or `\t` |
| Extraction.CollapseClean | snax2.py:107 | text without those characters is left unchanged |
| Extraction.CollapseAppend | snax2.py:107 | cleaning distributes over a concatenation whose seam is not inside a run of control characters |
| Extraction.MultiValue | snax2.py:128-135 | a multi value is clean, empty iff no node matched, and otherwise ends with a space |
| Extraction.CleaningOnceAtTheEnd | snax2.py:133-135 | cleaning after every append equals cleaning the raw concatenation once |
| Extraction.ConcatenateNodes | snax2.py:128-135 | the accumulation loop computes MultiValue of the matched nodes |
| Extraction.FieldCell | snax2.py:130-143 | a multi field always yields MultiValue of the matched nodes, a clean cell that is empty iff nothing matched; a single field yields a cell iff some node matched, and that cell is the first node's stripped text |
| Extraction.ApplyFields | snax2.py:126-145 | the row afterwards has exactly the old columns plus those some field wrote |
| Extraction.ApplyFieldsKeepsOtherColumns | snax2.py:141-145 | a column no field writes keeps its value or stays unset |
| Extraction.ApplyFieldsLastWriterWins | snax2.py:145 | a cell holds the value of the last field that wrote that column |
| Extraction.WrittenCount | snax2.py:146 | the progress counter advances at most once per field |
| Extraction.ExtractFields | snax2.py:126-146 | the field loop produces ApplyFields of the row and advances the counter once per written cell |
| Extraction.PopulateLinksWithExtractedFields | snax2.py:114-149 | succeeds iff every row's retried fetch returns a page, and then row i is ApplyFields of its page; otherwise the failure raised is that of the first row whose fetch failed |
| Resolver.LessIrreflexive | snax2.py:166 | string `<` is irreflexive |
| Resolver.LessAsymmetric | snax2.py:166 | string `<` is asymmetric |
| Resolver.LessTotal | snax2.py:166 | any two strings are equal or ordered |
| Resolver.LessTransitive | snax2.py:166 | string `<` is transitive |
| Resolver.PickDescription | snax2.py:166 | the choice is one of the two candidates and not smaller than either; it is "14" iff "14" is greater than or equal to "13" |
| Resolver.ChoiceIgnoresLength | snax2.py:154-166 | a shorter candidate can be chosen over a longer one |
| Resolver.SelectLongDescriptionField | snax2.py:163-173 | every row gains long_description = PickDescription("13", "14") and loses "13" and "14"; all other columns are unchanged |
| Store.Database.constructor | sqlite_ops.py:22-29 | a connection opens on a consistent database |
| Store.Database.CsvToNewSqliteTable | sqlite_ops.py:46-57 | an unreadable CSV or a taken name is caught and changes nothing; otherwise the table is created with the CSV's rows; the record count is the table's row count, or an error when no such table exists; indexes are unchanged and the invariant is kept |
| Store.Database.CreateIndex | sqlite_ops.py:75-83 | the outcome follows SQLite's checks in order: missing table, name taken by a table, existing index (a no-op), missing column, duplicate values; only success adds the index; tables never change |
| Store.Database.AddCsvLinesToTable | sqlite_ops.py:100-113 | the error raised is AppendFailure; on success the table's rows become AppendRows of the projected CSV lines under the table's unique columns; on error nothing changes; the invariant is kept |
| Store.InsertLines | sqlite_ops.py:104-111 | the insert loop fails on the first line iff a needed CSV column, the table or a table column is missing; otherwise it returns AppendRows of the projected lines |
| Store.Projected | sqlite_ops.py:105-111 | an inserted row has exactly productid, name and PDP_productPrice, an empty CSV cell becoming "nan" |
| Store.AppendRowsExtends | sqlite_ops.py:104-111 | existing rows are untouched; only incoming rows are added, at most one per line |
| Store.AppendRowsKeepsUnique | sqlite_ops.py:111 | a uniquely indexed column stays free of duplicates |
| Store.ConflictsPersist | sqlite_ops.py:111 | a line that collides with the table still collides after more rows are added |
| Store.AppendRowsCoversIncoming | sqlite_ops.py:104-111 | after the load, every line carrying an indexed value collides with the table |
| Store.AppendRowsAllConflicting | sqlite_ops.py:95 | a load whose every line collides leaves the table unchanged |
| Store.AppendTwiceIsAppendOnce | sqlite_ops.py:95 | loading the same CSV twice equals loading it once when an inserted column is uniquely indexed |
| Store.AppendRowsWithoutIndex | sqlite_ops.py:104-111 | without a unique index every line is appended, duplicates included |
| Store.ConflictsOnProductId | sqlite_ops.py:111 | with the productid index, a line collides iff its productid is already present |
| Store.AppendRowsValues | sqlite_ops.py:104-111 | afterwards the productids present are the old ones plus the incoming ones |
| Store.AppendRowsCount | sqlite_ops.py:104-111 | the table grows by the number of distinct incoming productids not already present |
| Store.CommitKeepsConsistent | sqlite_ops.py:113 | committing an append keeps every unique index valid and every row within its table's columns |
| Store.AppendedWellFormed | sqlite_ops.py:104-111 | appended rows stay within the table's columns |

## Left out

- HTTP requests and HTML parsing: pages are oracles. Building
  `baseurl + category + "?pageNo=" + n` and the product URL are not modelled
  beyond keying pages by number and fetches by URL string.
- `get_text(strip=True)` on a single node is the node's `strippedText` oracle. BeautifulSoup's joining of nested strings is not modelled.
- Links.GetLinksFromOneCategory: defined only for listings that have an empty page eventually. On an endless listing the source loops forever.
- Links.GetLinksFromOneCategory: a failing listing fetch is not modelled. The `Listing` oracle always yields a page, while an error from `requests.get` at snax2.py:50 propagates and aborts the run.
- The links frame's CSV file, the snax CSV file, timestamps, progress bars, printing, argparse and the `main` drivers are I/O and are left out. Only the field loop's `bar()` (snax2.py:146) is kept, as `progress` in `Extraction.ExtractFields`. The per-link `bar()` (snax2.py:63) and the resolver's per-row `bar()` (snax2.py:168) are not modelled.
- Sleeping is recorded as the list of delays; no clock is modelled.
- Extraction.PopulateLinksWithExtractedFields: on a fetch failure the caller's frame has already been partly written in place. The model returns only the failure and does not model the partly updated frame or pandas aliasing.
- The inner `except Exception` of the multi branch is not modelled: over the modelled page nothing in that branch can raise.
- The pandas cell machinery is not modelled: dtype changes, NaN cells reaching `max` in the resolver, and a one-element list being stored as a cell value. Rows are maps from column to text, and the resolver stores the chosen string.
- Resolver.SelectLongDescriptionField: requires both candidate columns in every row. The source raises for a missing column and meets NaN (a float) for an unset one. That path is not modelled.
- SQL text interpolation is not modelled: quotes or brackets inside values break the INSERT statement. SQLite's type affinity is not modelled either; values are stored as text.
- Store.Database.CsvToNewSqliteTable, Store.Database.CreateIndex and Store.AppendFailure compare table, index and column names as exact strings. SQLite compares them case-insensitively, so `CREATE UNIQUE INDEX IF NOT EXISTS Product_Index …` is a no-op in SQLite when `product_index` exists, while the model returns `Created`.
- The connection and cursor plumbing and `connection.close()` are left out. The connection is the `Database` object.
- Store.Database.CsvToNewSqliteTable: the CSV is given as an already-read `Frame`. pandas' column type inference and `to_sql`'s schema are not modelled.
- `apply_transaction_to_person` is an empty stub in the source and is not modelled.
- A KeyboardInterrupt during the run is not modelled.
