# Cropping exam items with their shared context

`App_recorte.py` cuts the questions ("items") out of an exam booklet PDF and
builds a new PDF. Each item is copied as a full-width strip of its page. When an
item belongs to a shared reading passage ("RESPONDA LAS PREGUNTAS 5 A 8"), the
passage's strip is copied in front of it.

This project models the core of that program in Dafny and proves properties of
the model:

- `limpiar_espacios`, the whitespace normaliser (module `Text`);
- the two regular expressions, as hand-written scanners (module `Patterns`);
- Python's stable `sorted` (module `Sorting`);
- the page-by-block scan both indexers share (module `Layout`);
- `indexar_items`, the item index (module `ItemIndexer`);
- `indexar_contextos`, the context index (module `ContextIndexer`);
- the region computation and page assembly of
  `recortar_items_con_contexto_streamlit` (module `Assembler`).

The document is a value. It is a sequence of pages. Each page has a width, a
height and the blocks `get_text("blocks")` returns. Each block is reduced to its
top y (`b[1]`) and its text (`b[4]`). The output PDF is the class
`OutputDocument`. Its `NewPage` method stands for `new_page` plus
`show_pdf_page`: it appends a page record holding the source page's width and the
clipped region.

The indexers and the assembler are methods with loops, written the way the
source writes them. Each is proved equal to a specification function:

- `ItemIndex`, `ContextIndex` and `Output`;
- `Lookup` for the `items_dict` comprehension;
- `RequestRegions` for the `bloques` list.

The lemmas then state what those functions promise.

An item's strip could be read as ending at the same-page item with the smallest
larger number. The code (App_recorte.py:82-84) takes the first such entry in
index order instead. The model follows the code. `NextOnPageSmallest` proves the
two agree on an index sorted by number, which is what `indexar_items` returns.

The context pattern is proved against a literal reading of it, in module
`Readings`. A reading names the keyword spellings and the lengths of the digit
and whitespace runs. It holds when every character is what the pattern asks for
at its place. The scanners are proved to match exactly when such a reading
exists, and to report the values of its digit groups.

## Model

| member | source | states |
|---|---|---|
| Text.StripLeftSpec | App_recorte.py:17 | left stripping removes exactly a prefix of whitespace; what remains is empty or starts with a non-space |
| Text.StripRightSpec | App_recorte.py:17 | right stripping removes exactly a suffix of whitespace; what remains is empty or ends with a non-space |
| Text.StripIsSlice | App_recorte.py:17 | `strip()` returns a slice of its input with whitespace only before and after it and no whitespace at either of its ends |
| Text.StripEmpty | App_recorte.py:50-52 | the stripped text is empty exactly when the block text is all whitespace |
| Text.DigitsValueBound | App_recorte.py:33 | `int()` of an n-digit numeral is below 10^n, so one of at most three digits is below 1000 |
| Text.Collapse | App_recorte.py:16 | `re.sub(r"\s+", " ", s)` leaves only single plain spaces; it is empty exactly when s is; it starts with whitespace exactly when s does |
| Text.CollapseKeepsNonSpace | App_recorte.py:16 | collapsing whitespace runs keeps every other character, in order |
| Text.CollapseSingleSpaced | App_recorte.py:16 | a single-spaced text is left unchanged by the collapse |
| Text.ReplaceBreaksKeepsNonSpace | App_recorte.py:13-15 | replacing no-break spaces, newlines and tabs by spaces keeps every other character |
| Text.NonSpaceStrip | App_recorte.py:17 | stripping removes whitespace only |
| Text.StripSingleSpaced | App_recorte.py:16-17 | stripping a single-spaced text gives a clean text |
| Text.CleanSpacesIsClean | App_recorte.py:11-17 | the normaliser's output is single-spaced, has no whitespace at either end, and holds no tab, newline or no-break space |
| Text.CleanSpacesKeepsText | App_recorte.py:11-17 | the normaliser keeps every non-whitespace character of its input, in order |
| Text.CleanIsFixedPoint | App_recorte.py:11-17 | a clean text is left unchanged by the normaliser |
| Text.CleanSpacesIdempotent | App_recorte.py:11-17 | normalising twice gives the same text as normalising once |
| Text.WordsSpec | App_recorte.py:16-17 | every word of a text, in the sense of `str.split()`, is non-empty and holds no whitespace |
| Text.WordsReplaceBreaks | App_recorte.py:13-15 | replacing no-break spaces, newlines and tabs by spaces leaves the words unchanged |
| Text.CollapsedWords | App_recorte.py:16-17 | collapsing the whitespace runs of a left-stripped text and stripping the right end gives its words joined by exactly one space |
| Text.CleanSpacesIsJoinedWords | App_recorte.py:11-17 | the normaliser returns the words of its input joined by exactly one space, `" ".join(texto.split())` |
| Patterns.DigitRun | App_recorte.py:21 | the length of the digit run at a position: all digits, ending at the end of the text or at a non-digit |
| Patterns.SpaceRun | App_recorte.py:43 | the length of the whitespace run at a position: every character in it is whitespace, and it ends at the end of the text or at a non-space |
| Patterns.DigitRunExact | App_recorte.py:21 | a run of digits followed by a non-digit or the end is exactly what the digit scanner measures |
| Patterns.ItemNumberSpec | App_recorte.py:21-33 | `re.match(r"^(\d{1,3})\.")` matches exactly when the text starts with one to three digits then a period; the number is those digits' value, below 1000 |
| Patterns.FourDigitsNoItem | App_recorte.py:21 | a text starting with four digits (such as `1234.`) never opens an item |
| Patterns.AfterKeyword | App_recorte.py:43 | matches exactly when the keyword occurs there ignoring case and is followed by whitespace; the match ends after the whole whitespace run |
| Patterns.Opener | App_recorte.py:43 | `RESPOND[AE]\s+` matches exactly when RESPONDA or RESPONDE occurs there ignoring case and is followed by whitespace; the match ends after the whole whitespace run |
| Patterns.NumeralAt | App_recorte.py:56-57 | the value of n digits is below 10^n, so that of one to three digits is below 1000 |
| Patterns.NumeralAtValue | App_recorte.py:33 | the scanner's numeral over a digit run is `int()` of those digits |
| Patterns.Numbers | App_recorte.py:43-57 | `(\d{1,3})\s+A\s+(\d{1,3})` yields two numbers, each below 1000 |
| Patterns.RangeAt | App_recorte.py:43 | a match of the whole context pattern at a position yields two numbers, each below 1000 |
| Readings.NumbersSpec | App_recorte.py:43 | `(\d{1,3})\s+A\s+(\d{1,3})` matches at a position exactly when it has a literal reading there: one to three digits, whitespace, `A` in either case, whitespace, and one to three digits that a further digit may follow; the numbers are the values of the two digit groups |
| Readings.RangeAtSpec | App_recorte.py:43-57 | the whole context pattern matches at a position exactly when it has a literal reading there, `RESPONDA` or `RESPONDE`, `LAS` and `PREGUNTAS` in any case, each followed by whitespace, then the two numbers; `desde` and `hasta` are the values of the two digit groups |
| Patterns.FirstHitIsLeftmost | App_recorte.py:54 | trying a matcher position by position yields nothing exactly when no position matches, and otherwise the match at the leftmost matching position |
| Patterns.SearchRangeIsLeftmost | App_recorte.py:43-54 | `patron.search` finds a marker exactly when the pattern matches at some position, and reports the leftmost one |
| Patterns.SearchRangeBounds | App_recorte.py:54-57 | both numbers a search reports are below 1000 |
| Sorting.InsertPermutes | App_recorte.py:39 | inserting adds exactly the inserted element |
| Sorting.InsertSorted | App_recorte.py:39 | inserting into a sorted sequence keeps it sorted |
| Sorting.InsertWithKey | App_recorte.py:39 | inserting puts the new element before the old elements with its key |
| Sorting.SortBySorted | App_recorte.py:39 | `sorted(xs, key=k)` is ascending by k |
| Sorting.SortByPermutes | App_recorte.py:39 | `sorted` returns a permutation of its input |
| Sorting.SortByStable | App_recorte.py:39 | `sorted` is stable: the elements with any one key keep their input order |
| Sorting.SortByFacts | App_recorte.py:39 | `sorted` is ascending, a permutation and stable |
| Sorting.SortByMembers | App_recorte.py:47 | sorting keeps the length and exactly the elements of its input |
| Layout.CollectMembers | App_recorte.py:25-38 | an entry comes from a page exactly when some block of the page yields it |
| Layout.GatherMembers | App_recorte.py:22-25 | an entry comes from the scan exactly when some block of a page in the scanned range yields it |
| Layout.GatherMembersReordered | App_recorte.py:44-48 | reordering each page's blocks before the scan does not change which entries it finds |
| ItemIndexer.IndexItems | App_recorte.py:19-39 | `indexar_items` returns the entries its page and block loops find, sorted by item number |
| ItemIndexer.FindItemsOnPage | App_recorte.py:25-38 | the block loop of one page appends the entry of each block that opens an item, in block order |
| ItemIndexer.ItemOfSpec | App_recorte.py:26-38 | a block yields an entry exactly when it lies at or above y 750, its lower-cased text has no stop word and its stripped text starts with one to three digits then a period; the entry holds that number, the page and the y |
| ItemIndexer.ItemIndexMembers | App_recorte.py:21-38 | an entry is in the index exactly when some block of a scanned page is at or above y 750, has no stop word in its lower-cased text, starts with that number and a period, and the entry holds that page and y |
| ItemIndexer.ItemIndexOrder | App_recorte.py:39 | the index is ascending by item number, a permutation of the entries in scan order, and keeps duplicates in scan order |
| ItemIndexer.ItemIndexBounds | App_recorte.py:22-33 | every entry lies on a scanned page, at or above y 750, with a number below 1000 |
| ContextIndexer.ContextOf | App_recorte.py:49-63 | an entry made from a block holds that block's page and y |
| ContextIndexer.IndexContexts | App_recorte.py:41-65 | `indexar_contextos` returns the entries its page loop and sorted-block loop find |
| ContextIndexer.FindContextsOnPage | App_recorte.py:48-63 | the block loop of one page appends the entry of each block whose normalised text holds the marker, in the given order |
| ContextIndexer.ContextOfSpec | App_recorte.py:50-63 | a block yields an entry exactly when its text is not all whitespace and the marker occurs in its normalised text; the entry holds the page, the y, both numbers and that text |
| ContextIndexer.TopDownMembers | App_recorte.py:47 | sorting a page's blocks by y keeps exactly its blocks |
| ContextIndexer.ContextIndexMembers | App_recorte.py:44-63 | an entry is in the context index exactly when some block of a scanned page announces it |
| ContextIndexer.CollectTopDown | App_recorte.py:47-48 | one page's entries all carry that page and come in ascending y |
| ContextIndexer.ConcatInScanOrder | App_recorte.py:44-60 | appending a later page's entries keeps the order by page, then y |
| ContextIndexer.GatherInScanOrder | App_recorte.py:44-48 | the scan yields entries by ascending page and, within a page, ascending y |
| ContextIndexer.ContextIndexOrder | App_recorte.py:44-48 | the context index is ordered by page, then y, and every entry lies on a scanned page |
| ContextIndexer.AnnouncedIsClean | App_recorte.py:53-57 | an announced entry's text is normalised and its numbers are below 1000 |
| ContextIndexer.ContextIndexTexts | App_recorte.py:53-63 | every entry's text is normalised, and its `desde` and `hasta` are below 1000; nothing relates `desde` to `hasta` |
| Assembler.OutputDocument.constructor | App_recorte.py:69 | a new output document has no pages |
| Assembler.OutputDocument.NewPage | App_recorte.py:112-116 | adding a page appends exactly one page with the given width and clip |
| Assembler.Lookup | App_recorte.py:71 | every number of the index is a key, and each key maps to an entry of the index with that number |
| Assembler.BuildLookup | App_recorte.py:71 | the dict comprehension builds exactly the lookup |
| Assembler.LookupKeys | App_recorte.py:71-74 | a number is a key exactly when some entry of the index carries it |
| Assembler.LookupLastWins | App_recorte.py:71 | for a duplicated number, the lookup holds the entry latest in the index |
| Assembler.NextOnPageSpec | App_recorte.py:82-83 | `mismos[0]` is the first entry in index order numbered above the request and on its page; there is none exactly when the page holds no such entry |
| Assembler.NextOnPageSmallest | App_recorte.py:82-84 | on an index sorted by number, `mismos[0]` has the smallest number above the request on the page |
| Assembler.FirstContextIsFirst | App_recorte.py:86-90 | the early-exit search from a position returns the earliest covering context, and nothing exactly when none covers |
| Assembler.FirstContextSpec | App_recorte.py:86-90 | the governing context is the first in stored order with `desde <= item <= hasta`; there is none exactly when no context covers the item |
| Assembler.FirstContextIn | App_recorte.py:86-90 | the governing context is one of the stored contexts |
| Assembler.RequestRegions | App_recorte.py:73-109 | a request yields at most two regions, all on pages of the document |
| Assembler.CropRegions | App_recorte.py:78-109 | for a known number, the loop body builds the context region (if any) and then the item region, as specified |
| Assembler.ShowRegions | App_recorte.py:111-116 | each region adds one page, in order, with the width of its source page |
| Assembler.CropItemsWithContext | App_recorte.py:67-120 | the output document's pages are exactly the pages of the requests' regions, in request order |
| Assembler.PagesOfSpec | App_recorte.py:111-116 | there is one output page per region, with its source page's width and that region as clip |
| Assembler.OutputSingle | App_recorte.py:73-116 | one request's output is the pages of its regions |
| Assembler.OutputConcat | App_recorte.py:73 | the output of two request lists is the output of the first followed by that of the second |
| Assembler.UnknownRequestSkipped | App_recorte.py:74-76 | a number absent from the index adds no page and leaves the other requests' pages unchanged |
| Assembler.FoundRequestPages | App_recorte.py:92-116 | a known number yields two pages when a context covers it and one otherwise; the context's page comes first and the item's page last |
| Assembler.ItemRegionBounds | App_recorte.py:79-84 | the item's region starts margin above the entry and ends at the next same-page entry numbered above it, or at the page's bottom when there is none |
| Assembler.ContextRegionBounds | App_recorte.py:94-98 | the context's region starts margin above the context; it ends at the last index entry numbered `desde` when that entry is on the context's page, and at the page's bottom when that entry is on another page or no entry has that number |
| Assembler.RepeatedRequestRepeats | App_recorte.py:73 | requesting a number twice yields its pages twice |
| Assembler.IndexesOnDocument | App_recorte.py:78-113 | the indexers' catalogues only name pages of the document, so the assembler's page lookups are in range |
| Assembler.ContextAttributionExample | App_recorte.py:73-116 | items 5 (y 100) and 6 (y 300) and a context for 5 to 8 (y 50), all on page 2: requesting 5 gives strips 40 to 100 and 90 to 300; requesting 999 gives none |

## Left out

- The Streamlit interface and the parsing of the request list (App_recorte.py:126-152) are not modelled. Requests are natural numbers.
- PyMuPDF is not modelled: opening, `get_text("blocks")`, `new_page`, `show_pdf_page`, `save` and `close`. A page is its width, height and blocks; a block is its top y and text; rendering a strip is appending its record to `OutputDocument`.
- Coordinates and the margin are exact reals, so floating-point rounding is not modelled.
- `unicodedata.normalize("NFKC", ...)` (App_recorte.py:12) is taken as the identity, so the text is taken to be in NFKC form already.
- `lower()` (App_recorte.py:30) is modelled for the ASCII and Latin-1 capitals only. Those cover the stop words; other scripts' case mappings are not modelled.
- `\d` and `int()` accept the ASCII digits only. Python also accepts other Unicode decimal digits.
- `re.IGNORECASE` is modelled as ASCII case folding. Unicode folds such as the long s (U+017F) matching `S` are not modelled.
- `\s`, `str.strip()` and `str.isspace()` use the Python whitespace set, written out character by character.
- The `print` warning for an unknown number (App_recorte.py:75) is a side channel and is not modelled. The request is skipped, as `UnknownRequestSkipped` states.
- Page lookups outside the document, which would raise `IndexError`, are excluded by the precondition `OnDocument`. `IndexesOnDocument` shows the indexers never produce them.
- Assembler.OutputDocument.NewPage: the new page's height (`rect.height`) is not recorded, only the clip. For a well-ordered strip that height is `bottom - top`. An inverted or zero-height strip (`bottom <= top`) is recorded as it is computed, and what PyMuPDF does with it is not modelled.
