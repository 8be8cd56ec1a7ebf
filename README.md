# Dynamic Quote Generator — quote collection model

A Dafny model of the in-memory quote collection behind the "Dynamic Quote
Generator" page in `dom-manipulation/script.js`. A quote is a `(text,
category)` pair. The page keeps a module-level list `quotes`, seeds it from
`localStorage` (or from three starter quotes), extends it through the
add-quote form and through JSON import, writes it back to storage after each
change, builds the category drop-down from it and shows a random quote of the
selected category.

Files and modules:

- `wrappers.dfy` (`Wrappers`): `Option`.
- `json.dfy` (`Json`): the result of `JSON.parse` as a value (`Json`, `ParseResult`).
- `seqs.dfy` (`Seqs`): `NoDuplicates` and `AppendNew`, "append each element the
  growing list does not yet hold". The import merge and the JavaScript `Set`
  of categories are both this operation.
- `text.dfy` (`Text`): `String.prototype.trim` over the ECMAScript white space
  and line terminator characters.
- `quotes.dfy` (`Quotes`): the `Quote` datatype and the starter list. It also
  holds the item filter that loading and import share, the trimming that import
  adds, the JSON written by saving and export, and `Loaded`, the list that
  loading yields.
- `display.dfy` (`Display`): the category drop-down and the category filter
  used by the random pick.
- `store.dfy` (`QuoteStore`): class `QuoteApp`. Its field `quotes` is the
  in-memory list. Its field `stored` is the value under the storage key. Its
  methods are the page operations that change them.

The class has no invariant that every method keeps. Loading may bring
duplicates and untrimmed text in from storage. So the two facts the page
relies on are stated as preservation:

- a list free of duplicate pairs stays free of them through adding and import;
- `Persisted()` (reloading storage would give back the in-memory list) holds
  after loading, and every later operation keeps it.

One quirk of the page is kept as it is. A quote may have the empty string as
its category: import accepts a blank category, and storage may hold one. Such
a quote gives a drop-down option whose value is `""`. `showRandomQuote` takes
`""` as "no category selected", so picking that option shows any quote
(`Display.EmptyCategoryShowsAll`).

Storage is modelled as the parsed value of the text last written. Writing
`JSON.stringify(v)` and parsing it back is taken to give `v`.

The repository also holds other variants of the same exercise. Some of them
synchronise with a remote server. Those variants are not part of this model.
Only `dom-manipulation/script.js` is.

## Model

| member | source | states |
|---|---|---|
| `Seqs.AppendNew` | dom-manipulation/script.js:245-253 | the merged list starts with the old list unchanged and grows by at most the number of incoming quotes |
| `Seqs.AppendNewMembership` | dom-manipulation/script.js:247-253 | after the merge a pair is present exactly when it was present before or was incoming: every valid incoming pair ends up in `quotes`, and nothing else is added |
| `Seqs.AppendNewAppendsFresh` | dom-manipulation/script.js:248-251 | every appended pair was absent from the old list, and no pair is appended twice, including repeats inside the same file |
| `Seqs.AppendNewKeepsNoDuplicates` | dom-manipulation/script.js:247-253 | a list without duplicate pairs has none after the merge |
| `Seqs.AppendAbsentKeepsNoDuplicates` | dom-manipulation/script.js:182-188 | pushing a pair that `some` found absent keeps the list free of duplicates |
| `Seqs.AppendNewAllPresent` | dom-manipulation/script.js:247-253 | merging pairs that are all present already leaves the list as it is |
| `Seqs.AppendNewIdempotent` | dom-manipulation/script.js:247-253 | importing the same content a second time adds nothing |
| `Seqs.AppendNewCount` | dom-manipulation/script.js:246-253 | the number of appended pairs (the reported `added`) is the number of distinct incoming pairs the old list lacked |
| `Text.Trim` | dom-manipulation/script.js:172-173 | `trim` is leading trim followed by trailing trim; its result has no white space at either end and is no longer than the input |
| `Text.TrimStart` | dom-manipulation/script.js:172-173 | leading trim yields a suffix of the input, preceded only by white space, that does not start with white space |
| `Text.TrimEnd` | dom-manipulation/script.js:172-173 | trailing trim yields a prefix of the input, followed only by white space, that does not end with white space |
| `Text.TrimUnique` | dom-manipulation/script.js:172-173 | for white space, then a part with no white space at either end, then white space, `trim` yields exactly that part |
| `Text.TrimResult` | dom-manipulation/script.js:172-173 | the trimmed string has no white space at either end and is a slice of the input with only white space around it |
| `Text.TrimOfTrimmed` | dom-manipulation/script.js:238 | a string with no white space at either end is left as it is |
| `Text.TrimIdempotent` | dom-manipulation/script.js:238 | trimming twice is trimming once |
| `Text.TrimEmptyIffBlank` | dom-manipulation/script.js:172-175 | a trimmed field is empty, and so the form rejects it, exactly when the input is blank |
| `Quotes.IsQuoteObject` | dom-manipulation/script.js:53 | an item passes the filter exactly when it is an object whose `text` and `category` are both present and both strings (the test at :53 and :237) |
| `Quotes.ValidItems` | dom-manipulation/script.js:53 | the item filter keeps at most as many quotes as there were items |
| `Quotes.ValidItemsConcat` | dom-manipulation/script.js:53 | the item filter judges each item on its own and keeps the order: filtering a concatenation is concatenating the filtered parts |
| `Quotes.ValidItemsSingle` | dom-manipulation/script.js:53 | one item is kept, with its `text` and `category` as they are, exactly when both fields are strings |
| `Quotes.ValidItemsMembership` | dom-manipulation/script.js:236-237 | a quote survives the filter exactly when some item is an object whose `text` and `category` are those strings |
| `Quotes.TrimQuote` | dom-manipulation/script.js:238 | the `map` step of import: the same quote with `text` and `category` each trimmed |
| `Quotes.ImportedQuotes` | dom-manipulation/script.js:236-238 | defined as: the valid items in order, each with both fields trimmed; one quote per valid item |
| `Quotes.ImportedQuotesMembership` | dom-manipulation/script.js:236-238 | a quote is imported exactly when some item is an object with string `text` and `category` that reads as that quote once both are trimmed |
| `Quotes.ImportedAreTrimmed` | dom-manipulation/script.js:238 | every imported quote has both fields trimmed |
| `Quotes.ImportKeepsBlankFields` | dom-manipulation/script.js:236-243 | unlike the add form, import keeps every valid item whose text or category is blank and turns that field into the empty string |
| `Quotes.QuoteJson` | dom-manipulation/script.js:40 | the object written for one quote passes the load filter and reads back as that same quote |
| `Quotes.Encode` | dom-manipulation/script.js:40 | saving writes an array with one element per quote |
| `Quotes.ValidItemsOfEncode` | dom-manipulation/script.js:40 | every object that saving writes passes the load filter with its fields intact |
| `Quotes.Loaded` | dom-manipulation/script.js:46-63 | defined as: a stored text that parses to an array gives its quote objects as they are; an absent key, a text that does not parse, or a non-array value gives the three starter quotes |
| `Quotes.LoadAfterSave` | dom-manipulation/script.js:38-63 | loading what was saved gives back the same list, in order |
| `Quotes.ImportOfTrimmedEncode` | dom-manipulation/script.js:198-200 | reading an exported list of trimmed quotes as an import file gives the same list |
| `Quotes.ExportThenImportAddsNothing` | dom-manipulation/script.js:198-253 | importing an export of a list of trimmed quotes into that list adds nothing |
| `Quotes.StarterQuotesDistinct` | dom-manipulation/script.js:11-15 | the three starter quotes are pairwise distinct |
| `Display.DistinctCategories` | dom-manipulation/script.js:85 | `[...new Set(quotes.map(q => q.category))]`, the categories in order of first occurrence; there are at most as many as quotes |
| `Display.DistinctCategoriesSpec` | dom-manipulation/script.js:85 | the category list holds every category of `quotes` exactly once and nothing else |
| `Display.CategoryOptions` | dom-manipulation/script.js:85-100 | the drop-down always has an option, and the placeholder only ever appears alone |
| `Display.CategoryOptionsSpec` | dom-manipulation/script.js:85-100 | the drop-down is the single placeholder exactly when there are no quotes; otherwise its option values are the categories of `quotes`, each once |
| `Display.WithCategory` | dom-manipulation/script.js:106 | the category filter keeps at most the quotes there are |
| `Display.WithCategoryMembership` | dom-manipulation/script.js:106 | a quote passes the category filter exactly when it is in `quotes` with that category |
| `Display.WithCategoryConcat` | dom-manipulation/script.js:106 | the category filter judges each quote on its own and keeps the order |
| `Display.Filtered` | dom-manipulation/script.js:106 | the pool for a pick is all quotes for the empty selection, else the quotes with the selected category; never longer than the list |
| `Display.FilteredMembership` | dom-manipulation/script.js:106 | the pool for a pick is all quotes when the selection is empty, else exactly the quotes of the selected category |
| `Display.OfferedOptionsFindQuotes` | dom-manipulation/script.js:85-111 | every option the drop-down offers yields a non-empty pool unless there are no quotes at all |
| `Display.EmptyCategoryShowsAll` | dom-manipulation/script.js:85-111 | a quote with the empty category yields an option of value `""`, and picking it draws from every quote, because `""` reads as no selection |
| `QuoteStore.QuoteApp.constructor` | dom-manipulation/script.js:17 | the list starts empty; storage holds whatever it held |
| `QuoteStore.QuoteApp.Save` | dom-manipulation/script.js:38-44 | storage holds the encoded list, and reloading it would give the list back |
| `QuoteStore.QuoteApp.LoadFromStorage` | dom-manipulation/script.js:46-63 | a stored array yields its quote objects untrimmed and not deduplicated, and storage is left alone; anything else yields the starter quotes, which are saved and have no duplicate pair; afterwards reloading gives the list back |
| `QuoteStore.QuoteApp.AddQuote` | dom-manipulation/script.js:169-195 | a blank field or an existing pair leaves list and storage unchanged with the matching outcome; otherwise exactly the trimmed pair is appended and the list saved; duplicate-freedom and `Persisted()` are preserved |
| `QuoteStore.QuoteApp.MergeIncoming` | dom-manipulation/script.js:245-253 | the loop leaves `quotes` equal to the merge of the old list with the incoming quotes, and `added` equal to the number appended |
| `QuoteStore.QuoteApp.ImportFromJson` | dom-manipulation/script.js:226-267 | a parse failure, a non-array root or no valid item changes nothing; otherwise the trimmed valid quotes are merged, `added` is the growth, and storage is written only when `added > 0`; duplicate-freedom and `Persisted()` are preserved |
| `QuoteStore.QuoteApp.ShowRandomQuote` | dom-manipulation/script.js:104-115 | nothing is shown exactly when the pool is empty; otherwise the shown quote is in the pool, so it is in `quotes` and has the selected category when one is selected |

## Left out

- Rendering, `alert` and event wiring are left out as presentation. This covers `createAddQuoteForm`, `showAllQuotes`, option elements, `textContent`, clearing the form fields after an add, and `attachEventListeners`. Each alert is modelled as an outcome value.
- `sessionStorage` for the last viewed quote is left out as host I/O. This covers `saveLastViewedToSession`, `getLastViewedFromSession` and `restoreLastViewedQuote`.
- `JSON.parse` and `JSON.stringify` are not modelled. They are foreign code. Their results are the `Json`/`ParseResult` values, and a parse of what was stringified is taken to be the original value.
- Strings are modelled as sequences of Unicode scalar values, while JavaScript strings are UTF-16 code units. A string with an unpaired surrogate, such as the parse of `"\uD800"`, has no counterpart in the model. Trimming and equality agree with the page on every string the model can hold.
- JSON numbers are kept as reals. No quote field is ever a number, so their exact representation does not matter.
- A failed `localStorage.setItem` is not modelled. The source only logs it. The model treats every save as succeeding.
- Extra fields of stored objects are not modelled. Loading keeps the stored objects whole, and a later save writes any extra fields back. The model keeps only `text` and `category`.
- `Display.CategoryOptionsSpec`: does not state the `localeCompare` order of the options. That order depends on the locale. The model lists categories in order of first occurrence and proves membership and distinctness only.
- `Math.random` is not modelled. The pick is any index of the pool.
- The export is modelled by its content only (`Quotes.Encode`). The `Blob`, the object URL and the file name built from the clock are host I/O.
- The import handler's early return when there is no file and the `FileReader` error path are left out. Neither touches the list or storage.
- The drop-down is not kept as state. It is a function of `quotes` (`Display.CategoryOptions`), rebuilt after loading, after an add and after an import that added something. An import that adds nothing leaves `quotes`, and so the drop-down, as it was.
