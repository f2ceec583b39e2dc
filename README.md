# woll-pilot: the wollplatz.de scraper and its product store, in Dafny

woll-pilot collects yarn offers from wollplatz.de. Its `WollplatzScraper` does two things:

- It builds a search URL for a search term.
- It reads product references off the search results page, then reads one record per product off its detail page: name, price, needle size, composition and availability.

Each record is then upserted by name into a MongoDB `products` collection. This project models that pipeline's logic:

- **`Models`** (`models.dfy`): the `Price`, `ProductMetaInformation` and `Product` records, and the two `__str__` texts. Each text comes with a parser that recovers what the text shows.
- **`Text`** (`text.dfy`): Python truthiness of optional strings, `str.strip` over the full Unicode whitespace table that CPython's `str.isspace` uses, and the first-occurrence search `str.find`.
- **`Utf8`** (`utf8.dfy`): UTF-8 encoding of a string, and a strict decoder that inverts it.
- **`Percent`** (`percent.dfy`): `urllib.parse.quote` with its default safe character `/`. It works on the UTF-8 bytes, keeps ASCII letters, digits and `_.-~/`, and writes every other byte as `%XX` with upper-case hex. The module also has the percent-decoder `unquote_to_bytes`, with the round trip between the two proved.
- **`Urls`** (`urls.dfy`): the parts of CPython 3.12's `urllib.parse` that `urljoin` uses against an https base with an empty path:
  - the cleaning `urlsplit` does first (leading C0 controls and spaces stripped, tabs, carriage returns and line feeds deleted);
  - the split into scheme, authority, path, parameters, query and fragment, with the `ValueError` for an unbalanced "[" or "]" in the authority;
  - dot-segment resolution against the root;
  - `urlunsplit` for https as CPython 3.12.13 writes it, including the branches for an empty authority, where "//" is still written before an empty path or one starting with "/".
- **`Scraper`** (`scraper.dfy`):
  - the search URL and the listing item parser;
  - `urljoin` against the site's base URL, on the `Urls` model;
  - the listing of `find_products`, as a method with loops;
  - the specification-table fold of `_parse_details_table`, as a method with a loop;
  - record assembly and validation in `get_product`;
  - the `WollplatzScraper` class itself. Its `page` attribute is a flag, and the URLs it navigates to are kept in a sequence.
- **`Database`** (`database.dfy`): the `products` collection as a class holding a sequence of documents with unique names. Each document carries the store's own `_id`. `insert_product` is the name-keyed upsert, with store failures swallowed. `get_products` lists the records without their `_id`. The lemmas cover:
  - what one upsert does;
  - idempotence;
  - the collapse of same-named records;
  - the map view of the store;
  - replaying a task's sequence of upserts after a complete or a partial run.
- **`Wrappers`** (`wrappers.dfy`): `Option` and `Result`.

The browser is replaced by data:

- A search results page is whether its results container appeared, plus its result items.
- A result item is its optional `data-id` and its title links, each with an optional `title` and `href`.
- A detail page is whether its specification panel appeared, the optional title, price-content and stock texts, and the specification table.
- A table is a sequence of rows; a row is the optional text of each cell.

Exceptions become `Result` failures (`ScrapeError`). A store failure is a boolean parameter of the store's methods.

### Where the code and its documented intent differ

The model follows the code in each of these cases:

- **Needle-size label.** The needle size is looked up under the literal `"Nadelst√§rke"` (`wool_pilot/scrapers.py:191`), a mis-decoded `"Nadelstärke"`. The scraper's tests expect the key `"Nadelstärke"` to fill `needle_size` (`wool_pilot/test_scrapers.py:260,278`). With the lookup as written, a real table never fills it: `Scraper.SnippetTableLookups` shows that the table of `wool_pilot/test_scrapers.py:394-460` has a `"Nadelstärke"` entry, yet the label finds nothing. `Scraper.NeedleSizeLabel` keeps the literal.
- **Product name.** The record's name is the title text unstripped. The title link's `title` is read and stripped but never used.
- **Empty cells.** A row counts as an entry when its raw cell texts are non-empty. A key or value of whitespace only therefore becomes `""`.
- **`get_products` never returns `None` on success.** Its `if not product_data` test checks a cursor, which is always truthy. The model returns `None` only when the store fails, and an empty list for an empty store.

## Model

| member | source | states |
|---|---|---|
| Models.PriceDefaultCurrency | wool_pilot/models.py:4-9 | a `Price` built from an amount alone has that amount and currency "EUR" |
| Models.PriceText | wool_pilot/models.py:11-12 | `str(price)` is the currency, one space, then the amount, position by position |
| Models.PriceTextRoundTrip | wool_pilot/models.py:11-12 | the text of a price determines the price whenever the currency has no space |
| Models.IdAndPriceRoundTrip | wool_pilot/models.py:35-36 | after the id label, the id and the price are read back whenever the id has no "," |
| Models.ProductText | wool_pilot/models.py:35-36 | `str(product)` starts with the name and the id label and ends with ")", and its first "(" is the one after the name when the name has none |
| Models.ProductTextRoundTrip | wool_pilot/models.py:35-36 | `str(product)` shows exactly name, id and price: they are recovered from it when the name has no "(" and the id no ",", and the text does not depend on url or the optional fields |
| Text.Strip | wool_pilot/scrapers.py:113 | the result is the slice of the input after the leading whitespace, with whitespace only behind it, and neither end of it is whitespace |
| Text.StripUnique | wool_pilot/scrapers.py:113 | any slice of the input bounded by whitespace runs, with non-space ends, is the stripped text |
| Text.StripIdempotent | wool_pilot/scrapers.py:193 | stripping a stripped text changes nothing |
| Text.StripEmptyIffAllSpace | wool_pilot/scrapers.py:112-113 | the stripped text is empty exactly when the input is all whitespace |
| Utf8.EncodeChar | wool_pilot/scrapers.py:70 | a character encodes to 1 to 4 bytes: one byte below 0x80 exactly for ASCII, and continuation bytes after the first |
| Utf8.DecodeEncodedChar | wool_pilot/scrapers.py:70 | decoding the front of a character's encoding gives the character back, with the number of bytes it used |
| Utf8.DecodeEncode | wool_pilot/scrapers.py:70 | decoding the UTF-8 encoding of any string gives the string back |
| Utf8.EncodeInjective | wool_pilot/scrapers.py:70 | different strings have different encodings |
| Percent.Quote | wool_pilot/scrapers.py:70 | `quote(s)` consists only of safe characters and `%XX` escapes with upper-case hex digits |
| Percent.QuoteBytesRoundTrip | wool_pilot/scrapers.py:70 | quoted bytes consist only of safe characters and upper-case `%XX` escapes, and percent-decoding gives the bytes back |
| Percent.QuoteRoundTrip | wool_pilot/scrapers.py:70 | `quote(s)` is well formed, percent-decodes to the UTF-8 bytes of `s`, and those decode to `s` |
| Percent.QuoteAppend | wool_pilot/scrapers.py:70 | quoting distributes over concatenation |
| Percent.QuoteSafe | wool_pilot/scrapers.py:70 | a text of safe characters only is left as it is |
| Percent.QuoteUnsafeAscii | wool_pilot/scrapers.py:70 | an unsafe ASCII character becomes `%` and its two upper-case hex digits |
| Scraper.BuildSearchUrl | wool_pilot/scrapers.py:67-73 | the URL is the fixed prefix, a well-formed quoted middle that percent-decodes to the term's UTF-8 bytes, and the fixed suffix |
| Scraper.SearchUrlRoundTrip | wool_pilot/scrapers.py:67-73 | the search term is read back from its search URL |
| Scraper.BuildSearchUrlInjective | wool_pilot/scrapers.py:67-73 | different search terms give different URLs |
| Scraper.SearchAffixes | wool_pilot/scrapers.py:72 | the URL template around the term is `https://www.wollplatz.de/?#sqr:(q%5B` and `%5D)` |
| Scraper.SearchUrlSafeTerm | wool_pilot/test_scrapers.py:70-73 | a term of safe characters, like "wool", goes into the template unchanged |
| Scraper.SearchUrlSpaces | wool_pilot/test_scrapers.py:75-78 | safe words separated by single spaces, like "DMC Natura XL", keep their words and get `%20` per space |
| Scraper.SearchUrlAmpersand | wool_pilot/test_scrapers.py:80-83 | two safe words joined by " & ", like "wool & yarn", get `%20%26%20` between them |
| Urls.Clean | wool_pilot/scrapers.py:92 | the reference `urlsplit` parses has no leading C0 control or space and no tab, carriage return or line feed, and a reference that has none is parsed as it is |
| Urls.CleanStripsLeading | wool_pilot/scrapers.py:92 | a leading run of C0 controls and spaces is removed entirely, and what follows it only loses its tabs, carriage returns and line feeds |
| Urls.CleanDropsUnsafe | wool_pilot/scrapers.py:92 | a tab, carriage return or line feed inside an otherwise clean reference is deleted as if it were not there |
| Urls.SchemeEnd | wool_pilot/scrapers.py:92 | a scheme ends at the first ":" exactly when that ":" is preceded by an ASCII letter and then scheme characters only; a reference that starts otherwise, or has no ":", has none |
| Urls.AsciiLower | wool_pilot/scrapers.py:92 | the scheme is lower-cased character by character, and a lower-case scheme is unchanged |
| Urls.SplitScheme | wool_pilot/scrapers.py:92 | without a scheme, the default scheme and the whole reference; with one, the scheme lower-cased and the text after its ":", which with the scheme as written and the ":" makes up the input |
| Urls.SplitOnce | wool_pilot/scrapers.py:92 | `s.split(c, 1)`: the first part has no `c`, the second is present exactly when `s` has a `c`, and the parts around the `c` make up `s` |
| Urls.SplitOnceOf | wool_pilot/scrapers.py:92 | a text without `c`, then `c` and a second part, splits back into those two parts |
| Urls.SplitAuthority | wool_pilot/scrapers.py:92 | after "//" the authority runs up to the first "/", "?" or "#", and "//", the authority and the rest make up the input |
| Urls.SplitParams | wool_pilot/scrapers.py:92 | the parameters follow the first ";" after the last "/": the path's last segment has no ";", the parameters have no "/", and the path, the ";" and the parameters make up the input; a path without ";" has none |
| Urls.SplitTail | wool_pilot/scrapers.py:92 | the fragment follows the first "#", the query the first "?" before it, the parameters a ";" of the last segment before that; the parts with their separators make up the input, and a text without "#", "?" or ";" is a path alone |
| Urls.SplitTailOf | wool_pilot/scrapers.py:92 | a path without "?", "#" or ";" followed by an optional query without "#" and an optional fragment splits back into those parts |
| Urls.Parse | wool_pilot/scrapers.py:92 | no result (the `ValueError`) exactly when the authority has a "[" without a "]" or the reverse; otherwise the authority holds no "/", "?" or "#", the path holds no "?" or "#", the query no "#", the scheme is the lower-cased scheme of the cleaned reference or the default, and a reference with neither a scheme nor "//" has no authority |
| Urls.ParseReassembles | wool_pilot/scrapers.py:92 | the parsed parts are the reference's own split: the scheme as written is the one `SchemeEnd` finds, the authority the one `SplitAuthority` finds after "//", and parameters, query and fragment those `SplitTail` finds; put back in order after their separators, they spell out the cleaned reference |
| Urls.ParseRootedPath | wool_pilot/scrapers.py:92 | a clean reference starting with a single "/" has the default scheme, no authority, and the path, parameters, query and fragment of its tail |
| Urls.ParsePathQueryFragment | wool_pilot/scrapers.py:92 | a clean absolute path, "?", a query, "#" and a fragment parse into exactly that path, query and fragment |
| Urls.ParsePlainPath | wool_pilot/scrapers.py:92 | a clean absolute path without query, fragment or parameters parses as that path alone |
| Urls.ParseSchemePlainPath | wool_pilot/scrapers.py:92 | "https:" before such a path parses as scheme https, no authority and that path |
| Urls.ParseAuthorityPath | wool_pilot/scrapers.py:92 | "//", an authority and such a path parse as that authority and path |
| Urls.JoinSplit | wool_pilot/scrapers.py:92 | joining the "/"-separated pieces of a path gives the path back |
| Urls.RemoveDotSegmentsKeepsPlain | wool_pilot/scrapers.py:92 | segments without "." or ".." are kept as they are |
| Urls.ResolveAbsolutePath | wool_pilot/scrapers.py:92 | an absolute path without dot segments resolves to itself |
| Urls.UnsplitHttps | wool_pilot/scrapers.py:92 | with an authority, the URL is "https://", the authority, then nothing or a "/", "?" or "#" |
| Urls.UnsplitPlainPath | wool_pilot/scrapers.py:92 | with an authority, a path that is empty or starts with "/", and no query or fragment, the URL is "https://", the authority and the path |
| Urls.UnsplitWithoutAuthority | wool_pilot/scrapers.py:92 | without an authority, "//" is written before an empty path or one starting with "/" (giving "https://", "https:///x", "https:////x") but not before a relative path ("https:x?q") |
| Urls.ParseUnsplitHttps | wool_pilot/scrapers.py:92 | parsing what `urlunsplit` writes gives back the scheme https, the authority, the path (rooted after an authority), the query and the fragment, for any parts `urlsplit` can produce without tabs or line breaks |
| Scraper.JoinWithBase | wool_pilot/scrapers.py:91-92 | `urljoin(base, "")` is the base |
| Scraper.JoinWithBaseSameOrigin | wool_pilot/scrapers.py:92 | every reference that parses without another scheme and without an authority, including one with leading spaces, embedded tabs, "https:" or dot segments, joins to the base followed by nothing or a path, query or fragment |
| Scraper.JoinWithBaseElsewhere | wool_pilot/scrapers.py:92 | a reference that does not parse gives no URL (the `ValueError`), one with another scheme is kept verbatim, and one with its own authority leads to that authority |
| Scraper.JoinWithBaseAbsolutePath | wool_pilot/scrapers.py:92 | a clean absolute path without query, fragment, parameters or dot segments is appended to the base |
| Scraper.JoinWithBaseSameScheme | wool_pilot/scrapers.py:92 | "https:" before such a path is resolved as that path on the site |
| Scraper.JoinWithBaseHiddenAuthority | wool_pilot/scrapers.py:92 | "/", a tab, carriage return or line feed, "/", a host and a path lead to that host, not to a path on the site |
| Scraper.ParseListingItem | wool_pilot/scrapers.py:75-101 | nothing exactly when `data-id` is missing or empty, there is no title link, or joining the first link's `href` (or "") to the base raises `ValueError`; otherwise the `data-id` verbatim and that joined URL |
| Scraper.ParseListingItemIgnoresTitle | wool_pilot/scrapers.py:85-97 | only the first title link's `href` matters: its title and any later links do not |
| Scraper.ParseListingItemAbsolutePath | wool_pilot/test_scrapers.py:86-110 | an item with a non-empty id and a clean absolute-path `href` without query, fragment, parameters or dot segments, like "12345" with "/products/test-wool", gives that id and the base followed by the path, whatever the title |
| Scraper.ParseAll | wool_pilot/scrapers.py:144-147 | one parse result per result item, in item order |
| Scraper.Listing | wool_pilot/scrapers.py:144-148 | the listing is never longer than the result items |
| Scraper.ListingMembership | wool_pilot/scrapers.py:142-148 | a reference is listed exactly when some item parses to it, and the listing is never longer than the items |
| Scraper.ListingAppend | wool_pilot/scrapers.py:142-148 | the listing of two runs of items is the listing of the first, then of the second (order is kept) |
| Scraper.ListingSkipsMalformed | wool_pilot/scrapers.py:148 | an item that does not parse is dropped without affecting the items around it |
| Scraper.CollectListing | wool_pilot/scrapers.py:142-148 | the parse-then-filter loops produce exactly the listing of the items |
| Scraper.ParseItems | wool_pilot/scrapers.py:144-147 | the first comprehension parses every result item, in item order |
| Scraper.KeepParsed | wool_pilot/scrapers.py:148 | the second comprehension keeps exactly the parsed references, in order |
| Scraper.Lookup | wool_pilot/scrapers.py:191-192 | `dict.get` gives a value exactly for a present key, and that key's value |
| Scraper.DetailsOf | wool_pilot/scrapers.py:103-114 | the table has at most one entry per row |
| Scraper.DetailsStripped | wool_pilot/scrapers.py:112-113 | every key and value of the table has no surrounding whitespace |
| Scraper.DetailsLastRowWins | wool_pilot/scrapers.py:103-114 | looking a key up in the parsed table gives the stripped value of the last entry row with that stripped key, and nothing when there is none |
| Scraper.DetailsKeys | wool_pilot/scrapers.py:103-114 | the keys of the parsed table are exactly the stripped keys of rows with two cells and non-empty raw texts |
| Scraper.DetailsIgnoreOtherRows | wool_pilot/scrapers.py:109-113 | a row without exactly two non-empty cells leaves the table unchanged, wherever it stands |
| Scraper.ParseDetailsTable | wool_pilot/scrapers.py:103-114 | the row loop builds exactly the table of its rows |
| Scraper.ProductFromPage | wool_pilot/scrapers.py:165-198 | failure exactly when the panel times out or the name or price content is missing or empty, with the matching error; otherwise meta as given, name unstripped and price (amount, "EUR") |
| Scraper.ProductOptionalFields | wool_pilot/scrapers.py:178-193 | needle size and composition are the last table entries under their labels, or nothing; availability is present exactly when the stock text is non-empty, and is that text stripped |
| Scraper.PlainEntryRow | wool_pilot/scrapers.py:112-113 | a row whose texts have no surrounding whitespace is keyed by its raw texts |
| Scraper.LastEntryForThree | wool_pilot/scrapers.py:107-113 | in a three-row table, a key takes the value of the last entry row with that key |
| Scraper.SnippetRows | wool_pilot/test_scrapers.py:394-460 | the three rows of the HTML-snippet test are entry rows, keyed by their texts as written |
| Scraper.SnippetTableLookups | wool_pilot/scrapers.py:191-192 | for the tested three-row table, "Nadelstärke" and the composition are in the table, yet the needle-size label finds nothing |
| Scraper.WollplatzScraper.constructor | wool_pilot/scrapers.py:16-20 | a new scraper keeps `headless`, has no page and has navigated nowhere |
| Scraper.WollplatzScraper.FindProducts | wool_pilot/scrapers.py:116-148 | without a page it fails with the "not initialized" RuntimeError before navigating; otherwise it navigates to the search URL, then times out if the results container is missing, and otherwise returns the listing |
| Scraper.WollplatzScraper.GetProduct | wool_pilot/scrapers.py:154-198 | without a page it fails with the "not initialized" RuntimeError before navigating; otherwise it navigates to the product URL and returns what the page gives |
| Database.IndexOfName | wool_pilot/database.py:15 | the filter `{"name": name}` finds the first document with that name, and finds nothing only when no document has it |
| Database.Upsert | wool_pilot/database.py:14-18 | the first document named `p.name` is the old one at the same place, or a new one at the end when there was none, and holds `p`; every old document keeps its `_id`, documents of other names are untouched, a new document has the fresh `_id`, and the count grows only for a new name |
| Database.UpsertStoresRecord | wool_pilot/database.py:13-18 | after an upsert, names stay unique, and the store holds a record named `p.name` in which every record of that name equals `p` |
| Database.UpsertKeepsOthers | wool_pilot/database.py:14-15 | every document keeps its place, `_id` and name, documents of other names are untouched, and a new document is `p` with the fresh `_id` |
| Database.UpsertCount | wool_pilot/database.py:14-18 | the count grows by one exactly when no record had the name, and is unchanged otherwise |
| Database.UpsertIdempotent | wool_pilot/database.py:14-18 | upserting the same record twice gives the store of upserting it once |
| Database.UpsertCollapsesSameName | wool_pilot/database.py:15 | two records with one name, whatever their ids, leave only the later one |
| Database.UpsertContents | wool_pilot/database.py:14-18 | in the name-to-record view, an upsert is a map update |
| Database.UpsertAllShape | wool_pilot/database.py:14-18 | over a run of upserts, old documents keep place, `_id` and name and change only if the run names them; new documents carry names from the run |
| Database.UpsertAllResult | wool_pilot/database.py:14-18 | after a run of upserts every upserted name is stored, holding the last record with that name |
| Database.UpsertAllOverwrites | wool_pilot/database.py:14-18 | upserts of names that are all present overwrite in place and allocate no `_id` |
| Database.UpsertAll | tasks.py:37-39 | a run of upserts adds at most one document per record and never removes one, and the `_id` counter advances by exactly the number of documents added |
| Database.UpsertAllReplay | tasks.py:37-39 | replaying a task's whole upsert sequence on a retry leaves the store as the first run left it |
| Database.UpsertAllConcat | tasks.py:37-39 | upserting one run of records and then another is upserting the two runs one after the other |
| Database.RetryAfterPartialRun | tasks.py:21-39 | a task that stopped after any number of its upserts and is retried from the start leaves the store as one uninterrupted run would |
| Database.ProductsOf | wool_pilot/database.py:34-36 | one product per stored document, in store order, without the `_id` |
| Database.ProductStore.InsertProduct | wool_pilot/database.py:11-24 | a store failure changes nothing and gives nothing back; otherwise the collection is the name-keyed upsert of `p`, the new `_id` is returned only for an insert, and unique names and `_id`s are kept |
| Database.ProductStore.GetProducts | wool_pilot/database.py:27-41 | nothing on a store failure; otherwise every stored record without its `_id`, in store order |

## Left out

- Browser session and timing: `start`/`close`, stealth, `goto`, `wait_for_selector`, `wait_for_timeout` and the async context manager (`wool_pilot/scrapers.py:22-48`). A missing container or panel is a flag on the page data. `Scraper.WollplatzScraper.Start` only sets the page flag.
- Scraper.WollplatzScraper.FindProducts: a Python `str` may hold a lone surrogate, which a Dafny string cannot. `quote` then raises `UnicodeEncodeError` (`wool_pilot/scrapers.py:70`). The search URL is built at `wool_pilot/scrapers.py:123`, before the `try`, so `find_products` raises before navigating. The model has no such input.
- Urls.UnsplitHttps: its own contract states only the scheme and the authority prefix. The path, query and fragment it writes are pinned by `Urls.ParseUnsplitHttps`, `Urls.UnsplitPlainPath` and `Urls.UnsplitWithoutAuthority`.
- Scraper.Listing: its own contract gives only the length bound. Which references are listed, and in which order, is stated by `Scraper.ListingMembership`, `Scraper.ListingAppend` and `Scraper.CollectListing`.
- Scraper.DetailsOf: its own contract gives only the size bound. Its keys and values are stated by `Scraper.DetailsKeys`, `Scraper.DetailsLastRowWins` and `Scraper.DetailsStripped`.
- Scraper.ParseListingItem: apart from the `ValueError` of `urljoin`, an exception raised while inspecting the element (turned into `None` at `wool_pilot/scrapers.py:99-101`) is not modelled. The element's attributes are given as data.
- Scraper.ProductFromPage: a detail element that is absent makes Playwright time out. In the model it is a `None` text, which `get_product` then treats as missing.
- Scraper.JoinWithBase: follows CPython 3.12's `urllib.parse`. Two checks of `urlsplit` that apply only to a non-empty authority are not modelled. One validates a bracketed host as an IPv6 address. The other is the NFKC check on a non-ASCII authority. Where either would raise `ValueError`, the model joins.
- Scraper.JoinWithBaseElsewhere: for the same reason, a reference with its own authority that Python rejects by those two checks leads in the model to that authority rather than to no URL.
- Database.ProductStore.InsertProduct: MongoDB's `ObjectId` generation is replaced by a counter. Logging is not modelled. A failure is either all or nothing.
- Database.ProductStore.GetProducts: rebuilding a `Product` from a stored dict is the identity on the record. Nested dicts and type conversion are not modelled.
- `BaseScraper`'s `NotImplementedError` stubs (`wool_pilot/scrapers.py:50-58`) are not part of this model, because `WollplatzScraper` overrides both.
- `tasks.py` (the Celery task, retries and `asyncio.run`) is not part of this model. Only its sequential loop of upserts is, as `Database.UpsertAll`.
- Database.RetryAfterPartialRun: `insert_product` swallows a store failure and returns `None` (`wool_pilot/database.py:19-24`), so such a failure does not stop the task's loop or trigger a retry. `Database.UpsertAll` has no failing step, so the retry lemmas assume that no upsert of the first run failed silently.
- `api.py`, `main.py` and `wool_pilot/logger.py`: the HTTP handlers, the command line and the logging setup are not part of this model.
- Concurrency: concurrent writers to the collection are not modelled.
