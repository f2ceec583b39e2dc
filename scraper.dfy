/**
 * The extraction logic of `WollplatzScraper` (wool_pilot/scrapers.py). The
 * browser is replaced by the page contents it would show: a results page is
 * a sequence of listing items, a detail page its texts and the rows of its
 * specification table.
 */
module Scraper {
  import opened Wrappers
  import opened Text
  import opened Utf8
  import opened Percent
  import opened Models
  import opened Urls

  const BaseHost := "www.wollplatz.de"
  const BaseUrl := "https://" + BaseHost
  const SearchPrefix := BaseUrl + "/?#sqr:(q%5B"
  const SearchSuffix := "%5D)"

  const ResultsContainerSelector := "div.sooqrSearchContainer"
  const SpecsPanelSelector := "div.pdetail-specsholder"
  const NotInitializedMessage := "Scraper not initialized. Use async context manager or call start() first."
  const MissingFieldsMessage := "Product name or price not found"

  /**
   * The needle-size label exactly as the scraper looks it up: a mis-decoded
   * "Nadelstärke" (U+221A U+00A7 where "ä" was meant).
   */
  const NeedleSizeLabel := "Nadelst\U{221A}\U{00A7}rke"
  const CompositionLabel := "Zusammenstellung"
  const Currency := "EUR"

  /** The exceptions the scraper raises. */
  datatype ScrapeError =
    | RuntimeError(message: string)
    | ValueError(message: string)
    | TimeoutError(selector: string)

  // ---------------------------------------------------------------------------
  // Search URL

  /**
   * `_build_search_url`: the percent-encoded term between a fixed prefix and
   * suffix. The middle part holds only safe characters and upper-case `%XX`
   * escapes, and percent-decoding it gives the term's UTF-8 bytes.
   */
  function BuildSearchUrl(term: string): (url: string)
    ensures |SearchPrefix| + |SearchSuffix| <= |url|
    ensures url[..|SearchPrefix|] == SearchPrefix
    ensures url[|url| - |SearchSuffix|..] == SearchSuffix
    ensures IsQuoted(url[|SearchPrefix|..|url| - |SearchSuffix|])
    ensures Unquote(url[|SearchPrefix|..|url| - |SearchSuffix|]) == Encode(term)
  {
    var encoded := Quote(term);
    QuoteRoundTrip(term);
    var url := SearchPrefix + encoded + SearchSuffix;
    assert url[|SearchPrefix|..|url| - |SearchSuffix|] == encoded;
    url
  }

  /** Reads the search term back out of a search URL. */
  function SearchTermOf(url: string): Option<string>
  {
    if |url| < |SearchPrefix| + |SearchSuffix|
      || url[..|SearchPrefix|] != SearchPrefix
      || url[|url| - |SearchSuffix|..] != SearchSuffix
    then None
    else Decode(Unquote(url[|SearchPrefix|..|url| - |SearchSuffix|]))
  }

  lemma SearchUrlRoundTrip(term: string)
    ensures SearchTermOf(BuildSearchUrl(term)) == Some(term)
  {
    DecodeEncode(term);
  }

  /** Different search terms lead to different URLs. */
  lemma BuildSearchUrlInjective(s: string, t: string)
    requires BuildSearchUrl(s) == BuildSearchUrl(t)
    ensures s == t
  {
    SearchUrlRoundTrip(s);
    SearchUrlRoundTrip(t);
  }

  lemma BuildSearchUrlParts(term: string)
    ensures BuildSearchUrl(term) == SearchPrefix + Quote(term) + SearchSuffix
  {
  }

  /** The fixed parts of a search URL, spelled out. */
  lemma SearchAffixes()
    ensures SearchPrefix == "https://www.wollplatz.de/?#sqr:(q%5B"
    ensures SearchSuffix == "%5D)"
  {
  }

  /**
   * A term of safe characters only, like "wool" in the scraper's tests, goes
   * into the URL unchanged.
   */
  lemma SearchUrlSafeTerm(term: string)
    requires forall k | 0 <= k < |term| :: IsSafeChar(term[k])
    ensures BuildSearchUrl(term) == SearchPrefix + term + SearchSuffix
  {
    QuoteSafe(term);
    BuildSearchUrlParts(term);
  }

  lemma QuoteJoin(x: string, sep: string, y: string, qx: string, qsep: string, qy: string)
    requires Quote(x) == qx && Quote(sep) == qsep && Quote(y) == qy
    ensures Quote(x + sep + y) == qx + qsep + qy
  {
    QuoteAppend(x, sep);
    QuoteAppend(x + sep, y);
  }

  /** A space is written `%20`. */
  lemma QuoteSpace(sp: string)
    requires sp == " "
    ensures Quote(sp) == "%20"
  {
    QuoteUnsafeAscii(' ');
  }

  /**
   * Words of safe characters separated by single spaces, like "DMC Natura XL"
   * in the scraper's tests, keep their words and get `%20` for each space.
   */
  lemma SearchUrlSpaces(a: string, b: string, c: string)
    requires forall k | 0 <= k < |a| :: IsSafeChar(a[k])
    requires forall k | 0 <= k < |b| :: IsSafeChar(b[k])
    requires forall k | 0 <= k < |c| :: IsSafeChar(c[k])
    ensures BuildSearchUrl(a + " " + b + " " + c) == SearchPrefix + (a + "%20" + b + "%20" + c) + SearchSuffix
  {
    var sp, esc := " ", "%20";
    QuoteSpace(sp);
    QuoteSafe(a);
    QuoteSafe(b);
    QuoteSafe(c);
    QuoteJoin(a, sp, b, a, esc, b);
    QuoteJoin(a + sp + b, sp, c, a + esc + b, esc, c);
    BuildSearchUrlParts(a + sp + b + sp + c);
  }

  /** " & " is written `%20%26%20`. */
  lemma QuoteSpacedAmpersand(mid: string)
    requires mid == " & "
    ensures Quote(mid) == "%20%26%20"
  {
    QuoteUnsafeAscii(' ');
    QuoteUnsafeAscii('&');
    QuoteAppend(" ", "&");
    assert " " + "&" == " &";
    QuoteAppend(" &", " ");
    assert " &" + " " == mid;
  }

  /**
   * Two words of safe characters joined by " & ", like "wool & yarn" in the
   * scraper's tests, get `%20%26%20` between them.
   */
  lemma SearchUrlAmpersand(a: string, b: string)
    requires forall k | 0 <= k < |a| :: IsSafeChar(a[k])
    requires forall k | 0 <= k < |b| :: IsSafeChar(b[k])
    ensures BuildSearchUrl(a + " & " + b) == SearchPrefix + (a + "%20%26%20" + b) + SearchSuffix
  {
    var mid, esc := " & ", "%20%26%20";
    QuoteSafe(a);
    QuoteSafe(b);
    QuoteSpacedAmpersand(mid);
    QuoteJoin(a, mid, b, a, esc, b);
    BuildSearchUrlParts(a + mid + b);
  }

  // ---------------------------------------------------------------------------
  // Listing items

  /** A title link of a result item: its `title` and `href` attributes. */
  datatype TitleLink = TitleLink(title: Option<string>, href: Option<string>)

  /** A result item: its `data-id` attribute and the title links found in it, in document order. */
  datatype ListingItem = ListingItem(dataId: Option<string>, titleLinks: seq<TitleLink>)

  /** The results page after navigation: whether the results container appeared, and the result items. */
  datatype ResultsPage = ResultsPage(containerRendered: bool, items: seq<ListingItem>)

  /**
   * `urljoin(BaseUrl, href)`. An empty reference gives the base; a
   * reference `urlsplit` rejects raises `ValueError` (None); one with
   * another scheme comes back verbatim; one with an authority of its own
   * keeps it; anything else is resolved against the base's authority and
   * its empty path.
   */
  function JoinWithBase(href: string): (r: Option<string>)
    ensures href == "" ==> r == Some(BaseUrl)
  {
    if href == "" then Some(BaseUrl)
    else
      match Parse(href, "https")
      case None => None
      case Some(u) => Some(JoinParts(href, u))
  }

  /** The join once the reference has been split into `u`. */
  function JoinParts(href: string, u: UrlParts): string
  {
    if u.scheme != "https" then href
    else if u.netloc != "" then UnsplitHttps(u.netloc, WithParams(u.path, u.params), u.query, u.fragment)
    else if u.path == "" && u.params == "" then UnsplitHttps(BaseHost, "", u.query, u.fragment)
    else UnsplitHttps(BaseHost, WithParams(ResolveFromRoot(u.path), u.params), u.query, u.fragment)
  }


  /** A URL on the site: the base, then nothing or a path, query or fragment. */
  predicate OnSite(url: string)
  {
    StartsWith(url, BaseUrl) && (|url| == |BaseUrl| || IsAuthorityEnd(url[|BaseUrl|]))
  }

  /** A reference `urlsplit` accepts and reads without a scheme other than https and without an authority. */
  predicate IsRelativeReference(href: string)
  {
    href == "" || (Parse(href, "https").Some? && Parse(href, "https").value.scheme == "https" && Parse(href, "https").value.netloc == "")
  }

  /**
   * A relative reference stays on the site, whatever its path, query,
   * fragment or dot segments: the result is the base followed by a path,
   * query or fragment.
   */
  lemma JoinWithBaseSameOrigin(href: string)
    requires IsRelativeReference(href)
    ensures JoinWithBase(href).Some? && OnSite(JoinWithBase(href).value)
  {
  }

  /**
   * The other references: one `urlsplit` rejects gives None, one with
   * another scheme is kept verbatim, and one with an authority of its own
   * leads to that authority.
   */
  lemma JoinWithBaseElsewhere(href: string)
    requires href != "" && !IsRelativeReference(href)
    ensures Parse(href, "https").None? ==> JoinWithBase(href).None?
    ensures Parse(href, "https").Some? && Parse(href, "https").value.scheme != "https" ==> JoinWithBase(href) == Some(href)
    ensures Parse(href, "https").Some? && Parse(href, "https").value.scheme == "https" ==>
      var authority := "https://" + Parse(href, "https").value.netloc;
      && JoinWithBase(href).Some?
      && StartsWith(JoinWithBase(href).value, authority)
      && (|JoinWithBase(href).value| == |authority| || IsAuthorityEnd(JoinWithBase(href).value[|authority|]))
  {
  }

  /** A reference that parses as an absolute path without dot segments and nothing else leads to that path on the site. */
  lemma JoinWithBaseParsedPath(href: string, path: string)
    requires href != "" && Parse(href, "https") == Some(UrlParts("https", "", path, "", "", ""))
    requires StartsWith(path, "/") && HasNoDotSegments(path)
    ensures JoinWithBase(href) == Some(BaseUrl + path)
  {
    JoinPartsPlainPath(href, path);
  }

  lemma JoinPartsPlainPath(href: string, path: string)
    requires StartsWith(path, "/") && HasNoDotSegments(path)
    ensures JoinParts(href, UrlParts("https", "", path, "", "", "")) == BaseUrl + path
  {
    ResolveAbsolutePath(path);
    UnsplitPlainPath(BaseHost, path);
  }

  /**
   * An absolute path without control characters, query, fragment,
   * parameters or dot segments, like "/products/test-wool", is appended to
   * the base.
   */
  lemma JoinWithBaseAbsolutePath(href: string)
    requires IsClean(href) && StartsWith(href, "/") && !StartsWith(href, "//")
    requires '?' !in href && '#' !in href && ';' !in href && HasNoDotSegments(href)
    ensures JoinWithBase(href) == Some(BaseUrl + href)
  {
    ParsePlainPath(href, "https");
    JoinWithBaseParsedPath(href, href);
  }

  /**
   * A reference naming the base's own scheme but no authority is relative:
   * "https:" before an absolute path leads to that path on the site.
   */
  lemma JoinWithBaseSameScheme(href: string)
    requires IsClean(href) && StartsWith(href, "/") && !StartsWith(href, "//")
    requires '?' !in href && '#' !in href && ';' !in href && HasNoDotSegments(href)
    ensures JoinWithBase("https:" + href) == Some(BaseUrl + href)
  {
    ParseSchemePlainPath(href, "https");
    JoinWithBaseParsedPath("https:" + href, href);
  }

  /**
   * A tab, carriage return or line feed between two slashes is deleted
   * before the reference is split, so "/<tab>/host/path" names the host
   * "host", not a path on the site.
   */
  lemma JoinWithBaseHiddenAuthority(host: string, path: string, unsafe: char)
    requires IsUnsafeUrlChar(unsafe) && IsClean("//" + host + path) && StartsWith(path, "/")
    requires forall k | 0 <= k < |host| :: !IsAuthorityEnd(host[k]) && host[k] != '[' && host[k] != ']'
    requires host != "" && '?' !in path && '#' !in path && ';' !in path
    ensures JoinWithBase(['/', unsafe, '/'] + host + path) == Some("https://" + host + path)
  {
    var href := ['/', unsafe, '/'] + host + path;
    assert href == "/" + [unsafe] + ("/" + host + path);
    assert "/" + ("/" + host + path) == "//" + host + path;
    CleanDropsUnsafe("/", unsafe, "/" + host + path);
    ParseAuthorityPath(host, path, "https");
    assert Parse(href, "https") == Parse("//" + host + path, "https");
    UnsplitPlainPath(host, path);
  }

  /**
   * `_parse_product_from_element`: nothing when the item has no non-empty
   * `data-id` or no title link; otherwise the `data-id` verbatim and the
   * first title link's `href` resolved against the base. The link's title is
   * read and stripped by the scraper but not kept.
   */
  function ParseListingItem(item: ListingItem): (r: Option<ProductMetaInformation>)
    ensures r.None? <==> !Truthy(item.dataId) || item.titleLinks == [] || JoinWithBase(item.titleLinks[0].href.GetOr("")).None?
    ensures r.Some? ==> r.value.id == item.dataId.value && r.value.id != ""
    ensures r.Some? ==> Some(r.value.url) == JoinWithBase(item.titleLinks[0].href.GetOr(""))
  {
    if !Truthy(item.dataId) then None
    else if |item.titleLinks| == 0 then None
    else
      match JoinWithBase(item.titleLinks[0].href.GetOr(""))
      case None => None
      case Some(url) => Some(ProductMetaInformation(item.dataId.value, url))
  }

  /** Only the first title link matters, and of it only the `href`. */
  lemma ParseListingItemIgnoresTitle(item: ListingItem, link: TitleLink, rest: seq<TitleLink>)
    requires item.titleLinks != [] && link.href == item.titleLinks[0].href
    ensures ParseListingItem(ListingItem(item.dataId, [link] + rest)) == ParseListingItem(item)
  {
  }

  /**
   * An item with an id and an absolute-path `href`, like the item "12345"
   * with "/products/test-wool" in the scraper's tests, gives that id and the
   * base followed by the path.
   */
  lemma ParseListingItemAbsolutePath(id: string, title: Option<string>, href: string, rest: seq<TitleLink>)
    requires id != "" && IsClean(href) && StartsWith(href, "/") && !StartsWith(href, "//")
    requires '?' !in href && '#' !in href && ';' !in href && HasNoDotSegments(href)
    ensures ParseListingItem(ListingItem(Some(id), [TitleLink(title, Some(href))] + rest))
         == Some(ProductMetaInformation(id, BaseUrl + href))
  {
    JoinWithBaseAbsolutePath(href);
  }

  /** The values present in `xs`, in order. */
  function Somes<T>(xs: seq<Option<T>>): (r: seq<T>)
    ensures |r| <= |xs|
  {
    if xs == [] then []
    else Somes(xs[..|xs| - 1]) + (if xs[|xs| - 1].Some? then [xs[|xs| - 1].value] else [])
  }

  lemma {:induction false} SomesAppend<T>(a: seq<Option<T>>, b: seq<Option<T>>)
    ensures Somes(a + b) == Somes(a) + Somes(b)
    decreases |b|
  {
    if b == [] {
      assert a + b == a;
    } else {
      var last := b[|b| - 1];
      assert (a + b)[..|a + b| - 1] == a + b[..|b| - 1];
      SomesAppend(a, b[..|b| - 1]);
    }
  }

  lemma {:induction false} SomesMembership<T>(xs: seq<Option<T>>, x: T)
    ensures x in Somes(xs) <==> Some(x) in xs
  {
    if xs != [] {
      var init := xs[..|xs| - 1];
      SomesMembership(init, x);
      assert xs == init + [xs[|xs| - 1]];
    }
  }

  /** What `_parse_product_from_element` gives for each item, in order. */
  function ParseAll(items: seq<ListingItem>): (parsed: seq<Option<ProductMetaInformation>>)
    ensures |parsed| == |items|
    ensures forall i | 0 <= i < |items| :: parsed[i] == ParseListingItem(items[i])
  {
    seq(|items|, i requires 0 <= i < |items| => ParseListingItem(items[i]))
  }

  /** The references `find_products` returns for the given result items. */
  function Listing(items: seq<ListingItem>): (r: seq<ProductMetaInformation>)
    ensures |r| <= |items|
  {
    Somes(ParseAll(items))
  }

  lemma ParseAllAppend(a: seq<ListingItem>, b: seq<ListingItem>)
    ensures ParseAll(a + b) == ParseAll(a) + ParseAll(b)
  {
    var whole, parts := ParseAll(a + b), ParseAll(a) + ParseAll(b);
    forall i | 0 <= i < |whole|
      ensures whole[i] == parts[i]
    {
      if i < |a| {
        assert (a + b)[i] == a[i];
      } else {
        assert (a + b)[i] == b[i - |a|];
      }
    }
  }

  lemma ListingAppend(a: seq<ListingItem>, b: seq<ListingItem>)
    ensures Listing(a + b) == Listing(a) + Listing(b)
  {
    ParseAllAppend(a, b);
    SomesAppend(ParseAll(a), ParseAll(b));
  }

  /**
   * The listing holds exactly the successfully parsed items, never more
   * references than items.
   */
  lemma ListingMembership(items: seq<ListingItem>, m: ProductMetaInformation)
    ensures m in Listing(items) <==> exists i | 0 <= i < |items| :: ParseListingItem(items[i]) == Some(m)
    ensures |Listing(items)| <= |items|
  {
    SomesMembership(ParseAll(items), m);
    if Some(m) in ParseAll(items) {
      var i :| 0 <= i < |items| && ParseAll(items)[i] == Some(m);
      assert ParseListingItem(items[i]) == Some(m);
    }
  }

  /** A malformed item is dropped without affecting the items around it. */
  lemma ListingSkipsMalformed(before: seq<ListingItem>, bad: ListingItem, after: seq<ListingItem>)
    requires ParseListingItem(bad).None?
    ensures Listing(before + [bad] + after) == Listing(before + after)
  {
    ListingAppend(before + [bad], after);
    ListingAppend(before, [bad]);
    ListingAppend(before, after);
    assert Listing([bad]) == [] by {
      var parsed := ParseAll([bad]);
      assert parsed == [None];
      assert parsed[..0] == [];
      assert Somes(parsed) == Somes(parsed[..0]) + [];
    }
  }

  /**
   * The list building of `find_products`: parse every item in order, then keep
   * the results that are not `None`.
   */
  method CollectListing(items: seq<ListingItem>) returns (found: seq<ProductMetaInformation>)
    ensures found == Listing(items)
  {
    var parsed := ParseItems(items);
    found := KeepParsed(parsed);
  }

  /** The first comprehension: every result item parsed, in order. */
  method ParseItems(items: seq<ListingItem>) returns (parsed: seq<Option<ProductMetaInformation>>)
    ensures parsed == ParseAll(items)
  {
    parsed := [];
    for i := 0 to |items|
      invariant |parsed| == i
      invariant forall k | 0 <= k < i :: parsed[k] == ParseListingItem(items[k])
    {
      parsed := parsed + [ParseListingItem(items[i])];
    }
  }

  /** The second comprehension: the parsed references that are not `None`, in order. */
  method KeepParsed(parsed: seq<Option<ProductMetaInformation>>) returns (found: seq<ProductMetaInformation>)
    ensures found == Somes(parsed)
  {
    found := [];
    for i := 0 to |parsed|
      invariant found == Somes(parsed[..i])
    {
      assert parsed[..i + 1] == parsed[..i] + [parsed[i]];
      if parsed[i].Some? {
        found := found + [parsed[i].value];
      }
    }
    assert parsed[..|parsed|] == parsed;
  }


  // ---------------------------------------------------------------------------
  // Details table

  /** A table row: the text content of each of its cells (`None` where there is none). */
  type Row = seq<Option<string>>

  /** A row `_parse_details_table` keeps: exactly two cells, both with non-empty raw text. */
  predicate IsEntryRow(row: Row)
  {
    |row| == 2 && Truthy(row[0]) && Truthy(row[1])
  }

  function RowKey(row: Row): string
    requires IsEntryRow(row)
  {
    Strip(row[0].value)
  }

  function RowValue(row: Row): string
    requires IsEntryRow(row)
  {
    Strip(row[1].value)
  }

  /** One step of `_parse_details_table`: an entry row sets its stripped key to its stripped value. */
  function AddRow(details: map<string, string>, row: Row): map<string, string>
  {
    if IsEntryRow(row) then details[RowKey(row) := RowValue(row)] else details
  }

  /** Every key and value of the map has no surrounding whitespace. */
  predicate AllStripped(details: map<string, string>)
  {
    forall key | key in details :: Strip(key) == key && Strip(details[key]) == details[key]
  }

  /** The map `_parse_details_table` builds from the rows, in order. */
  function DetailsOf(rows: seq<Row>): (details: map<string, string>)
    ensures |details| <= |rows|
  {
    if rows == [] then map[]
    else AddRow(DetailsOf(rows[..|rows| - 1]), rows[|rows| - 1])
  }

  /** Keys and values come out of `.strip()`, so the map holds no surrounding whitespace. */
  lemma {:induction false} DetailsStripped(rows: seq<Row>)
    ensures AllStripped(DetailsOf(rows))
  {
    if rows != [] {
      DetailsStripped(rows[..|rows| - 1]);
      EntryRowStripped(rows[|rows| - 1]);
    }
  }

  /** An entry row's key and value have no surrounding whitespace left. */
  lemma EntryRowStripped(row: Row)
    ensures IsEntryRow(row) ==> Strip(RowKey(row)) == RowKey(row) && Strip(RowValue(row)) == RowValue(row)
  {
    if IsEntryRow(row) {
      StripIdempotent(row[0].value);
      StripIdempotent(row[1].value);
    }
  }

  /** Python's `dict.get`. */
  function Lookup(m: map<string, string>, key: string): (r: Option<string>)
    ensures r.Some? <==> key in m
    ensures r.Some? ==> r.value == m[key]
  {
    if key in m then Some(m[key]) else None
  }

  /** The value of the last entry row with the given key, scanning from the front. */
  function LastEntryFor(rows: seq<Row>, key: string): Option<string>
  {
    if rows == [] then None
    else
      var later := LastEntryFor(rows[1..], key);
      if later.Some? then later
      else if IsEntryRow(rows[0]) && RowKey(rows[0]) == key then Some(RowValue(rows[0]))
      else None
  }

  lemma {:induction false} LastEntryForSnoc(rows: seq<Row>, row: Row, key: string)
    ensures LastEntryFor(rows + [row], key)
         == if IsEntryRow(row) && RowKey(row) == key then Some(RowValue(row)) else LastEntryFor(rows, key)
  {
    if rows == [] {
      assert (rows + [row])[1..] == [];
    } else {
      assert (rows + [row])[1..] == rows[1..] + [row];
      LastEntryForSnoc(rows[1..], row, key);
    }
  }

  lemma LookupAddRow(details: map<string, string>, row: Row, key: string)
    ensures Lookup(AddRow(details, row), key)
         == if IsEntryRow(row) && RowKey(row) == key then Some(RowValue(row)) else Lookup(details, key)
  {
  }

  /** A key maps to the value of the last entry row with that key; keys of no entry row are absent. */
  lemma {:induction false} DetailsLastRowWins(rows: seq<Row>, key: string)
    ensures Lookup(DetailsOf(rows), key) == LastEntryFor(rows, key)
  {
    if rows != [] {
      var init, last := rows[..|rows| - 1], rows[|rows| - 1];
      DetailsLastRowWins(init, key);
      LookupAddRow(DetailsOf(init), last, key);
      LastEntryForSnoc(init, last, key);
      assert init + [last] == rows;
    }
  }

  lemma EntryRowsSnoc(init: seq<Row>, last: Row, key: string)
    ensures (exists i | 0 <= i < |init + [last]| :: IsEntryRow((init + [last])[i]) && RowKey((init + [last])[i]) == key)
        <==> (exists i | 0 <= i < |init| :: IsEntryRow(init[i]) && RowKey(init[i]) == key)
             || (IsEntryRow(last) && RowKey(last) == key)
  {
    var rows := init + [last];
    if exists i | 0 <= i < |rows| :: IsEntryRow(rows[i]) && RowKey(rows[i]) == key {
      var i :| 0 <= i < |rows| && IsEntryRow(rows[i]) && RowKey(rows[i]) == key;
      if i < |init| { assert init[i] == rows[i]; }
    }
    if exists i | 0 <= i < |init| :: IsEntryRow(init[i]) && RowKey(init[i]) == key {
      var i :| 0 <= i < |init| && IsEntryRow(init[i]) && RowKey(init[i]) == key;
      assert rows[i] == init[i];
    }
    if IsEntryRow(last) && RowKey(last) == key {
      assert rows[|init|] == last;
    }
  }

  /** The keys of the map are exactly the stripped keys of the entry rows. */
  lemma {:induction false} DetailsKeys(rows: seq<Row>, key: string)
    ensures key in DetailsOf(rows) <==> exists i | 0 <= i < |rows| :: IsEntryRow(rows[i]) && RowKey(rows[i]) == key
  {
    if rows != [] {
      var init, last := rows[..|rows| - 1], rows[|rows| - 1];
      DetailsKeys(init, key);
      EntryRowsSnoc(init, last, key);
      assert init + [last] == rows;
    }
  }

  /** A row that is not an entry row leaves the map as it is, wherever it stands. */
  lemma {:induction false} DetailsIgnoreOtherRows(before: seq<Row>, row: Row, after: seq<Row>)
    requires !IsEntryRow(row)
    ensures DetailsOf(before + [row] + after) == DetailsOf(before + after)
    decreases |after|
  {
    if after == [] {
      assert (before + [row] + after)[..|before| + 1 - 1] == before;
      assert before + after == before;
    } else {
      var init := after[..|after| - 1];
      var last := after[|after| - 1];
      var with, without := before + [row] + after, before + after;
      DetailsIgnoreOtherRows(before, row, init);
      assert DetailsOf(with) == AddRow(DetailsOf(before + [row] + init), last) by {
        assert with[..|with| - 1] == before + [row] + init && with[|with| - 1] == last;
      }
      assert DetailsOf(without) == AddRow(DetailsOf(before + init), last) by {
        assert without[..|without| - 1] == before + init && without[|without| - 1] == last;
      }
    }
  }

  /** `_parse_details_table`: fills the map row by row. */
  method ParseDetailsTable(rows: seq<Row>) returns (details: map<string, string>)
    ensures details == DetailsOf(rows)
  {
    details := map[];
    for i := 0 to |rows|
      invariant details == DetailsOf(rows[..i])
    {
      assert rows[..i + 1][..i] == rows[..i];
      var cells := rows[i];
      if |cells| == 2 {
        var key := cells[0];
        var value := cells[1];
        if Truthy(key) && Truthy(value) {
          details := details[Strip(key.value) := Strip(value.value)];
        }
      }
    }
    assert rows[..|rows|] == rows;
  }

  // ---------------------------------------------------------------------------
  // Product details

  /**
   * A detail page after navigation: whether the specification panel appeared,
   * the title's text, the price element's `content` attribute, the stock
   * information's text, and the rows of the specification table.
   */
  datatype DetailPage = DetailPage(
    specsRendered: bool,
    title: Option<string>,
    priceContent: Option<string>,
    stockInfo: Option<string>,
    specRows: seq<Row>)

  /**
   * What `get_product` makes of a detail page once navigation succeeded: a
   * timeout when the specification panel never appears, a `ValueError` when
   * the name or the price is missing or empty, and otherwise the record.
   */
  function ProductFromPage(meta: ProductMetaInformation, page: DetailPage): (r: Result<Product, ScrapeError>)
    ensures r.Failure? <==> !page.specsRendered || !Truthy(page.title) || !Truthy(page.priceContent)
    ensures !page.specsRendered ==> r == Failure(TimeoutError(SpecsPanelSelector))
    ensures page.specsRendered && r.Failure? ==> r == Failure(ValueError(MissingFieldsMessage))
    ensures r.Success? ==> r.value.meta == meta && r.value.name == page.title.value
    ensures r.Success? ==> r.value.price == Price(page.priceContent.value, "EUR")
  {
    if !page.specsRendered then Failure(TimeoutError(SpecsPanelSelector))
    else if !Truthy(page.title) || !Truthy(page.priceContent) then Failure(ValueError(MissingFieldsMessage))
    else
      var details := DetailsOf(page.specRows);
      Success(Product(
        meta,
        page.title.value,
        Price(page.priceContent.value, Currency),
        Lookup(details, NeedleSizeLabel),
        Lookup(details, CompositionLabel),
        if Truthy(page.stockInfo) then Some(Strip(page.stockInfo.value)) else None))
  }

  /**
   * The optional fields of a scraped record: needle size and composition are
   * the last table entries under their labels, absent when there is none;
   * availability is the stripped stock text, absent when that text is missing
   * or empty (a text of whitespace only gives the empty string).
   */
  lemma ProductOptionalFields(meta: ProductMetaInformation, page: DetailPage)
    requires ProductFromPage(meta, page).Success?
    ensures ProductFromPage(meta, page).value.needleSize == LastEntryFor(page.specRows, NeedleSizeLabel)
    ensures ProductFromPage(meta, page).value.composition == LastEntryFor(page.specRows, CompositionLabel)
    ensures ProductFromPage(meta, page).value.availability.Some? <==> Truthy(page.stockInfo)
    ensures Truthy(page.stockInfo) ==>
      ProductFromPage(meta, page).value.availability == Some(Strip(page.stockInfo.value))
  {
    DetailsLastRowWins(page.specRows, NeedleSizeLabel);
    DetailsLastRowWins(page.specRows, CompositionLabel);
  }

  /** The lookup in a three-row table, from the last row back. */
  lemma LastEntryForThree(r1: Row, r2: Row, r3: Row, key: string)
    ensures LastEntryFor([r1, r2, r3], key)
         == if IsEntryRow(r3) && RowKey(r3) == key then Some(RowValue(r3))
            else if IsEntryRow(r2) && RowKey(r2) == key then Some(RowValue(r2))
            else if IsEntryRow(r1) && RowKey(r1) == key then Some(RowValue(r1))
            else None
  {
    var last: seq<Row> := [r3];
    var none: seq<Row> := [];
    assert last[1..] == none;
    assert LastEntryFor(none, key) == None;
    var l3 := LastEntryFor(last, key);
    assert l3 == if IsEntryRow(r3) && RowKey(r3) == key then Some(RowValue(r3)) else None;
    var tail: seq<Row> := [r2, r3];
    assert tail[1..] == last;
    var l2 := LastEntryFor(tail, key);
    assert l2 == if l3.Some? then l3 else if IsEntryRow(r2) && RowKey(r2) == key then Some(RowValue(r2)) else None;
    var rows: seq<Row> := [r1, r2, r3];
    assert rows[1..] == tail;
    assert LastEntryFor(rows, key)
        == if l2.Some? then l2 else if IsEntryRow(r1) && RowKey(r1) == key then Some(RowValue(r1)) else None;
  }

  /** An entry row whose texts carry no surrounding whitespace is keyed by its raw texts. */
  lemma PlainEntryRow(row: Row)
    requires IsEntryRow(row)
    requires !IsSpace(row[0].value[0]) && !IsSpace(row[0].value[|row[0].value| - 1])
    requires !IsSpace(row[1].value[0]) && !IsSpace(row[1].value[|row[1].value| - 1])
    ensures RowKey(row) == row[0].value && RowValue(row) == row[1].value
  {
    var k, v := row[0].value, row[1].value;
    StripUnique(k, 0, |k|);
    StripUnique(v, 0, |v|);
    assert k[..0] == [] && k[|k|..] == [] && k[0..|k|] == k;
    assert v[..0] == [] && v[|v|..] == [] && v[0..|v|] == v;
  }

  /**
   * The specification table of the scraper's HTML-snippet test, with
   * "Nadelstärke", "Zusammenstellung" and "Lauflänge" rows: the table holds
   * all three entries and the composition is found, but the needle size is
   * NOT, because the scraper looks it up under the mis-decoded label.
   */
  lemma SnippetTableLookups(needle: Row, composition: Row, runLength: Row)
    requires needle == [Some("Nadelst\U{E4}rke"), Some("4-5 mm")]
    requires composition == [Some("Zusammenstellung"), Some("100% Baumwolle")]
    requires runLength == [Some("Laufl\U{E4}nge"), Some("85m / 100g")]
    ensures LastEntryFor([needle, composition, runLength], CompositionLabel) == Some("100% Baumwolle")
    ensures LastEntryFor([needle, composition, runLength], "Nadelst\U{E4}rke") == Some("4-5 mm")
    ensures LastEntryFor([needle, composition, runLength], NeedleSizeLabel) == None
  {
    SnippetRows(needle, composition, runLength);
    LastEntryForThree(needle, composition, runLength, CompositionLabel);
    LastEntryForThree(needle, composition, runLength, RowKey(needle));
    LastEntryForThree(needle, composition, runLength, NeedleSizeLabel);
  }

  /** The keys and values of the three rows of the HTML-snippet test, as the table parser reads them. */
  lemma SnippetRows(needle: Row, composition: Row, runLength: Row)
    requires needle == [Some("Nadelst\U{E4}rke"), Some("4-5 mm")]
    requires composition == [Some("Zusammenstellung"), Some("100% Baumwolle")]
    requires runLength == [Some("Laufl\U{E4}nge"), Some("85m / 100g")]
    ensures IsEntryRow(needle) && IsEntryRow(composition) && IsEntryRow(runLength)
    ensures RowKey(needle) == "Nadelst\U{E4}rke" && RowValue(needle) == "4-5 mm"
    ensures RowKey(composition) == CompositionLabel && RowValue(composition) == "100% Baumwolle"
    ensures |RowKey(runLength)| == 9
    ensures |NeedleSizeLabel| == 12 && |RowKey(needle)| == 11 && |CompositionLabel| == 16
  {
    NeedleRow(needle);
    CompositionRow(composition);
    RunLengthRow(runLength);
  }

  lemma NeedleRow(row: Row)
    requires row == [Some("Nadelst\U{E4}rke"), Some("4-5 mm")]
    ensures IsEntryRow(row) && RowKey(row) == "Nadelst\U{E4}rke" && RowValue(row) == "4-5 mm"
  {
    PlainEntryRow(row);
  }

  lemma CompositionRow(row: Row)
    requires row == [Some("Zusammenstellung"), Some("100% Baumwolle")]
    ensures IsEntryRow(row) && RowKey(row) == "Zusammenstellung" && RowValue(row) == "100% Baumwolle"
  {
    PlainEntryRow(row);
  }

  lemma RunLengthRow(row: Row)
    requires row == [Some("Laufl\U{E4}nge"), Some("85m / 100g")]
    ensures IsEntryRow(row) && RowKey(row) == "Laufl\U{E4}nge"
  {
    PlainEntryRow(row);
  }

  // ---------------------------------------------------------------------------
  // The scraper

  /**
   * A `WollplatzScraper`. `hasPage` stands for its `page` attribute being
   * set; `navigations` records the URLs the page was sent to, in order.
   */
  class WollplatzScraper {
    const headless: bool
    var hasPage: bool
    var navigations: seq<string>

    constructor (headless: bool)
      ensures this.headless == headless && !hasPage && navigations == []
    {
      this.headless := headless;
      hasPage := false;
      navigations := [];
    }

    /** Opens the browser page (the launch itself is not modelled). */
    method Start()
      modifies this`hasPage
      ensures hasPage
    {
      hasPage := true;
    }

    /**
     * `find_products`: fails before any navigation when there is no page;
     * otherwise goes to the search URL, fails when the results container
     * never appears, and else returns the listing of the result items.
     */
    method FindProducts(searchTerm: string, results: ResultsPage) returns (r: Result<seq<ProductMetaInformation>, ScrapeError>)
      modifies this`navigations
      ensures !hasPage ==> r == Failure(RuntimeError(NotInitializedMessage)) && navigations == old(navigations)
      ensures hasPage ==> navigations == old(navigations) + [BuildSearchUrl(searchTerm)]
      ensures hasPage && !results.containerRendered ==> r == Failure(TimeoutError(ResultsContainerSelector))
      ensures hasPage && results.containerRendered ==> r == Success(Listing(results.items))
    {
      if !hasPage {
        return Failure(RuntimeError(NotInitializedMessage));
      }
      var searchUrl := BuildSearchUrl(searchTerm);
      navigations := navigations + [searchUrl];
      if !results.containerRendered {
        return Failure(TimeoutError(ResultsContainerSelector));
      }
      var products := CollectListing(results.items);
      r := Success(products);
    }

    /**
     * `get_product`: fails before any navigation when there is no page;
     * otherwise goes to the product's URL and builds the record from what
     * the page shows.
     */
    method GetProduct(product: ProductMetaInformation, page: DetailPage) returns (r: Result<Product, ScrapeError>)
      modifies this`navigations
      ensures !hasPage ==> r == Failure(RuntimeError(NotInitializedMessage)) && navigations == old(navigations)
      ensures hasPage ==> navigations == old(navigations) + [product.url]
      ensures hasPage ==> r == ProductFromPage(product, page)
    {
      if !hasPage {
        return Failure(RuntimeError(NotInitializedMessage));
      }
      navigations := navigations + [product.url];
      if !page.specsRendered {
        return Failure(TimeoutError(SpecsPanelSelector));
      }
      var name := page.title;
      var priceAmount := page.priceContent;
      var availability := page.stockInfo;
      if !Truthy(name) || !Truthy(priceAmount) {
        return Failure(ValueError(MissingFieldsMessage));
      }
      var details := ParseDetailsTable(page.specRows);
      r := Success(Product(
        product,
        name.value,
        Price(priceAmount.value, Currency),
        Lookup(details, NeedleSizeLabel),
        Lookup(details, CompositionLabel),
        if Truthy(availability) then Some(Strip(availability.value)) else None));
    }
  }
}
