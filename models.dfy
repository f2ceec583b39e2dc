/** The records the scraper produces and the store keeps (the dataclasses of wool_pilot/models.py). */
module Models {
  import opened Wrappers
  import opened Text

  const DefaultCurrency := "EUR"

  /** A price as scraped: the amount is the page's text, passed through unparsed. */
  datatype Price = Price(amount: string, currency: string := DefaultCurrency)

  /** What identifies a product before its details are fetched. */
  datatype ProductMetaInformation = ProductMetaInformation(id: string, url: string)

  datatype Product = Product(
    meta: ProductMetaInformation,
    name: string,
    price: Price,
    needleSize: Option<string>,
    composition: Option<string>,
    availability: Option<string>)

  /** A `Price` built from an amount alone carries the default currency. */
  lemma PriceDefaultCurrency(amount: string)
    ensures Price(amount).currency == "EUR" && Price(amount).amount == amount
  {
  }

  /** `str(price)`: the currency, one space, the amount. */
  function PriceText(p: Price): (s: string)
    ensures |s| == |p.currency| + 1 + |p.amount|
    ensures s[..|p.currency|] == p.currency && s[|p.currency|] == ' ' && s[|p.currency| + 1..] == p.amount
  {
    p.currency + " " + p.amount
  }

  /** Reads a price back from its text: everything before the first space is the currency. */
  function ParsePriceText(s: string): Option<Price>
  {
    match IndexOf(s, ' ')
    case None => None
    case Some(i) => Some(Price(s[i + 1..], s[..i]))
  }

  /** The text of a price determines the price, whenever its currency has no space (as "EUR"). */
  lemma PriceTextRoundTrip(p: Price)
    requires ' ' !in p.currency
    ensures ParsePriceText(PriceText(p)) == Some(p)
  {
    var s := PriceText(p);
    assert s[..|p.currency|] == p.currency;
    IndexOfAt(s, ' ', |p.currency|);
  }

  const IdLabel := " (id: "
  const PriceLabel := ", price: "

  /** `str(product)`: the name, then the id and the price text in parentheses; the optional fields are not shown. */
  function ProductText(p: Product): (s: string)
    ensures |s| > |p.name| + |IdLabel| && s[..|p.name|] == p.name && s[|p.name|..|p.name| + |IdLabel|] == IdLabel && s[|s| - 1] == ')'
    ensures '(' !in p.name ==> IndexOf(s, '(') == Some(|p.name| + 1)
  {
    var tail := p.meta.id + PriceLabel + PriceText(p.price);
    var s := p.name + IdLabel + tail + ")";
    assert s == p.name + IdLabel + p.meta.id + PriceLabel + PriceText(p.price) + ")";
    SplitAtIdLabel(p.name, tail);
    s
  }

  /** The parts `ProductText` shows. */
  datatype Summary = Summary(name: string, id: string, price: Price)

  /** Reads the id and the price back from the text after the id label: the id ends before the first ",". */
  function ParseIdAndPrice(tail: string): Option<(string, Price)>
  {
    match IndexOf(tail, ',')
    case None => None
    case Some(j) =>
      if |tail| < j + |PriceLabel| || tail[j..j + |PriceLabel|] != PriceLabel then None
      else
        match ParsePriceText(tail[j + |PriceLabel|..])
        case None => None
        case Some(price) => Some((tail[..j], price))
  }

  /**
   * Reads name, id and price back from a product's text: the name ends before
   * the first "(", the id before the first "," after it.
   */
  function ParseProductText(s: string): Option<Summary>
  {
    match IndexOf(s, '(')
    case None => None
    case Some(i) =>
      if i < 1 || |s| < i + 5 || s[i - 1..i + 5] != IdLabel || s[|s| - 1] != ')' then None
      else
        match ParseIdAndPrice(s[i + 5..|s| - 1])
        case None => None
        case Some((id, price)) => Some(Summary(s[..i - 1], id, price))
  }

  /** In `name + IdLabel + tail + ")"`, the first "(" is the one of the label, when the name has none. */
  lemma SplitAtIdLabel(name: string, tail: string)
    ensures var s := name + IdLabel + tail + ")";
      && ('(' !in name ==> IndexOf(s, '(') == Some(|name| + 1))
      && s[|name|..|name| + 6] == IdLabel
      && s[..|name|] == name
      && s[|name| + 6..|s| - 1] == tail
      && s[|s| - 1] == ')'
  {
    var s := name + IdLabel + tail + ")";
    var n := |name|;
    assert s[..n] == name;
    assert s[n..n + 6] == IdLabel;
    assert s[..n + 1] == name + [' '];
    assert s[n + 1] == '(';
    if '(' !in name {
      IndexOfAt(s, '(', n + 1);
    }
    assert s[n + 6..|s| - 1] == tail;
  }

  /** The id and the price are read back from the text after the id label, when the id has no ",". */
  lemma IdAndPriceRoundTrip(id: string, price: Price)
    requires ',' !in id && ' ' !in price.currency
    ensures ParseIdAndPrice(id + PriceLabel + PriceText(price)) == Some((id, price))
  {
    var t := id + PriceLabel + PriceText(price);
    var m := |id|;
    assert t[..m] == id;
    assert t[m] == ',';
    IndexOfAt(t, ',', m);
    assert t[m..m + |PriceLabel|] == PriceLabel;
    assert t[m + |PriceLabel|..] == PriceText(price);
    PriceTextRoundTrip(price);
  }

  /**
   * The text of a product determines its name, id and price whenever the name
   * has no "(", the id no "," and the currency no space; it says nothing about
   * the url or the optional fields.
   */
  lemma ProductTextRoundTrip(p: Product)
    requires '(' !in p.name && ',' !in p.meta.id && ' ' !in p.price.currency
    ensures ParseProductText(ProductText(p)) == Some(Summary(p.name, p.meta.id, p.price))
  {
    var tail := p.meta.id + PriceLabel + PriceText(p.price);
    assert ProductText(p) == p.name + IdLabel + tail + ")";
    SplitAtIdLabel(p.name, tail);
    IdAndPriceRoundTrip(p.meta.id, p.price);
  }
}
