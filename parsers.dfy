/** The featured-listing parser of the bookstore scraper (`parse_home_sales`).

    The HTML page is reduced to the answers of the CSS selector lookups the
    parser makes: the featured container, the `li.product` entries inside
    it, the `div.item-product` of each entry and the six sub-tags looked
    up inside an item-product. Each lookup is an `Option`: `None` where
    BeautifulSoup's `select_one` finds nothing. */
module Parsers {
  import opened Wrappers
  import Text

  /** A tag found by a selector: its text as `get_text(strip=True)` gives
      it, and its `href` attribute if it has one. */
  datatype Tag = Tag(text: string, href: Option<string>)

  /** A `div.item-product`, through the six lookups made inside it. */
  datatype ItemProduct = ItemProduct(
    nameLink: Option<Tag>,      // .name a.product-name
    authorLink: Option<Tag>,    // p.author a
    priceOld: Option<Tag>,      // .price .price-old
    priceNew: Option<Tag>,      // .price .price-new
    discountFlag: Option<Tag>,  // .flag-discount
    noveltyFlag: Option<Tag>)   // .flag.novidade

  /** One `li.product` entry and the first `div.item-product` inside it. */
  datatype Entry = Entry(item: Option<ItemProduct>)

  /** A page: the `div.box.product_featured` container, if the page has one,
      given by the `li.product` entries inside it in document order. */
  datatype Page = Page(featured: Option<seq<Entry>>)

  /** The two links whose `href` attribute the parser reads by subscript. */
  datatype Link = NameLink | AuthorLink

  /** Subscripting a tag that has no `href` attribute raises `KeyError`,
      which leaves the parser. */
  datatype ParseError = MissingHref(link: Link)

  /** One scraped listing: the ten keys of the dictionary the parser builds. */
  datatype Record = Record(
    name: Option<string>,
    url: Option<string>,
    authorName: Option<string>,
    authorId: Option<string>,
    priceOld: Option<string>,
    priceNew: Option<string>,
    discount: Option<string>,
    isNew: bool,
    source: string,
    createdAt: string)

  const AuthorIdMarker: string := "author_id="
  const HomeFeatured: string := "home_featured"

  /** The marker cannot overlap itself: `=` occurs only as its last character. */
  lemma MarkerBorderFree()
    ensures |AuthorIdMarker| > 0 && Text.BorderFree(AuthorIdMarker)
  {
    var m := AuthorIdMarker;
    forall d | 0 < d < |m|
      ensures m[d..] != m[..|m| - d]
    {
      assert m[d..][|m| - d - 1] == '=';
      assert m[..|m| - d][|m| - d - 1] == m[|m| - d - 1];
      assert forall k :: 0 <= k < |m| - 1 ==> m[k] != '=';
    }
  }

  /** Every occurrence of the marker ends at or before the returned piece. */
  lemma MarkerPieceFollowsEveryMarker(href: string)
    ensures forall j: nat :: Text.OccursAt(href, AuthorIdMarker, j) ==>
      j + |AuthorIdMarker| <= |href| - |Text.LastPiece(href, AuthorIdMarker)|
  {
    MarkerBorderFree();
    forall j: nat | Text.OccursAt(href, AuthorIdMarker, j)
      ensures j + |AuthorIdMarker| <= |href| - |Text.LastPiece(href, AuthorIdMarker)|
    {
      Text.LastPieceFollowsLastOccurrence(href, AuthorIdMarker, j);
    }
  }

  /** The author id read from an author link's `href`: present exactly when
      the `href` contains `author_id=`, and then the text after the last
      occurrence of the marker, which itself contains no marker. */
  function AuthorIdOf(href: string): (id: Option<string>)
    ensures id.Some? <==> Text.Contains(href, AuthorIdMarker)
    ensures id.Some? ==>
      var n := |href| - |id.value|;
      && |id.value| + |AuthorIdMarker| <= |href|
      && href[n..] == id.value
      && Text.OccursAt(href, AuthorIdMarker, n - |AuthorIdMarker|)
      && !Text.Contains(id.value, AuthorIdMarker)
      && forall j: nat :: Text.OccursAt(href, AuthorIdMarker, j) ==> j + |AuthorIdMarker| <= n
  {
    if Text.Contains(href, AuthorIdMarker) then
      Text.LastPieceAvoidsSep(href, AuthorIdMarker);
      MarkerPieceFollowsEveryMarker(href);
      Some(Text.LastPiece(href, AuthorIdMarker))
    else
      None
  }

  /** The text of an optional tag, absent when the tag is. */
  function TextOf(tag: Option<Tag>): (t: Option<string>)
    ensures t.Some? <==> tag.Some?
    ensures tag.Some? ==> t == Some(tag.value.text)
  {
    match tag
    case None => None
    case Some(t) => Some(t.text)
  }

  /** The record built from one item-product, or the `KeyError` raised on
      the first link (name first, then author) that has no `href`. */
  function ExtractRecord(item: ItemProduct, now: string): (r: Result<Record, ParseError>)
    ensures r.Err? <==>
      (item.nameLink.Some? && item.nameLink.value.href.None?) ||
      (item.authorLink.Some? && item.authorLink.value.href.None?)
    ensures r.Err? ==>
      r.error == if item.nameLink.Some? && item.nameLink.value.href.None?
                 then MissingHref(NameLink) else MissingHref(AuthorLink)
    ensures r.Ok? ==>
      var rec := r.value;
      // url and name come from the same tag and are absent together
      && (rec.url.None? <==> item.nameLink.None?)
      && (rec.name.None? <==> item.nameLink.None?)
      && (item.nameLink.Some? ==>
            rec.url == item.nameLink.value.href && rec.name == Some(item.nameLink.value.text))
      && rec.authorName == TextOf(item.authorLink)
      // an author id only from an author link whose href holds the marker
      && (rec.authorId.Some? <==>
            item.authorLink.Some? && Text.Contains(item.authorLink.value.href.value, AuthorIdMarker))
      && (rec.authorId.Some? ==> rec.authorId == AuthorIdOf(item.authorLink.value.href.value))
      // each price and the discount depend on their own tag alone
      && rec.priceOld == TextOf(item.priceOld)
      && rec.priceNew == TextOf(item.priceNew)
      && rec.discount == TextOf(item.discountFlag)
      && (rec.isNew <==> item.noveltyFlag.Some?)
      && rec.source == HomeFeatured
      && rec.createdAt == now
  {
    if item.nameLink.Some? && item.nameLink.value.href.None? then
      Err(MissingHref(NameLink))
    else if item.authorLink.Some? && item.authorLink.value.href.None? then
      Err(MissingHref(AuthorLink))
    else
      var url := if item.nameLink.Some? then item.nameLink.value.href else None;
      var authorId := if item.authorLink.Some? then AuthorIdOf(item.authorLink.value.href.value) else None;
      Ok(Record(
        name := TextOf(item.nameLink),
        url := url,
        authorName := TextOf(item.authorLink),
        authorId := authorId,
        priceOld := TextOf(item.priceOld),
        priceNew := TextOf(item.priceNew),
        discount := TextOf(item.discountFlag),
        isNew := item.noveltyFlag.Some?,
        source := HomeFeatured,
        createdAt := now))
  }

  /** What the parser's loop computes over the entries, entry by entry:
      entries without an item-product are skipped, the others give one
      record each, and the first error ends the parse. */
  function ParseEntries(entries: seq<Entry>, now: string): (r: Result<seq<Record>, ParseError>)
    decreases |entries|
    ensures r.Ok? ==> |r.value| == |ItemsOf(entries)|
  {
    if entries == [] then Ok([])
    else
      match ParseEntries(entries[..|entries| - 1], now)
      case Err(e) => Err(e)
      case Ok(records) =>
        match entries[|entries| - 1].item
        case None => Ok(records)
        case Some(item) =>
          match ExtractRecord(item, now)
          case Err(e) => Err(e)
          case Ok(rec) => Ok(records + [rec])
  }

  /** What `parse_home_sales` returns for a page: no container, no records;
      a successful parse never has more records than `li.product` entries. */
  function HomeSales(page: Page, now: string): (r: Result<seq<Record>, ParseError>)
    ensures page.featured.None? ==> r == Ok([])
    ensures page.featured.Some? && r.Ok? ==> |r.value| <= |page.featured.value|
  {
    match page.featured
    case None => Ok([])
    case Some(entries) => ParseEntries(entries, now)
  }

  /** The item-products of the entries that have one, in entry order. */
  function ItemsOf(entries: seq<Entry>): (items: seq<ItemProduct>)
    decreases |entries|
    ensures |items| <= |entries|
  {
    if entries == [] then []
    else
      var last := entries[|entries| - 1];
      ItemsOf(entries[..|entries| - 1]) + (if last.item.Some? then [last.item.value] else [])
  }

  /** The indices of the entries that have an item-product, ascending. */
  function ItemPositions(entries: seq<Entry>): seq<nat>
    decreases |entries|
  {
    if entries == [] then []
    else
      var n := |entries| - 1;
      ItemPositions(entries[..n]) + (if entries[n].item.Some? then [n] else [])
  }

  /** `ItemPositions` lists, in strictly increasing order, exactly the entries
      that hold an item-product, and `ItemsOf` holds those items in the same
      order: the k-th item comes from the entry at the k-th position. */
  lemma {:induction false} ItemPositionsLocateItems(entries: seq<Entry>)
    ensures var ps := ItemPositions(entries);
      && |ps| == |ItemsOf(entries)| <= |entries|
      && (forall k :: 0 <= k < |ps| ==>
            ps[k] < |entries| && entries[ps[k]].item == Some(ItemsOf(entries)[k]))
      && (forall j, k :: 0 <= j < k < |ps| ==> ps[j] < ps[k])
      && (forall i :: 0 <= i < |entries| && entries[i].item.Some? ==> i in ps)
    decreases |entries|
  {
    if entries != [] {
      var n := |entries| - 1;
      var init := entries[..n];
      ItemPositionsLocateItems(init);
      var ps0 := ItemPositions(init);
      assert forall k :: 0 <= k < |ps0| ==> ps0[k] < n;
      assert forall i :: 0 <= i < n ==> init[i] == entries[i];
    }
  }

  /** An error in the records of some prefix of the entries is the error of
      the whole parse: the loop stops at the first exception. */
  lemma {:induction false} PrefixErrorIsFinal(entries: seq<Entry>, n: nat, now: string)
    requires n <= |entries| && ParseEntries(entries[..n], now).Err?
    ensures ParseEntries(entries, now) == ParseEntries(entries[..n], now)
    decreases |entries| - n
  {
    if n < |entries| {
      var m := |entries| - 1;
      assert entries[..n] == entries[..m][..n];
      PrefixErrorIsFinal(entries[..m], n, now);
    } else {
      assert entries[..n] == entries;
    }
  }

  /** Item `k` is the first of `items` whose extraction fails, with error `e`. */
  predicate FirstFailureAt(items: seq<ItemProduct>, now: string, k: nat, e: ParseError)
  {
    && k < |items|
    && ExtractRecord(items[k], now) == Err(e)
    && forall j :: 0 <= j < k ==> ExtractRecord(items[j], now).Ok?
  }

  /** A successful parse has one record per item-product, in order, each the
      record extracted from that item. */
  lemma {:induction false} ParsedRecordsMatchItems(entries: seq<Entry>, now: string)
    requires ParseEntries(entries, now).Ok?
    ensures var records := ParseEntries(entries, now).value;
      && |records| == |ItemsOf(entries)|
      && forall k :: 0 <= k < |records| ==> ExtractRecord(ItemsOf(entries)[k], now) == Ok(records[k])
    decreases |entries|
  {
    if entries != [] {
      ParsedRecordsMatchItems(entries[..|entries| - 1], now);
    }
  }

  /** The parse succeeds exactly when every item-product yields a record. */
  lemma {:induction false} ParseSucceedsIffItemsExtract(entries: seq<Entry>, now: string)
    ensures ParseEntries(entries, now).Ok? <==>
      forall k :: 0 <= k < |ItemsOf(entries)| ==> ExtractRecord(ItemsOf(entries)[k], now).Ok?
    decreases |entries|
  {
    if entries != [] {
      var init := entries[..|entries| - 1];
      ParseSucceedsIffItemsExtract(init, now);
      var last := entries[|entries| - 1];
      assert ItemsOf(entries) == ItemsOf(init) + (if last.item.Some? then [last.item.value] else []);
      assert forall k :: 0 <= k < |ItemsOf(init)| ==> ItemsOf(entries)[k] == ItemsOf(init)[k];
      if last.item.Some? {
        assert ItemsOf(entries)[|ItemsOf(init)|] == last.item.value;
      }
    }
  }

  /** A failed parse reports the error of the first item-product that fails. */
  lemma {:induction false} ParseErrorIsFirstFailure(entries: seq<Entry>, now: string)
    requires ParseEntries(entries, now).Err?
    ensures exists k :: FirstFailureAt(ItemsOf(entries), now, k, ParseEntries(entries, now).error)
    decreases |entries|
  {
    var init := entries[..|entries| - 1];
    var items := ItemsOf(entries);
    assert forall k :: 0 <= k < |ItemsOf(init)| ==> items[k] == ItemsOf(init)[k];
    if ParseEntries(init, now).Err? {
      ParseErrorIsFirstFailure(init, now);
      var k :| FirstFailureAt(ItemsOf(init), now, k, ParseEntries(init, now).error);
      assert FirstFailureAt(items, now, k, ParseEntries(entries, now).error);
    } else {
      ParseSucceedsIffItemsExtract(init, now);
      var k := |ItemsOf(init)|;
      assert FirstFailureAt(items, now, k, ParseEntries(entries, now).error);
    }
  }

  /** `parse_home_sales`: the loop over the entries grows `products` one
      record per item-product, skipping entries without one; a link without
      `href` raises and ends the call. */
  method ParseHomeSales(page: Page, now: string) returns (r: Result<seq<Record>, ParseError>)
    ensures r == HomeSales(page, now)
  {
    if page.featured.None? {
      return Ok([]);
    }
    var entries := page.featured.value;
    var products: seq<Record> := [];
    var i := 0;
    while i < |entries|
      invariant 0 <= i <= |entries|
      invariant ParseEntries(entries[..i], now) == Ok(products)
    {
      assert entries[..i + 1][..i] == entries[..i];
      var entry := entries[i];
      if entry.item.None? {
        i := i + 1;
        continue;
      }
      var item := entry.item.value;

      var url: Option<string> := None;
      var name: Option<string> := None;
      if item.nameLink.Some? {
        if item.nameLink.value.href.None? {
          PrefixErrorIsFinal(entries, i + 1, now);
          return Err(MissingHref(NameLink));
        }
        url := item.nameLink.value.href;
        name := Some(item.nameLink.value.text);
      }

      var authorName: Option<string> := None;
      var authorId: Option<string> := None;
      if item.authorLink.Some? {
        authorName := Some(item.authorLink.value.text);
        if item.authorLink.value.href.None? {
          PrefixErrorIsFinal(entries, i + 1, now);
          return Err(MissingHref(AuthorLink));
        }
        var href := item.authorLink.value.href.value;
        if Text.Contains(href, AuthorIdMarker) {
          authorId := Some(Text.LastPiece(href, AuthorIdMarker));
        }
      }

      var priceOld: Option<string> := None;
      var priceNew: Option<string> := None;
      if item.priceOld.Some? {
        priceOld := Some(item.priceOld.value.text);
      }
      if item.priceNew.Some? {
        priceNew := Some(item.priceNew.value.text);
      }

      var discount := if item.discountFlag.Some? then Some(item.discountFlag.value.text) else None;
      var isNew := item.noveltyFlag.Some?;

      products := products + [Record(name, url, authorName, authorId, priceOld, priceNew,
                                     discount, isNew, HomeFeatured, now)];
      i := i + 1;
    }
    assert entries[..i] == entries;
    r := Ok(products);
  }
}
