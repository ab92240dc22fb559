# Bookstore scraper: verified model of the featured-listing parser and the extractor's decision rules

The scraper fetches the landing page of a bookstore, picks the featured
listings out of its HTML and dumps them as JSON. This project models, in
Dafny, the two places where it makes decisions:

- `parse_home_sales` (`parsers.dfy`, module `Parsers`): the page is the
  answers of the selector lookups the parser makes — an optional
  `div.box.product_featured` container, its `li.product` entries, the
  optional `div.item-product` of each entry and the six optional sub-tags.
  The parser is an imperative method whose loop grows `products` and is
  proved equal to a specification function, `ParseEntries`; lemmas about
  that function state skipping, counting, order and error behaviour.
  Subscripting a name or author link that has no `href` raises `KeyError`
  in the source, so the parse yields `Err(MissingHref(...))`.
- `make_request` and `save_json` (`extractor.dfy`, module `Extractor`): the
  mode / Content-Type dispatch, the mapping of every `RequestException`
  (transport failure, 4xx/5xx status, a body that does not decode as JSON)
  to `None`, the `None` guard, and the `.json` file-name normalisation. The
  file system `save_json` writes to is a `FileStore` object whose `dirs`
  and `files` the method updates.
- `text.dfy` (module `Text`) holds the Python string operations used:
  substring search, `split`, `[-1]` of a split, `endswith`, `lower`.
- `wrappers.dfy` holds `Option` and `Result`.

The timestamp the parser stamps on each record is a parameter `now`. The
decoded JSON of a response is an opaque type parameter.

`save_json` skips only `None`, so an empty list is still written. The
parser attaches no category, does no pagination and does not resolve
relative URLs: the `url` of a record is the `href` exactly as found.

## Model

| member | source | states |
|---|---|---|
| Parsers.ParseHomeSales | src/parsers.py:8-75 | the loop's result is exactly `HomeSales(page, now)`: no container gives `Ok([])`, otherwise the entry-by-entry parse, with the first `KeyError` ending the call |
| Parsers.HomeSales | src/parsers.py:13-22 | a page without the featured container yields `Ok([])`, not an error; a successful parse never has more records than `li.product` entries |
| Parsers.ParseEntries | src/parsers.py:19-71 | a successful parse has exactly one record per entry that holds an item-product |
| Parsers.ItemsOf | src/parsers.py:19-22 | there are never more item-products than entries |
| Parsers.TextOf | src/parsers.py:27 | `tag.get_text(strip=True) if tag else None`: some text exactly when the tag exists, and then that tag's text |
| Parsers.ExtractRecord | src/parsers.py:24-70 | `url` and `name` both come from the name link and are absent exactly when it is; author id present exactly when the author href contains `author_id=`; each price and the discount is its own tag's text, absent exactly when that tag is; `is_new` iff the novidade flag exists; `source` is `home_featured`, `created_at` the supplied time; a name or author link without `href` is an error, the name link checked first |
| Parsers.AuthorIdOf | src/parsers.py:32-34 | present iff the href contains `author_id=`; then a suffix of the href, immediately preceded by the marker, containing no marker, and after every occurrence of the marker |
| Parsers.MarkerBorderFree | src/parsers.py:34 | `author_id=` has no border, so two of its occurrences never overlap |
| Parsers.MarkerPieceFollowsEveryMarker | src/parsers.py:34 | every occurrence of the marker in an href ends at or before the piece `split(...)[-1]` returns |
| Parsers.ItemPositionsLocateItems | src/parsers.py:19-22 | the item-products are taken from exactly the entries that have one, at strictly increasing positions, so in entry order, and there are no more of them than entries |
| Parsers.ParsedRecordsMatchItems | src/parsers.py:19-71 | a successful parse has one record per item-product, in the same order, the k-th being the record extracted from the k-th item |
| Parsers.ParseSucceedsIffItemsExtract | src/parsers.py:19-34 | the parse succeeds if and only if every item-product has `href` on the links it holds |
| Parsers.ParseErrorIsFirstFailure | src/parsers.py:19-34 | a failed parse reports the error of the first item-product, in entry order, whose extraction fails |
| Parsers.PrefixErrorIsFinal | src/parsers.py:19-34 | once some prefix of the entries fails, the whole parse fails with that error: records gathered so far are not returned |
| Text.FindFrom | src/parsers.py:33 | the scan for the separator reports only an index at or after its start where the separator occurs |
| Text.FindFromIsLeftmost | src/parsers.py:33 | any occurrence at or after the start index is found or preceded by the one found: nothing is skipped, and `None` means there is no occurrence |
| Text.Contains | src/parsers.py:33 | `sep in s` (also the `in` of src/extractor.py line 62) holds iff `sep` occurs at some index of `s` |
| Text.Split | src/parsers.py:34 | `split` yields at least one piece, and exactly one iff the separator does not occur |
| Text.JoinSplit | src/parsers.py:34 | joining the pieces of `split` with the separator gives the text back |
| Text.SplitPiecesAvoidSep | src/parsers.py:34 | no piece of `split` contains the separator |
| Text.LastPiece | src/parsers.py:34 | `split(sep)[-1]` is a suffix of the text; it is the whole text iff the separator does not occur, and otherwise starts right after an occurrence of it |
| Text.LastPieceIsLastOfSplit | src/parsers.py:34 | `LastPiece` is the last element of `Split` |
| Text.LastPieceAvoidsSep | src/parsers.py:34 | the last piece of `split` contains no separator |
| Text.LastPieceFollowsLastOccurrence | src/parsers.py:34 | for a separator that cannot overlap itself, every occurrence ends before the last piece begins |
| Text.Lower | src/extractor.py:53 | same length, no upper-case letter left, every other character unchanged, each upper-case letter mapped to its lower-case form |
| Text.LowerIdempotent | src/extractor.py:53 | lower-casing twice is lower-casing once |
| Text.EndsWith | src/extractor.py:87 | `s.endswith(suffix)` holds iff `s` is some text followed by `suffix` |
| Extractor.IsHttpError | src/extractor.py:51 | a direct model of `raise_for_status`'s range test, 400 <= status < 600; its ensures restates that range as "the hundreds digit is 4 or 5" |
| Extractor.ContentTypeOf | src/extractor.py:53 | `""` without the header; otherwise the header value with every character lower-cased one by one (same length, each character its `LowerChar`), so no upper-case letter is left |
| Extractor.Decide | src/extractor.py:55-65 | mode `json` always decodes JSON, mode `text` always takes the text, mode `auto` decodes JSON iff the content type contains `application/json` |
| Extractor.MakeRequest | src/extractor.py:49-73 | transport failures and 4xx/5xx statuses give `None`; otherwise JSON exactly when the decision says JSON and the body decodes, text exactly when the decision says text, the payload being the reply's own |
| Extractor.ExplicitModeIgnoresContentType | src/extractor.py:55-59 | with mode `json` or `text` changing the Content-Type header changes nothing |
| Extractor.AutoModeIgnoresCase | src/extractor.py:53-63 | in auto mode two headers equal up to letter case give the same result |
| Extractor.MissingContentTypeGivesText | src/extractor.py:53-65 | in auto mode a reply without Content-Type is treated as `""` and returned as text |
| Extractor.MixedCaseJsonHeaderDecodes | src/extractor.py:53-63 | `Application/JSON; charset=utf-8` in auto mode decodes the body as JSON |
| Extractor.JsonFileName | src/extractor.py:87-88 | the name always ends in `.json`; a name already ending in `.json` is unchanged, any other gets exactly `.json` appended |
| Extractor.JsonFileNameIdempotent | src/extractor.py:87-88 | normalising twice equals normalising once |
| Extractor.JsonFileNameIsCaseSensitive | src/extractor.py:87 | `x.JSON` becomes `x.JSON.json` |
| Extractor.SaveJson | src/extractor.py:76-96 | returns `None` and changes nothing iff the data is `None`; otherwise creates the directory, writes the data at `output_dir / JsonFileName(filename)` and returns that path, leaving every other file as it was |
| Extractor.SaveEmptyRecordList | src/extractor.py:81-90 | saving an empty list into a new store writes `featured.json` under `out` holding `[]`, creates `out` and returns that path: an empty list is not `None` |

## Left out

- The HTTP session, its retry and back-off policy, the User-Agent header, the timeout and the GET itself: network I/O; a request enters the model as its outcome (`Exchange`).
- The `Extractor` object's `logger` and `session` fields and its constructor: they only hold the logger and the configured session, both outside the model, so the two operations are a function and a module-level method.
- Extractor.MakeRequest: a JSON body of `null` makes `response.json()` return Python `None`, which the caller cannot tell from a failure; the model returns `Some(Json(doc))` for it and so keeps the two apart.
- Extractor.MakeRequest: a body that does not decode gives `None` on the assumption that `requests` 2.27 or later is installed, where `JSONDecodeError` derives from `RequestException`; with older versions a `ValueError` escapes the `except` clause instead.
- Header lookup: `requests` looks headers up without regard to case; the model receives the Content-Type value already looked up.
- JSON decoding and serialisation (`response.json()`, `json.dump` with indent and non-ASCII output): the decoded value is opaque and a written file holds the data value itself.
- `mkdir(parents=True)` creating ancestors, and any `OSError` from the file system: `FileStore.dirs` records only the output directory.
- `FilePath`: `output_dir / filename` is kept as the pair; pathlib's normalisation (an absolute file name replacing the directory, separators, `.` components) is not modelled.
- BeautifulSoup's HTML parsing and CSS selector semantics: replaced by the optional lookups of `Page`, `Entry`, `ItemProduct`, `Tag`; `get_text(strip=True)` is an opaque text value.
- Parsers.ParseHomeSales: takes one timestamp `now` for all records, whereas the source reads the clock once per record, so records of one call may carry different times; the `%Y-%m-%d %H:%M:%S` formatting is not modelled.
- Text.Lower: folds ASCII letters only; Python's `str.lower()` folds all of Unicode.
- Logging calls: side effects with no bearing on results.
- `src/loader.py` (pandas reads, SQL full-replace load), `src/utils/log.py` (logger configuration) and `src/main.py` (script wiring with a fixed URL and path): I/O and orchestration, not part of this model.
- Pagination, category crawling, category names and absolute-URL resolution: no such code exists in the files modelled.
