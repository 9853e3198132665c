# techbooks: the book-search result pipeline, in Dafny

This project models the result-filtering pipeline of `VkBookReader` in
`vk_book_reader.py`. A chat bot uses it to search a document-search API for
e-books. One search response is turned into at most ten books in five steps:

1. Every raw item becomes a `Book` (`Book(**item)`).
2. The books are filtered by format and size.
3. The URL of every remaining book is probed for an access-blocked page.
4. The books that get through are collected into a set in which two books
   are equal when their ids are equal.
5. That set is cut to `RETURN_SIZE` (10) books.

If anything in the pipeline raises, the search returns `None`.

The network is replaced by data:

- The search response is a `Response`: either its `response.items` (a
  sequence of JSON objects) or `NoItems`. `NoItems` stands for a failed
  request, a body that is not JSON, or a body without `response.items`.
- The short-timeout GET of a book's URL is a function
  `probe: Book -> ProbeOutcome`. A `ProbeOutcome` is `Timeout`, `Body(text)`
  or `OtherError`.

Layout:

- `books.dfy`, module `Books`. The value types: `Book` with its id-only
  `__eq__`/`__ne__`/`__hash__` (including CPython's hash of an int), the
  `Extensions` enumeration, the class constants, and `Book(**item)` over a
  raw item.
- `reader.dfy`, module `BookReader`.
  - Each stage as a specification function: `MapAll`, `Filter`, `CheckAll`,
    `FirstById`.
  - The stream those stages produce (`Stream`).
  - `Acceptable`, the predicate that says which lists a search may return.
  - The class `VkBookReader`. Its loop methods mirror the source's
    generators and are proved equal to the specification functions.
    `GetBooksBySearch` composes them.
- `properties.dfy`, module `SearchProperties`. What a search promises, proved
  about the specification: the format/size rule and its boundaries, the
  probe rule, the failure cases, dedup by id, and the cap of ten.

Python's set has no defined iteration order. So `ListOf` picks the books of
the set in an order the model leaves open (`:|`). Every property of a result
is stated over its ids, its books and its length, never over positions.
Two results of the same search have the same length. When fewer than ten
distinct ids survive, two results also hold the same books. Above the cap,
which ten books are returned is not determined, and the model claims nothing
about it.

## Model

| member | source | states |
|---|---|---|
| Books.HashInt | vk_book_reader.py:29-30 | `hash` of an int is never -1, lies strictly between -(2^61-1) and 2^61-1, and is the int itself for 0 <= n < 2^61-1 and for -(2^61-1) < n < -1 |
| Books.SameBook | vk_book_reader.py:23-24 | `Book.__eq__`: two books are equal iff their ids are equal, whatever their other fields; `Books.SameIdSameBook` and `Books.IdentityIsEquivalence` state its consequences |
| Books.DifferentBook | vk_book_reader.py:26-27 | `Book.__ne__`: the negation of `__eq__`, so two books differ iff their ids differ; `Books.IdentityIsEquivalence` states that it is exactly `not __eq__` |
| Books.HashBook | vk_book_reader.py:29-30 | `Book.__hash__` is never -1 and equals the id for ids in 0 .. 2^61-2, since it hashes the id alone |
| Books.SameIdSameBook | vk_book_reader.py:23-30 | two books with the same id are equal both ways, are not unequal, and hash alike, whatever their other fields |
| Books.IdentityIsEquivalence | vk_book_reader.py:23-27 | `__ne__` is exactly the negation of `__eq__`; `__eq__` is reflexive, symmetric and transitive, and equal books hash alike |
| Books.AllExtensions | vk_book_reader.py:33-41 | `Extensions.values()` lists four members, contains every member, and no two members share a value (`Extension.Value` gives each member's string: `mobi`, `pdf`, `fb2`, `epub`) |
| Books.ParseExtension | vk_book_reader.py:33-37 | a string names an enum member only if that member's value is the string |
| Books.ParseValue | vk_book_reader.py:33-37 | every member is found again from its value `mobi`, `pdf`, `fb2` or `epub` |
| Books.InExtensions | vk_book_reader.py:87-89 | `ext in tuple`: a scan comparing the searched string with each member's value; `SearchProperties.InExtensionsParse` shows it holds iff the string names a member of the tuple |
| Books.ExtensionClasses | vk_book_reader.py:50-51 | mobi and epub are exactly the size-exempt tuple, pdf and fb2 exactly the size-gated tuple, and every member is in exactly one of the two |
| Books.MapBook | vk_book_reader.py:82 | a book is built only when every required field is present and no key is outside the dataclass fields, and it then carries the item's value in every field |
| Books.MapBookToRecord | vk_book_reader.py:11-21 | round trip: the raw item of a book, with or without a `preview`, maps back to that same book |
| Books.MapBookRejects | vk_book_reader.py:82 | an item missing a required field, or carrying a key that is not a field, makes no book |
| BookReader.Contains | vk_book_reader.py:102 | `pattern in text` on strings, by scanning suffixes; `BookReader.ContainsAt` shows it holds iff the pattern occurs at some position |
| BookReader.ContainsAt | vk_book_reader.py:102 | the substring test holds iff the pattern occurs in the text at some position |
| BookReader.MapAll | vk_book_reader.py:79-82 | `_map_books` succeeds iff every item maps; its books then correspond one to one and in order to the items |
| BookReader.Keep | vk_book_reader.py:86-89 | the filter's test, branch for branch; `SearchProperties.KeepByExtension` shows it keeps a book iff its extension is the searched one, names a member, and that member is mobi or epub or the size exceeds 1048576 |
| BookReader.Filter | vk_book_reader.py:84-90 | a book is in the filter's output iff it is in the input and passes the extension/size test; the output is no longer than the input |
| BookReader.Unblocked | vk_book_reader.py:97-103 | a probe lets its book through on a timeout or on a page without the marker; `SearchProperties.BlockedMeansMarkerOccurs` shows a page passes iff the marker occurs at no position |
| BookReader.YieldsFor | vk_book_reader.py:94-103 | one probe raises only on an error other than a timeout; otherwise the books it yields are exactly the probed book when the outcome is a timeout or a page without the marker, and none otherwise |
| BookReader.CheckAll | vk_book_reader.py:92-103 | `_check_block_book` succeeds iff no probe ends in another error; a book is then yielded iff it was input and its probe lets it through |
| BookReader.Stream | vk_book_reader.py:64-67 | the chain of the three stages over the response: a successful stream comes from a response with items, and every book in it passes the filter and its probe; `SearchProperties.SearchFailsIff` and `SearchProperties.StreamMembers` characterize it both ways |
| BookReader.FirstWithId | vk_book_reader.py:68 | the first book of the stream with a given id is a book of the stream carrying that id |
| BookReader.FirstWithIdIsFirst | vk_book_reader.py:68 | no book with the same id comes before the first one: it is found at or before every position holding its id |
| BookReader.FirstById | vk_book_reader.py:68 | the set built from the stream has exactly the stream's ids, and for each id it holds the first book seen with it (`set.add` keeps the present element) |
| BookReader.Acceptable | vk_book_reader.py:68-74 | what a successful search may return: pairwise distinct ids, min(distinct ids of the stream, 10) books, each the first book of the stream with its id; `SearchProperties.ResultBounds` and `SearchProperties.AllReturnedBelowCap` state its consequences |
| BookReader.TruncationAcceptable | vk_book_reader.py:70-74 | taking all books when fewer than ten, else the first ten of a list of the set, gives a result that `Acceptable` allows |
| BookReader.VkBookReader.constructor | vk_book_reader.py:53-55 | the reader keeps the extension it is asked to search for |
| BookReader.VkBookReader.MapBooks | vk_book_reader.py:79-82 | the loop over the items returns exactly what `MapAll` specifies, stopping at the first item that fails |
| BookReader.VkBookReader.FilterBooks | vk_book_reader.py:84-90 | the loop, with the source's nested branches, returns exactly `Filter` of its input |
| BookReader.VkBookReader.CheckBlockBook | vk_book_reader.py:92-103 | the loop that resets `text` for each book, yields in the timeout branch and again after the marker test, returns exactly `CheckAll` |
| BookReader.VkBookReader.Deduplicate | vk_book_reader.py:68 | collecting the stream into a set keyed by id gives exactly `FirstById` of the stream |
| BookReader.VkBookReader.ListOf | vk_book_reader.py:71 | `list(set)` holds each book of the set once, in some order, with pairwise distinct ids |
| BookReader.VkBookReader.GetBooksBySearch | vk_book_reader.py:57-77 | the search returns None iff some stage raises; otherwise its list is `Acceptable`: distinct ids, min(distinct ids, 10) books, each the first of its id in the checked stream |
| SearchProperties.InExtensionsParse | vk_book_reader.py:87-89 | `ext in tuple` holds iff the string names an enum member that is in the tuple |
| SearchProperties.KeepByExtension | vk_book_reader.py:84-90 | a book is kept iff its extension equals the searched one, names a member, and that member is mobi or epub or the size exceeds 1048576 |
| SearchProperties.SizeGate | vk_book_reader.py:86-90 | for pdf and fb2, a book of that format is kept iff its size is strictly greater than 1048576; mobi and epub books are kept at any size |
| SearchProperties.ExemptFormatKept | vk_book_reader.py:87-88 | a mobi or epub book searched under its own format is kept whatever its size |
| SearchProperties.SizeBoundaries | vk_book_reader.py:89 | a pdf of exactly 1048576 bytes is rejected and an epub of 0 bytes is accepted |
| SearchProperties.FilterUnknownExtension | vk_book_reader.py:84-90 | a searched extension in neither tuple, such as None from the bot, keeps no book at all |
| SearchProperties.FilterSingle | vk_book_reader.py:85-90 | one book comes out of the filter iff it passes the test |
| SearchProperties.FilterSnoc | vk_book_reader.py:85-90 | filtering one more book appends it iff it passes, after what the earlier books gave |
| SearchProperties.FilterAppend | vk_book_reader.py:85-90 | the filter works book by book: on a concatenation it gives the concatenation of the parts' outputs, keeping order and repeats |
| SearchProperties.FilterIsSubsequence | vk_book_reader.py:84-90 | the filter's output is an order-preserving subsequence of its input |
| SearchProperties.ProbeOutcomes | vk_book_reader.py:95-103 | a timeout yields the book twice, a page with `class="message_page_body"` yields nothing, a page without it yields the book once, and another error raises |
| SearchProperties.CheckAllSingle | vk_book_reader.py:93-103 | probing one book yields exactly what its single probe yields |
| SearchProperties.CheckAllSnoc | vk_book_reader.py:93-103 | probing one more book succeeds iff the earlier probes and its own do, and its yields follow theirs |
| SearchProperties.CheckAllAppend | vk_book_reader.py:93-103 | the block check works book by book: on a concatenation it succeeds iff it does on both parts, and yields the first part's books then the second's, with the same repeats |
| SearchProperties.BlockedMeansMarkerOccurs | vk_book_reader.py:102 | a page lets its book through iff the marker occurs at no position of its text |
| SearchProperties.MapAllSnoc | vk_book_reader.py:79-82 | mapping one more item succeeds iff the earlier items and it map, appending its book |
| SearchProperties.MapAllAppend | vk_book_reader.py:79-82 | mapping a concatenation of items succeeds iff both parts map, and gives the parts' books in order |
| SearchProperties.StreamOfItems | vk_book_reader.py:64-67 | the stream of a response with items is None when some item fails to map, and otherwise the block check of the filtered books |
| SearchProperties.StreamAppend | vk_book_reader.py:64-68 | the whole chain works item by item: over a concatenation of items the search succeeds iff it does over each part, and the checked stream is the first part's followed by the second's, which fixes the order and repeats the set is built from |
| SearchProperties.SearchFailsIff | vk_book_reader.py:60-77 | a search fails iff `response.items` is missing, some item fails `Book(**item)`, or some book that passed the filter has a probe ending in another error |
| SearchProperties.StreamMembers | vk_book_reader.py:64-68 | on success a book is in the checked stream iff some item maps to it, it passes the filter, and its probe lets it through |
| SearchProperties.MapAllToRecords | vk_book_reader.py:79-82 | mapping the raw items of a list of books gives that list back |
| SearchProperties.ResultBounds | vk_book_reader.py:68-74 | a result has at most ten books with pairwise distinct ids, all of them books of the checked stream |
| SearchProperties.AllReturnedBelowCap | vk_book_reader.py:70-74 | with fewer than ten distinct surviving ids every one of them is returned; with ten or more, exactly ten books are |
| SearchProperties.ResultDeterminedUpToOrder | vk_book_reader.py:68-74 | two results for the same stream have equal length, and below the cap they hold the same books |
| SearchProperties.ReturnedOncePerId | vk_book_reader.py:68-74 | in any search a result holds at most one book of a given id, so a book yielded twice (after a timeout) is never returned twice; below the cap a book of the stream has exactly one book of its id returned, the first of the stream with that id |
| SearchProperties.TimeoutReturnedOnce | vk_book_reader.py:95-103 | in a search whose checked stream is one book that timed out, that stream is the book twice and the only acceptable result is the book once |
| SearchProperties.BlockedBookNotReturned | vk_book_reader.py:102-103 | with one probe answer per book, a book whose page shows the marker is never returned |
| SearchProperties.TimedOutBookReturned | vk_book_reader.py:99-100 | in a successful search, a book that passes the filter and whose probe times out is in the checked stream, and when fewer than ten distinct ids survive every acceptable result holds its id |
| SearchProperties.UnblockedBooksAllReturned | vk_book_reader.py:57-77 | when every book of the response passes the filter and the probe and fewer than ten distinct ids occur, the search succeeds and every acceptable result holds exactly the books' ids |
| SearchProperties.UnblockedStream | vk_book_reader.py:64-68 | when every book passes the filter and the probe, the search succeeds and its checked stream holds exactly the response's books and ids |
| SearchProperties.CheckAllPasses | vk_book_reader.py:92-103 | when no probe raises or finds the marker, `_check_block_book` succeeds and yields exactly its input books |
| SearchProperties.FilterKeepsAll | vk_book_reader.py:84-90 | a list all of whose books pass the extension/size test comes out of the filter unchanged, in order |
| SearchProperties.EpubsKept | vk_book_reader.py:86-88 | every epub book passes the filter of an epub search, whatever its size |
| SearchProperties.EveryIdReturned | vk_book_reader.py:68-74 | when the stream has the ids of fewer than ten books with distinct ids, every acceptable result has one book per id and exactly those ids |
| SearchProperties.ThreeEpubsAllReturned | vk_book_reader.py:84-88 | three unblocked epubs with distinct ids, searched as epub: the search succeeds and every acceptable result is exactly those three books' ids, three books long |
| SearchProperties.SmallPdfNotReturned | vk_book_reader.py:89-90 | one pdf of 500000 bytes, searched as pdf, gives a successful search with no books |

## Left out

- `main.py` is not part of this model. It holds the chat commands, the keyboards, message sending and the process-wide `search_book_title`/`search_ext` fields. The reader's extension is a parameter of type `Option<string>`, where `None` is what the bot passes when no format was chosen.
- The HTTP layer is not modelled: the `ClientSession`, the request URL built from `API_URL_SEARCH`, `COUNT`, `VERSION` and the token, `res.json()` and `res.text()`. The response and the probe outcomes are inputs.
- The API token read from `VK_ACCESS_TOKEN`, and `logging.error`, are side effects with no effect on the result.
- The 0.5-second probe timeout is not modelled. Only the outcome `Timeout` matters.
- The probe is a function of the book. Within one search, probing the same book twice is taken to end the same way. In the source, two items for the same book are probed separately, so a marker page on one probe and a timeout on the other would still return the book; the model does not capture that.
- Async generators are modelled as sequences consumed in full. In the source, mapping, filtering and probing interleave item by item. Because the set comprehension drains the whole chain, the outcome is the same: any exception at any stage gives `None`.
- Books.MapBook: also rejects an item whose required field has a value of the wrong JSON type. The dataclass does not check types, so in the source such a value fails later (for example `size > THRESHOLD_SIZE_BYTES` on a string) or never. Python's dynamic typing of field values is not modelled.
- The `preview` field is accepted on construction and not kept, because its contents are opaque and unused.
- `response.items` that is present but not a list is not modelled; the response carries a sequence of items or none.
- SearchProperties.ResultDeterminedUpToOrder: which ten books come back when more than ten distinct ids survive is not modelled, so the model does not claim that two runs of the same search above the cap return the same ids. `list(set)` takes CPython's set iteration order, which for books hashed by int id is deterministic but an implementation detail; the model leaves it open (`ListOf` picks with `:|`), and only equal sizes are proved above the cap.
- Books.HashInt: models CPython's integer hash on 64-bit builds (modulus 2^61 - 1) only; 32-bit builds use 2^31 - 1.
- JSON numbers are modelled as integers. Fractional numbers and booleans are not modelled.
