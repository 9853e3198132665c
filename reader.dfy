// The result-filtering pipeline of `VkBookReader`: the raw items of one
// search response are turned into books, filtered by format and size,
// probed for the "access blocked" page, collected into a set keyed by id and
// cut to at most ten. The network is data here: the response either carries
// its items or not, and the probe of a book's URL is a function of the book.

module BookReader {

  import opened Books

  /** How the short-timeout GET of a book's URL ends. */
  datatype ProbeOutcome =
    | Timeout               // `asyncio.exceptions.TimeoutError`
    | Body(text: string)    // the request succeeded with this page text
    | OtherError            // any other exception, left uncaught

  /** The search response: `response.items` is present, or reading it raises. */
  datatype Response = Items(records: seq<RawRecord>) | NoItems

  /** The text that marks the access-blocked placeholder page. */
  const BlockedMarker: string := "class=\"message_page_body\""

  /** The smaller of two counts. */
  function Min(a: int, b: int): (r: int)
    ensures r <= a && r <= b
    ensures r == a || r == b
  {
    if a <= b then a else b
  }

  // ---------------------------------------------------------------------
  // Substring test (`pattern in text`)
  // ---------------------------------------------------------------------

  /** Python's `pattern in text` on strings. */
  predicate Contains(text: string, pattern: string)
    decreases |text|
  {
    pattern <= text || (text != [] && Contains(text[1..], pattern))
  }

  /** `pattern` occurs in `text` starting at position `i`. */
  predicate OccursAt(text: string, pattern: string, i: int)
  {
    0 <= i <= |text| - |pattern| && text[i..i + |pattern|] == pattern
  }

  /** `Contains` agrees with "the pattern occurs at some position". */
  lemma {:induction false} ContainsAt(text: string, pattern: string)
    ensures Contains(text, pattern) <==> exists i :: OccursAt(text, pattern, i)
  {
    if pattern <= text {
      assert OccursAt(text, pattern, 0);
    } else if text == [] {
    } else {
      ContainsAt(text[1..], pattern);
      if Contains(text[1..], pattern) {
        var i :| OccursAt(text[1..], pattern, i);
        assert text[i + 1..i + 1 + |pattern|] == text[1..][i..i + |pattern|];
        assert OccursAt(text, pattern, i + 1);
      }
      if exists i :: OccursAt(text, pattern, i) {
        var i :| OccursAt(text, pattern, i);
        assert i == 0 ==> pattern <= text;
        assert text[1..][i - 1..i - 1 + |pattern|] == text[i..i + |pattern|];
        assert OccursAt(text[1..], pattern, i - 1);
      }
    }
  }

  // ---------------------------------------------------------------------
  // Stage 1: `_map_books`
  // ---------------------------------------------------------------------

  /** `_map_books` consumed in full: every item becomes a book, or the search aborts. */
  function MapAll(records: seq<RawRecord>): (r: Option<seq<Book>>)
    ensures r.Some? <==> forall i :: 0 <= i < |records| ==> MapBook(records[i]).Some?
    ensures r.Some? ==> |r.value| == |records|
    ensures r.Some? ==> forall i :: 0 <= i < |records| ==> MapBook(records[i]) == Some(r.value[i])
  {
    if records == [] then Some([])
    else
      var init := records[..|records| - 1];
      match MapAll(init)
      case None => None
      case Some(books) =>
        match MapBook(records[|records| - 1])
        case None => None
        case Some(b) => Some(books + [b])
  }

  // ---------------------------------------------------------------------
  // Stage 2: `_filter_books`
  // ---------------------------------------------------------------------

  /** The test `_filter_books` applies to each book, branch for branch. */
  predicate Keep(extToSearch: Option<string>, b: Book)
  {
    Some(b.ext) == extToSearch &&
    (InExtensions(extToSearch, LowSizeExtensions) ||
     (InExtensions(extToSearch, AllowedExtensions) && b.size > ThresholdSizeBytes))
  }

  /** `_filter_books` consumed in full. */
  function Filter(extToSearch: Option<string>, books: seq<Book>): (r: seq<Book>)
    ensures |r| <= |books|
    ensures forall b :: b in r <==> b in books && Keep(extToSearch, b)
  {
    if books == [] then []
    else
      var last := books[|books| - 1];
      Filter(extToSearch, books[..|books| - 1]) + (if Keep(extToSearch, last) then [last] else [])
  }

  // ---------------------------------------------------------------------
  // Stage 3: `_check_block_book`
  // ---------------------------------------------------------------------

  /** The probe outcomes that let a book through: a timeout, or a page without the marker. */
  predicate Unblocked(outcome: ProbeOutcome)
  {
    outcome.Timeout? || (outcome.Body? && !Contains(outcome.text, BlockedMarker))
  }

  /**
   * What one iteration of `_check_block_book` yields for a book. A timeout
   * yields it in the except branch and again after it, because `text` is
   * still empty; a page yields it once unless it shows the marker; any other
   * exception aborts the search (None).
   */
  function YieldsFor(b: Book, outcome: ProbeOutcome): (r: Option<seq<Book>>)
    ensures r.Some? <==> !outcome.OtherError?
    ensures r.Some? ==> forall x :: x in r.value <==> x == b && Unblocked(outcome)
  {
    match outcome
    case OtherError => None
    case Timeout =>
      assert !Contains("", BlockedMarker);
      Some([b] + (if Contains("", BlockedMarker) then [] else [b]))
    case Body(text) => Some(if Contains(text, BlockedMarker) then [] else [b])
  }

  /** `_check_block_book` consumed in full. */
  function CheckAll(books: seq<Book>, probe: Book -> ProbeOutcome): (r: Option<seq<Book>>)
    ensures r.Some? <==> forall i :: 0 <= i < |books| ==> !probe(books[i]).OtherError?
    ensures r.Some? ==> forall x :: x in r.value <==> x in books && Unblocked(probe(x))
  {
    if books == [] then Some([])
    else
      var last := books[|books| - 1];
      match CheckAll(books[..|books| - 1], probe)
      case None => None
      case Some(out) =>
        match YieldsFor(last, probe(last))
        case None => None
        case Some(ys) => Some(out + ys)
  }

  // ---------------------------------------------------------------------
  // The stream the set comprehension consumes, and the result it builds
  // ---------------------------------------------------------------------

  /**
   * The books `checked_books` yields, in order and with repeats, or None when
   * reading `response.items`, building a book or probing a URL raises.
   */
  function Stream(extToSearch: Option<string>, response: Response, probe: Book -> ProbeOutcome): (r: Option<seq<Book>>)
    ensures r.Some? ==> response.Items?
    ensures r.Some? ==> forall x :: x in r.value ==> Keep(extToSearch, x) && Unblocked(probe(x))
  {
    match response
    case NoItems => None
    case Items(records) =>
      match MapAll(records)
      case None => None
      case Some(books) => CheckAll(Filter(extToSearch, books), probe)
  }

  /** A non-empty set has an element. */
  lemma HasElement(s: set<int>)
    requires s != {}
    ensures exists x :: x in s
  {
    assert (forall x :: x !in s) ==> s == {};
  }

  /**
   * The ids of a sequence of books. Since `Book.__eq__` is id equality and
   * equal books hash alike (`SameIdSameBook`), a set of books is determined
   * by, and keyed on, these ids.
   */
  function Ids(s: seq<Book>): (r: set<int>)
    ensures forall b :: b in s ==> b.id in r
  {
    set b | b in s :: b.id
  }

  /** No two books of `s` are equal under `Book.__eq__`. */
  ghost predicate DistinctIds(s: seq<Book>)
  {
    forall i, j :: 0 <= i < j < |s| ==> DifferentBook(s[i], s[j])
  }

  /** The first book of `s` whose id is `id`. */
  function FirstWithId(s: seq<Book>, id: int): (b: Book)
    requires id in Ids(s)
    ensures b in s && b.id == id
  {
    assert s[0] in s;
    if s[0].id == id then s[0]
    else
      assert id in Ids(s[1..]) by {
        var c :| c in s && c.id == id;
        var k :| 0 <= k < |s| && s[k] == c;
        assert s[1..][k - 1] == c;
      }
      FirstWithId(s[1..], id)
  }

  /** No book with the same id comes before `FirstWithId(s, id)`. */
  lemma {:induction false} FirstWithIdIsFirst(s: seq<Book>, k: int)
    requires 0 <= k < |s|
    ensures s[k].id in Ids(s)
    ensures FirstWithId(s, s[k].id) in s[..k + 1]
  {
    assert s[k] in s;
    if s[0].id != s[k].id {
      assert s[1..][k - 1] == s[k];
      FirstWithIdIsFirst(s[1..], k - 1);
      assert s[1..][..k] == s[1..k + 1];
    }
  }

  /** Appending a book does not change the first book of an id already present. */
  lemma {:induction false} FirstWithIdAppend(s: seq<Book>, x: Book, id: int)
    requires id in Ids(s)
    ensures id in Ids(s + [x])
    ensures FirstWithId(s + [x], id) == FirstWithId(s, id)
  {
    assert s[0] in s;
    assert (s + [x])[0] == s[0];
    assert s + [x] == [s[0]] + (s[1..] + [x]);
    if s[0].id != id {
      assert id in Ids(s[1..]) by {
        var c :| c in s && c.id == id;
        var k :| 0 <= k < |s| && s[k] == c;
        assert s[1..][k - 1] == c;
      }
      FirstWithIdAppend(s[1..], x, id);
      assert (s + [x])[1..] == s[1..] + [x];
    }
  }

  /** Ids of a sequence extended by one book. */
  lemma IdsAppend(s: seq<Book>, x: Book)
    ensures Ids(s + [x]) == Ids(s) + {x.id}
  {
    assert forall b :: b in s + [x] <==> b in s || b == x;
  }

  /** Adding one book to the set built from `init`, as `set.add` does. */
  lemma FirstByIdSnoc(s: seq<Book>, init: seq<Book>, last: Book, m: map<int, Book>)
    requires s == init + [last]
    requires m.Keys == Ids(init)
    requires forall id :: id in m ==> m[id] == FirstWithId(init, id)
    ensures var m' := if last.id in m then m else m[last.id := last];
      m'.Keys == Ids(s) &&
      forall id :: id in m' ==> m'[id] == FirstWithId(s, id)
  {
    IdsAppend(init, last);
    forall id | id in m
      ensures FirstWithId(s, id) == FirstWithId(init, id)
    {
      FirstWithIdAppend(init, last, id);
    }
    if last.id !in m {
      var f := FirstWithId(s, last.id);
      var k :| 0 <= k < |s| && s[k] == f;
    }
  }

  /**
   * The set a Python set comprehension builds from `s` when books are equal by
   * id: adding a book equal to one already present keeps the present one, so
   * each id maps to the first book seen with it. The map is keyed on the id
   * because `SameBook` (`__eq__`) compares ids only and `HashBook` depends
   * on the id only.
   */
  function FirstById(s: seq<Book>): (m: map<int, Book>)
    ensures m.Keys == Ids(s)
    ensures forall id :: id in m ==> m[id] == FirstWithId(s, id)
  {
    if s == [] then map[]
    else
      var init := s[..|s| - 1];
      var last := s[|s| - 1];
      var m := FirstById(init);
      FirstByIdSnoc(s, init, last, m);
      if last.id in m then m else m[last.id := last]
  }

  /**
   * What `get_books_by_search` may return for a stream on success: the books
   * of `list(deduplicated_books)[:RETURN_SIZE]` in any order. Ids are
   * distinct, there are as many as distinct ids in the stream up to ten, and
   * each book is the first of the stream with its id.
   */
  ghost predicate Acceptable(stream: seq<Book>, r: seq<Book>)
  {
    DistinctIds(r) &&
    |r| == Min(|Ids(stream)|, ReturnSize) &&
    forall b :: b in r ==> b.id in Ids(stream) && b == FirstWithId(stream, b.id)
  }

  /** Cutting a list of the deduplicated set to `RETURN_SIZE` gives an acceptable result. */
  lemma TruncationAcceptable(stream: seq<Book>, all: seq<Book>)
    requires |all| == |Ids(stream)|
    requires DistinctIds(all)
    requires forall b :: b in all ==> b.id in Ids(stream) && b == FirstWithId(stream, b.id)
    ensures Acceptable(stream, if |all| < ReturnSize then all else all[..ReturnSize])
  {
    var r := if |all| < ReturnSize then all else all[..ReturnSize];
    assert forall b :: b in r ==> b in all;
  }

  // ---------------------------------------------------------------------
  // The reader
  // ---------------------------------------------------------------------

  /** `VkBookReader`, configured with the extension to search for. */
  class VkBookReader {

    const extToSearch: Option<string>

    constructor (extToSearch: Option<string>)
      ensures this.extToSearch == extToSearch
    {
      this.extToSearch := extToSearch;
    }

    /** `_map_books`: one `Book(**item)` per item, in order. */
    static method MapBooks(records: seq<RawRecord>) returns (r: Option<seq<Book>>)
      ensures r == MapAll(records)
    {
      var books: seq<Book> := [];
      for i := 0 to |records|
        invariant MapAll(records[..i]) == Some(books)
      {
        var book := MapBook(records[i]);
        if book.None? {
          assert !MapBook(records[i]).Some?;
          return None;
        }
        assert records[..i + 1][..i] == records[..i];
        books := books + [book.value];
      }
      assert records[..|records|] == records;
      return Some(books);
    }

    /** `_filter_books`: keeps the books of the searched format that pass its size rule. */
    method FilterBooks(books: seq<Book>) returns (r: seq<Book>)
      ensures r == Filter(extToSearch, books)
    {
      r := [];
      for i := 0 to |books|
        invariant r == Filter(extToSearch, books[..i])
      {
        var book := books[i];
        assert books[..i + 1][..i] == books[..i];
        if Some(book.ext) == extToSearch {
          if InExtensions(extToSearch, LowSizeExtensions) {
            r := r + [book];
          } else if InExtensions(extToSearch, AllowedExtensions) && book.size > ThresholdSizeBytes {
            r := r + [book];
          }
        }
      }
      assert books[..|books|] == books;
    }

    /** `_check_block_book`: probes each book's URL and yields it as the probe allows. */
    static method CheckBlockBook(books: seq<Book>, probe: Book -> ProbeOutcome) returns (r: Option<seq<Book>>)
      ensures r == CheckAll(books, probe)
    {
      var out: seq<Book> := [];
      for i := 0 to |books|
        invariant CheckAll(books[..i], probe) == Some(out)
      {
        var book := books[i];
        assert books[..i + 1][..i] == books[..i];
        assert books[..i + 1][i] == book;
        ghost var before := out;
        var text := "";
        match probe(book) {
          case OtherError =>
            assert probe(books[i]).OtherError?;
            return None;
          case Timeout =>
            out := out + [book];
          case Body(t) =>
            text := t;
        }
        if !Contains(text, BlockedMarker) {
          out := out + [book];
        }
        assert out == before + YieldsFor(book, probe(book)).value;
      }
      assert books[..|books|] == books;
      return Some(out);
    }

    /** `{book async for book in checked_books}`: the set of books, keyed by id. */
    static method Deduplicate(stream: seq<Book>) returns (deduplicated: map<int, Book>)
      ensures deduplicated == FirstById(stream)
    {
      deduplicated := map[];
      for i := 0 to |stream|
        invariant deduplicated == FirstById(stream[..i])
      {
        assert stream[..i + 1][..i] == stream[..i];
        if stream[i].id !in deduplicated {
          deduplicated := deduplicated[stream[i].id := stream[i]];
        }
      }
      assert stream[..|stream|] == stream;
    }

    /** `list(deduplicated_books)`: the books of the set in an unspecified order. */
    static method ListOf(deduplicated: map<int, Book>) returns (all: seq<Book>)
      requires forall id :: id in deduplicated ==> deduplicated[id].id == id
      ensures |all| == |deduplicated.Keys|
      ensures DistinctIds(all)
      ensures forall b :: b in all ==> b.id in deduplicated && deduplicated[b.id] == b
      ensures forall id :: id in deduplicated ==> deduplicated[id] in all
    {
      all := [];
      var rest := deduplicated.Keys;
      while rest != {}
        invariant rest <= deduplicated.Keys
        invariant |all| + |rest| == |deduplicated.Keys|
        invariant DistinctIds(all)
        invariant forall b :: b in all ==> b.id in deduplicated && deduplicated[b.id] == b && b.id !in rest
        invariant forall id :: id in deduplicated && id !in rest ==> deduplicated[id] in all
        decreases |rest|
      {
        HasElement(rest);
        var id :| id in rest;
        var book := deduplicated[id];
        assert forall j :: 0 <= j < |all| ==> all[j].id != id by {
          forall j | 0 <= j < |all| ensures all[j].id != id {
            assert all[j] in all;
          }
        }
        all := all + [book];
        rest := rest - {id};
      }
    }

    /**
     * `get_books_by_search` on a response: None when any stage raises,
     * otherwise at most ten books with distinct ids taken from the set the
     * checked stream is collected into.
     */
    method GetBooksBySearch(response: Response, probe: Book -> ProbeOutcome) returns (r: Option<seq<Book>>)
      ensures r.None? <==> Stream(extToSearch, response, probe).None?
      ensures r.Some? ==> Acceptable(Stream(extToSearch, response, probe).value, r.value)
    {
      if response.NoItems? {
        return None;
      }
      var books := MapBooks(response.records);
      if books.None? {
        return None;
      }
      var filteredBooks := FilterBooks(books.value);
      var checkedBooks := CheckBlockBook(filteredBooks, probe);
      if checkedBooks.None? {
        return None;
      }
      var stream := checkedBooks.value;
      var deduplicated := Deduplicate(stream);
      var all := ListOf(deduplicated);
      r := Some(if |all| < ReturnSize then all else all[..ReturnSize]);
      TruncationAcceptable(stream, all);
    }
  }
}
