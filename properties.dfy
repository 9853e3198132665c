// What a search promises, stated over the pipeline of BookReader: the format
// and size rule, the probe rule, deduplication by id, the cap of ten and the
// all-or-nothing failure. Results are compared by their ids and their books,
// never by position, because the order of `list(set)` is unspecified.

module SearchProperties {

  import opened Books
  import opened BookReader

  // ---------------------------------------------------------------------
  // The format and size rule
  // ---------------------------------------------------------------------

  /** `ext in tuple` holds exactly when `ext` names an enum member of the tuple. */
  lemma {:induction false} InExtensionsParse(ext: string, tuple: seq<Extension>)
    ensures InExtensions(Some(ext), tuple) <==>
            ParseExtension(ext).Some? && ParseExtension(ext).value in tuple
  {
    if tuple != [] {
      InExtensionsParse(ext, tuple[1..]);
      ParseValue(tuple[0]);
      assert forall e :: e in tuple <==> e == tuple[0] || e in tuple[1..];
    }
  }

  /**
   * The filter test restated over the enumeration: a book is kept iff its
   * extension is the searched one, names a member, and that member is mobi or
   * epub or the book is larger than 1 MiB.
   */
  lemma KeepByExtension(extToSearch: Option<string>, b: Book)
    ensures Keep(extToSearch, b) <==>
            extToSearch == Some(b.ext) &&
            ParseExtension(b.ext).Some? &&
            (ParseExtension(b.ext).value in {Mobi, Epub} || b.size > ThresholdSizeBytes)
  {
    InExtensionsParse(b.ext, LowSizeExtensions);
    InExtensionsParse(b.ext, AllowedExtensions);
    if ParseExtension(b.ext).Some? {
      var e := ParseExtension(b.ext).value;
      assert e in LowSizeExtensions <==> e in {Mobi, Epub};
      assert e in AllowedExtensions <==> e !in {Mobi, Epub};
    }
  }

  /** Size-gated formats need strictly more than 1048576 bytes; exempt formats need nothing. */
  lemma SizeGate(e: Extension, b: Book)
    requires b.ext == e.Value()
    ensures (e == Pdf || e == Fb2) ==> (Keep(Some(b.ext), b) <==> b.size > 1048576)
    ensures (e == Mobi || e == Epub) ==> Keep(Some(b.ext), b)
  {
    KeepByExtension(Some(e.Value()), b);
    ParseValue(e);
  }

  /** A mobi or epub book searched under its own format is kept whatever its size. */
  lemma ExemptFormatKept(b: Book)
    requires b.ext == "mobi" || b.ext == "epub"
    ensures Keep(Some(b.ext), b)
  {
    if b.ext == "mobi" {
      SizeGate(Mobi, b);
    } else {
      SizeGate(Epub, b);
    }
  }

  /** A pdf of exactly 1048576 bytes is rejected; an epub of 0 bytes is accepted. */
  lemma SizeBoundaries(pdf: Book, epub: Book)
    requires pdf.ext == "pdf" && pdf.size == 1048576
    requires epub.ext == "epub" && epub.size == 0
    ensures !Keep(Some("pdf"), pdf)
    ensures Keep(Some("epub"), epub)
  {
    SizeGate(Pdf, pdf);
    SizeGate(Epub, epub);
  }

  /** A searched extension in neither tuple (None, or an unknown string) keeps nothing. */
  lemma FilterUnknownExtension(extToSearch: Option<string>, books: seq<Book>)
    requires !InExtensions(extToSearch, LowSizeExtensions)
    requires !InExtensions(extToSearch, AllowedExtensions)
    ensures Filter(extToSearch, books) == []
  {
  }

  /** `a` is `b` with some elements left out, order kept. */
  ghost predicate IsSubsequence(a: seq<Book>, b: seq<Book>)
    decreases |b|
  {
    if a == [] then true
    else if b == [] then false
    else (a[|a| - 1] == b[|b| - 1] && IsSubsequence(a[..|a| - 1], b[..|b| - 1])) ||
         IsSubsequence(a, b[..|b| - 1])
  }

  /** The filter yields an order-preserving subsequence of its input. */
  lemma {:induction false} FilterIsSubsequence(extToSearch: Option<string>, books: seq<Book>)
    ensures IsSubsequence(Filter(extToSearch, books), books)
  {
    if books != [] {
      var init := books[..|books| - 1];
      var last := books[|books| - 1];
      var f := Filter(extToSearch, init);
      FilterIsSubsequence(extToSearch, init);
      if Keep(extToSearch, last) {
        var r := f + [last];
        assert r[..|r| - 1] == f;
        assert Filter(extToSearch, books) == r;
      } else {
        assert Filter(extToSearch, books) == f;
        if f != [] {
          assert IsSubsequence(f, books[..|books| - 1]);
        }
      }
    }
  }

  /** A single book comes out of the filter exactly when it passes the test. */
  lemma FilterSingle(extToSearch: Option<string>, x: Book)
    ensures Filter(extToSearch, [x]) == if Keep(extToSearch, x) then [x] else []
  {
    assert [x][..0] == [];
  }

  /**
   * The filter works book by book: filtering a concatenation filters each
   * part and concatenates, so order and repeats of passing books are kept.
   */
  lemma {:induction false} FilterAppend(extToSearch: Option<string>, a: seq<Book>, b: seq<Book>)
    ensures Filter(extToSearch, a + b) == Filter(extToSearch, a) + Filter(extToSearch, b)
  {
    if b == [] {
      assert a + b == a;
    } else {
      var init := b[..|b| - 1];
      var last := b[|b| - 1];
      assert a + b == (a + init) + [last];
      assert b == init + [last];
      FilterAppend(extToSearch, a, init);
      FilterSnoc(extToSearch, a + init, last);
      FilterSnoc(extToSearch, init, last);
    }
  }

  /** One more book filtered after `s`. */
  lemma FilterSnoc(extToSearch: Option<string>, s: seq<Book>, x: Book)
    ensures Filter(extToSearch, s + [x]) == Filter(extToSearch, s) + if Keep(extToSearch, x) then [x] else []
  {
    assert (s + [x])[..|s|] == s;
  }

  // ---------------------------------------------------------------------
  // The probe rule
  // ---------------------------------------------------------------------

  /**
   * A timeout yields the book twice, a page with the marker drops it, a page
   * without it yields it once, and any other error aborts.
   */
  lemma ProbeOutcomes(b: Book, text: string)
    ensures YieldsFor(b, Timeout) == Some([b, b])
    ensures Contains(text, BlockedMarker) ==> YieldsFor(b, Body(text)) == Some([])
    ensures !Contains(text, BlockedMarker) ==> YieldsFor(b, Body(text)) == Some([b])
    ensures YieldsFor(b, OtherError) == None
  {
    assert !Contains("", BlockedMarker);
    assert [b] + [b] == [b, b];
  }

  /** The page test is a plain substring search for the marker. */
  lemma BlockedMeansMarkerOccurs(text: string)
    ensures Unblocked(Body(text)) <==> !exists i :: OccursAt(text, BlockedMarker, i)
  {
    ContainsAt(text, BlockedMarker);
  }

  /** Probing a single book yields what its one probe yields. */
  lemma CheckAllSingle(x: Book, probe: Book -> ProbeOutcome)
    ensures CheckAll([x], probe) == YieldsFor(x, probe(x))
  {
    assert [x][..0] == [];
    match YieldsFor(x, probe(x))
    case None =>
    case Some(ys) => assert [] + ys == ys;
  }

  /** One more book probed after `s`: its yields follow those of `s`. */
  lemma CheckAllSnoc(s: seq<Book>, x: Book, probe: Book -> ProbeOutcome)
    ensures CheckAll(s + [x], probe).Some? <==> CheckAll(s, probe).Some? && YieldsFor(x, probe(x)).Some?
    ensures CheckAll(s + [x], probe).Some? ==>
            CheckAll(s + [x], probe).value == CheckAll(s, probe).value + YieldsFor(x, probe(x)).value
  {
    assert (s + [x])[..|s|] == s;
  }

  /**
   * The block check works book by book: on a concatenation it succeeds iff it
   * succeeds on both parts, and then yields the first part's books followed
   * by the second's, each as often as its probe yields it.
   */
  lemma {:induction false} CheckAllAppend(a: seq<Book>, b: seq<Book>, probe: Book -> ProbeOutcome)
    ensures CheckAll(a + b, probe).Some? <==> CheckAll(a, probe).Some? && CheckAll(b, probe).Some?
    ensures CheckAll(a + b, probe).Some? ==>
            CheckAll(a + b, probe).value == CheckAll(a, probe).value + CheckAll(b, probe).value
  {
    if b == [] {
      assert a + b == a;
    } else {
      var init := b[..|b| - 1];
      var last := b[|b| - 1];
      assert a + b == (a + init) + [last];
      assert b == init + [last];
      CheckAllAppend(a, init, probe);
      CheckAllSnoc(a + init, last, probe);
      CheckAllSnoc(init, last, probe);
      if CheckAll(a + b, probe).Some? {
        assert (CheckAll(a, probe).value + CheckAll(init, probe).value) + YieldsFor(last, probe(last)).value ==
               CheckAll(a, probe).value + (CheckAll(init, probe).value + YieldsFor(last, probe(last)).value);
      }
    }
  }

  // ---------------------------------------------------------------------
  // The stream and the failure cases
  // ---------------------------------------------------------------------

  /** Mapping a concatenation of items maps each part: success and books compose. */
  lemma {:induction false} MapAllAppend(a: seq<RawRecord>, b: seq<RawRecord>)
    ensures MapAll(a + b).Some? <==> MapAll(a).Some? && MapAll(b).Some?
    ensures MapAll(a + b).Some? ==> MapAll(a + b).value == MapAll(a).value + MapAll(b).value
  {
    if b == [] {
      assert a + b == a;
    } else {
      var init := b[..|b| - 1];
      var last := b[|b| - 1];
      assert a + b == (a + init) + [last];
      assert b == init + [last];
      MapAllAppend(a, init);
      MapAllSnoc(a + init, last);
      MapAllSnoc(init, last);
      if MapAll(a + b).Some? {
        assert (MapAll(a).value + MapAll(init).value) + [MapBook(last).value] ==
               MapAll(a).value + (MapAll(init).value + [MapBook(last).value]);
      }
    }
  }

  /** One more item mapped after `s`. */
  lemma MapAllSnoc(s: seq<RawRecord>, rec: RawRecord)
    ensures MapAll(s + [rec]).Some? <==> MapAll(s).Some? && MapBook(rec).Some?
    ensures MapAll(s + [rec]).Some? ==> MapAll(s + [rec]).value == MapAll(s).value + [MapBook(rec).value]
  {
    assert (s + [rec])[..|s|] == s;
  }

  /** The stream over a list of items, unfolded one stage at a time. */
  lemma StreamOfItems(extToSearch: Option<string>, records: seq<RawRecord>, probe: Book -> ProbeOutcome)
    ensures Stream(extToSearch, Items(records), probe) ==
            if MapAll(records).None? then None else CheckAll(Filter(extToSearch, MapAll(records).value), probe)
  {
  }

  /**
   * The whole stream works item by item: the search over a concatenation of
   * items succeeds iff it succeeds over each part, and its checked stream is
   * the first part's followed by the second's. With `FilterSingle` and
   * `CheckAllSingle` this fixes the order and the repeats of the stream the
   * set is built from, and so which book of an id comes first.
   */
  lemma StreamAppend(extToSearch: Option<string>, a: seq<RawRecord>, b: seq<RawRecord>, probe: Book -> ProbeOutcome)
    ensures Stream(extToSearch, Items(a + b), probe).Some? <==>
            Stream(extToSearch, Items(a), probe).Some? && Stream(extToSearch, Items(b), probe).Some?
    ensures Stream(extToSearch, Items(a + b), probe).Some? ==>
            Stream(extToSearch, Items(a + b), probe).value ==
            Stream(extToSearch, Items(a), probe).value + Stream(extToSearch, Items(b), probe).value
  {
    MapAllAppend(a, b);
    StreamOfItems(extToSearch, a + b, probe);
    StreamOfItems(extToSearch, a, probe);
    StreamOfItems(extToSearch, b, probe);
    if MapAll(a).Some? && MapAll(b).Some? {
      var fa := Filter(extToSearch, MapAll(a).value);
      var fb := Filter(extToSearch, MapAll(b).value);
      FilterAppend(extToSearch, MapAll(a).value, MapAll(b).value);
      CheckAllAppend(fa, fb, probe);
    }
  }

  /**
   * A search raises (and so returns None) exactly when `response.items` is
   * missing, some item fails `Book(**item)`, or the probe of some book that
   * passed the filter ends in an error other than a timeout.
   */
  lemma SearchFailsIff(extToSearch: Option<string>, response: Response, probe: Book -> ProbeOutcome)
    ensures Stream(extToSearch, response, probe).None? <==>
            response.NoItems? ||
            (exists i :: 0 <= i < |response.records| && MapBook(response.records[i]).None?) ||
            (MapAll(response.records).Some? &&
             exists b :: b in Filter(extToSearch, MapAll(response.records).value) && probe(b).OtherError?)
  {
    if response.Items? {
      StreamOfItems(extToSearch, response.records, probe);
      if MapAll(response.records).Some? {
        var kept := Filter(extToSearch, MapAll(response.records).value);
        if CheckAll(kept, probe).None? {
          var i :| 0 <= i < |kept| && probe(kept[i]).OtherError?;
          assert kept[i] in kept;
        } else {
          forall b | b in kept ensures !probe(b).OtherError? {
            var i :| 0 <= i < |kept| && kept[i] == b;
          }
        }
      }
    }
  }

  /**
   * On success the stream holds exactly the books built from the items that
   * pass the filter and whose probe lets them through.
   */
  lemma StreamMembers(extToSearch: Option<string>, records: seq<RawRecord>, probe: Book -> ProbeOutcome, x: Book)
    requires Stream(extToSearch, Items(records), probe).Some?
    ensures x in Stream(extToSearch, Items(records), probe).value <==>
            (exists i :: 0 <= i < |records| && MapBook(records[i]) == Some(x)) &&
            Keep(extToSearch, x) && Unblocked(probe(x))
  {
    var books := MapAll(records).value;
    if x in books {
      var i :| 0 <= i < |books| && books[i] == x;
      assert MapBook(records[i]) == Some(x);
    }
    if exists i :: 0 <= i < |records| && MapBook(records[i]) == Some(x) {
      var i :| 0 <= i < |records| && MapBook(records[i]) == Some(x);
      assert books[i] == x;
    }
  }

  /** The raw items the API would send for some books, in order. */
  function ToRecords(books: seq<Book>): (records: seq<RawRecord>)
    ensures |records| == |books|
  {
    if books == [] then [] else ToRecords(books[..|books| - 1]) + [ToRecord(books[|books| - 1])]
  }

  /** Mapping the raw items of some books gives those books back. */
  lemma {:induction false} MapAllToRecords(books: seq<Book>)
    ensures MapAll(ToRecords(books)) == Some(books)
  {
    if books != [] {
      var init := books[..|books| - 1];
      var last := books[|books| - 1];
      MapAllToRecords(init);
      MapBookToRecord(last, None);
      assert ToRecords(books) == ToRecords(init) + [ToRecord(last)];
      MapAllSnoc(ToRecords(init), ToRecord(last));
      assert books == init + [last];
    }
  }

  // ---------------------------------------------------------------------
  // The result: dedup by id and the cap of ten
  // ---------------------------------------------------------------------

  /** A sequence with distinct ids has as many ids as books. */
  lemma {:induction false} DistinctIdsCount(s: seq<Book>)
    requires DistinctIds(s)
    ensures |Ids(s)| == |s|
  {
    if s != [] {
      var init := s[..|s| - 1];
      var last := s[|s| - 1];
      DistinctIdsSnoc(s);
      DistinctIdsCount(init);
      assert s == init + [last];
      IdsAppend(init, last);
    }
  }

  /** Dropping the last book keeps ids distinct, and the last id is new. */
  lemma DistinctIdsSnoc(s: seq<Book>)
    requires s != [] && DistinctIds(s)
    ensures DistinctIds(s[..|s| - 1])
    ensures s[|s| - 1].id !in Ids(s[..|s| - 1])
  {
    var init := s[..|s| - 1];
    forall i, j | 0 <= i < j < |init| ensures DifferentBook(init[i], init[j]) {
      assert init[i] == s[i] && init[j] == s[j];
    }
    forall c | c in init ensures c.id != s[|s| - 1].id {
      var k :| 0 <= k < |init| && init[k] == c;
      assert s[k] == c;
    }
  }

  /**
   * Every result holds at most ten books with pairwise distinct ids; each of
   * them is in the stream, so it passed the block check, and it is the first
   * book of the stream with its id.
   */
  lemma ResultBounds(stream: seq<Book>, r: seq<Book>)
    requires Acceptable(stream, r)
    ensures |r| <= ReturnSize
    ensures |Ids(r)| == |r|
    ensures Ids(r) <= Ids(stream)
    ensures forall b :: b in r ==> b in stream
  {
    DistinctIdsCount(r);
  }

  /**
   * With fewer than ten distinct ids every id is returned; with ten or more,
   * exactly ten books are.
   */
  lemma AllReturnedBelowCap(stream: seq<Book>, r: seq<Book>)
    requires Acceptable(stream, r)
    ensures |Ids(stream)| < ReturnSize ==> Ids(r) == Ids(stream)
    ensures |Ids(stream)| >= ReturnSize ==> |r| == ReturnSize
  {
    ResultBounds(stream, r);
    if |Ids(stream)| < ReturnSize {
      var missing := Ids(stream) - Ids(r);
      assert Ids(stream) == Ids(r) + missing;
      assert |Ids(stream)| == |Ids(r)| + |missing|;
      assert missing == {};
    }
  }

  /**
   * Two results for the same stream have the same size; below the cap they
   * hold the same books, since each is the first book of its id.
   */
  lemma ResultDeterminedUpToOrder(stream: seq<Book>, r1: seq<Book>, r2: seq<Book>)
    requires Acceptable(stream, r1) && Acceptable(stream, r2)
    ensures |r1| == |r2|
    ensures |Ids(stream)| < ReturnSize ==> forall b :: b in r1 <==> b in r2
  {
    if |Ids(stream)| < ReturnSize {
      AllReturnedBelowCap(stream, r1);
      AllReturnedBelowCap(stream, r2);
      forall b | b in r1 ensures b in r2 {
        assert b.id in Ids(r2);
        var c :| c in r2 && c.id == b.id;
      }
      forall b | b in r2 ensures b in r1 {
        assert b.id in Ids(r1);
        var c :| c in r1 && c.id == b.id;
      }
    }
  }

  /**
   * Whatever the stream, a result holds at most one book of any id; when
   * fewer than ten distinct ids survive, a book of the stream (for example one
   * yielded twice after a timeout) has exactly one book of its id in the
   * result, the first of the stream with that id.
   */
  lemma ReturnedOncePerId(stream: seq<Book>, r: seq<Book>, b: Book)
    requires b in stream && Acceptable(stream, r)
    ensures forall i, j :: 0 <= i < |r| && 0 <= j < |r| && r[i].id == b.id && r[j].id == b.id ==> i == j
    ensures |Ids(stream)| < ReturnSize ==> exists i :: 0 <= i < |r| && r[i] == FirstWithId(stream, b.id)
  {
    if |Ids(stream)| < ReturnSize {
      AllReturnedBelowCap(stream, r);
      assert b.id in Ids(stream);
      var c :| c in r && c.id == b.id;
      var k :| 0 <= k < |r| && r[k] == c;
      assert r[k] == FirstWithId(stream, b.id);
    }
  }

  /** A timed-out book is yielded twice and still returned once. */
  lemma TimeoutReturnedOnce(b: Book, r: seq<Book>)
    requires Acceptable(YieldsFor(b, Timeout).value, r)
    ensures r == [b]
  {
    ProbeOutcomes(b, "");
    var stream := [b, b];
    assert Ids(stream) == {b.id};
    assert |r| == 1;
    assert r[0] in r;
  }

  // ---------------------------------------------------------------------
  // Whole searches
  // ---------------------------------------------------------------------

  /** A book whose page shows the marker is never returned. */
  lemma BlockedBookNotReturned(extToSearch: Option<string>, response: Response, probe: Book -> ProbeOutcome,
                               b: Book, r: seq<Book>)
    requires Stream(extToSearch, response, probe).Some?
    requires Acceptable(Stream(extToSearch, response, probe).value, r)
    requires probe(b).Body? && Contains(probe(b).text, BlockedMarker)
    ensures b !in r
  {
    ResultBounds(Stream(extToSearch, response, probe).value, r);
  }

  /**
   * A book that passes the filter and whose probe times out is in the stream
   * of a successful search, and its id is returned when fewer than ten
   * distinct ids survive.
   */
  lemma TimedOutBookReturned(extToSearch: Option<string>, records: seq<RawRecord>, probe: Book -> ProbeOutcome, i: int)
    requires Stream(extToSearch, Items(records), probe).Some?
    requires 0 <= i < |records| && MapBook(records[i]).Some?
    requires Keep(extToSearch, MapBook(records[i]).value) && probe(MapBook(records[i]).value) == Timeout
    ensures MapBook(records[i]).value in Stream(extToSearch, Items(records), probe).value
    ensures |Ids(Stream(extToSearch, Items(records), probe).value)| < ReturnSize ==>
            forall r :: Acceptable(Stream(extToSearch, Items(records), probe).value, r) ==>
              MapBook(records[i]).value.id in Ids(r)
  {
    var b := MapBook(records[i]).value;
    var stream := Stream(extToSearch, Items(records), probe).value;
    StreamMembers(extToSearch, records, probe, b);
    assert b in stream;
    forall r | Acceptable(stream, r) ensures |Ids(stream)| < ReturnSize ==> b.id in Ids(r) {
      AllReturnedBelowCap(stream, r);
    }
  }

  /**
   * When every book of the response passes the filter and the probe and fewer
   * than ten distinct ids occur, the search succeeds and every id is returned.
   */
  lemma UnblockedBooksAllReturned(extToSearch: Option<string>, books: seq<Book>, probe: Book -> ProbeOutcome)
    requires forall b :: b in books ==> Keep(extToSearch, b) && Unblocked(probe(b))
    requires |Ids(books)| < ReturnSize
    ensures Stream(extToSearch, Items(ToRecords(books)), probe).Some?
    ensures forall r :: Acceptable(Stream(extToSearch, Items(ToRecords(books)), probe).value, r) ==>
              Ids(r) == Ids(books)
  {
    UnblockedStream(extToSearch, books, probe);
    var stream := Stream(extToSearch, Items(ToRecords(books)), probe).value;
    forall r | Acceptable(stream, r) ensures Ids(r) == Ids(books) {
      AllReturnedBelowCap(stream, r);
    }
  }

  /** When every book passes the filter and the probe, the checked stream holds exactly those books. */
  lemma UnblockedStream(extToSearch: Option<string>, books: seq<Book>, probe: Book -> ProbeOutcome)
    requires forall b :: b in books ==> Keep(extToSearch, b) && Unblocked(probe(b))
    ensures Stream(extToSearch, Items(ToRecords(books)), probe).Some?
    ensures forall x :: x in Stream(extToSearch, Items(ToRecords(books)), probe).value <==> x in books
    ensures Ids(Stream(extToSearch, Items(ToRecords(books)), probe).value) == Ids(books)
  {
    var records := ToRecords(books);
    assert MapAll(records) == Some(books) by {
      MapAllToRecords(books);
    }
    assert Filter(extToSearch, books) == books by {
      FilterKeepsAll(extToSearch, books);
    }
    StreamOfItems(extToSearch, records, probe);
    CheckAllPasses(books, probe);
  }

  /** A probe that lets every book through yields exactly those books. */
  lemma CheckAllPasses(books: seq<Book>, probe: Book -> ProbeOutcome)
    requires forall b :: b in books ==> Unblocked(probe(b))
    ensures CheckAll(books, probe).Some?
    ensures forall x :: x in CheckAll(books, probe).value <==> x in books
    ensures Ids(CheckAll(books, probe).value) == Ids(books)
  {
    forall i | 0 <= i < |books| ensures !probe(books[i]).OtherError? {
      assert books[i] in books;
    }
    var stream := CheckAll(books, probe).value;
    assert forall x :: x in stream <==> x in books;
  }

  /** The filter keeps a list all of whose books pass its test. */
  lemma {:induction false} FilterKeepsAll(extToSearch: Option<string>, books: seq<Book>)
    requires forall b :: b in books ==> Keep(extToSearch, b)
    ensures Filter(extToSearch, books) == books
  {
    if books != [] {
      var init := books[..|books| - 1];
      var last := books[|books| - 1];
      assert books == init + [last];
      forall b | b in init ensures Keep(extToSearch, b) {
        assert b in books;
      }
      FilterKeepsAll(extToSearch, init);
      assert Keep(extToSearch, last) by {
        assert last in books;
      }
      FilterSnoc(extToSearch, init, last);
    }
  }

  /** Every epub book passes the filter of an epub search. */
  lemma EpubsKept(books: seq<Book>)
    requires forall b :: b in books ==> b.ext == "epub"
    ensures forall b :: b in books ==> Keep(Some("epub"), b)
  {
    forall b | b in books ensures Keep(Some("epub"), b) {
      ExemptFormatKept(b);
    }
  }

  /** A stream with the ids of a few distinct books returns exactly those ids, one book each. */
  lemma EveryIdReturned(stream: seq<Book>, books: seq<Book>)
    requires Ids(stream) == Ids(books) && |Ids(books)| == |books| < ReturnSize
    ensures forall r :: Acceptable(stream, r) ==> |r| == |books| && Ids(r) == Ids(books)
  {
    forall r | Acceptable(stream, r) ensures |r| == |books| && Ids(r) == Ids(books) {
      AllReturnedBelowCap(stream, r);
      ResultBounds(stream, r);
    }
  }

  /** Three unblocked epubs with distinct ids, searched as epub: the search succeeds with all three. */
  lemma ThreeEpubsAllReturned(books: seq<Book>, probe: Book -> ProbeOutcome)
    requires |books| == 3 && DistinctIds(books)
    requires forall b :: b in books ==> b.ext == "epub" && Unblocked(probe(b))
    ensures Stream(Some("epub"), Items(ToRecords(books)), probe).Some?
    ensures forall r :: Acceptable(Stream(Some("epub"), Items(ToRecords(books)), probe).value, r) ==>
              |r| == 3 && Ids(r) == Ids(books)
  {
    EpubsKept(books);
    DistinctIdsCount(books);
    UnblockedStream(Some("epub"), books, probe);
    EveryIdReturned(Stream(Some("epub"), Items(ToRecords(books)), probe).value, books);
  }

  /** One pdf of 500000 bytes, searched as pdf: the search succeeds with no books. */
  lemma SmallPdfNotReturned(b: Book, probe: Book -> ProbeOutcome)
    requires b.ext == "pdf" && b.size == 500000
    ensures Stream(Some("pdf"), Items(ToRecords([b])), probe) == Some([])
  {
    MapAllToRecords([b]);
    SizeGate(Pdf, b);
    assert Filter(Some("pdf"), [b]) == [];
  }
}
