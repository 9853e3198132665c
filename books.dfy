// The value types of the book search: a document found by the search API,
// its identity, its Python hash, the closed set of requestable formats, and
// the construction of a Book from one raw JSON item (`Book(**item)`).

module Books {

  datatype Option<T> = None | Some(value: T)

  /** A JSON value as it appears in one item of the search response. */
  datatype Json = JInt(i: int) | JStr(s: string) | JOther

  /**
   * One document of the search response. `docType` is the API's `type`
   * field; the opaque `preview` dictionary is accepted on construction and
   * not kept.
   */
  datatype Book = Book(
    id: int,
    ownerId: int,
    title: string,
    size: int,
    ext: string,
    url: string,
    date: int,
    docType: int)

  // ---------------------------------------------------------------------
  // Identity: `__eq__`, `__ne__` and `__hash__` look at the id only.
  // ---------------------------------------------------------------------

  /** `Book.__eq__`. */
  predicate SameBook(a: Book, b: Book)
  {
    a.id == b.id
  }

  /** `Book.__ne__`, written as the source writes it: the negation of `__eq__`. */
  predicate DifferentBook(a: Book, b: Book)
  {
    !SameBook(a, b)
  }

  /** The modulus CPython reduces integer hashes by on 64-bit platforms. */
  const HashModulus: int := 0x1FFF_FFFF_FFFF_FFFF  // 2^61 - 1

  /**
   * CPython's `hash` of an int: the absolute value reduced modulo 2^61 - 1,
   * carrying the sign, with -1 (reserved as an error code) replaced by -2.
   */
  function HashInt(n: int): (h: int)
    ensures h != -1
    ensures -HashModulus < h < HashModulus
    ensures 0 <= n < HashModulus ==> h == n
    ensures n < -1 && -n < HashModulus ==> h == n
  {
    var m := (if n < 0 then -n else n) % HashModulus;
    var signed := if n < 0 then -m else m;
    if signed == -1 then -2 else signed
  }

  /** `Book.__hash__`. */
  function HashBook(b: Book): (h: int)
    ensures h != -1
    ensures 0 <= b.id < HashModulus ==> h == b.id
  {
    HashInt(b.id)
  }

  /** Books with the same id are equal and hash alike, whatever their other fields. */
  lemma SameIdSameBook(a: Book, b: Book)
    requires a.id == b.id
    ensures SameBook(a, b) && SameBook(b, a)
    ensures HashBook(a) == HashBook(b)
    ensures !DifferentBook(a, b)
  {
  }

  /** `__ne__` is the exact negation of `__eq__`, and `__eq__` is an equivalence. */
  lemma IdentityIsEquivalence(a: Book, b: Book, c: Book)
    ensures DifferentBook(a, b) <==> !SameBook(a, b)
    ensures SameBook(a, a)
    ensures SameBook(a, b) ==> SameBook(b, a)
    ensures SameBook(a, b) && SameBook(b, c) ==> SameBook(a, c)
    ensures SameBook(a, b) ==> HashBook(a) == HashBook(b)
  {
  }

  // ---------------------------------------------------------------------
  // Extensions
  // ---------------------------------------------------------------------

  /** The closed enumeration `Extensions(str, Enum)`. */
  datatype Extension = Mobi | Pdf | Fb2 | Epub
  {
    /** The string value of the member; a str-enum compares equal to it. */
    function Value(): string
    {
      match this
      case Mobi => "mobi"
      case Pdf => "pdf"
      case Fb2 => "fb2"
      case Epub => "epub"
    }
  }

  /** `Extensions.values()`: the members in declaration order. */
  function AllExtensions(): (r: seq<Extension>)
    ensures |r| == 4
    ensures Mobi in r && Pdf in r && Fb2 in r && Epub in r
    ensures forall i, j :: 0 <= i < j < |r| ==> r[i].Value() != r[j].Value()
  {
    [Mobi, Pdf, Fb2, Epub]
  }

  /** The enum member whose value is `s`, if any (`Extensions(s)`). */
  function ParseExtension(s: string): (r: Option<Extension>)
    ensures r.Some? ==> r.value.Value() == s
  {
    if s == "mobi" then Some(Mobi)
    else if s == "pdf" then Some(Pdf)
    else if s == "fb2" then Some(Fb2)
    else if s == "epub" then Some(Epub)
    else None
  }

  /** Every member is found again from its value, so values are distinct. */
  lemma ParseValue(e: Extension)
    ensures ParseExtension(e.Value()) == Some(e)
  {
  }

  /** `VkBookReader.LOW_SIZE_EXTENTIONS`: accepted whatever their size. */
  const LowSizeExtensions: seq<Extension> := [Mobi, Epub]

  /** `VkBookReader.ALLOWED_EXTENSIONS`: accepted only above the size threshold. */
  const AllowedExtensions: seq<Extension> := [Pdf, Fb2]

  /** `VkBookReader.THRESHOLD_SIZE_BYTES` (1 MiB). */
  const ThresholdSizeBytes: int := 1048576

  /** `VkBookReader.RETURN_SIZE`. */
  const ReturnSize: nat := 10

  /** `ext in tuple` for a tuple of str-enum members: a scan comparing string values. */
  predicate InExtensions(ext: Option<string>, tuple: seq<Extension>)
  {
    tuple != [] && (ext == Some(tuple[0].Value()) || InExtensions(ext, tuple[1..]))
  }

  /** The two tuples split the enumeration: each member is in exactly one. */
  lemma ExtensionClasses(e: Extension)
    ensures InExtensions(Some(e.Value()), LowSizeExtensions) <==> e == Mobi || e == Epub
    ensures InExtensions(Some(e.Value()), AllowedExtensions) <==> e == Pdf || e == Fb2
    ensures InExtensions(Some(e.Value()), LowSizeExtensions) != InExtensions(Some(e.Value()), AllowedExtensions)
  {
    ParseValue(e);
    ParseValue(Mobi);
    ParseValue(Pdf);
    ParseValue(Fb2);
    ParseValue(Epub);
    var x := Some(e.Value());
    assert LowSizeExtensions[1..] == [Epub] && [Epub][1..] == [];
    assert AllowedExtensions[1..] == [Fb2] && [Fb2][1..] == [];
    assert !InExtensions(x, []);
    assert InExtensions(x, LowSizeExtensions) <==> x == Some(Mobi.Value()) || x == Some(Epub.Value());
    assert InExtensions(x, AllowedExtensions) <==> x == Some(Pdf.Value()) || x == Some(Fb2.Value());
  }

  // ---------------------------------------------------------------------
  // Raw items and `Book(**item)`
  // ---------------------------------------------------------------------

  /** One item of `response.items`: a JSON object. */
  type RawRecord = map<string, Json>

  /** The dataclass fields without a default. */
  const RequiredFields: set<string> := {"id", "owner_id", "title", "size", "ext", "url", "date", "type"}

  /** The dataclass field with a default (`preview: Dict = None`). */
  const OptionalFields: set<string> := {"preview"}

  /** The JSON value a book's field has in a raw item. */
  function FieldValue(b: Book, name: string): (v: Json)
    ensures name in RequiredFields <==> !v.JOther?
  {
    match name
    case "id" => JInt(b.id)
    case "owner_id" => JInt(b.ownerId)
    case "title" => JStr(b.title)
    case "size" => JInt(b.size)
    case "ext" => JStr(b.ext)
    case "url" => JStr(b.url)
    case "date" => JInt(b.date)
    case "type" => JInt(b.docType)
    case _ => JOther
  }

  /** The raw item the API would send for a book, without a preview. */
  function ToRecord(b: Book): (rec: RawRecord)
    ensures rec.Keys == RequiredFields
  {
    map name | name in RequiredFields :: FieldValue(b, name)
  }

  /** The required fields of an item carry values of the field types. */
  predicate WellTyped(rec: RawRecord)
    requires RequiredFields <= rec.Keys
  {
    rec["id"].JInt? && rec["owner_id"].JInt? && rec["title"].JStr? && rec["size"].JInt? &&
    rec["ext"].JStr? && rec["url"].JStr? && rec["date"].JInt? && rec["type"].JInt?
  }

  /**
   * `Book(**item)`: fails (a TypeError in the source) when the item lacks a
   * required field or has a key that is not a field; a value of the wrong
   * JSON type fails as well.
   */
  function MapBook(rec: RawRecord): (r: Option<Book>)
    ensures r.Some? ==> RequiredFields <= rec.Keys <= RequiredFields + OptionalFields
    ensures r.Some? ==> forall name :: name in RequiredFields ==> rec[name] == FieldValue(r.value, name)
  {
    if !(RequiredFields <= rec.Keys && rec.Keys <= RequiredFields + OptionalFields) then None
    else if !WellTyped(rec) then None
    else Some(Book(rec["id"].i, rec["owner_id"].i, rec["title"].s, rec["size"].i,
                   rec["ext"].s, rec["url"].s, rec["date"].i, rec["type"].i))
  }

  /** Round trip: a book's raw item, with or without a preview, maps back to that book. */
  lemma MapBookToRecord(b: Book, preview: Option<Json>)
    ensures MapBook(ToRecord(b)) == Some(b)
    ensures preview.Some? ==> MapBook(ToRecord(b)["preview" := preview.value]) == Some(b)
  {
    var rec := ToRecord(b);
    assert rec.Keys == RequiredFields;
    assert rec["id"] == JInt(b.id) && rec["owner_id"] == JInt(b.ownerId);
    assert rec["title"] == JStr(b.title) && rec["size"] == JInt(b.size);
    assert rec["ext"] == JStr(b.ext) && rec["url"] == JStr(b.url);
    assert rec["date"] == JInt(b.date) && rec["type"] == JInt(b.docType);
    if preview.Some? {
      var rec' := rec["preview" := preview.value];
      assert rec'.Keys == RequiredFields + OptionalFields;
      assert forall name :: name in RequiredFields ==> rec'[name] == rec[name];
    }
  }

  /** An item missing a required field, or carrying an unknown key, makes no book. */
  lemma MapBookRejects(rec: RawRecord, name: string)
    requires (name in RequiredFields && name !in rec.Keys) ||
             (name in rec.Keys && name !in RequiredFields + OptionalFields)
    ensures MapBook(rec) == None
  {
  }
}
