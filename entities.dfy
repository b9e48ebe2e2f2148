/**
 * The value entities of the library's domain model: authors, books, copies,
 * formats, libraries, publishers, ratings, readings, reservations, sagas and
 * user roles. Each is an attrs class whose validators run on construction and
 * again on every assignment to a validated field; here each is a datatype, a
 * constructor function that returns the validator's error instead of raising
 * it, and the `serialize` map of its fields.
 */
module Entities {
  import opened Wrappers
  import Decimal
  import Validators

  /** A `uuid.UUID`: a 128-bit number. */
  newtype Uuid = x: int | 0 <= x < 0x1_0000_0000_0000_0000_0000_0000_0000_0000

  /** A geocoded place (`geopy.Location`): its address and its point. */
  datatype Location = Location(address: string, latitude: real, longitude: real, altitude: real)

  /** A value in a serialized map (the `Any` of `dict[str, Any]`). */
  datatype Value =
    | Text(text: string)
    | Integer(number: int)
    | Flag(flag: bool)
    | Coordinate(degrees: real)
    | Place(location: Location)
    | Identifier(uuid: Uuid)
    | Nothing

  function OptText(o: Option<string>): (v: Value)
    ensures v.Nothing? <==> o.None?
  {
    match o
    case None => Nothing
    case Some(s) => Text(s)
  }

  function OptInteger(o: Option<int>): (v: Value)
    ensures v.Nothing? <==> o.None?
  {
    match o
    case None => Nothing
    case Some(n) => Integer(n)
  }

  // ---------------------------------------------------------------------------
  // Author and Book: URL-validated fields
  // ---------------------------------------------------------------------------

  datatype Author = Author(author: string, authorSort: Option<string>, portraitUrl: Option<string>)

  /** The attrs invariant of an `Author`: its portrait URL passes the URL validator. */
  ghost predicate ValidAuthor(a: Author) {
    a.portraitUrl.None? || Validators.ContainsUrl(a.portraitUrl.value)
  }

  /** `Author(author, author_sort, portrait_url)`: the URL validator decides. */
  function NewAuthor(author: string, authorSort: Option<string>, portraitUrl: Option<string>)
    : (r: Result<Author, Validators.ValueError>)
    ensures r.Success? <==> portraitUrl.None? || Validators.ContainsUrl(portraitUrl.value)
    ensures r.Success? ==> r.value == Author(author, authorSort, portraitUrl) && ValidAuthor(r.value)
    ensures r.Failure? ==> r.error == Validators.ValueError(Validators.UrlMessage("portrait_url", portraitUrl.value))
  {
    match Validators.ValidateUrl("portrait_url", portraitUrl)
    case Pass => Success(Author(author, authorSort, portraitUrl))
    case Fail(e) => Failure(e)
  }

  /** `author.portrait_url = value`: attrs validates before assigning, so a failed assignment changes nothing. */
  function AssignPortraitUrl(a: Author, value: Option<string>): (r: Result<Author, Validators.ValueError>)
    ensures r.Success? <==> value.None? || Validators.ContainsUrl(value.value)
    ensures r.Success? ==> r.value == a.(portraitUrl := value) && ValidAuthor(r.value)
    ensures r.Failure? ==> r.error == Validators.ValueError(Validators.UrlMessage("portrait_url", value.value))
  {
    match Validators.ValidateUrl("portrait_url", value)
    case Pass => Success(a.(portraitUrl := value))
    case Fail(e) => Failure(e)
  }

  function SerializeAuthor(a: Author): (m: map<string, Value>)
    ensures m.Keys == {"author", "author_sort", "portrait_url"}
    ensures m["author"] == Text(a.author)
    ensures m["author_sort"] == OptText(a.authorSort) && m["portrait_url"] == OptText(a.portraitUrl)
  {
    map["author" := Text(a.author), "author_sort" := OptText(a.authorSort), "portrait_url" := OptText(a.portraitUrl)]
  }

  datatype Book = Book(
    isbn: string, title: string, language: string,
    plot: Option<string>, titleSort: Option<string>, coverUrl: Option<string>)

  ghost predicate ValidBook(b: Book) {
    b.coverUrl.None? || Validators.ContainsUrl(b.coverUrl.value)
  }

  /** `Book(isbn, title, language, plot, title_sort, cover_url)`: the URL validator decides. */
  function NewBook(isbn: string, title: string, language: string,
                   plot: Option<string>, titleSort: Option<string>, coverUrl: Option<string>)
    : (r: Result<Book, Validators.ValueError>)
    ensures r.Success? <==> coverUrl.None? || Validators.ContainsUrl(coverUrl.value)
    ensures r.Success? ==> r.value == Book(isbn, title, language, plot, titleSort, coverUrl) && ValidBook(r.value)
    ensures r.Failure? ==> r.error == Validators.ValueError(Validators.UrlMessage("cover_url", coverUrl.value))
  {
    match Validators.ValidateUrl("cover_url", coverUrl)
    case Pass => Success(Book(isbn, title, language, plot, titleSort, coverUrl))
    case Fail(e) => Failure(e)
  }

  /** `book.cover_url = value`, validated before it is assigned. */
  function AssignCoverUrl(b: Book, value: Option<string>): (r: Result<Book, Validators.ValueError>)
    ensures r.Success? <==> value.None? || Validators.ContainsUrl(value.value)
    ensures r.Success? ==> r.value == b.(coverUrl := value) && ValidBook(r.value)
    ensures r.Failure? ==> r.error == Validators.ValueError(Validators.UrlMessage("cover_url", value.value))
  {
    match Validators.ValidateUrl("cover_url", value)
    case Pass => Success(b.(coverUrl := value))
    case Fail(e) => Failure(e)
  }

  function SerializeBook(b: Book): (m: map<string, Value>)
    ensures m.Keys == {"isbn", "title", "title_sort", "language", "plot", "cover_url"}
    ensures m["isbn"] == Text(b.isbn) && m["title"] == Text(b.title) && m["language"] == Text(b.language)
    ensures m["title_sort"] == OptText(b.titleSort) && m["plot"] == OptText(b.plot)
    ensures m["cover_url"] == OptText(b.coverUrl)
  {
    map["isbn" := Text(b.isbn), "title" := Text(b.title), "title_sort" := OptText(b.titleSort),
        "language" := Text(b.language), "plot" := OptText(b.plot), "cover_url" := OptText(b.coverUrl)]
  }

  // ---------------------------------------------------------------------------
  // BookCopy and its copy identifier
  // ---------------------------------------------------------------------------

  datatype BookCopy = BookCopy(copyNr: int, barcode: int)

  /** The text `f"{barcode}{str(copy_nr).zfill(3)}"` that `copy_id` reads back. */
  function CopyIdText(c: BookCopy): string {
    Decimal.Str(c.barcode) + Decimal.ZFill(Decimal.Str(c.copyNr), 3)
  }

  /**
   * The `copy_id` property: the decimal barcode followed by the copy number
   * zero-padded to three characters, read back as an integer; `None` is the
   * `ValueError` of `int(...)`, raised exactly when the copy number is negative.
   */
  function CopyId(c: BookCopy): (r: Option<int>)
    ensures r.Some? <==> c.copyNr >= 0
  {
    CopyIdTextParses(c);
    Decimal.ParseInt(CopyIdText(c))
  }

  /** Without `copy_id`: only the two fields. */
  function SerializeBookCopy(c: BookCopy): (m: map<string, Value>)
    ensures m.Keys == {"copy_nr", "barcode"} && "copy_id" !in m
    ensures m["copy_nr"] == Integer(c.copyNr) && m["barcode"] == Integer(c.barcode)
  {
    map["copy_nr" := Integer(c.copyNr), "barcode" := Integer(c.barcode)]
  }

  /** On its intended domain the identifier is `barcode * 1000 + copy_nr`, and splits back into both. */
  lemma CopyIdDecomposes(c: BookCopy)
    requires c.barcode >= 0 && 0 <= c.copyNr <= 999
    ensures CopyId(c) == Some(c.barcode * 1000 + c.copyNr)
    ensures CopyId(c).value / 1000 == c.barcode && CopyId(c).value % 1000 == c.copyNr
  {
    var b := Decimal.NatStr(c.barcode);
    var z := Decimal.ZFill(Decimal.Str(c.copyNr), 3);
    PaddedCopyNr(c.copyNr);
    assert CopyIdText(c) == b + z;
    Decimal.NatStrValue(c.barcode);
    Decimal.DigitsValueAppend(b, z);
    Decimal.ParseDigits(b + z);
  }

  /** The copy number of the intended domain, padded: three digits worth the number itself. */
  lemma PaddedCopyNr(n: int)
    requires 0 <= n <= 999
    ensures var z := Decimal.ZFill(Decimal.Str(n), 3);
      |z| == 3 && Decimal.AllDigits(z) && Decimal.DigitsValue(z) == n && Decimal.Pow10(|z|) == 1000
  {
    assert Decimal.Str(n) == Decimal.NatStr(n);
    Decimal.NatStrLength(n, 3);
    Decimal.ZFillNatStr(n, 3);
    assert Decimal.Pow10(3) == 1000;
  }

  /**
   * From 1000 on, `zfill` no longer pads, and the copy number shifts the barcode
   * by its own number of digits.
   */
  lemma CopyIdWide(c: BookCopy)
    requires c.barcode >= 0 && c.copyNr >= 1000
    ensures CopyId(c) == Some(c.barcode * Decimal.Pow10(|Decimal.Str(c.copyNr)|) + c.copyNr)
  {
    var b := Decimal.NatStr(c.barcode);
    var n := Decimal.NatStr(c.copyNr);
    Decimal.NatStrLength(c.copyNr, 3);
    assert Decimal.ZFill(n, 3) == n;
    assert CopyIdText(c) == b + n;
    Decimal.DigitsValueAppend(b, n);
    Decimal.NatStrValue(c.barcode);
    Decimal.NatStrValue(c.copyNr);
    Decimal.ParseDigits(b + n);
  }

  /** Two different copies can share an identifier once copy numbers reach 1000. */
  lemma CopyIdCollision()
    ensures BookCopy(2345, 1) != BookCopy(345, 12)
    ensures CopyId(BookCopy(2345, 1)) == CopyId(BookCopy(345, 12)) == Some(12345)
  {
    CopyIdDecomposes(BookCopy(345, 12));
    CopyIdWide(BookCopy(2345, 1));
    Decimal.NatStrLength(2345, 4);
    Decimal.NatStrLength(2345, 3);
  }

  /**
   * The text is a number exactly when the copy number is not negative: a negative
   * one puts its minus sign inside the text, after the barcode's digits.
   */
  lemma CopyIdTextParses(c: BookCopy)
    ensures Decimal.ParseInt(CopyIdText(c)).Some? <==> c.copyNr >= 0
  {
    if c.copyNr < 0 {
      CopyIdTextMinusInside(c);
    } else if c.barcode >= 0 {
      CopyIdTextDigits(c);
    } else {
      CopyIdTextNegative(c);
    }
  }

  /** A negative copy number leaves a minus sign after the barcode's digits, which `int` refuses. */
  lemma CopyIdTextMinusInside(c: BookCopy)
    requires c.copyNr < 0
    ensures Decimal.ParseInt(CopyIdText(c)).None?
  {
    var b := Decimal.Str(c.barcode);
    var z := Decimal.ZFill(Decimal.Str(c.copyNr), 3);
    var t := CopyIdText(c);
    assert t == b + z;
    assert z[0] == '-';
    assert t[|b|] == '-';
    assert !Decimal.AllDigits(t) by { assert !Decimal.IsDigit(t[|b|]); }
    if Decimal.HasSign(t) && |t| > 1 {
      assert t[1..][|b| - 1] == '-';
      assert !Decimal.AllDigits(t[1..]) by { assert !Decimal.IsDigit(t[1..][|b| - 1]); }
    }
  }

  /** With both numbers non-negative the text is all digits. */
  lemma CopyIdTextDigits(c: BookCopy)
    requires c.barcode >= 0 && c.copyNr >= 0
    ensures Decimal.ParseInt(CopyIdText(c)).Some?
  {
    var b := Decimal.NatStr(c.barcode);
    var z := Decimal.ZFill(Decimal.NatStr(c.copyNr), 3);
    Decimal.ZFillNatStr(c.copyNr, 3);
    assert CopyIdText(c) == b + z;
    Decimal.AllDigitsAppend(b, z);
    Decimal.ParseDigits(b + z);
  }

  /** A negative barcode with a non-negative copy number is a sign followed by digits. */
  lemma CopyIdTextNegative(c: BookCopy)
    requires c.barcode < 0 && c.copyNr >= 0
    ensures Decimal.ParseInt(CopyIdText(c)).Some?
  {
    var m := Decimal.NatStr(-c.barcode);
    var z := Decimal.ZFill(Decimal.NatStr(c.copyNr), 3);
    assert Decimal.Str(c.barcode) == "-" + m;
    assert Decimal.Str(c.copyNr) == Decimal.NatStr(c.copyNr);
    assert CopyIdText(c) == "-" + m + z;
    Decimal.ZFillNatStr(c.copyNr, 3);
    SignedDigitsParse(m, z);
  }

  /** A sign followed by two runs of digits is an integer. */
  lemma SignedDigitsParse(m: string, z: string)
    requires |m| > 0 && Decimal.AllDigits(m) && Decimal.AllDigits(z)
    ensures Decimal.ParseInt("-" + m + z).Some?
  {
    var t := "-" + m + z;
    Decimal.AllDigitsAppend(m, z);
    assert t[1..] == m + z;
    assert Decimal.HasSign(t);
  }

  /** A negative barcode reads the whole text as negative: the copy number is subtracted. */
  lemma CopyIdNegativeBarcode(c: BookCopy)
    requires c.barcode < 0 && 0 <= c.copyNr <= 999
    ensures CopyId(c) == Some(c.barcode * 1000 - c.copyNr)
  {
    var b := Decimal.NatStr(-c.barcode);
    var z := Decimal.ZFill(Decimal.Str(c.copyNr), 3);
    PaddedCopyNr(c.copyNr);
    assert CopyIdText(c) == "-" + (b + z);
    Decimal.NatStrValue(-c.barcode);
    Decimal.DigitsValueAppend(b, z);
    Decimal.ParseNegative(b + z);
  }

  /** Copy 7 of barcode 12345. */
  lemma CopyIdExample()
    ensures CopyId(BookCopy(7, 12345)) == Some(12345007)
  {
    CopyIdDecomposes(BookCopy(7, 12345));
  }

  // ---------------------------------------------------------------------------
  // Rating: 0 < stars <= 5
  // ---------------------------------------------------------------------------

  type Stars = s: int | 1 <= s <= 5 witness 1

  /** A rating; the range is part of its type, so it holds however the value was obtained. */
  datatype Rating = Rating(stars: Stars)

  /** The failing attrs bound validator: `gt(0)` or `le(5)`. */
  datatype BoundError = NotGreaterThan(bound: int, value: int) | NotAtMost(bound: int, value: int)

  /** `Rating(stars)`: `gt(0)` is checked first, then `le(5)`. */
  function NewRating(stars: int): (r: Result<Rating, BoundError>)
    ensures r.Success? <==> 0 < stars <= 5
    ensures r.Success? ==> r.value.stars == stars
    ensures stars <= 0 ==> r == Failure(NotGreaterThan(0, stars))
    ensures stars > 5 ==> r == Failure(NotAtMost(5, stars))
  {
    if !(stars > 0) then Failure(NotGreaterThan(0, stars))
    else if !(stars <= 5) then Failure(NotAtMost(5, stars))
    else Success(Rating(stars))
  }

  /** `rating.stars = value`, validated before it is assigned. */
  function AssignStars(rating: Rating, value: int): (r: Result<Rating, BoundError>)
    ensures r.Success? <==> 1 <= value <= 5
    ensures r.Success? ==> r.value == rating.(stars := value)
    ensures value <= 0 ==> r == Failure(NotGreaterThan(0, value))
    ensures value > 5 ==> r == Failure(NotAtMost(5, value))
  {
    match NewRating(value)
    case Success(checked) => Success(rating.(stars := checked.stars))
    case Failure(e) => Failure(e)
  }

  function SerializeRating(r: Rating): (m: map<string, Value>)
    ensures m.Keys == {"stars"} && m["stars"] == Integer(r.stars)
    ensures 1 <= m["stars"].number <= 5
  {
    map["stars" := Integer(r.stars)]
  }

  // ---------------------------------------------------------------------------
  // Entities with plain fields
  // ---------------------------------------------------------------------------

  datatype BookFormat = BookFormat(bookFormat: string)

  function SerializeBookFormat(f: BookFormat): (m: map<string, Value>)
    ensures m.Keys == {"book_format"} && m["book_format"] == Text(f.bookFormat)
  {
    map["book_format" := Text(f.bookFormat)]
  }

  datatype Library = Library(name: string, address: string, location: Location, email: Option<string>, phone: Option<int>)

  /** The location is flattened to its two coordinates. */
  function SerializeLibrary(l: Library): (m: map<string, Value>)
    ensures m.Keys == {"email", "address", "name", "phone", "latitude", "longitude"}
    ensures m["email"] == OptText(l.email) && m["address"] == Text(l.address) && m["name"] == Text(l.name)
    ensures m["phone"] == OptInteger(l.phone)
    ensures m["latitude"] == Coordinate(l.location.latitude) && m["longitude"] == Coordinate(l.location.longitude)
  {
    map["email" := OptText(l.email), "address" := Text(l.address), "name" := Text(l.name),
        "phone" := OptInteger(l.phone),
        "latitude" := Coordinate(l.location.latitude), "longitude" := Coordinate(l.location.longitude)]
  }

  datatype Publisher = Publisher(publishing: string)

  function SerializePublisher(p: Publisher): (m: map<string, Value>)
    ensures m.Keys == {"publishing"} && m["publishing"] == Text(p.publishing)
  {
    map["publishing" := Text(p.publishing)]
  }

  datatype Saga = Saga(series: string)

  function SerializeSaga(s: Saga): (m: map<string, Value>)
    ensures m.Keys == {"series"} && m["series"] == Text(s.series)
  {
    map["series" := Text(s.series)]
  }

  datatype Reading = Reading

  function SerializeReading(r: Reading): (m: map<string, Value>)
    ensures |m| == 0
  {
    map[]
  }

  datatype Reservation = Reservation

  function SerializeReservation(r: Reservation): (m: map<string, Value>)
    ensures |m| == 0
  {
    map[]
  }

  // ---------------------------------------------------------------------------
  // User roles
  // ---------------------------------------------------------------------------

  /** The closed set of roles of the `UserRoles` enum. */
  datatype UserRoles = Admin | Librarian | User

  /** The enum member's `.value`. */
  function RoleValue(r: UserRoles): string {
    match r
    case Admin => "admin"
    case Librarian => "librarian"
    case User => "user"
  }

  /** `UserRoles(value)`: the member with that value; `None` is the `ValueError` for any other string. */
  function RoleFromValue(s: string): (r: Option<UserRoles>)
    ensures r.Some? <==> s in {"admin", "librarian", "user"}
    ensures r.Some? ==> RoleValue(r.value) == s
  {
    if s == "admin" then Some(Admin)
    else if s == "librarian" then Some(Librarian)
    else if s == "user" then Some(User)
    else None
  }

  lemma RoleValueRoundTrip(r: UserRoles)
    ensures RoleFromValue(RoleValue(r)) == Some(r)
  {
  }

  datatype UserRole = UserRole(role: UserRoles)

  function SerializeUserRole(ur: UserRole): (m: map<string, Value>)
    ensures m.Keys == {"role"} && m["role"] == Text(RoleValue(ur.role))
    ensures m["role"].text in {"admin", "librarian", "user"}
  {
    map["role" := Text(RoleValue(ur.role))]
  }

  // ---------------------------------------------------------------------------
  // What the serialized maps keep and lose
  // ---------------------------------------------------------------------------

  /** The serialized maps of these entities keep every field: equal maps mean equal entities. */
  lemma SerializeIsLossless(a1: Author, a2: Author, b1: Book, b2: Book, c1: BookCopy, c2: BookCopy)
    ensures SerializeAuthor(a1) == SerializeAuthor(a2) ==> a1 == a2
    ensures SerializeBook(b1) == SerializeBook(b2) ==> b1 == b2
    ensures SerializeBookCopy(c1) == SerializeBookCopy(c2) ==> c1 == c2
  {
    if SerializeAuthor(a1) == SerializeAuthor(a2) {
      OptTextInjective(a1.authorSort, a2.authorSort);
      OptTextInjective(a1.portraitUrl, a2.portraitUrl);
    }
    if SerializeBook(b1) == SerializeBook(b2) {
      OptTextInjective(b1.plot, b2.plot);
      OptTextInjective(b1.titleSort, b2.titleSort);
      OptTextInjective(b1.coverUrl, b2.coverUrl);
    }
  }

  lemma OptTextInjective(o1: Option<string>, o2: Option<string>)
    ensures OptText(o1) == OptText(o2) ==> o1 == o2
  {
  }

  /** The serialized copy still determines its identifier, although `copy_id` is not among its keys. */
  lemma SerializedCopyDeterminesId(c1: BookCopy, c2: BookCopy)
    requires SerializeBookCopy(c1) == SerializeBookCopy(c2)
    ensures CopyId(c1) == CopyId(c2)
  {
    SerializeIsLossless(Author("", None, None), Author("", None, None),
                        Book("", "", "", None, None, None), Book("", "", "", None, None, None), c1, c2);
  }

  /** A library's serialized map keeps only the coordinates of its location: address and altitude are lost. */
  lemma SerializeLibraryForgetsPlace(l: Library, address: string, altitude: real)
    ensures SerializeLibrary(l.(location := l.location.(address := address, altitude := altitude)))
         == SerializeLibrary(l)
  {
  }
}
