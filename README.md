# ferrea chassis: validation and value layer

This project is a Dafny model of the validation and value logic that the ferrea
chassis shares between the library-management microservices. It covers five parts:

- **Validators** (`validators.dfy`): the URL check and the e-mail check that the attrs
  models attach to URL fields and e-mail fields. Each is a hand-written matcher over
  `seq<char>`, proved equal to a declarative description of the regular expression.
  The URL check is an unanchored search for `http(s?)://` followed by one host character.
  In the host class `[\w|-|\.]`, the `|-|` is a one-character range, so the hyphen is not
  part of it. The e-mail check is an anchored shape test, and it includes Python's `$`,
  which also matches before a single trailing newline.
- **Datasource** (`datasource.dfy`): construction of `BookDatasource`, the pydantic model
  of externally sourced book metadata. The field checks run first: the four-digit year
  rule and pydantic's `HttpUrl` type on the cover and on every portrait. Their errors are
  collected in field order. Only when all of them pass does the cross-field rule run:
  there must be as many portraits as authors.
- **Entities** (`entities.dfy`): the value entities, as datatypes, each with its
  constructor and its `serialize` map. This covers the URL-validated `Author` and `Book`,
  and assignment to their validated fields, which attrs re-checks. It also covers the
  `BookCopy.copy_id` identifier, the `Rating` range, `UserRoles` and the remaining
  serializers. `copy_id` is modelled on Python's own `str`, `str.zfill` and `int`, which
  are in `decimal.dfy`.
- **Users** (`users.dfy`): the `User` entity as a class. Its e-mail invariant holds on
  construction and on assignment. `as_node` and `serialize` are guarded by a two-phase
  lifecycle: `userid` and `card_nr` stay unassigned until their setters are called.
- **Context** (`context.dfy`): the per-request correlation context and its `log` map.

The repository holds three copies of the entities, and they do not carry the same rules:

- `src/ferrea/_models.py` has the URL and e-mail validators, `copy_id`, `Rating` with
  its `stars` field, the `User` setters, and a `serialize` method on every entity. It
  has no `as_node`.
- `src/ferrea/class_models/models.py` has the URL and e-mail validators, `copy_id`,
  the `User` setters, and an `as_node` method on every entity except `Year`, `Month`
  and `Day`. It has no `Rating` and no `serialize`.
- `src/ferrea/models/models.py` has the URL and e-mail validators, `copy_id`, `Rating`
  with a field named `star`, and the `User` setters. It has neither `serialize` nor
  `as_node`.

The rows for the entities other than `User`, for `Rating` and for every serializer
cite `src/ferrea/_models.py`; so do `Users.User.AssignEmail` and `Users.User.Serialize`.
The rows for `User` construction, its two setters and `as_node` cite
`src/ferrea/class_models/models.py`. Where a rule also exists in
another copy, the row adds that copy's line in parentheses.

Two behaviours of the code are worth stating up front:

- Nothing enforces that `userid` and `card_nr` are assigned only once: `SetUserid`
  overwrites on every call, and so does `SetCardNr`.
- The hyphen is not in the URL host class: `|-|` is the range from `|` to `|`.

## Model

| member | source | states |
|---|---|---|
| Validators.SearchUrl | src/ferrea/_validators.py:19-20 | the search finds a match iff some position starts `http://` or `https://` followed by a host character; the match is the leftmost one and extends over the longest run of host characters |
| Validators.SearchUrlFrom | src/ferrea/_validators.py:20 | the leftmost match at or after a position, or none when no position from there matches |
| Validators.HostRunEnd | src/ferrea/_validators.py:19 | the greedy `+` run: every character up to the end is in the host class and the next one is not |
| Validators.ValidateUrl | src/ferrea/_validators.py:6-24 | `None` passes; a string passes iff it contains the pattern somewhere; a refusal is a `ValueError` naming the attribute and the received value |
| Validators.UrlInContext | src/ferrea/_validators.py:20 | the search is unanchored: adding text before or after an accepted string keeps it accepted |
| Validators.UrlHostHyphen | src/ferrea/_validators.py:19 | the hyphen is not a host character: `http://-x` is refused while `http://a-x` passes |
| Validators.UrlRejectsPlainText | src/ferrea/_validators.py:21-24 | `not-a-url` is refused with the message for that attribute and value |
| Validators.UrlAcceptsExample | src/ferrea/_validators.py:19-21 | `https://example.com/x` passes |
| Validators.IndexOf | src/ferrea/_validators.py:40 | the first position of a character at or after a start, or none when it does not occur |
| Validators.MatchEmailBodyCorrect | src/ferrea/_validators.py:40 | the scanner accepts exactly the strings `L@D.T` with `L` over `[A-Za-z0-9_.+-]`, `D` over `[A-Za-z0-9-]` and `T` over `[A-Za-z0-9-.]`, all three non-empty |
| Validators.MatchEmail | src/ferrea/_validators.py:40-41 | the anchored search accepts exactly the e-mail shape, or the shape followed by one `"\n"` (Python's `$`) |
| Validators.ValidateEmail | src/ferrea/_validators.py:27-45 | `None` passes; a string passes iff it is accepted by the pattern; a refusal is a `ValueError` naming the attribute and the received value |
| Validators.EmailSingleAt | src/ferrea/_validators.py:40 | an accepted address has exactly one `@`, and a dot after it |
| Validators.EmailTrailingNewline | src/ferrea/_validators.py:40-41 | `s + "\n"` is accepted exactly when `s` has the e-mail shape |
| Validators.EmailAcceptsExample | src/ferrea/_validators.py:40-42 | `a.b+c@example.co` passes |
| Validators.EmailRejectsPlainText | src/ferrea/_validators.py:42-45 | `not-an-email` is refused with the message for that attribute and value |
| Datasource.FloorDiv | src/ferrea/models/datasource.py:26 | Python's `//` with a positive divisor: the quotient rounded down |
| Datasource.IsYear | src/ferrea/models/datasource.py:22-29 | a year passes iff it is between 1000 and 9999, so every negative number is refused; an accepted year is returned unchanged; a refusal reports the year |
| Datasource.PortraitErrors | src/ferrea/models/datasource.py:20 | every portrait that is not an `HttpUrl` gets an entry with its index and value, no valid portrait gets one, and the entries are in index order |
| Datasource.CheckLenOfAuthorsAndPortraits | src/ferrea/models/datasource.py:31-40 | the model passes unchanged iff it has no portraits or as many portraits as authors; otherwise one error carrying both counts |
| Datasource.FieldErrors | src/ferrea/models/datasource.py:15-29 | no field error is collected iff the given year has four digits, the cover is an `HttpUrl` and every portrait is one; every entry belongs to a field that fails (a given year outside 1000..9999, a cover or a portrait that is not an `HttpUrl`, with its index), and each failing field has its entry; no entry appears twice; a bad year is the first entry; the portrait entries come last, in index order; no entry is a count error |
| Datasource.Construct | src/ferrea/models/datasource.py:7-40 | the floor-division `TypeError` is raised exactly for an explicit `published_on=None`; otherwise any field error raises the validation error that lists exactly the collected field errors; a constructed model holds the fields as given; a validation error is never empty, and is either field errors only or the single count error |
| Datasource.Message | src/ferrea/models/datasource.py:28-39 | the year error is `str(year)`, which reads back as the year, followed by ` is not a four digits year.`; the count error is the fixed sentence of lines 36-39, then `str` of the author count, ` authors and `, `str` of the portrait count, and ` portraits.` |
| Datasource.ConstructSucceedsIff | src/ferrea/models/datasource.py:7-40 | construction succeeds iff `published_on` is not an explicit `None`, all field checks pass and, when portraits are given, there are as many as authors; the constructed model holds exactly the fields given |
| Datasource.BadYearFailsBeforeLengths | src/ferrea/models/datasource.py:22-31 | a bad year fails construction with the year error first, and the count rule is not reported |
| Datasource.CountMismatchFails | src/ferrea/models/datasource.py:34-39 | with valid fields and a portrait count different from the author count, construction fails with exactly the count error |
| Datasource.NoPortraitsNoLengthRule | src/ferrea/models/datasource.py:34 | without portraits any number of authors is accepted, and the model is returned as given |
| Datasource.YearMessageExample | src/ferrea/models/datasource.py:28 | the year error for 20 reads `20 is not a four digits year.` |
| Datasource.CountMessageExample | src/ferrea/models/datasource.py:36-39 | the count error for 2 authors and 1 portrait spells out both counts |
| Datasource.YearExamples | src/ferrea/models/datasource.py:26-29 | 20, -1, 999 and 10000 are refused; 1000, 1999, 2024 and 9999 pass unchanged |
| Datasource.TestHappyPath | tests/models/test_datasource.py:21-61 | 2 authors with 2 portraits in 2024 and 1 with 1 in 2025 construct |
| Datasource.TestDifferentNumberOfAuthorsAndPortraits | tests/models/test_datasource.py:64-76 | 2 authors with 1 portrait fail with the count error (2, 1) |
| Datasource.TestWrongYearFormat | tests/models/test_datasource.py:79-91 | the year 20 fails with exactly the year error |
| Decimal.Str | src/ferrea/_models.py:85 | Python's `str(int)`: a minus sign exactly for negative numbers, then digits with no leading zero unless the number is 0 |
| Decimal.ZFill | src/ferrea/_models.py:85 | Python's `str.zfill`: the length is the larger of the length and the width; a string already long enough is unchanged; otherwise zeros are inserted after a leading sign, or in front when there is none |
| Decimal.ParseInt | src/ferrea/_models.py:85 | Python's `int(str)` on decimal text: defined exactly for digits, optionally after one sign; a `-` gives a value of at most 0, anything else a value of at least 0 |
| Decimal.ParseStr | src/ferrea/_models.py:85 | `int(str(n)) == n` for every integer |
| Decimal.NatStrLength | src/ferrea/_models.py:85 | the decimal text of a number fits in `k` characters iff the number is below `10^k` |
| Decimal.ZFillNatStr | src/ferrea/_models.py:85 | padding the text of a number up to `width` keeps its value and gives it at least `width` digits |
| Decimal.DigitsValueAppend | src/ferrea/_models.py:85 | reading `a + b` gives the value of `a` shifted by the length of `b`, plus the value of `b` |
| Entities.CopyIdDecomposes | src/ferrea/_models.py:85 | for a non-negative barcode and a copy number in 0..999, `copy_id` is `barcode * 1000 + copy_nr`, and dividing by 1000 gives both back (also src/ferrea/class_models/models.py:106, src/ferrea/models/models.py:55) |
| Entities.CopyIdWide | src/ferrea/_models.py:85 | from copy number 1000 on, `zfill` does not truncate, and the copy number shifts the barcode by its own number of digits |
| Entities.CopyIdCollision | src/ferrea/_models.py:85 | barcode 1 with copy 2345 and barcode 12 with copy 345 are different copies with the same identifier 12345 |
| Entities.CopyId | src/ferrea/_models.py:85 | `copy_id` is defined exactly when the copy number is not negative; otherwise `int(...)` raises (also src/ferrea/class_models/models.py:106, src/ferrea/models/models.py:55) |
| Entities.CopyIdTextParses | src/ferrea/_models.py:85 | the text `barcode` followed by the padded copy number is a number iff the copy number is not negative: a negative one puts its minus sign after the barcode's digits |
| Entities.CopyIdNegativeBarcode | src/ferrea/_models.py:85 | a negative barcode makes the whole text negative: the identifier is `barcode * 1000 - copy_nr` |
| Entities.CopyIdExample | src/ferrea/_models.py:77-85 | copy 7 of barcode 12345 has identifier 12345007 |
| Entities.NewAuthor | src/ferrea/_models.py:14-22 | an author is constructed iff its portrait URL is absent or passes the URL check; it then holds the fields given; otherwise the URL error for `portrait_url` (also src/ferrea/class_models/models.py:54, src/ferrea/models/models.py:21) |
| Entities.AssignPortraitUrl | src/ferrea/_models.py:22 | attrs re-validates on assignment: the new URL is stored iff it passes, with nothing else changed; otherwise the URL error |
| Entities.SerializeAuthor | src/ferrea/_models.py:24-35 | exactly the keys `author`, `author_sort` and `portrait_url`, each holding its field |
| Entities.NewBook | src/ferrea/_models.py:38-49 | a book is constructed iff its cover URL is absent or passes the URL check; it then holds the fields given; otherwise the URL error for `cover_url` (also src/ferrea/class_models/models.py:77, src/ferrea/models/models.py:35) |
| Entities.AssignCoverUrl | src/ferrea/_models.py:49 | the new cover URL is stored iff it passes, with nothing else changed; otherwise the URL error |
| Entities.SerializeBook | src/ferrea/_models.py:51-65 | exactly the six field keys, each holding its field |
| Entities.SerializeBookCopy | src/ferrea/_models.py:87-97 | exactly `copy_nr` and `barcode`; `copy_id` is not among the keys |
| Entities.SerializeIsLossless | src/ferrea/_models.py:31-35 | equal serialized maps of authors, of books or of copies mean equal entities (also src/ferrea/_models.py:58-65, 94-97) |
| Entities.SerializedCopyDeterminesId | src/ferrea/_models.py:85-97 | the serialized copy determines `copy_id`, although the identifier is not in the map |
| Entities.NewRating | src/ferrea/_models.py:169-176 | a rating is constructed iff `0 < stars <= 5`, holding the value given; `gt(0)` reports first and `le(5)` second (also src/ferrea/models/models.py:95) |
| Entities.AssignStars | src/ferrea/_models.py:176 | assignment re-validates: the stars change iff the new value is in 1..5; a value of at most 0 raises the `gt(0)` error, a value above 5 the `le(5)` error |
| Entities.SerializeRating | src/ferrea/_models.py:178-187 | exactly the key `stars`, whose value is in 1..5 |
| Entities.SerializeBookFormat | src/ferrea/_models.py:100-117 | exactly the key `book_format` holding the field |
| Entities.SerializeLibrary | src/ferrea/_models.py:120-146 | `email`, `address`, `name` and `phone`, with the location flattened to `latitude` and `longitude` |
| Entities.SerializeLibraryForgetsPlace | src/ferrea/_models.py:139-146 | the location's address and altitude do not reach the map |
| Entities.SerializePublisher | src/ferrea/_models.py:149-166 | exactly the key `publishing` holding the field |
| Entities.SerializeReading | src/ferrea/_models.py:190-203 | the empty map |
| Entities.SerializeReservation | src/ferrea/_models.py:206-219 | the empty map |
| Entities.SerializeSaga | src/ferrea/_models.py:222-239 | exactly the key `series` holding the field |
| Entities.RoleFromValue | src/ferrea/_models.py:294-301 | the enum lookup by value succeeds iff the value is `admin`, `librarian` or `user`, and returns the member with that value |
| Entities.RoleValueRoundTrip | src/ferrea/_models.py:294-301 | looking up a member's value gives the member back |
| Entities.SerializeUserRole | src/ferrea/_models.py:304-319 | exactly the key `role`, holding the role's enum value, one of the three |
| Users.User.constructor | src/ferrea/class_models/models.py:226-240 | a user built from a valid e-mail holds the fields given, with `userid` and `card_nr` not yet assigned |
| Users.User.Create | src/ferrea/class_models/models.py:232 | construction succeeds iff the e-mail passes the e-mail check, otherwise it raises the e-mail error (also src/ferrea/_models.py:248, src/ferrea/models/models.py:126) |
| Users.User.SetUserid | src/ferrea/class_models/models.py:242-247 | stores the new identifier on every call, whatever was there, and changes nothing else (also src/ferrea/_models.py:258-263, src/ferrea/models/models.py:136-141) |
| Users.User.SetCardNr | src/ferrea/class_models/models.py:249-256 | stores the argument unvalidated, `None` included, and changes nothing else (also src/ferrea/_models.py:265-272, src/ferrea/models/models.py:143-150) |
| Users.User.AssignEmail | src/ferrea/_models.py:248 | a new e-mail is stored iff it passes the e-mail check; a refused one leaves the old address, so the invariant holds |
| Users.User.AsNode | src/ferrea/class_models/models.py:258-270 | the node is built iff both fields were assigned and the card number is not `None`; an unassigned field raises its `AttributeError` (userid read first), a `None` raises the null-identity error, and the node carries every field |
| Users.User.Serialize | src/ferrea/_models.py:274-291 | fails for an unassigned `userid`, then for an unassigned `card_nr`; otherwise exactly the nine field keys holding their fields |
| Users.RegisterInEitherOrder | src/ferrea/class_models/models.py:238-270 | a new user cannot be projected, and after both setters the node is the same whichever setter ran first |
| Context.Log | src/ferrea/core/context.py:11-14 | exactly the keys `ferrea_uuid` and `app`, holding the two fields |
| Context.FromLog | src/ferrea/core/context.py:14 | a context is read back iff the map has both keys |
| Context.LogRoundTrip | src/ferrea/core/context.py:14 | the log map loses nothing: the context is recovered from it |
| Context.FromLogRoundTrip | src/ferrea/core/context.py:14 | every map with exactly the two keys is the log of some context |
| Context.LogExamples | tests/observability/test_logs.py:9-14 | empty and non-empty identifiers and application names pass through unchanged |

## Left out

- Database clients, the graph node classes and their relationships: these are Neo4j and py2neo I/O and attribute mapping. Only the guard in front of `as_node` is modelled, and the node is a datatype of the user's fields.
- Request headers, logging set-up, the API and OpenAPI loading, packaging, the project-file reader and the error record: these are I/O or plain library set-up with no logic of their own.
- `Year`, `Month` and `Day`: these are `datetime` and locale formatting.
- The `Datasource` class in `src/ferrea/_models.py`: its `published_on` field names `validate_publishing_year` (src/ferrea/_models.py:405-407), which `src/ferrea/_validators.py` does not define, so there is no rule to model.
- That missing name is evaluated while the class body runs. With `src/ferrea/_validators.py` as it stands, importing `src/ferrea/_models.py` therefore raises `AttributeError`, and none of its classes can be used. The rows citing that file describe it as it would behave once the name resolves. The same entity rules in `src/ferrea/class_models/models.py` and `src/ferrea/models/models.py` do not depend on it.
- Users.User.SetUserid: `uuid.uuid4()` randomness is replaced by an identifier parameter.
- Validators.ValidateUrl: `\w` is modelled as ASCII letters, digits and `_`. For input with non-ASCII word characters, the model refuses some strings that Python accepts.
- Datasource.ConstructSucceedsIff: pydantic's `HttpUrl` rules are a parameter `isHttpUrl`. Its URL normalisation is not modelled: the model keeps URLs as the strings given.
- Datasource.ConstructSucceedsIff: the type coercion of the other fields (`title`, `authors` and so on) is left to the types of the input record. Error entries model which check failed, not pydantic's exact wording or its `Value error, ` prefix.
- Users.User.Serialize: the `location` value is kept as a whole `Location`, and geopy coordinates are `real` rather than floating point.
- Entities.SerializeLibrary: the `latitude` and `longitude` values are `real` rather than floating point, as are the geopy coordinates they come from.
- The `instance` argument of the validators: it is never read, so it is not a parameter.
- Decimal.ParseInt: Python's `int` also accepts surrounding whitespace and `_` separators. The text built for `copy_id` never contains them, so the model does not accept them.
- Decimal.ParseStr: since Python 3.11 (and 3.10.7), `str(int)` and `int(str)` raise `ValueError` past `sys.get_int_max_str_digits()`, 4300 digits by default. The model has no such limit, so `copy_id` and the round trip are stated for numbers of any length.
- The `Rating` field in `src/ferrea/models/models.py` is named `star` rather than `stars`. It has the same rule, modelled once.
- The validator module imported by `src/ferrea/class_models/models.py` and `src/ferrea/models/models.py` is not part of this model. It is taken to be `src/ferrea/_validators.py`.
- Assignment to fields without a validator: attrs stores those as given, so no separate member models them.
