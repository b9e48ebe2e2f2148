/**
 * The ingestion-time representation of a book (`BookDatasource`): externally
 * sourced metadata validated as a pydantic model. Construction runs the field
 * checks first (the URL type of `cover` and of each portrait, the four-digit
 * rule on `published_on`), collecting every field error, and only when all of
 * them pass the cross-field rule that authors and portraits come in equal
 * numbers.
 */
module Datasource {
  import opened Wrappers
  import Decimal

  /**
   * How a field with default `None` was supplied: left out (the default is used
   * and no validator runs), passed as an explicit `None`, or passed a value.
   */
  datatype Field<T> = Omitted | Null | Given(value: T)

  /** The keyword arguments of a `BookDatasource(...)` call. */
  datatype BookDatasourceInput = BookDatasourceInput(
    title: string,
    authors: seq<string>,
    publishing: Option<string>,
    publishedOn: Field<int>,
    cover: Option<string>,
    plot: Option<string>,
    languages: Option<seq<string>>,
    bookFormats: Option<seq<string>>,
    authorsPortrait: Option<seq<string>>)

  /** A constructed `BookDatasource`. */
  datatype BookDatasource = BookDatasource(
    title: string,
    authors: seq<string>,
    publishing: Option<string>,
    publishedOn: Option<int>,
    cover: Option<string>,
    plot: Option<string>,
    languages: Option<seq<string>>,
    bookFormats: Option<seq<string>>,
    authorsPortrait: Option<seq<string>>)

  /** One entry of a pydantic `ValidationError`. */
  datatype ErrorDetail =
    | NotFourDigitsYear(year: int)
    | InvalidCoverUrl(cover: string)
    | InvalidPortraitUrl(index: nat, portrait: string)
    | PortraitCountMismatch(authors: nat, portraits: nat)

  /**
   * Why construction failed: a `ValidationError` listing its entries, or the
   * `TypeError` of `None // 1_000` when `published_on=None` is passed explicitly
   * (pydantic does not turn a `TypeError` into a validation error).
   */
  datatype ConstructionError = ValidationError(details: seq<ErrorDetail>) | NoneFloorDivision

  const YearSuffix := " is not a four digits year."
  const CountPrefix := "The number of authors portrait should match the number of authors. Received "
  const CountSuffix := " portraits."

  /**
   * The message of the `ValueError` behind an entry raised by the model's own
   * validators. The year error is the year's decimal text, which reads back as the
   * year, followed by a fixed sentence; the count error starts and ends with fixed
   * sentences around both counts.
   */
  function Message(d: ErrorDetail): (r: string)
    requires d.NotFourDigitsYear? || d.PortraitCountMismatch?
    ensures d.NotFourDigitsYear? ==>
      && |r| > |YearSuffix|
      && r[|r| - |YearSuffix|..] == YearSuffix
      && Decimal.ParseInt(r[..|r| - |YearSuffix|]) == Some(d.year)
      && r[..|r| - |YearSuffix|] == Decimal.Str(d.year)
    ensures d.PortraitCountMismatch? ==>
      && |r| > |CountPrefix| + |CountSuffix|
      && r[..|CountPrefix|] == CountPrefix
      && r[|r| - |CountSuffix|..] == CountSuffix
      && r[|CountPrefix|..|r| - |CountSuffix|]
         == Decimal.Str(d.authors) + " authors and " + Decimal.Str(d.portraits)
  {
    match d
    case NotFourDigitsYear(y) =>
      var t := Decimal.Str(y);
      Decimal.ParseStr(y);
      assert (t + YearSuffix)[..|t|] == t;
      t + YearSuffix
    case PortraitCountMismatch(a, p) =>
      // The source writes the prefix as two literals, the second one " Received ".
      assert CountPrefix == "The number of authors portrait should match the number of authors." + " Received ";
      var m := Decimal.Str(a) + " authors and " + Decimal.Str(p);
      CountLayout(CountPrefix, m, CountSuffix);
      CountPrefix + m + CountSuffix
  }

  /** Where the three parts of a concatenation sit in it. */
  lemma CountLayout(u: string, m: string, w: string)
    ensures (u + m + w)[..|u|] == u
    ensures (u + m + w)[|u| + |m|..] == w
    ensures (u + m + w)[|u|..|u| + |m|] == m
  {
    var s := u + m + w;
    assert s[..|u|] == u;
    assert s[|u| + |m|..] == w;
    assert s[|u|..|u| + |m|] == m;
  }

  /** Python's `a // b` for a positive divisor: the largest `q` with `q * b <= a`. */
  function FloorDiv(a: int, b: int): (q: int)
    requires b > 0
    ensures q * b <= a < (q + 1) * b
  {
    // Dafny's `/` is Euclidean; for a positive divisor it rounds down, as `//` does.
    a / b
  }

  /** The `is_year` field validator: the year comes back unchanged or raises. */
  function IsYear(value: int): (r: Result<int, ErrorDetail>)
    ensures r.Success? <==> 1000 <= value <= 9999
    ensures r.Success? ==> r.value == value
    ensures r.Failure? ==> r.error == NotFourDigitsYear(value)
  {
    var isFourDigitsLen := FloorDiv(value, 1_000) > 0 && FloorDiv(value, 10_000) == 0;
    if isFourDigitsLen then Success(value) else Failure(NotFourDigitsYear(value))
  }

  /** The errors of the portrait list at positions `from` and after, in order. */
  function PortraitErrors(portraits: seq<string>, isHttpUrl: string -> bool, from: nat): (es: seq<ErrorDetail>)
    requires from <= |portraits|
    ensures es == [] <==> forall i :: from <= i < |portraits| ==> isHttpUrl(portraits[i])
    ensures forall e :: e in es ==>
      (e.InvalidPortraitUrl? && from <= e.index < |portraits|
       && e.portrait == portraits[e.index] && !isHttpUrl(e.portrait))
    ensures forall i :: from <= i < |portraits| && !isHttpUrl(portraits[i]) ==>
      InvalidPortraitUrl(i, portraits[i]) in es
    ensures forall p, q :: 0 <= p < q < |es| ==>
      es[p].InvalidPortraitUrl? && es[q].InvalidPortraitUrl? && es[p].index < es[q].index
    decreases |portraits| - from
  {
    if from == |portraits| then []
    else
      var rest := PortraitErrors(portraits, isHttpUrl, from + 1);
      if isHttpUrl(portraits[from]) then rest
      else [InvalidPortraitUrl(from, portraits[from])] + rest
  }

  /**
   * The field-level entries, in field order: `published_on`, `cover`, then each
   * item of `authors_portrait`. `isHttpUrl` is pydantic's `HttpUrl` check.
   */
  function FieldErrors(input: BookDatasourceInput, isHttpUrl: string -> bool): (r: seq<ErrorDetail>)
    ensures r == [] <==> FieldsValid(input, isHttpUrl)
    ensures forall e :: e in r ==> !e.PortraitCountMismatch?
    ensures input.publishedOn.Given? && !(1000 <= input.publishedOn.value <= 9999) ==>
      |r| > 0 && r[0] == NotFourDigitsYear(input.publishedOn.value)
    ensures input.cover.Some? ==> (InvalidCoverUrl(input.cover.value) in r <==> !isHttpUrl(input.cover.value))
    ensures input.authorsPortrait.Some? ==>
      forall i :: 0 <= i < |input.authorsPortrait.value| && !isHttpUrl(input.authorsPortrait.value[i]) ==>
        InvalidPortraitUrl(i, input.authorsPortrait.value[i]) in r
    ensures forall p, q :: 0 <= p < q < |r| && r[p].InvalidPortraitUrl? ==>
      r[q].InvalidPortraitUrl? && r[p].index < r[q].index
    ensures forall p, q :: 0 <= p < q < |r| ==> r[p] != r[q]
    ensures forall e :: e in r ==>
      || (e.NotFourDigitsYear? && input.publishedOn == Given(e.year) && !(1000 <= e.year <= 9999))
      || (e.InvalidCoverUrl? && input.cover == Some(e.cover) && !isHttpUrl(e.cover))
      || (e.InvalidPortraitUrl? && input.authorsPortrait.Some? && e.index < |input.authorsPortrait.value|
          && e.portrait == input.authorsPortrait.value[e.index] && !isHttpUrl(e.portrait))
  {
    var year := if input.publishedOn.Given? && IsYear(input.publishedOn.value).Failure?
                then [IsYear(input.publishedOn.value).error] else [];
    var cover := if input.cover.Some? && !isHttpUrl(input.cover.value)
                 then [InvalidCoverUrl(input.cover.value)] else [];
    var portraits := if input.authorsPortrait.Some?
                     then PortraitErrors(input.authorsPortrait.value, isHttpUrl, 0) else [];
    FieldOrder(year, cover, portraits);
    year + cover + portraits
  }

  /**
   * At most one year entry, then at most one cover entry, then portrait entries in
   * strict index order: each entry appears once, and the portrait entries come last,
   * by index.
   */
  lemma FieldOrder(year: seq<ErrorDetail>, cover: seq<ErrorDetail>, portraits: seq<ErrorDetail>)
    requires |year| <= 1 && forall e :: e in year ==> e.NotFourDigitsYear?
    requires |cover| <= 1 && forall e :: e in cover ==> e.InvalidCoverUrl?
    requires forall e :: e in portraits ==> e.InvalidPortraitUrl?
    requires forall p, q :: 0 <= p < q < |portraits| ==> portraits[p].index < portraits[q].index
    ensures var r := year + cover + portraits;
      forall p, q :: 0 <= p < q < |r| && r[p].InvalidPortraitUrl? ==>
        r[q].InvalidPortraitUrl? && r[p].index < r[q].index
    ensures var r := year + cover + portraits;
      forall p, q :: 0 <= p < q < |r| ==> r[p] != r[q]
  {
    var r := year + cover + portraits;
    var k := |year| + |cover|;
    forall i | 0 <= i < |r|
      ensures i < |year| ==> r[i] == year[i]
      ensures |year| <= i < k ==> r[i] == cover[i - |year|]
      ensures k <= i ==> r[i] == portraits[i - k]
      ensures i < |year| ==> r[i].NotFourDigitsYear?
      ensures |year| <= i < k ==> r[i].InvalidCoverUrl?
      ensures k <= i ==> r[i].InvalidPortraitUrl?
    {
      if i < |year| {
        assert year[i] in year;
      } else if i < k {
        assert cover[i - |year|] in cover;
      } else {
        assert portraits[i - k] in portraits;
      }
    }
    forall p, q | 0 <= p < q < |r| && r[p].InvalidPortraitUrl?
      ensures r[q].InvalidPortraitUrl? && r[p].index < r[q].index
    {
      assert k <= p;
    }
    forall p, q | 0 <= p < q < |r|
      ensures r[p] != r[q]
    {
      if k <= p {
        assert portraits[p - k].index < portraits[q - k].index;
      }
    }
  }

  /** The model after its fields validated: all fields as given, an omitted year is `None`. */
  function FieldsOf(input: BookDatasourceInput): BookDatasource {
    BookDatasource(
      input.title, input.authors, input.publishing,
      if input.publishedOn.Given? then Some(input.publishedOn.value) else None,
      input.cover, input.plot, input.languages, input.bookFormats, input.authorsPortrait)
  }

  /** The `check_len_of_authors_and_portraits` model validator: `self` unchanged, or a count error. */
  function CheckLenOfAuthorsAndPortraits(ds: BookDatasource): (r: Result<BookDatasource, ConstructionError>)
    ensures r.Success? <==> ds.authorsPortrait.None? || |ds.authors| == |ds.authorsPortrait.value|
    ensures r.Success? ==> r.value == ds
    ensures r.Failure? ==>
      r.error == ValidationError([PortraitCountMismatch(|ds.authors|, |ds.authorsPortrait.value|)])
  {
    if ds.authorsPortrait.Some? && |ds.authors| != |ds.authorsPortrait.value| then
      Failure(ValidationError([PortraitCountMismatch(|ds.authors|, |ds.authorsPortrait.value|)]))
    else Success(ds)
  }

  /** `BookDatasource(**input)`: field validators, then (only if all passed) the model validator. */
  function Construct(input: BookDatasourceInput, isHttpUrl: string -> bool): (r: Result<BookDatasource, ConstructionError>)
    ensures r == Failure(NoneFloorDivision) <==> input.publishedOn.Null?
    ensures !input.publishedOn.Null? && !FieldsValid(input, isHttpUrl) ==>
      r == Failure(ValidationError(FieldErrors(input, isHttpUrl)))
    ensures r.Success? ==> r.value == FieldsOf(input)
    ensures r.Failure? && r.error.ValidationError? ==>
      && r.error.details != []
      && ((forall e :: e in r.error.details ==> !e.PortraitCountMismatch?)
          || (input.authorsPortrait.Some?
              && r.error.details == [PortraitCountMismatch(|input.authors|, |input.authorsPortrait.value|)]))
  {
    if input.publishedOn.Null? then Failure(NoneFloorDivision)
    else
      var errors := FieldErrors(input, isHttpUrl);
      if errors != [] then Failure(ValidationError(errors))
      else CheckLenOfAuthorsAndPortraits(FieldsOf(input))
  }

  // ---------------------------------------------------------------------------
  // Properties
  // ---------------------------------------------------------------------------

  /** Every field check passes. */
  ghost predicate FieldsValid(input: BookDatasourceInput, isHttpUrl: string -> bool) {
    && (input.publishedOn.Given? ==> 1000 <= input.publishedOn.value <= 9999)
    && (input.cover.Some? ==> isHttpUrl(input.cover.value))
    && (input.authorsPortrait.Some? ==>
          forall i :: 0 <= i < |input.authorsPortrait.value| ==> isHttpUrl(input.authorsPortrait.value[i]))
  }

  /**
   * Construction succeeds exactly when `published_on` is not an explicit `None`,
   * every field check passes and, if portraits are given, there are as many as
   * authors; a constructed model holds the fields exactly as given.
   */
  lemma ConstructSucceedsIff(input: BookDatasourceInput, isHttpUrl: string -> bool)
    ensures Construct(input, isHttpUrl).Success? <==>
      && !input.publishedOn.Null?
      && FieldsValid(input, isHttpUrl)
      && (input.authorsPortrait.Some? ==> |input.authors| == |input.authorsPortrait.value|)
    ensures Construct(input, isHttpUrl).Success? ==> Construct(input, isHttpUrl).value == FieldsOf(input)
  {
  }

  /** A bad year is reported, and the portrait count is never looked at. */
  lemma BadYearFailsBeforeLengths(input: BookDatasourceInput, isHttpUrl: string -> bool)
    requires input.publishedOn.Given?
    requires !(1000 <= input.publishedOn.value <= 9999)
    ensures Construct(input, isHttpUrl).Failure?
    ensures var e := Construct(input, isHttpUrl).error;
      && e.ValidationError?
      && e.details[0] == NotFourDigitsYear(input.publishedOn.value)
      && forall d :: d in e.details ==> !d.PortraitCountMismatch?
  {
  }

  /** Valid fields with a portrait count different from the author count: one error with both counts. */
  lemma CountMismatchFails(input: BookDatasourceInput, isHttpUrl: string -> bool)
    requires !input.publishedOn.Null? && FieldsValid(input, isHttpUrl)
    requires input.authorsPortrait.Some? && |input.authors| != |input.authorsPortrait.value|
    ensures Construct(input, isHttpUrl)
         == Failure(ValidationError([PortraitCountMismatch(|input.authors|, |input.authorsPortrait.value|)]))
  {
  }

  /** Without portraits there is no constraint on the number of authors. */
  lemma NoPortraitsNoLengthRule(input: BookDatasourceInput, isHttpUrl: string -> bool)
    requires !input.publishedOn.Null? && FieldsValid(input, isHttpUrl)
    requires input.authorsPortrait.None?
    ensures Construct(input, isHttpUrl) == Success(FieldsOf(input))
  {
  }

  /** The year error of the wrong-year test, word for word. */
  lemma YearMessageExample()
    ensures Message(NotFourDigitsYear(20)) == "20 is not a four digits year."
  {
    var t := Decimal.Str(20);
    Decimal.StrExamples();
    assert t == "20";
    assert Message(NotFourDigitsYear(20)) == t + YearSuffix;
  }

  /** The length error of the mismatch test, word for word. */
  lemma CountMessageExample()
    ensures Message(PortraitCountMismatch(2, 1))
         == "The number of authors portrait should match the number of authors. Received 2 authors and 1 portraits."
  {
    var a, p := Decimal.Str(2), Decimal.Str(1);
    Decimal.StrExamples();
    assert a == "2" && p == "1";
    assert Message(PortraitCountMismatch(2, 1)) == CountPrefix + (a + " authors and " + p) + CountSuffix;
  }

  lemma YearExamples()
    ensures IsYear(20).Failure? && IsYear(10000).Failure? && IsYear(-1).Failure?
    ensures IsYear(999).Failure? && IsYear(1000) == Success(1000)
    ensures IsYear(1999) == Success(1999) && IsYear(2024) == Success(2024) && IsYear(9999) == Success(9999)
  {
  }

  /** The call shape used by the library's tests of `BookDatasource`. */
  function WheelOfTime(cover: string, year: int, authors: seq<string>, portraits: seq<string>): BookDatasourceInput {
    BookDatasourceInput("The wheel of time", authors, Some("Don't remember"), Given(year), Some(cover),
                        None, Some(["en"]), Some(["physical", "ebook"]), Some(portraits))
  }

  /** The happy paths of the tests: 2 authors with 2 portraits in 2024, 1 with 1 in 2025. */
  lemma TestHappyPath(isHttpUrl: string -> bool, cover1: string, cover2: string, p1: string, p2: string, p3: string)
    requires isHttpUrl(cover1) && isHttpUrl(cover2)
    requires isHttpUrl(p1) && isHttpUrl(p2) && isHttpUrl(p3)
    ensures Construct(WheelOfTime(cover1, 2024, ["Robert Jordan", "Brandon Sanderson"], [p1, p2]), isHttpUrl).Success?
    ensures Construct(WheelOfTime(cover2, 2025, ["Robert Jordan"], [p3]), isHttpUrl).Success?
  {
    ConstructSucceedsIff(WheelOfTime(cover1, 2024, ["Robert Jordan", "Brandon Sanderson"], [p1, p2]), isHttpUrl);
    ConstructSucceedsIff(WheelOfTime(cover2, 2025, ["Robert Jordan"], [p3]), isHttpUrl);
  }

  /** Two authors and one portrait fail with both counts. */
  lemma TestDifferentNumberOfAuthorsAndPortraits(isHttpUrl: string -> bool, cover1: string, p3: string)
    requires isHttpUrl(cover1) && isHttpUrl(p3)
    ensures Construct(WheelOfTime(cover1, 2000, ["Robert Jordan", "Brandon Sanderson"], [p3]), isHttpUrl)
         == Failure(ValidationError([PortraitCountMismatch(2, 1)]))
  {
    CountMismatchFails(WheelOfTime(cover1, 2000, ["Robert Jordan", "Brandon Sanderson"], [p3]), isHttpUrl);
  }

  /** The year 20 fails with exactly the year entry. */
  lemma TestWrongYearFormat(isHttpUrl: string -> bool, cover1: string, p1: string, p3: string)
    requires isHttpUrl(cover1) && isHttpUrl(p1) && isHttpUrl(p3)
    ensures Construct(WheelOfTime(cover1, 20, ["Robert Jordan", "Brandon Sanderson"], [p3, p1]), isHttpUrl)
         == Failure(ValidationError([NotFourDigitsYear(20)]))
  {
    assert PortraitErrors([p3, p1], isHttpUrl, 0) == [];
    assert FieldErrors(WheelOfTime(cover1, 20, ["Robert Jordan", "Brandon Sanderson"], [p3, p1]), isHttpUrl)
        == [NotFourDigitsYear(20)];
  }
}
