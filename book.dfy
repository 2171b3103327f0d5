/** The catalog record of a title: its schema defaults and bounds, and the
    pre-save hook that keeps the duplicated year and cover fields in step. */
module BookModel {
  import opened Common

  type BookId = string

  const PlaceholderCover: string := "https://via.placeholder.com/300x400?text=No+Cover"
  const MinRating: real := 0.0
  const MaxRating: real := 5.0

  /** The fields the backend's rules touch; isbn, pages, publisher and
      language carry no rule beyond being stored. */
  datatype Book = Book(
    title: string,
    author: string,
    description: string,
    category: string,
    coverImage: Option<string>,
    coverUrl: Option<string>,
    publishedYear: Option<int>,
    publishYear: Option<int>,
    available: bool,
    rating: real)

  /** What a caller supplies when a book document is built; `None` is an
      absent (undefined) field. */
  datatype BookInput = BookInput(
    title: string,
    author: string,
    description: string,
    category: string,
    coverImage: Option<string>,
    coverUrl: Option<string>,
    publishedYear: Option<int>,
    publishYear: Option<int>,
    available: Option<bool>,
    rating: Option<real>)

  /** The schema defaults: both covers default to the placeholder image, a
      book is available and unrated unless told otherwise. Defaults fill only
      undefined fields; every given value, an empty string included, is kept,
      title and author after their trim setters. */
  function WithDefaults(b: BookInput): (r: Book)
    ensures b.available.None? ==> r.available
    ensures b.available.Some? ==> r.available == b.available.value
    ensures b.rating.None? ==> r.rating == 0.0
    ensures b.rating.Some? ==> r.rating == b.rating.value
    ensures r.coverImage.Some? && r.coverUrl.Some?
    ensures b.coverImage.None? ==> r.coverImage == Some(PlaceholderCover)
    ensures b.coverUrl.None? ==> r.coverUrl == Some(PlaceholderCover)
    ensures b.coverImage.Some? ==> r.coverImage == b.coverImage
    ensures b.coverUrl.Some? ==> r.coverUrl == b.coverUrl
    ensures r.title == Trim(b.title) && r.author == Trim(b.author)
    ensures r.description == b.description && r.category == b.category
    ensures r.publishedYear == b.publishedYear && r.publishYear == b.publishYear
  {
    Book(Trim(b.title), Trim(b.author), b.description, b.category,
         if b.coverImage.Some? then b.coverImage else Some(PlaceholderCover),
         if b.coverUrl.Some? then b.coverUrl else Some(PlaceholderCover),
         b.publishedYear, b.publishYear,
         if b.available.Some? then b.available.value else true,
         if b.rating.Some? then b.rating.value else 0.0)
  }

  /** The validators of the schema: title and author required (after the
      trim setter), description and category required (a required string
      refuses ""), a publication year given, rating within [0, 5]. */
  predicate BookSchemaValid(b: Book) {
    Trim(b.title) != "" && Trim(b.author) != ""
    && b.description != "" && b.category != ""
    && b.publishedYear.Some?
    && MinRating <= b.rating <= MaxRating
  }

  /** A new book passes the schema exactly when its required fields are
      given and non-empty and any rating it gives lies in [0, 5]: the
      defaults themselves never cause a refusal. */
  lemma DefaultsSchemaValid(b: BookInput)
    ensures BookSchemaValid(WithDefaults(b)) <==>
      Trim(b.title) != "" && Trim(b.author) != ""
      && b.description != "" && b.category != ""
      && b.publishedYear.Some?
      && (b.rating.Some? ==> MinRating <= b.rating.value <= MaxRating)
  {
  }

  /** The synchronisation rule for one pair of duplicated fields: a field that
      is set is copied into its twin when the twin is unset. */
  function SyncPair<T>(first: T, second: T, isSet: T -> bool): (T, T) {
    if isSet(first) && !isSet(second) then (first, first)
    else if isSet(second) && !isSet(first) then (second, second)
    else (first, second)
  }

  /** After synchronisation the twins are set or unset together, and when
      either was set before, the pair now holds a value that was there. */
  lemma SyncPairAgrees<T>(first: T, second: T, isSet: T -> bool)
    ensures var (a, b) := SyncPair(first, second, isSet);
      (isSet(a) <==> isSet(b))
      && (isSet(first) || isSet(second) <==> isSet(a))
      && (isSet(first) && !isSet(second) ==> a == first && b == first)
      && (isSet(second) && !isSet(first) ==> a == second && b == second)
  {
  }

  /** When both twins are already set the hook leaves them alone, even if
      they disagree; likewise when neither is set. */
  lemma SyncPairKeepsSettled<T>(first: T, second: T, isSet: T -> bool)
    requires isSet(first) == isSet(second)
    ensures SyncPair(first, second, isSet) == (first, second)
  {
  }

  /** Saving twice synchronises no further than saving once. */
  lemma SyncPairIdempotent<T>(first: T, second: T, isSet: T -> bool)
    ensures var (a, b) := SyncPair(first, second, isSet);
      SyncPair(a, b, isSet) == (a, b)
  {
  }

  /** The pre-save hook, step by step as the schema runs it: year then cover,
      each direction guarded by JavaScript truthiness (a year of 0 and an
      empty cover string count as unset). */
  method PreSave(b: Book) returns (s: Book)
    ensures (s.publishedYear, s.publishYear) == SyncPair(b.publishedYear, b.publishYear, NumberPresent)
    ensures (s.coverImage, s.coverUrl) == SyncPair(b.coverImage, b.coverUrl, Present)
    ensures s.title == b.title && s.author == b.author
    ensures s.available == b.available && s.rating == b.rating
    ensures s.description == b.description && s.category == b.category
  {
    s := b;
    if NumberPresent(s.publishedYear) && !NumberPresent(s.publishYear) {
      s := s.(publishYear := s.publishedYear);
    }
    if NumberPresent(s.publishYear) && !NumberPresent(s.publishedYear) {
      s := s.(publishedYear := s.publishYear);
    }
    if Present(s.coverImage) && !Present(s.coverUrl) {
      s := s.(coverUrl := s.coverImage);
    }
    if Present(s.coverUrl) && !Present(s.coverImage) {
      s := s.(coverImage := s.coverUrl);
    }
  }
}
