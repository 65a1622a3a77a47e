/**
 * The Book entity: construction from request data (only the four book
 * properties are kept), the validation schema, and the "same book" test used
 * to skip writes of unchanged updates.
 */
module BookModel {
  import opened JsRuntime

  /** A Book instance: its four own properties, each whatever the input held. */
  datatype Book = Book(title: Value, author: Value, publicationYear: Value, ISBN: Value)

  const BookProperties: set<string> := {"title", "author", "publicationYear", "ISBN"}

  /** The constructor's destructuring `{ title, author, publicationYear, ISBN }`. */
  function FromObject(o: Object): Book {
    Book(Get(o, "title"), Get(o, "author"), Get(o, "publicationYear"), Get(o, "ISBN"))
  }

  /** `new Book(data)` on parsed request data: destructuring `null` throws. */
  function New(data: Json): Result<Book> {
    match data
    case JsonObject(o) => Ok(FromObject(o))
    case JsonNull => Err(TypeError("Cannot destructure 'null' as it is null."))
    case JsonOther => Ok(FromObject(map[]))
  }

  /** The instance seen as an object: exactly its four own properties. */
  function ToObject(b: Book): Object {
    map["title" := b.title, "author" := b.author, "publicationYear" := b.publicationYear, "ISBN" := b.ISBN]
  }

  /** A Book has exactly the four book properties, copied from the input. */
  lemma ConstructedBookProperties(o: Object)
    ensures ToObject(FromObject(o)).Keys == BookProperties
    ensures forall name :: name in BookProperties ==> Get(ToObject(FromObject(o)), name) == Get(o, name)
  {
  }

  /** Any other input property is dropped: adding one does not change the Book. */
  lemma ExtraPropertyDropped(o: Object, name: string, v: Value)
    requires name !in BookProperties
    ensures FromObject(o[name := v]) == FromObject(o)
  {
  }

  /** Building a Book from a Book's own properties gives the same Book. */
  lemma FromObjectOfToObject(b: Book)
    ensures FromObject(ToObject(b)) == b
  {
  }

  // ------------------------------------------------------------- validation

  datatype Property = Title | Author | PublicationYear | Isbn

  /** The kind of the first schema rule that failed. */
  datatype Rule =
    | Required | NotAString | Empty | TooShort | TooLong
    | NotAnInteger | NotPositive | BelowMinimum | AboveMaximum

  /** The schema's first error; it stands for Joi's message text. */
  datatype ValidationError = ValidationError(property: Property, rule: Rule)

  function PropertyValue(b: Book, p: Property): Value {
    match p
    case Title => b.title
    case Author => b.author
    case PublicationYear => b.publicationYear
    case Isbn => b.ISBN
  }

  /** A required string schema with a minimum and an optional maximum length. */
  function CheckString(v: Value, min: nat, max: Option<nat>): Option<Rule> {
    match v
    case Undefined => Some(Required)
    case Text(s) =>
      if s == "" then Some(Empty)
      else if |s| < min then Some(TooShort)
      else if max.Some? && |s| > max.value then Some(TooLong)
      else None
    case _ => Some(NotAString)
  }

  /** The integer a number schema sees: a number, or a text of decimal digits. */
  function SchemaInteger(v: Value): Option<int> {
    match v
    case Num(n) => Some(n)
    case Text(s) => if s != "" && IsDecimalDigits(s) then Some(DigitsValue(s, 10)) else None
    case _ => None
  }

  /** `number().integer().positive().min(1900).max(currentYear).required()`. */
  function CheckYear(v: Value, currentYear: int): Option<Rule> {
    if v.Undefined? then Some(Required)
    else
      match SchemaInteger(v)
      case None => Some(NotAnInteger)
      case Some(n) =>
        if n <= 0 then Some(NotPositive)
        else if n < 1900 then Some(BelowMinimum)
        else if n > currentYear then Some(AboveMaximum)
        else None
  }

  predicate TitleOk(b: Book) {
    b.title.Text? && 3 <= |b.title.s| <= 30
  }

  predicate AuthorOk(b: Book) {
    b.author.Text? && 2 <= |b.author.s| <= 30
  }

  predicate YearOk(b: Book, currentYear: int) {
    SchemaInteger(b.publicationYear).Some? && 1900 <= SchemaInteger(b.publicationYear).value <= currentYear
  }

  predicate IsbnOk(b: Book) {
    b.ISBN.Text? && |b.ISBN.s| >= 10
  }

  /** The schema, stated property by property. */
  predicate IsValid(b: Book, currentYear: int) {
    TitleOk(b) && AuthorOk(b) && YearOk(b, currentYear) && IsbnOk(b)
  }

  /** `p` is the first property, in schema order, whose rule fails. */
  predicate FailsFirstAt(b: Book, currentYear: int, p: Property) {
    match p
    case Title => !TitleOk(b)
    case Author => TitleOk(b) && !AuthorOk(b)
    case PublicationYear => TitleOk(b) && AuthorOk(b) && !YearOk(b, currentYear)
    case Isbn => TitleOk(b) && AuthorOk(b) && YearOk(b, currentYear) && !IsbnOk(b)
  }

  /**
   * `validate()`: `None` (the source's `false`) when every rule passes,
   * otherwise the error of the first failing property in schema order.
   */
  function Validate(b: Book, currentYear: int): (r: Option<ValidationError>)
    ensures r.None? <==> IsValid(b, currentYear)
    ensures r.Some? ==> FailsFirstAt(b, currentYear, r.value.property)
    ensures r.Some? ==> (r.value.rule == Required <==> PropertyValue(b, r.value.property) == Undefined)
  {
    match CheckString(b.title, 3, Some(30))
    case Some(rule) => Some(ValidationError(Title, rule))
    case None =>
      match CheckString(b.author, 2, Some(30))
      case Some(rule) => Some(ValidationError(Author, rule))
      case None =>
        match CheckYear(b.publicationYear, currentYear)
        case Some(rule) => Some(ValidationError(PublicationYear, rule))
        case None =>
          match CheckString(b.ISBN, 10, None)
          case Some(rule) => Some(ValidationError(Isbn, rule))
          case None => None
  }

  /** A Book built from empty input fails, on the title being required. */
  lemma EmptyInputFails(currentYear: int)
    ensures Validate(FromObject(map[]), currentYear) == Some(ValidationError(Title, Required))
  {
  }

  /**
   * Title lengths outside 3..30 fail on the title, whatever the other
   * properties hold.
   */
  lemma TitleLengthBounds(b: Book, currentYear: int)
    requires b.title.Text? && (|b.title.s| < 3 || |b.title.s| > 30)
    ensures Validate(b, currentYear).Some? && Validate(b, currentYear).value.property == Title
  {
  }

  /** A year before 1900 or after the current year fails, as does a non-numeric text. */
  lemma YearOutOfRangeFails(b: Book, currentYear: int)
    requires TitleOk(b) && AuthorOk(b)
    requires b.publicationYear == Num(1800) || b.publicationYear == Text("shh")
          || b.publicationYear == Text("") || b.publicationYear == Num(currentYear + 1)
    ensures Validate(b, currentYear).Some? && Validate(b, currentYear).value.property == PublicationYear
  {
  }

  /** A nine-character ISBN fails. */
  lemma ShortIsbnFails(b: Book, currentYear: int)
    requires TitleOk(b) && AuthorOk(b) && YearOk(b, currentYear)
    requires b.ISBN == Text("too short") || b.ISBN == Text("")
    ensures Validate(b, currentYear) == Some(ValidationError(Isbn, if b.ISBN == Text("") then Empty else TooShort))
  {
  }

  // --------------------------------------------------------------- sameness

  /**
   * `isSame({ title, author, publicationYear })`: strict equality on title
   * and author, and this book's year strictly equal to `parseInt` of the
   * other's. The ISBN takes no part.
   */
  predicate IsSame(b: Book, other: Object) {
    && StrictEquals(b.title, Get(other, "title"))
    && StrictEquals(b.author, Get(other, "author"))
    && EqualsNumber(b.publicationYear, ParseIntValue(Get(other, "publicationYear")))
  }

  /** The ISBN on either side never changes the answer. */
  lemma IsSameIgnoresIsbn(b: Book, other: Object, mine: Value, theirs: Value)
    ensures IsSame(b.(ISBN := mine), other["ISBN" := theirs]) == IsSame(b, other)
  {
  }

  /**
   * A Book is the same as the data it was built from when that data's title
   * and author are strings and its year is a number.
   */
  lemma IsSameAsOwnData(o: Object)
    requires Get(o, "title").Text? && Get(o, "author").Text? && Get(o, "publicationYear").Num?
    ensures IsSame(FromObject(o), o)
  {
    ParseIntInvertsNumberToString(Get(o, "publicationYear").n);
  }

  /** A different title makes the books different. */
  lemma IsSameDetectsTitleChange(o: Object, title: string)
    requires Get(o, "title") != Text(title)
    ensures !IsSame(FromObject(o), o["title" := Text(title)])
  {
  }

  /** A book whose year is held as text is never the same as anything. */
  lemma TextYearIsNeverSame(b: Book, other: Object)
    requires b.publicationYear.Text?
    ensures !IsSame(b, other)
  {
  }
}
