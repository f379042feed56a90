/**
 * The task schema: a title that is required, trimmed and at most 200 code units
 * long, a `completed` flag defaulting to false, and the two timestamps the
 * schema's `timestamps` option maintains.
 */
module TaskSchema {
  import opened Wrappers
  import opened JsText

  /** A task id as the client and the route parameters carry it (an ObjectId's text). */
  type Id = string

  /** The `maxlength` of the title, in code units. */
  const MaxTitleLength: nat := 200

  /** A persisted task document as the API returns it. */
  datatype Task = Task(id: Id, title: JsString, completed: bool, createdAt: nat, updatedAt: nat)

  /** The fields handed to the model constructor; `None` is a field that was not supplied. */
  datatype Input = Input(title: Option<JsString>, completed: Option<bool>)

  /** The schema's own fields of a document that passed validation. */
  datatype Fields = Fields(title: JsString, completed: bool)

  /** The two validators of the schema that can refuse a title. */
  datatype SchemaError = TitleRequired | TitleTooLong

  /** What every stored title satisfies: trimmed, not empty, within the maximum length. */
  ghost predicate GoodTitle(title: JsString) {
    Trimmed(title) && title != [] && |title| <= MaxTitleLength
  }

  /** A document after casting: the `trim` setter applied, the `completed` default filled in. */
  datatype Doc = Doc(title: Option<JsString>, completed: bool)

  function Cast(input: Input): Doc {
    Doc(
      match input.title
      case Some(t) => Some(Trim(t))
      case None => None,
      input.completed.GetOr(false))
  }

  /** The `required` and `maxlength` validators, run on the cast document. */
  function Validate(doc: Doc): Result<Fields, SchemaError> {
    match doc.title
    case None => Err(TitleRequired)
    case Some(t) =>
      if t == [] then Err(TitleRequired)
      else if |t| > MaxTitleLength then Err(TitleTooLong)
      else Ok(Fields(t, doc.completed))
  }

  /**
   * Building a new document: cast, then validate. It is accepted exactly when a
   * title was supplied that is not all whitespace and whose trimmed form fits;
   * the stored title is the trimmed input and `completed` is false unless supplied.
   */
  function Build(input: Input): (r: Result<Fields, SchemaError>)
    ensures r == Err(TitleRequired) <==> input.title.None? || AllTrimmable(input.title.value)
    ensures r == Err(TitleTooLong) <==>
      input.title.Some? && !AllTrimmable(input.title.value) && |Trim(input.title.value)| > MaxTitleLength
    ensures r.Ok? ==> input.title.Some? && r.value.title == Trim(input.title.value)
    ensures r.Ok? ==> GoodTitle(r.value.title)
    ensures r.Ok? ==> r.value.completed == (input.completed.Some? && input.completed.value)
  {
    Validate(Cast(input))
  }

  /** Normalising is idempotent: feeding an accepted document back in yields the same document. */
  lemma BuildIdempotent(input: Input, f: Fields)
    requires Build(input) == Ok(f)
    ensures Build(Input(Some(f.title), Some(f.completed))) == Ok(f)
  {
    GoodTitleAccepted(f.title, f.completed);
  }

  /** Every title the schema stores passes the schema again unchanged. */
  lemma GoodTitleAccepted(title: JsString, completed: bool)
    requires GoodTitle(title)
    ensures Build(Input(Some(title), Some(completed))) == Ok(Fields(title, completed))
  {
    assert [] + title + [] == title;
    TrimOfPadded([], title, []);
  }
}
