/**
  The Idea record, the parsed request body the write handlers read, and
  the outcomes the handlers of routes/ideaRoutes.js send back.
 */
module Ideas {
  import opened Wrappers
  import Text
  import Tags

  /** A store-assigned document identifier, as the string the route carries. */
  type Id = string

  /** The identity of an authenticated caller. */
  type UserId = string

  /** A stored idea. `id` and `createdAt` are assigned by the store;
      `owner` is the `user` field, set from the caller at creation. */
  datatype Idea = Idea(
    id: Id,
    title: string,
    summary: string,
    description: string,
    tags: seq<string>,
    owner: UserId,
    createdAt: int)

  /** The fields of `req.body` the create and update handlers read; an
      absent body reads as every field absent. */
  datatype Body = Body(
    title: Option<string>,
    summary: Option<string>,
    description: Option<string>,
    tags: Tags.RawTags)

  /** `!field?.trim()`: the field is absent, or empty once trimmed. */
  predicate Blank(field: Option<string>): (b: bool)
    ensures b <==> field.None? || Text.AllSpace(field.value)
  {
    field.None? || Text.Trim(field.value) == ""
  }

  /** The guard of both write handlers: some required field is blank. */
  predicate MissingRequired(body: Body): (b: bool)
    ensures b <==> || body.title.None? || Text.AllSpace(body.title.value)
                   || body.summary.None? || Text.AllSpace(body.summary.value)
                   || body.description.None? || Text.AllSpace(body.description.value)
  {
    Blank(body.title) || Blank(body.summary) || Blank(body.description)
  }

  /** A stored idea's required fields are not blank. */
  predicate HasRequired(idea: Idea) {
    !Blank(Some(idea.title)) && !Blank(Some(idea.summary)) && !Blank(Some(idea.description))
  }

  /** What a handler sends back. */
  datatype Outcome =
    | Created(idea: Idea)         // 201 with the saved idea
    | Found(idea: Idea)           // 200 with the idea asked for
    | Updated(idea: Idea)         // 200 with the saved idea
    | Deleted(message: string)    // 200 with a confirmation message
    | NotFound(message: string)   // 404
    | Forbidden(message: string)  // 403
    | InvalidInput(message: string) // 400
  {
    /** The HTTP status code the handler sends with this outcome. */
    function Status(): (code: int)
      ensures Created? ==> code == 201
      ensures Found? || Updated? || Deleted? ==> code == 200
      ensures NotFound? ==> code == 404
      ensures Forbidden? ==> code == 403
      ensures InvalidInput? ==> code == 400
      ensures code < 400 <==> Created? || Found? || Updated? || Deleted?
    {
      match this
      case Created(_) => 201
      case Found(_) => 200
      case Updated(_) => 200
      case Deleted(_) => 200
      case NotFound(_) => 404
      case Forbidden(_) => 403
      case InvalidInput(_) => 400
    }
  }

  const MalformedIdMessage := "Idea Not Found"
  const AbsentIdMessage := "Idea not found"
  const RequiredMessage := "Title, summary and description are required"
  const NotOwnerDeleteMessage := "Not authorized to delete this idea"
  const NotOwnerUpdateMessage := "Not authorized to update this idea"
  const DeletedMessage := "Idea Deleted"
}
