# Idea routes of idea-drop-api, modelled in Dafny

The repository is a small REST API for "ideas". Each idea has a title, a
summary, a description, a list of tags, an owner and a creation time. The
file `routes/ideaRoutes.js` holds its five Express handlers: list, get one,
create, update and delete. Under the Express and Mongoose calls they hold
a little decision logic, and this project models that logic:

- how the `tags` field of a request body is normalised;
- in which order each handler checks its request: a malformed or absent id
  (404), a caller who is not the owner (403), a blank required field (400);
- what each handler does to the collection on success. Every failure leaves
  the collection as it was.

The model has six modules:

- `Text` (`text.dfy`) models JavaScript's `String.prototype.trim` and
  `String.prototype.split` with a one-character separator. The white space
  that `trim` removes is the WhiteSpace and LineTerminator set of
  ECMA-262, sections 12.2 and 12.3.
- `Tags` (`tags.dfy`) models the two tag expressions and proves that they
  agree.
- `Ideas` (`ideas.dfy`) holds the stored record, the parsed body, the
  blank-field test `!field?.trim()` and the outcome datatype. Each outcome
  stands for one status code and carries the handler's message or record.
- `Listing` (`listing.dfy`) states what "sorted by `createdAt` descending,
  then limited" means. It also holds the selection sort that produces
  such a listing.
- `IdeaRoutes` (`idea_routes.dfy`) defines the class `IdeaStore`. The
  class owns the collection as a `map<Id, Idea>`, and its five methods are
  the handlers. `GetById` and `List` have no `modifies` clause, so they
  cannot change the collection.
- `Wrappers` (`wrappers.dfy`) holds `Option`.

Four inputs come from outside the handlers, and the model takes them as
parameters:

- the caller identity that the `protect` middleware attaches;
- the check `mongoose.Types.ObjectId.isValid`, which becomes the store's
  `isValidId` function;
- the cast `findById` applies to a route id before its lookup, which
  becomes the store's `keyOf` function: two route strings that name the
  same ObjectId (the same hex digits in different case, say) have the
  same key;
- the new document id and the creation time, both assigned by the store.

The store invariant `IdeaStore.Valid` says three things. Every idea is
stored under its own id. That id is well-formed and is its own key. Its
title, summary and description are not blank. Create and update preserve the invariant.

An array of tags is stored exactly as sent (routes/ideaRoutes.js:78-79,
162-163), so stored tags may contain empty strings; `Valid` makes no
promise about tags.

## Model

| member | source | states |
|---|---|---|
| Text.Trim | routes/ideaRoutes.js:76 | `tag.trim()` returns the slice of its argument that starts after the leading white space. The result is empty exactly when the argument is all white space. Otherwise it neither starts nor ends with white space. |
| Text.TrimSurrounded | routes/ideaRoutes.js:167 | Characterises `trim` completely: put white space before and after any string that has none at either end, trim, and that string comes back. |
| Text.TrimIdempotent | routes/ideaRoutes.js:167 | Trimming twice gives the same result as trimming once. |
| Text.TrimKeepsOut | routes/ideaRoutes.js:76 | Trimming never introduces a character, so a trimmed piece of a comma split contains no comma. |
| Text.Split | routes/ideaRoutes.js:75 | `split(',')` gives at least one piece, even for the empty string. No piece contains the separator, and joining the pieces with the separator gives the input back. |
| Text.SplitJoin | routes/ideaRoutes.js:166 | Splitting a join of comma-free parts gives those parts back. So split and join are inverses. |
| Text.SplitWithoutSeparator | routes/ideaRoutes.js:75 | A string without a comma splits into itself alone. |
| Text.SplitFirstPiece | routes/ideaRoutes.js:75 | Splitting stops the first piece at the first comma and goes on with the rest. |
| Tags.TrimEach | routes/ideaRoutes.js:76 | `.map(trim)` keeps the length and trims every element in place. |
| Tags.DropEmpty | routes/ideaRoutes.js:77 | `.filter(Boolean)` keeps exactly the non-empty strings of its input and nothing else. |
| Tags.DropEmptyAppend | routes/ideaRoutes.js:77 | Filtering distributes over concatenation, so the kept tags stay in source order. |
| Tags.DropEmptyKeepsNonEmpty | routes/ideaRoutes.js:168 | A sequence without empty strings passes the filter unchanged. |
| Tags.FromText | routes/ideaRoutes.js:73-77 | A string of tags becomes tags that are non-empty, already trimmed and free of commas. |
| Tags.TrimEachNormal | routes/ideaRoutes.js:164-168 | Every trimmed piece of a comma split is trimmed and comma-free. |
| Tags.FromTextJoin | routes/ideaRoutes.js:164-168 | Join any list of normalised tags, the empty list included, with commas and normalise again, and the same tags come back in the same order. |
| Tags.SplitExample | routes/ideaRoutes.js:75 | `"a, b ,,c"` splits into `"a"`, `" b "`, `""` and `"c"`. |
| Tags.TrimEachExample | routes/ideaRoutes.js:76 | Those four pieces trim to `"a"`, `"b"`, `""` and `"c"`. |
| Tags.DropEmptyExample | routes/ideaRoutes.js:77 | The filter then drops the empty piece. |
| Tags.FromTextExample | routes/ideaRoutes.js:73-77 | The tag string `"a, b ,,c"` normalises to `["a","b","c"]`. |
| Tags.CreateAndUpdateAgree | routes/ideaRoutes.js:162-169 | Create tests for a string first and update tests for an array first, yet both give the same tags for every input. An array is kept exactly as given, and any other value gives `[]`. |
| Ideas.Blank | routes/ideaRoutes.js:63 | `!field?.trim()` holds exactly when the field is absent or all white space. |
| Ideas.MissingRequired | routes/ideaRoutes.js:154 | The guard of both write handlers holds exactly when the title, the summary or the description is absent or all white space. |
| Tags.ForCreate | routes/ideaRoutes.js:72-80 | The create handler's tags: a string goes through `FromText`, an array is stored as sent, anything else gives `[]`. `CreateAndUpdateAgree` ties it to the update handler's choice. |
| Tags.ForUpdate | routes/ideaRoutes.js:162-169 | The update handler's tags: an array is stored as sent, a string goes through `FromText`, anything else gives `[]`. `CreateAndUpdateAgree` ties it to the create handler's choice. |
| Tags.FromTextEmpty | routes/ideaRoutes.js:73-77 | An empty tag string gives no tags: its one empty piece is dropped. |
| Tags.FromTextJoinSome | routes/ideaRoutes.js:164-168 | The round trip of `FromTextJoin` for a non-empty list of normalised tags. |
| Listing.Cap | routes/ideaRoutes.js:17-18 | Truncation by `limit` returns a prefix of the sorted ideas. No limit (NaN) or `limit(0)` keeps everything. Otherwise it keeps the first `abs(limit)` ideas, or all of them if there are fewer. |
| Listing.CapKeepsNewest | routes/ideaRoutes.js:14-18 | A limited listing is still newest first and holds each idea once, and only ideas from the collection. No idea left out is newer than any idea kept. |
| Listing.HeadIsNewest | routes/ideaRoutes.js:14 | The first idea of a sorted listing is at least as new as every idea in the collection. |
| Listing.TailIsListing | routes/ideaRoutes.js:14 | Without its first idea, a sorted listing is a sorted listing of the rest of the collection. |
| Listing.HeadsAgree | routes/ideaRoutes.js:14 | When no two creation times coincide, two sorted listings of the same collection start with the same idea. |
| Listing.SortedListingUnique | routes/ideaRoutes.js:14-21 | When no two creation times coincide, the sorted listing is unique. So listing twice with no write in between returns the same sequence (`IdeaRoutes.ListTwice`). |
| Ideas.Outcome.Status | routes/ideaRoutes.js:22-173 | The status code of each outcome: 201 for a created idea (line 85), 200 for a found, updated or deleted one (the default of `res.json`, lines 22, 48, 118, 173), 404 for a malformed or absent id (39-40, 45-46, 100, 106, 135, 142), 403 for a caller who is not the owner (112, 148) and 400 for a blank required field (64, 155). The code is below 400 exactly for the four success outcomes. |
| Listing.PickNewest | routes/ideaRoutes.js:14 | Returns an idea of the collection that no other idea in it is newer than. |
| Listing.SortNewestFirst | routes/ideaRoutes.js:14 | `find().sort({ createdAt: -1 })` returns every idea exactly once, newest first. |
| IdeaRoutes.StoringKeepsWell | routes/ideaRoutes.js:159-171 | Storing a record with a valid id that is its own key and non-blank required fields under that id keeps the store invariant. |
| IdeaRoutes.IdeaStore.List | routes/ideaRoutes.js:11-22 | Returns the sorted listing of the whole collection, cut by the parsed limit: newest first, each idea once, and nothing left out newer than anything returned. With no numeric limit it returns every idea. The collection does not change. |
| IdeaRoutes.IdeaStore.GetById | routes/ideaRoutes.js:34-48 | A malformed id gives 404 "Idea Not Found" and a well-formed id whose key is not stored gives 404 "Idea not found". Any other id gives the idea stored under its key, with 200. The result is a 404 exactly when the id is malformed or its key is not stored, and the collection does not change. |
| IdeaRoutes.IdeaStore.Create | routes/ideaRoutes.js:60-85 | A blank title, summary or description gives 400 and inserts nothing. Otherwise it inserts exactly one record and returns 201. The record is owned by the caller, holds the fields exactly as sent (untrimmed) and has the normalised tags. |
| IdeaRoutes.IdeaStore.Delete | routes/ideaRoutes.js:95-118 | A malformed id, or one whose key is not stored, gives 404. Failing that, a caller who is not the owner gives 403. Both leave the collection unchanged. Otherwise it removes exactly that key and answers 200 "Idea Deleted". |
| IdeaRoutes.IdeaStore.Update | routes/ideaRoutes.js:130-173 | A malformed id, or one whose key is not stored, gives 404. Then a caller who is not the owner gives 403, whatever the body holds. Then a blank required field gives 400. Every error leaves the collection unchanged. On success it answers 200 with the saved idea, and only the title, summary, description and tags of that idea change. Its owner and creation time, and every other idea, stay as they were. |
| IdeaRoutes.ListTwice | routes/ideaRoutes.js:11-22 | When no two creation times coincide, two listings with the same limit and no write in between return the same ideas in the same order. |
| IdeaRoutes.OwnershipSession | routes/ideaRoutes.js:95-157 | One session on an empty collection, where the later requests may spell the id differently as long as it has the same key. The owner creates and updates an idea. Another user's update gets 403 and leaves the idea as the owner left it. The owner deletes the idea, and a later get gives 404. |

## Left out

- Express routing, `res`/`next` and HTTP serialisation are left out. Each
  handler returns an `Outcome`, whose `Status` is the code sent.
  `console.log` is left out too.
- The `protect` middleware and its 401 outcome are not part of this model.
  The caller identity is a parameter. `req.user.id` and `req.user._id`
  are treated as the same identity, and the `toString()` comparison is
  plain equality.
- Mongoose and MongoDB become operations on a map. `save` and `deleteOne`
  are map updates, and `findById` is a lookup of the route id's key. The store assigns the new id and
  the `createdAt` stamp, which arrive as parameters. A storage failure,
  which would reach `next(err)` as a 500, is not modelled.
- `models/Ideas.js` is not part of this model. Any casting, trimming or
  validation its schema adds on `save` is not modelled.
- `mongoose.Types.ObjectId.isValid` and the ObjectId cast are foreign
  calls. They become the store's `isValidId` and `keyOf` functions, about
  which only one thing is assumed: the ids the store hands out satisfy
  `isValidId` and are their own key.
- `parseInt` is not modelled. `_limit` arrives already parsed, as
  `Option<int>`, where `None` stands for NaN. The cursor's `limit` follows
  MongoDB's documented meaning for 0 and for negative values.
- IdeaRoutes.IdeaStore.List: the order among ideas with equal `createdAt`
  is left open, because the store does not fix it. So the listing is
  unique only when creation times differ (`Listing.SortedListingUnique`).
- The `res.status(400); throw new Error('This is an error')` after the
  try/catch of the list, get and delete handlers (routes/ideaRoutes.js:27-28,
  53-54, 123-124) is not modelled. It runs after the response has been
  sent, as an unhandled rejection, so it is not part of the handlers'
  behaviour.
- Request fields are modelled as optional strings. A required field that
  is present but not a string makes `.trim` throw a TypeError (a 500), and
  that case is not modelled. Array tags are modelled as arrays of strings.
- Strings are modelled as Dafny strings, sequences of Unicode scalar
  values. A JavaScript string is a sequence of UTF-16 code units, so a
  body holding a lone surrogate such as `"\uD800"` cannot be represented.
  On every string the model can represent, `trim` and `split(',')` behave
  as modelled: every white-space character `trim` removes lies in the
  Basic Multilingual Plane and `,` is ASCII.
- The read-check-write race between `findById` and `save`/`deleteOne` is
  concurrency, which is out of scope.
