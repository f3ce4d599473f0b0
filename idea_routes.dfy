/**
  The five handlers of routes/ideaRoutes.js as methods of a store that owns
  the ideas collection. The caller identity that the `protect` middleware
  attaches to the request is a parameter of the write handlers;
  `mongoose.Types.ObjectId.isValid` is the store's `isValidId`, and the cast
  `findById` applies to the route string before looking it up is the
  store's `keyOf`.
 */
module IdeaRoutes {
  import opened Wrappers
  import opened Ideas
  import Tags
  import Listing

  /** Every idea of `m` sits under its own id, that id is well-formed and
      already in the form the store keys documents by, and the idea's
      required fields are not blank. */
  ghost predicate StoredWell(m: map<Id, Idea>, isValidId: Id -> bool, keyOf: Id -> Id) {
    forall k :: k in m ==> m[k].id == k && isValidId(k) && keyOf(k) == k && HasRequired(m[k])
  }

  lemma StoringKeepsWell(m: map<Id, Idea>, isValidId: Id -> bool, keyOf: Id -> Id, idea: Idea)
    requires StoredWell(m, isValidId, keyOf)
    requires isValidId(idea.id) && keyOf(idea.id) == idea.id && HasRequired(idea)
    ensures StoredWell(m[idea.id := idea], isValidId, keyOf)
  {
    var m' := m[idea.id := idea];
    forall k | k in m' ensures m'[k].id == k && isValidId(k) && keyOf(k) == k && HasRequired(m'[k]) {
      if k == idea.id {
        assert m'[k] == idea;
      } else {
        assert m'[k] == m[k];
      }
    }
  }

  class IdeaStore {
    /** The ideas collection, by document key. */
    var ideas: map<Id, Idea>
    /** `mongoose.Types.ObjectId.isValid`, a check on the id's format only. */
    const isValidId: Id -> bool
    /** The key `findById` looks a route id up by: the ObjectId the string
        is cast to, written in the one form the store keys documents by.
        Route strings that name the same ObjectId (say, the same hex digits
        in upper and in lower case) have the same key. */
    const keyOf: Id -> Id

    /** The store invariant; both handlers that write refuse blank required
        fields. Tags carry no such promise: an array is stored as sent. */
    ghost predicate Valid()
      reads this
    {
      StoredWell(ideas, isValidId, keyOf)
    }

    constructor (isValidId: Id -> bool, keyOf: Id -> Id)
      ensures Valid()
      ensures ideas == map[] && this.isValidId == isValidId && this.keyOf == keyOf
    {
      this.ideas := map[];
      this.isValidId := isValidId;
      this.keyOf := keyOf;
    }

    /** GET `/`: every idea, newest first, cut to `limit` when `_limit`
        parses as a number (`limit` is `None` for NaN). Reads only. */
    method List(limit: Option<int>) returns (out: seq<Idea>)
      requires Valid()
      ensures exists all :: Listing.IsSortedListing(all, ideas.Values) && out == Listing.Cap(all, limit)
      ensures Listing.NewestFirst(out) && Listing.Distinct(out)
      ensures forall x :: x in out ==> x in ideas.Values
      ensures forall v, i :: v in ideas.Values && v !in out && 0 <= i < |out| ==>
        out[i].createdAt >= v.createdAt
      ensures limit.None? ==> forall v :: v in ideas.Values ==> v in out
    {
      var all := Listing.SortNewestFirst(ideas.Values);
      out := all;
      if limit.Some? {
        out := Listing.Cap(all, limit);
      }
      Listing.CapKeepsNewest(all, ideas.Values, limit);
    }

    /** GET `/:id`: 404 for a malformed id, 404 for a well-formed id whose
        key is not stored, otherwise the stored idea. Reads only. */
    method GetById(id: Id) returns (out: Outcome)
      requires Valid()
      ensures !isValidId(id) ==> out == NotFound(MalformedIdMessage)
      ensures isValidId(id) && keyOf(id) !in ideas ==> out == NotFound(AbsentIdMessage)
      ensures isValidId(id) && keyOf(id) in ideas ==> out == Found(ideas[keyOf(id)])
      ensures out.NotFound? <==> !isValidId(id) || keyOf(id) !in ideas
      ensures out.NotFound? || out.Found?
      ensures out.Status() == if !isValidId(id) || keyOf(id) !in ideas then 404 else 200
    {
      if !isValidId(id) {
        return NotFound(MalformedIdMessage);
      }
      var key := keyOf(id);
      if key !in ideas {
        return NotFound(AbsentIdMessage);
      }
      out := Found(ideas[key]);
    }

    /** POST `/`: 400 and nothing stored when a required field is blank;
        otherwise one new idea, owned by the caller, with the fields exactly
        as sent (untrimmed) and the normalised tags, stored under
        `newId` at time `now` (both chosen by the store). */
    method Create(body: Body, caller: UserId, newId: Id, now: int) returns (out: Outcome)
      requires Valid()
      requires isValidId(newId) && keyOf(newId) == newId && newId !in ideas
      modifies this
      ensures Valid()
      ensures MissingRequired(body) ==> out == InvalidInput(RequiredMessage) && ideas == old(ideas)
      ensures !MissingRequired(body) ==>
        && out == Created(Idea(newId, body.title.value, body.summary.value, body.description.value,
                               Tags.ForCreate(body.tags), caller, now))
        && ideas == old(ideas)[newId := out.idea]
      ensures out.Created? ==> out.idea.owner == caller && |ideas| == |old(ideas)| + 1
      ensures out.Status() == if MissingRequired(body) then 400 else 201
    {
      if MissingRequired(body) {
        return InvalidInput(RequiredMessage);
      }
      var idea := Idea(newId, body.title.value, body.summary.value, body.description.value,
                       Tags.ForCreate(body.tags), caller, now);
      assert HasRequired(idea) by {
        assert body.title == Some(idea.title) && body.summary == Some(idea.summary)
          && body.description == Some(idea.description);
      }
      StoringKeepsWell(ideas, isValidId, keyOf, idea);
      ideas := ideas[newId := idea];
      out := Created(idea);
    }

    /** DELETE `/:id`: 404 for a malformed id or one whose key is not
        stored, then 403 for a caller who is not the owner, both leaving the
        store as it was; otherwise that one idea is removed. */
    method Delete(id: Id, caller: UserId) returns (out: Outcome)
      requires Valid()
      modifies this
      ensures Valid()
      ensures !isValidId(id) ==> out == NotFound(MalformedIdMessage)
      ensures isValidId(id) && keyOf(id) !in old(ideas) ==> out == NotFound(AbsentIdMessage)
      ensures isValidId(id) && keyOf(id) in old(ideas) && old(ideas)[keyOf(id)].owner != caller ==>
        out == Forbidden(NotOwnerDeleteMessage)
      ensures isValidId(id) && keyOf(id) in old(ideas) && old(ideas)[keyOf(id)].owner == caller ==>
        out == Deleted(DeletedMessage)
      ensures out.Deleted? ==> ideas == old(ideas) - {keyOf(id)}
      ensures !out.Deleted? ==> ideas == old(ideas)
      ensures out.Status() ==
        if !isValidId(id) || keyOf(id) !in old(ideas) then 404
        else if old(ideas)[keyOf(id)].owner != caller then 403
        else 200
    {
      if !isValidId(id) {
        return NotFound(MalformedIdMessage);
      }
      var key := keyOf(id);
      if key !in ideas {
        return NotFound(AbsentIdMessage);
      }
      var idea := ideas[key];
      if idea.owner != caller {
        return Forbidden(NotOwnerDeleteMessage);
      }
      ideas := ideas - {key};
      out := Deleted(DeletedMessage);
    }

    /** PUT `/:id`: 404 for a malformed id or one whose key is not stored,
        then 403 for a caller who is not the owner (whatever the body
        holds), then 400 for a blank required field, each leaving the store
        as it was; otherwise the title, summary, description and tags of
        that idea are replaced, and its id, owner, creation time and every
        other idea stay as they were. */
    method Update(id: Id, caller: UserId, body: Body) returns (out: Outcome)
      requires Valid()
      modifies this
      ensures Valid()
      ensures !isValidId(id) ==> out == NotFound(MalformedIdMessage)
      ensures isValidId(id) && keyOf(id) !in old(ideas) ==> out == NotFound(AbsentIdMessage)
      ensures isValidId(id) && keyOf(id) in old(ideas) && old(ideas)[keyOf(id)].owner != caller ==>
        out == Forbidden(NotOwnerUpdateMessage)
      ensures (isValidId(id) && keyOf(id) in old(ideas) && old(ideas)[keyOf(id)].owner == caller
               && MissingRequired(body)) ==>
        out == InvalidInput(RequiredMessage)
      ensures (isValidId(id) && keyOf(id) in old(ideas) && old(ideas)[keyOf(id)].owner == caller
               && !MissingRequired(body)) ==>
        out == Updated(old(ideas)[keyOf(id)].(title := body.title.value,
                                              summary := body.summary.value,
                                              description := body.description.value,
                                              tags := Tags.ForUpdate(body.tags)))
      ensures out.Updated? ==>
        && ideas == old(ideas)[keyOf(id) := out.idea]
        && out.idea.id == keyOf(id)
        && out.idea.owner == old(ideas)[keyOf(id)].owner
        && out.idea.createdAt == old(ideas)[keyOf(id)].createdAt
      ensures !out.Updated? ==> ideas == old(ideas)
      ensures out.Status() ==
        if !isValidId(id) || keyOf(id) !in old(ideas) then 404
        else if old(ideas)[keyOf(id)].owner != caller then 403
        else if MissingRequired(body) then 400
        else 200
    {
      if !isValidId(id) {
        return NotFound(MalformedIdMessage);
      }
      var key := keyOf(id);
      if key !in ideas {
        return NotFound(AbsentIdMessage);
      }
      var idea := ideas[key];
      if idea.owner != caller {
        return Forbidden(NotOwnerUpdateMessage);
      }
      if MissingRequired(body) {
        return InvalidInput(RequiredMessage);
      }
      idea := idea.(title := body.title.value,
                    summary := body.summary.value,
                    description := body.description.value,
                    tags := Tags.ForUpdate(body.tags));
      assert HasRequired(idea) by {
        assert body.title == Some(idea.title) && body.summary == Some(idea.summary)
          && body.description == Some(idea.description);
      }
      StoringKeepsWell(ideas, isValidId, keyOf, idea);
      ideas := ideas[key := idea];
      out := Updated(idea);
    }
  }

  /** Two listings with no write in between return the same ideas in the
      same order, provided no two ideas share a creation time. */
  method ListTwice(store: IdeaStore, limit: Option<int>) returns (first: seq<Idea>, second: seq<Idea>)
    requires store.Valid() && Listing.DistinctTimes(store.ideas.Values)
    ensures first == second
  {
    first := store.List(limit);
    second := store.List(limit);
    ghost var all1 :| Listing.IsSortedListing(all1, store.ideas.Values) && first == Listing.Cap(all1, limit);
    ghost var all2 :| Listing.IsSortedListing(all2, store.ideas.Values) && second == Listing.Cap(all2, limit);
    Listing.SortedListingUnique(all1, all2, store.ideas.Values);
  }

  /** A whole session on an empty store: a first user creates an idea and
      updates it; a second user's update is refused and leaves the idea as
      the first user left it; the owner deletes it, after which it is not
      found. The later requests may spell the id differently (`alias`), as
      long as it names the same document. */
  method OwnershipSession(isValidId: Id -> bool, keyOf: Id -> Id, id: Id, alias: Id,
                          first: UserId, second: UserId,
                          original: Body, revised: Body, created: int)
    returns (made: Outcome, changed: Outcome, refused: Outcome, kept: Outcome,
             removed: Outcome, gone: Outcome)
    requires isValidId(id) && keyOf(id) == id
    requires isValidId(alias) && keyOf(alias) == id
    requires first != second
    requires !MissingRequired(original) && !MissingRequired(revised)
    ensures made.Created? && made.idea.owner == first && made.idea.title == original.title.value
    ensures changed.Updated? && changed.idea.title == revised.title.value && changed.idea.owner == first
    ensures refused == Forbidden(NotOwnerUpdateMessage)
    ensures kept == Found(changed.idea)
    ensures removed == Deleted(DeletedMessage)
    ensures gone == NotFound(AbsentIdMessage)
  {
    var store := new IdeaStore(isValidId, keyOf);
    made := store.Create(original, first, id, created);
    changed := store.Update(alias, first, revised);
    refused := store.Update(alias, second, original);
    kept := store.GetById(id);
    removed := store.Delete(alias, first);
    gone := store.GetById(alias);
  }
}
