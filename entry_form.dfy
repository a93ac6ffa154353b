/**
 * Creating an entry: validate the trimmed fields, require a signed-in user, ask the
 * categorize endpoint for a name, reuse that owner's category of that name or insert
 * one, then insert the entry. Every failure aborts what is left; nothing is undone.
 */
module EntryForm {
  import opened Wrappers
  import opened Text
  import opened Types
  import opened Database
  import Ai
  import CategorizeRoute

  /** How the request to the categorize endpoint went. */
  datatype CategorizeResponse =
    | RequestThrew            // the request or the JSON decoding threw
    | NotOk                   // a response whose status is not OK
    | Ok(category: string)    // an OK response carrying the suggested name

  /** What the outside world answers, in the order the handler asks. */
  datatype SubmitEnv = SubmitEnv(
    user: Option<string>,
    response: CategorizeResponse,
    lookupFails: bool,          // the category lookup reports an error (its data is then null)
    categoryInsert: InsertReply,
    entryInsert: InsertReply)

  /** The handler's outcome, one per message it shows; `Created` also navigates home. */
  datatype SubmitOutcome =
    | MissingFields
    | NotLoggedIn
    | CategorizeFailed
    | CategoryInsertFailed
    | EntryInsertFailed
    | Unexpected
    | Created(category: string)

  datatype SubmitResult = SubmitResult(outcome: SubmitOutcome, categories: seq<Category>, entries: seq<Entry>)

  predicate FieldsPresent(title: string, content: string)
  {
    Trim(title) != [] && Trim(content) != []
  }

  /**
   * The request the form sends carries the raw title and content; once they pass the
   * trimmed check here, the endpoint's own (untrimmed) check passes too, so for a
   * signed-in caller the endpoint answers 200.
   */
  lemma FormRequestAccepted(title: string, content: string, userId: string,
                            names: Option<seq<string>>, model: Ai.Prompt -> Ai.ModelReply)
    requires FieldsPresent(title, content)
    ensures CategorizeRoute.Post(CategorizeRoute.Fields(CategorizeRoute.Str(title), CategorizeRoute.Str(content)),
                                 Some(userId), names, model).status == 200
  {
    assert |Trim(title)| <= |title| && |Trim(content)| <= |content|;
    assert CategorizeRoute.Truthy(CategorizeRoute.Str(title)) && CategorizeRoute.Truthy(CategorizeRoute.Str(content));
  }

  /** What the handler sees of the category lookup: its data, which is null when the query errs. */
  function Found(cs: seq<Category>, name: string, userId: string, lookupFails: bool): (r: Option<string>)
    ensures lookupFails ==> r == None
    ensures !lookupFails ==> r == LookupCategory(cs, name, userId)
  {
    if lookupFails then None else LookupCategory(cs, name, userId)
  }

  /**
   * The category id an entry will carry, with the category table after it: the id the
   * lookup returned, or else the id of a newly inserted row.
   */
  function ResolveCategory(cs: seq<Category>, name: string, userId: string, lookupFails: bool, reply: InsertReply)
    : (r: (Option<string>, seq<Category>))
    ensures Found(cs, name, userId, lookupFails).Some? ==> r == (Found(cs, name, userId, lookupFails), cs)
    ensures Found(cs, name, userId, lookupFails).None? ==> r == InsertCategoryRow(cs, name, userId, reply)
    ensures r.0.Some? ==> exists i :: 0 <= i < |r.1| && r.1[i].id == r.0.value
                                      && r.1[i].name == name && r.1[i].userId == userId
    ensures |r.1| >= |cs| && r.1[..|cs|] == cs
  {
    var found := Found(cs, name, userId, lookupFails);
    if found.Some? then (found, cs)
    else
      var r := InsertCategoryRow(cs, name, userId, reply);
      assert r.0.Some? ==> r.1[|cs|].id == r.0.value;
      assert r.1[..|cs|] == cs;
      r
  }

  /**
   * The last step of a submission, once the category is settled: an unresolved category
   * aborts; otherwise the entry insert decides between creation and failure.
   */
  function RecordEntry(cs: seq<Category>, es: seq<Entry>, title: string, content: string,
                       categoryId: Option<string>, userId: string, suggested: string, reply: InsertReply)
    : (r: SubmitResult)
    requires categoryId.Some? ==> exists i :: 0 <= i < |cs| && cs[i].id == categoryId.value && cs[i].userId == userId
    ensures r.categories == cs
    ensures r.outcome == CategoryInsertFailed <==> categoryId.None?
    ensures r.outcome.Created? <==> categoryId.Some? && reply.Assigned? && !HasEntryId(es, reply.id)
    ensures r.outcome == EntryInsertFailed <==> categoryId.Some? && (reply.Rejected? || HasEntryId(es, reply.id))
    ensures !r.outcome.Created? ==> r.entries == es
    ensures r.outcome.Created? ==>
              r.outcome == Created(suggested)
              && r.entries == es + [Entry(reply.id, title, content, categoryId, userId, reply.createdAt)]
    ensures TablesValid(cs, es) ==> TablesValid(cs, r.entries)
  {
    if categoryId.None? then SubmitResult(CategoryInsertFailed, cs, es)
    else
      match InsertEntryRow(cs, es, title, content, categoryId, userId, reply)
      case None => SubmitResult(EntryInsertFailed, cs, es)
      case Some(es') =>
        assert TablesValid(cs, es) ==> TablesValid(cs, es') by {
          if TablesValid(cs, es) {
            AppendEntryKeepsValid(cs, es, es'[|es|]);
          }
        }
        SubmitResult(Created(suggested), cs, es')
  }

  /**
   * The whole submission as a function of the tables before it and the answers the
   * handler receives.
   */
  function Submit(cs: seq<Category>, es: seq<Entry>, title: string, content: string, env: SubmitEnv)
    : (r: SubmitResult)
    // empty fields: rejected before anything is asked, nothing changes
    ensures !FieldsPresent(title, content) ==> r == SubmitResult(MissingFields, cs, es)
    // no user: rejected, nothing changes
    ensures FieldsPresent(title, content) && env.user.None? ==> r == SubmitResult(NotLoggedIn, cs, es)
    // the endpoint failed: rejected, nothing changes
    ensures FieldsPresent(title, content) && env.user.Some? && env.response.NotOk?
            ==> r == SubmitResult(CategorizeFailed, cs, es)
    ensures FieldsPresent(title, content) && env.user.Some? && env.response.RequestThrew?
            ==> r == SubmitResult(Unexpected, cs, es)
    // the lookup returned a row: the category table is untouched
    ensures FieldsPresent(title, content) && env.user.Some? && env.response.Ok?
            && Found(cs, env.response.category, env.user.value, env.lookupFails).Some?
            ==> r.categories == cs && r.outcome != CategoryInsertFailed
    // it returned nothing: exactly one category {suggested name, user} is added, or the insert failed and nothing changes
    ensures FieldsPresent(title, content) && env.user.Some? && env.response.Ok?
            && Found(cs, env.response.category, env.user.value, env.lookupFails).None?
            ==> (&& env.categoryInsert.Assigned?
                 && r.categories == cs + [Category(env.categoryInsert.id, env.response.category,
                                                   env.user.value, env.categoryInsert.createdAt)]
                 && r.outcome != CategoryInsertFailed)
                || r == SubmitResult(CategoryInsertFailed, cs, es)
    // when each outcome happens once a category name is in hand
    ensures r.outcome == CategoryInsertFailed <==>
              && FieldsPresent(title, content) && env.user.Some? && env.response.Ok?
              && ResolveCategory(cs, env.response.category, env.user.value, env.lookupFails, env.categoryInsert).0.None?
    ensures r.outcome.Created? <==>
              && FieldsPresent(title, content) && env.user.Some? && env.response.Ok?
              && ResolveCategory(cs, env.response.category, env.user.value, env.lookupFails, env.categoryInsert).0.Some?
              && env.entryInsert.Assigned? && !HasEntryId(es, env.entryInsert.id)
    ensures r.outcome == EntryInsertFailed <==>
              && FieldsPresent(title, content) && env.user.Some? && env.response.Ok?
              && ResolveCategory(cs, env.response.category, env.user.value, env.lookupFails, env.categoryInsert).0.Some?
              && (env.entryInsert.Rejected? || HasEntryId(es, env.entryInsert.id))
    // only creation adds an entry; a failed entry insert keeps a category it just added
    ensures !r.outcome.Created? ==> r.entries == es
    ensures r.outcome == EntryInsertFailed ==> |r.categories| >= |cs| && r.categories[..|cs|] == cs
    // creation: exactly one entry, trimmed fields, the owner, a non-null category of the suggested name
    ensures r.outcome.Created? ==>
              && r.outcome.category == env.response.category
              && |r.entries| == |es| + 1 && r.entries[..|es|] == es
              && var e := r.entries[|es|];
                 && e == Entry(env.entryInsert.id, Trim(title), Trim(content), e.categoryId,
                               env.user.value, env.entryInsert.createdAt)
                 && e.categoryId == ResolveCategory(cs, env.response.category, env.user.value,
                                                    env.lookupFails, env.categoryInsert).0
                 && exists i :: 0 <= i < |r.categories| && r.categories[i].id == e.categoryId.value
                                && r.categories[i].name == env.response.category
                                && r.categories[i].userId == env.user.value
    // whatever the outcome, the keys and ownership constraints still hold
    ensures TablesValid(cs, es) ==> TablesValid(r.categories, r.entries)
    // one category per owner and name survives as long as the lookup does not err
    ensures UniqueNames(cs) && !env.lookupFails ==> UniqueNames(r.categories)
  {
    if !FieldsPresent(title, content) then SubmitResult(MissingFields, cs, es)
    else if env.user.None? then SubmitResult(NotLoggedIn, cs, es)
    else
      var userId := env.user.value;
      match env.response
      case RequestThrew => SubmitResult(Unexpected, cs, es)
      case NotOk => SubmitResult(CategorizeFailed, cs, es)
      case Ok(suggested) =>
        var (categoryId, cs') := ResolveCategory(cs, suggested, userId, env.lookupFails, env.categoryInsert);
        assert TablesValid(cs, es) ==> TablesValid(cs', es) by {
          if TablesValid(cs, es) { ResolveKeepsValid(cs, es, suggested, userId, env.lookupFails, env.categoryInsert); }
        }
        assert UniqueNames(cs) && !env.lookupFails ==> UniqueNames(cs') by {
          if UniqueNames(cs) && !env.lookupFails { ResolveKeepsNames(cs, suggested, userId, env.categoryInsert); }
        }
        RecordEntry(cs', es, Trim(title), Trim(content), categoryId, userId, suggested, env.entryInsert)
  }

  /** Resolving a category keeps the keys and ownership valid and only ever appends to the category table. */
  lemma ResolveKeepsValid(cs: seq<Category>, es: seq<Entry>, name: string, userId: string,
                          lookupFails: bool, reply: InsertReply)
    requires TablesValid(cs, es)
    ensures var r := ResolveCategory(cs, name, userId, lookupFails, reply);
            TablesValid(r.1, es) && |r.1| >= |cs| && r.1[..|cs|] == cs
  {
    var cs' := ResolveCategory(cs, name, userId, lookupFails, reply).1;
    assert cs'[..|cs|] == cs;
    if cs' != cs {
      forall i | 0 <= i < |cs| ensures cs[i].id != cs'[|cs|].id {
      }
    }
    forall j | 0 <= j < |es| && es[j].categoryId.Some?
      ensures exists i :: 0 <= i < |cs'| && cs'[i].id == es[j].categoryId.value && cs'[i].userId == es[j].userId
    {
      var i :| 0 <= i < |cs| && cs[i].id == es[j].categoryId.value && cs[i].userId == es[j].userId;
      assert cs'[i] == cs[i];
    }
  }

  /** While the lookup answers, a new category is added only when none of that name and owner exists. */
  lemma ResolveKeepsNames(cs: seq<Category>, name: string, userId: string, reply: InsertReply)
    requires UniqueNames(cs)
    ensures UniqueNames(ResolveCategory(cs, name, userId, false, reply).1)
  {
    var cs' := ResolveCategory(cs, name, userId, false, reply).1;
    if cs' != cs {
      LookupUnique(cs, name, userId);
      forall i | 0 <= i < |cs| ensures cs[i].userId != cs'[|cs|].userId || cs[i].name != cs'[|cs|].name {
        assert !Matches(cs[i], name, userId);
      }
    }
  }

  /**
   * When the lookup errs, the handler inserts the suggested name even though the owner
   * already has a category of that name: the table ends with two of them.
   */
  lemma LookupErrorDuplicates(existing: Category, reply: InsertReply)
    requires reply.Assigned? && reply.id != existing.id
    ensures var cs' := ResolveCategory([existing], existing.name, existing.userId, true, reply).1;
            && cs' == [existing, Category(reply.id, existing.name, existing.userId, reply.createdAt)]
            && !UniqueNames(cs')
  {
    var cs' := ResolveCategory([existing], existing.name, existing.userId, true, reply).1;
    assert cs'[0].name == cs'[1].name && cs'[0].userId == cs'[1].userId;
  }

  /** Appending an entry with a fresh id whose category belongs to its owner keeps the tables valid. */
  lemma AppendEntryKeepsValid(cs: seq<Category>, es: seq<Entry>, e: Entry)
    requires TablesValid(cs, es)
    requires !HasEntryId(es, e.id)
    requires e.categoryId.Some? ==>
               exists i :: 0 <= i < |cs| && cs[i].id == e.categoryId.value && cs[i].userId == e.userId
    ensures TablesValid(cs, es + [e])
  {
    var es' := es + [e];
    forall j | 0 <= j < |es| ensures es[j].id != e.id {
    }
    forall j | 0 <= j < |es'| && es'[j].categoryId.Some?
      ensures exists i :: 0 <= i < |cs| && cs[i].id == es'[j].categoryId.value && cs[i].userId == es'[j].userId
    {
      if j < |es| {
        assert es'[j] == es[j];
      }
    }
  }

  /**
   * The submit handler over the store, step by step: the early returns of the source,
   * the lookup, the category insert when needed, and the entry insert.
   */
  method HandleSubmit(store: Store, title: string, content: string, env: SubmitEnv)
    returns (outcome: SubmitOutcome)
    requires store.Valid() && store.Owned()
    modifies store
    ensures store.Valid() && store.Owned()
    ensures SubmitResult(outcome, store.categories, store.entries)
            == Submit(old(store.categories), old(store.entries), title, content, env)
  {
    ghost var cs, es := store.categories, store.entries;
    ghost var spec := Submit(cs, es, title, content, env);
    if Trim(title) == [] || Trim(content) == [] {
      return MissingFields;
    }
    if env.user.None? {
      return NotLoggedIn;
    }
    var userId := env.user.value;
    if env.response.RequestThrew? {
      return Unexpected;
    }
    if env.response.NotOk? {
      return CategorizeFailed;
    }
    var suggested := env.response.category;
    ghost var resolved := ResolveCategory(cs, suggested, userId, env.lookupFails, env.categoryInsert);

    var categoryId: Option<string> := None;
    var existing: Option<string> := None;
    if !env.lookupFails {
      existing := LookupCategory(store.categories, suggested, userId);
    }
    if existing.Some? {
      categoryId := existing;
    } else {
      var created := store.InsertCategory(suggested, userId, env.categoryInsert);
      if created.None? {
        assert spec == SubmitResult(CategoryInsertFailed, cs, es);
        return CategoryInsertFailed;
      }
      categoryId := created;
    }
    assert (categoryId, store.categories) == resolved;

    var ok := store.InsertEntry(Trim(title), Trim(content), categoryId, userId, env.entryInsert);
    if !ok {
      assert spec == SubmitResult(EntryInsertFailed, store.categories, es);
      return EntryInsertFailed;
    }
    outcome := Created(suggested);
    assert spec == SubmitResult(outcome, store.categories, store.entries);
  }
}
