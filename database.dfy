/**
 * The two tables the journal keeps, as an in-memory store: the rows, the constraints
 * the database enforces (primary keys, the category foreign key), the application's
 * own expectations (one category per owner and name, an entry's category has the
 * entry's owner), and the three statements the forms issue.
 */
module Database {
  import opened Wrappers
  import opened Types

  /** The database's answer to an insert: an error, or the generated id and timestamp. */
  datatype InsertReply = Rejected | Assigned(id: string, createdAt: string)

  predicate HasCategoryId(cs: seq<Category>, id: string)
  {
    exists i :: 0 <= i < |cs| && cs[i].id == id
  }

  predicate HasEntryId(es: seq<Entry>, id: string)
  {
    exists j :: 0 <= j < |es| && es[j].id == id
  }

  /**
   * No owner has two categories of the same name. The schema does not enforce this;
   * the create form keeps it only while its category lookup succeeds.
   */
  predicate UniqueNames(cs: seq<Category>)
  {
    forall i1, i2 :: 0 <= i1 < i2 < |cs| ==> cs[i1].userId != cs[i2].userId || cs[i1].name != cs[i2].name
  }

  /** The foreign key: every non-null category id of an entry names a category. */
  predicate ForeignKeys(cs: seq<Category>, es: seq<Entry>)
  {
    forall j :: 0 <= j < |es| && es[j].categoryId.Some? ==> HasCategoryId(cs, es[j].categoryId.value)
  }

  /** The constraints the database itself enforces: both primary keys and the foreign key. */
  predicate DatabaseValid(cs: seq<Category>, es: seq<Entry>)
  {
    DistinctCategoryIds(cs) && DistinctEntryIds(es) && ForeignKeys(cs, es)
  }

  /** Each entry's category exists and belongs to the entry's owner (an application rule, not a schema constraint). */
  predicate OwnedCategories(cs: seq<Category>, es: seq<Entry>)
  {
    forall j :: 0 <= j < |es| && es[j].categoryId.Some? ==>
      exists i :: 0 <= i < |cs| && cs[i].id == es[j].categoryId.value && cs[i].userId == es[j].userId
  }

  /** What the forms keep: primary keys, and categories owned by their entries' owners. */
  predicate TablesValid(cs: seq<Category>, es: seq<Entry>)
  {
    && DistinctCategoryIds(cs)
    && DistinctEntryIds(es)
    && OwnedCategories(cs, es)
  }

  /** Ownership is stronger than the foreign key: tables the forms keep valid satisfy the database's constraints. */
  lemma TablesValidIsDatabaseValid(cs: seq<Category>, es: seq<Entry>)
    requires TablesValid(cs, es)
    ensures DatabaseValid(cs, es)
  {
    forall j | 0 <= j < |es| && es[j].categoryId.Some?
      ensures HasCategoryId(cs, es[j].categoryId.value)
    {
      var i :| 0 <= i < |cs| && cs[i].id == es[j].categoryId.value && cs[i].userId == es[j].userId;
    }
  }

  predicate Matches(c: Category, name: string, userId: string)
  {
    c.name == name && c.userId == userId
  }

  /** The rows with that exact name and owner, in table order. */
  function Matching(cs: seq<Category>, name: string, userId: string): (r: seq<Category>)
    ensures |r| <= |cs|
    ensures forall c :: c in r <==> c in cs && Matches(c, name, userId)
  {
    if cs == [] then []
    else (if Matches(cs[0], name, userId) then [cs[0]] else []) + Matching(cs[1..], name, userId)
  }

  /**
   * `select("id").eq("name", name).eq("user_id", userId).single()`, keeping only the
   * data: the id when exactly one row matches; no data when none or several match,
   * since `single` reports both as an error.
   */
  function LookupCategory(cs: seq<Category>, name: string, userId: string): (r: Option<string>)
    ensures r.Some? <==> |Matching(cs, name, userId)| == 1
    ensures r.Some? ==> exists i :: 0 <= i < |cs| && cs[i].id == r.value && Matches(cs[i], name, userId)
  {
    var m := Matching(cs, name, userId);
    if |m| == 1 then
      assert m[0] in m;
      Some(m[0].id)
    else None
  }

  /** With unique names per owner, the lookup finds nothing exactly when no row matches. */
  lemma {:induction false} LookupUnique(cs: seq<Category>, name: string, userId: string)
    requires UniqueNames(cs)
    ensures LookupCategory(cs, name, userId).None? <==>
              forall i :: 0 <= i < |cs| ==> !Matches(cs[i], name, userId)
  {
    MatchingAtMostOne(cs, name, userId);
    var m := Matching(cs, name, userId);
    if m != [] {
      assert m[0] in m;
    }
    if exists i :: 0 <= i < |cs| && Matches(cs[i], name, userId) {
      var i :| 0 <= i < |cs| && Matches(cs[i], name, userId);
      assert cs[i] in m;
    }
  }

  lemma {:induction false} MatchingAtMostOne(cs: seq<Category>, name: string, userId: string)
    requires UniqueNames(cs)
    ensures |Matching(cs, name, userId)| <= 1
  {
    if cs != [] {
      var tail := cs[1..];
      assert UniqueNames(tail) by {
        forall i1, i2 | 0 <= i1 < i2 < |tail|
          ensures tail[i1].userId != tail[i2].userId || tail[i1].name != tail[i2].name
        {
          assert tail[i1] == cs[i1 + 1] && tail[i2] == cs[i2 + 1];
        }
      }
      MatchingAtMostOne(tail, name, userId);
      if Matches(cs[0], name, userId) {
        forall c | c in tail ensures !Matches(c, name, userId) {
          var k :| 0 <= k < |tail| && tail[k] == c;
          assert cs[k + 1] == c;
        }
        MatchingNone(tail, name, userId);
      }
    }
  }

  lemma {:induction false} MatchingNone(cs: seq<Category>, name: string, userId: string)
    requires forall c :: c in cs ==> !Matches(c, name, userId)
    ensures Matching(cs, name, userId) == []
  {
    if cs != [] {
      assert cs[0] in cs;
      assert forall c :: c in cs[1..] ==> c in cs;
      MatchingNone(cs[1..], name, userId);
    }
  }

  /** Two rows of the same name and owner: the lookup reports no data, as if none existed. */
  lemma LookupSeveral(c1: Category, c2: Category)
    requires Matches(c1, c2.name, c2.userId)
    ensures LookupCategory([c1, c2], c2.name, c2.userId) == None
  {
    assert [c1, c2][1..] == [c2];
    assert [c2][1..] == [];
    assert Matching([c2], c2.name, c2.userId) == [c2];
    assert Matching([c1, c2], c2.name, c2.userId) == [c1, c2];
  }

  /**
   * `insert({name, user_id})` on the categories table: rejected when the database
   * reports an error or the generated id is already a key; otherwise exactly one row
   * is appended and its id returned.
   */
  function InsertCategoryRow(cs: seq<Category>, name: string, userId: string, reply: InsertReply)
    : (r: (Option<string>, seq<Category>))
    ensures r.0.None? <==> reply.Rejected? || HasCategoryId(cs, reply.id)
    ensures r.0.None? ==> r.1 == cs
    ensures r.0.Some? ==> r.0.value == reply.id && r.1 == cs + [Category(reply.id, name, userId, reply.createdAt)]
  {
    if reply.Rejected? || HasCategoryId(cs, reply.id) then (None, cs)
    else (Some(reply.id), cs + [Category(reply.id, name, userId, reply.createdAt)])
  }

  /**
   * `insert({title, content, category_id, user_id})` on the entries table: rejected on
   * an error, a duplicate key, or a category id naming no category; otherwise exactly
   * one row is appended.
   */
  function InsertEntryRow(cs: seq<Category>, es: seq<Entry>, title: string, content: string,
                          categoryId: Option<string>, userId: string, reply: InsertReply)
    : (r: Option<seq<Entry>>)
    ensures r.None? <==> reply.Rejected? || HasEntryId(es, reply.id)
                         || (categoryId.Some? && !HasCategoryId(cs, categoryId.value))
    ensures r.Some? ==> r.value == es + [Entry(reply.id, title, content, categoryId, userId, reply.createdAt)]
  {
    if reply.Rejected? || HasEntryId(es, reply.id) || (categoryId.Some? && !HasCategoryId(cs, categoryId.value))
    then None
    else Some(es + [Entry(reply.id, title, content, categoryId, userId, reply.createdAt)])
  }

  /**
   * `update({title, content}).eq("id", id).eq("user_id", userId)`: every row with that
   * id and owner gets the new title and content; no other field and no other row changes.
   */
  function UpdateRows(es: seq<Entry>, id: string, userId: string, title: string, content: string)
    : (r: seq<Entry>)
    ensures |r| == |es|
    ensures forall k :: 0 <= k < |es| ==>
              && r[k].id == es[k].id && r[k].categoryId == es[k].categoryId
              && r[k].userId == es[k].userId && r[k].createdAt == es[k].createdAt
    ensures forall k :: 0 <= k < |es| && es[k].id == id && es[k].userId == userId ==>
              r[k].title == title && r[k].content == content
    ensures forall k :: 0 <= k < |es| && (es[k].id != id || es[k].userId != userId) ==> r[k] == es[k]
  {
    if es == [] then []
    else
      var row := es[0];
      var row' := if row.id == id && row.userId == userId then row.(title := title, content := content) else row;
      var rest := UpdateRows(es[1..], id, userId, title, content);
      var r := [row'] + rest;
      assert forall k :: 1 <= k < |es| ==> r[k] == rest[k - 1] && es[k] == es[1..][k - 1];
      r
  }

  /** Updating title and content keeps every table constraint. */
  lemma UpdateKeepsValid(cs: seq<Category>, es: seq<Entry>, id: string, userId: string,
                         title: string, content: string)
    requires TablesValid(cs, es)
    ensures TablesValid(cs, UpdateRows(es, id, userId, title, content))
  {
    var es' := UpdateRows(es, id, userId, title, content);
    forall j | 0 <= j < |es'| && es'[j].categoryId.Some?
      ensures exists i :: 0 <= i < |cs| && cs[i].id == es'[j].categoryId.value && cs[i].userId == es'[j].userId
    {
      assert es'[j].categoryId == es[j].categoryId && es'[j].userId == es[j].userId;
    }
  }

  /** A category insert keeps the database's constraints, whatever the reply. */
  lemma InsertCategoryKeepsKeys(cs: seq<Category>, es: seq<Entry>, name: string, userId: string, reply: InsertReply)
    requires DatabaseValid(cs, es)
    ensures DatabaseValid(InsertCategoryRow(cs, name, userId, reply).1, es)
  {
    var cs' := InsertCategoryRow(cs, name, userId, reply).1;
    if cs' != cs {
      assert cs'[..|cs|] == cs;
      forall i | 0 <= i < |cs| ensures cs[i].id != cs'[|cs|].id {
      }
      forall j | 0 <= j < |es| && es[j].categoryId.Some?
        ensures HasCategoryId(cs', es[j].categoryId.value)
      {
        var i :| 0 <= i < |cs| && cs[i].id == es[j].categoryId.value;
        assert cs'[i] == cs[i];
      }
    }
  }

  /** An entry insert keeps the database's constraints, whatever the reply: it checks both keys. */
  lemma InsertEntryKeepsKeys(cs: seq<Category>, es: seq<Entry>, title: string, content: string,
                             categoryId: Option<string>, userId: string, reply: InsertReply)
    requires DatabaseValid(cs, es)
    ensures DatabaseValid(cs, InsertEntryRow(cs, es, title, content, categoryId, userId, reply).GetOr(es))
  {
    var r := InsertEntryRow(cs, es, title, content, categoryId, userId, reply);
    if r.Some? {
      var es' := r.value;
      forall j | 0 <= j < |es| ensures es[j].id != es'[|es|].id {
      }
      forall j | 0 <= j < |es'| && es'[j].categoryId.Some?
        ensures HasCategoryId(cs, es'[j].categoryId.value)
      {
        if j < |es| {
          assert es'[j] == es[j];
        }
      }
    }
  }

  /** The scoped update keeps the database's constraints: it changes no key. */
  lemma UpdateKeepsKeys(cs: seq<Category>, es: seq<Entry>, id: string, userId: string,
                        title: string, content: string)
    requires DatabaseValid(cs, es)
    ensures DatabaseValid(cs, UpdateRows(es, id, userId, title, content))
  {
    var es' := UpdateRows(es, id, userId, title, content);
    forall j | 0 <= j < |es'| && es'[j].categoryId.Some?
      ensures HasCategoryId(cs, es'[j].categoryId.value)
    {
      assert es'[j].categoryId == es[j].categoryId;
    }
  }

  /** The store: the two tables, changed only by the three statements below. */
  class Store {
    var categories: seq<Category>
    var entries: seq<Entry>

    /** The class invariant: the constraints the database enforces, which every statement keeps. */
    ghost predicate Valid()
      reads this
    {
      DatabaseValid(categories, entries)
    }

    /** The ownership rule, which the forms keep but the database does not check. */
    ghost predicate Owned()
      reads this
    {
      OwnedCategories(categories, entries)
    }

    constructor ()
      ensures Valid() && Owned() && categories == [] && entries == []
    {
      categories := [];
      entries := [];
    }

    method InsertCategory(name: string, userId: string, reply: InsertReply) returns (id: Option<string>)
      requires Valid()
      modifies this
      ensures Valid()
      ensures (id, categories) == InsertCategoryRow(old(categories), name, userId, reply)
      ensures entries == old(entries)
    {
      InsertCategoryKeepsKeys(categories, entries, name, userId, reply);
      if reply.Rejected? || HasCategoryId(categories, reply.id) {
        id := None;
      } else {
        categories := categories + [Category(reply.id, name, userId, reply.createdAt)];
        id := Some(reply.id);
      }
    }

    method InsertEntry(title: string, content: string, categoryId: Option<string>, userId: string,
                       reply: InsertReply) returns (ok: bool)
      requires Valid()
      modifies this
      ensures Valid()
      ensures var r := InsertEntryRow(old(categories), old(entries), title, content, categoryId, userId, reply);
              ok == r.Some? && entries == r.GetOr(old(entries))
      ensures categories == old(categories)
    {
      InsertEntryKeepsKeys(categories, entries, title, content, categoryId, userId, reply);
      var r := InsertEntryRow(categories, entries, title, content, categoryId, userId, reply);
      ok := r.Some?;
      if ok {
        entries := r.value;
      }
    }

    method UpdateEntry(id: string, userId: string, title: string, content: string, fails: bool)
      returns (ok: bool)
      requires Valid()
      modifies this
      ensures Valid()
      ensures ok == !fails
      ensures entries == if fails then old(entries) else UpdateRows(old(entries), id, userId, title, content)
      ensures categories == old(categories)
    {
      UpdateKeepsKeys(categories, entries, id, userId, title, content);
      ok := !fails;
      if ok {
        entries := UpdateRows(entries, id, userId, title, content);
      }
    }
  }
}
