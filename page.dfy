/** The home page's derived values: the viewer's display name, the null-safe counts, and when the tree is shown. */
module HomePage {
  import opened Wrappers
  import opened Text
  import opened Types
  import opened Database
  import opened JournalTree
  import opened JournalTreeProps

  /** `email.split("@")[0]`: the text before the first "@", or the whole address when there is none. */
  function LocalPart(email: string): (r: string)
    ensures '@' !in r
    ensures r == email || StartsWith(email, r + "@")
  {
    var i := IndexOf(email, '@');
    assert i < |email| ==> email[..i + 1] == email[..i] + "@";
    email[..i]
  }

  /**
   * `full_name || email-local-part || "User"`: the full name when it is non-empty, else
   * the email's local part when that is non-empty, else "User". Never empty.
   */
  function DisplayName(fullName: Option<string>, email: Option<string>): (r: string)
    ensures r != []
    ensures fullName.Some? && fullName.value != [] ==> r == fullName.value
    ensures !(fullName.Some? && fullName.value != []) && email.Some? && LocalPart(email.value) != []
            ==> r == LocalPart(email.value) && '@' !in r
    ensures !(fullName.Some? && fullName.value != []) && !(email.Some? && LocalPart(email.value) != [])
            ==> r == "User"
  {
    if fullName.Some? && fullName.value != [] then fullName.value
    else if email.Some? && LocalPart(email.value) != [] then LocalPart(email.value)
    else "User"
  }

  /** `rows?.length || 0`: the number of rows, 0 when the query returned no data. */
  function CountOrZero<T>(rows: Option<seq<T>>): (n: nat)
    ensures rows.None? ==> n == 0
    ensures rows.Some? ==> n == |rows.value|
  {
    match rows
    case None => 0
    case Some(s) => |s|
  }

  /** What the page shows under the counts: the tree, or the empty-state card. */
  datatype TreeSection =
    | Tree(entries: seq<Entry>, categories: seq<Category>, userName: string)
    | EmptyState

  /** The tree is shown only for a non-empty entry list; its categories default to []. */
  function Section(entries: Option<seq<Entry>>, categories: Option<seq<Category>>, userName: string)
    : (v: TreeSection)
    ensures v.Tree? <==> entries.Some? && |entries.value| > 0
    ensures v.Tree? ==> v.entries == entries.value && v.categories == categories.GetOr([]) && v.userName == userName
  {
    if entries.Some? && |entries.value| > 0 then Tree(entries.value, categories.GetOr([]), userName)
    else EmptyState
  }

  /**
   * The tree the page draws from a consistent store is well formed: when the page's
   * entries are the viewer's rows and its categories include all of the viewer's
   * categories (in any order), every link joins two emitted nodes.
   */
  lemma StoreTreeClosed(cs: seq<Category>, es: seq<Entry>, userId: string,
                        pageEntries: seq<Entry>, pageCategories: seq<Category>, userName: string)
    requires TablesValid(cs, es)
    requires forall e :: e in pageEntries ==> e in es && e.userId == userId
    requires forall c :: c in cs && c.userId == userId ==> c in pageCategories
    ensures LinksClosed(Nodes(pageEntries, pageCategories, userName), Links(pageEntries, pageCategories))
  {
    forall j | 0 <= j < |pageEntries| && pageEntries[j].categoryId.Some?
      ensures exists i :: 0 <= i < |pageCategories| && pageCategories[i].id == pageEntries[j].categoryId.value
    {
      var e := pageEntries[j];
      assert e in es;
      var k :| 0 <= k < |es| && es[k] == e;
      var i :| 0 <= i < |cs| && cs[i].id == e.categoryId.value && cs[i].userId == e.userId;
      assert cs[i] in cs;
      var i' :| 0 <= i' < |pageCategories| && pageCategories[i'] == cs[i];
    }
    AllLinksClosed(pageEntries, pageCategories, userName);
  }
}
