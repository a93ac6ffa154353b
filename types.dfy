/** The two persisted records of the journal: a category and an entry. */
module Types {
  import opened Wrappers

  /** A row of the `categories` table. */
  datatype Category = Category(id: string, name: string, userId: string, createdAt: string)

  /** A row of the `entries` table; `categoryId == None` is the database's null ("uncategorized"). */
  datatype Entry = Entry(
    id: string,
    title: string,
    content: string,
    categoryId: Option<string>,
    userId: string,
    createdAt: string)

  predicate DistinctEntryIds(es: seq<Entry>)
  {
    forall j1, j2 :: 0 <= j1 < j2 < |es| ==> es[j1].id != es[j2].id
  }

  predicate DistinctCategoryIds(cs: seq<Category>)
  {
    forall i1, i2 :: 0 <= i1 < i2 < |cs| ==> cs[i1].id != cs[i2].id
  }
}
