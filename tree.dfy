/**
 * The data shaping behind the journal tree: a root node for the viewer, one node per
 * category carrying its entry count, an "Uncategorized" bucket when needed, and one
 * leaf per entry, with a link from each node to its parent.
 */
module JournalTree {
  import opened Wrappers
  import opened Types

  datatype NodeKind = UserNode | CategoryNode(count: nat) | EntryNode(preview: string)

  datatype Node = Node(id: string, name: string, kind: NodeKind)

  datatype Link = Link(source: string, target: string)

  const RootId: string := "user"
  /** The grouping key that stands for a null `category_id`. */
  const UncategorizedKey: string := "uncategorized"
  const UncategorizedName: string := "Uncategorized"
  const PreviewLength: nat := 40
  /** The single ellipsis character a preview ends with. */
  const Ellipsis: string := "\U{2026}"
  /** The three characters the preview suffix literally holds: the ellipsis's UTF-8 bytes read as Windows-1252. */
  const EllipsisAsWritten: string := "\U{00E2}\U{20AC}\U{00A6}"

  /** The key an entry is grouped under: its category id, or the uncategorized key when null. */
  function Key(e: Entry): string
  {
    e.categoryId.GetOr(UncategorizedKey)
  }

  function CategoryNodeId(key: string): string
  {
    "cat-" + key
  }

  function EntryNodeId(e: Entry): string
  {
    "entry-" + e.id
  }

  function RootNode(userName: string): Node
  {
    Node(RootId, userName, UserNode)
  }

  /** The entries grouped under `k`, in input order. */
  function WithKey(es: seq<Entry>, k: string): (r: seq<Entry>)
    ensures |r| <= |es|
    ensures forall e :: e in r <==> e in es && Key(e) == k
  {
    if es == [] then []
    else
      var last := es[|es| - 1];
      WithKey(es[..|es| - 1], k) + (if Key(last) == k then [last] else [])
  }

  function KeySet(es: seq<Entry>): set<string>
  {
    set e | e in es :: Key(e)
  }

  /** The grouping dictionary: each key that occurs, mapped to the entries under it. */
  function Group(es: seq<Entry>): map<string, seq<Entry>>
  {
    map k | k in KeySet(es) :: WithKey(es, k)
  }

  /** Number of entries whose `category_id` is exactly `cid` (None being null). */
  function CountCategory(es: seq<Entry>, cid: Option<string>): nat
  {
    if es == [] then 0
    else CountCategory(es[..|es| - 1], cid) + (if es[|es| - 1].categoryId == cid then 1 else 0)
  }

  /** The preview text exactly as the source line builds it (see Findings in the README). */
  function PreviewAsWritten(content: string): (r: string)
    ensures |content| <= PreviewLength ==> r == content + EllipsisAsWritten
    ensures |content| > PreviewLength ==> r == content[..PreviewLength] + EllipsisAsWritten
  {
    content[..if |content| < PreviewLength then |content| else PreviewLength] + EllipsisAsWritten
  }

  /** The intended preview: at most the first 40 characters, then one ellipsis character. */
  function Preview(content: string): (r: string)
    ensures 1 <= |r| <= PreviewLength + 1
    ensures |content| <= PreviewLength ==> |r| - 1 == |content|
    ensures |content| >= PreviewLength ==> |r| - 1 == PreviewLength
    ensures |r| - 1 <= |content| && r[..|r| - 1] == content[..|r| - 1]
    ensures r[|r| - 1] == '\U{2026}'
  {
    content[..if |content| < PreviewLength then |content| else PreviewLength] + Ellipsis
  }

  /** The suffix as written is not the ellipsis: every preview differs from the intended one. */
  lemma PreviewSuffixDiffers(content: string)
    ensures PreviewAsWritten(content) != Preview(content)
    ensures |PreviewAsWritten(content)| == |Preview(content)| + 2
  {
  }

  function CategoryNodeFor(c: Category, es: seq<Entry>): Node
  {
    Node(CategoryNodeId(c.id), c.name, CategoryNode(|WithKey(es, c.id)|))
  }

  function UncategorizedNode(es: seq<Entry>): Node
  {
    Node(CategoryNodeId(UncategorizedKey), UncategorizedName, CategoryNode(|WithKey(es, UncategorizedKey)|))
  }

  function EntryNodeFor(e: Entry): Node
  {
    Node(EntryNodeId(e), e.title, EntryNode(PreviewAsWritten(e.content)))
  }

  function EntryLink(e: Entry): Link
  {
    Link(CategoryNodeId(Key(e)), EntryNodeId(e))
  }

  /** Whether the uncategorized bucket exists, i.e. some entry is grouped under its key. */
  predicate HasUncategorized(es: seq<Entry>)
  {
    UncategorizedKey in KeySet(es)
  }

  function CategoryNodes(cs: seq<Category>, es: seq<Entry>): seq<Node>
  {
    seq(|cs|, i requires 0 <= i < |cs| => CategoryNodeFor(cs[i], es))
  }

  function RootLinks(cs: seq<Category>): seq<Link>
  {
    seq(|cs|, i requires 0 <= i < |cs| => Link(RootId, CategoryNodeId(cs[i].id)))
  }

  function UncategorizedNodes(es: seq<Entry>): seq<Node>
  {
    if HasUncategorized(es) then [UncategorizedNode(es)] else []
  }

  function UncategorizedLinks(es: seq<Entry>): seq<Link>
  {
    if HasUncategorized(es) then [Link(RootId, CategoryNodeId(UncategorizedKey))] else []
  }

  function EntryNodes(es: seq<Entry>): seq<Node>
  {
    seq(|es|, j requires 0 <= j < |es| => EntryNodeFor(es[j]))
  }

  function EntryLinks(es: seq<Entry>): seq<Link>
  {
    seq(|es|, j requires 0 <= j < |es| => EntryLink(es[j]))
  }

  /** 1 when the uncategorized bucket is emitted, else 0. */
  function Bucket(es: seq<Entry>): nat
  {
    if HasUncategorized(es) then 1 else 0
  }

  /**
   * All nodes of the tree: the root first, then the categories, then the bucket, then
   * the entries. There is one more node than there are links.
   */
  function Nodes(es: seq<Entry>, cs: seq<Category>, userName: string): (r: seq<Node>)
    ensures |r| == 1 + |cs| + Bucket(es) + |es|
    ensures r[0] == RootNode(userName)
  {
    [RootNode(userName)] + CategoryNodes(cs, es) + UncategorizedNodes(es) + EntryNodes(es)
  }

  /** All links, in the order the nodes they point to were emitted. */
  function Links(es: seq<Entry>, cs: seq<Category>): (r: seq<Link>)
    ensures |r| == |cs| + Bucket(es) + |es|
    ensures forall userName :: |r| == |Nodes(es, cs, userName)| - 1
  {
    RootLinks(cs) + UncategorizedLinks(es) + EntryLinks(es)
  }

  // ---------------------------------------------------------------------------
  // The grouping dictionary

  lemma WithKeySnoc(es: seq<Entry>, e: Entry, k: string)
    ensures WithKey(es + [e], k) == WithKey(es, k) + (if Key(e) == k then [e] else [])
  {
    assert (es + [e])[..|es|] == es;
  }

  /** A key that never occurs groups nothing, so its count is 0 (the source's `?.length ?? 0`). */
  lemma WithKeyAbsent(es: seq<Entry>, k: string)
    requires k !in KeySet(es)
    ensures WithKey(es, k) == []
  {
  }

  // ---------------------------------------------------------------------------
  // The imperative build

  lemma KeySetSnoc(es: seq<Entry>, e: Entry)
    ensures KeySet(es + [e]) == KeySet(es) + {Key(e)}
  {
    forall x | x in es + [e] ensures x in es || x == e { }
  }

  lemma GroupIs(es: seq<Entry>, m: map<string, seq<Entry>>)
    requires m.Keys == KeySet(es)
    requires forall k :: k in m ==> m[k] == WithKey(es, k)
    ensures m == Group(es)
  {
  }

  /** The id the source writes out for the bucket node is the one its entries link to. */
  lemma BucketNodeId()
    ensures CategoryNodeId(UncategorizedKey) == "cat-uncategorized"
  {
    assert "cat-" + "uncategorized" == "cat-uncategorized";
  }

  /** Looking one key up in the grouping dictionary. */
  lemma GroupAt(es: seq<Entry>, k: string)
    ensures k in Group(es) <==> k in KeySet(es)
    ensures k in Group(es) ==> Group(es)[k] == WithKey(es, k)
  {
  }

  /** A dictionary that groups `es` correctly, with `e` pushed under its key, groups `es + [e]` correctly. */
  lemma GroupStep(es: seq<Entry>, e: Entry, m: map<string, seq<Entry>>)
    requires m.Keys == KeySet(es)
    requires forall k :: k in m ==> m[k] == WithKey(es, k)
    ensures var m' := m[Key(e) := (if Key(e) in m then m[Key(e)] else []) + [e]];
            && m'.Keys == KeySet(es + [e])
            && forall k :: k in m' ==> m'[k] == WithKey(es + [e], k)
  {
    var m' := m[Key(e) := (if Key(e) in m then m[Key(e)] else []) + [e]];
    KeySetSnoc(es, e);
    if Key(e) !in m {
      WithKeyAbsent(es, Key(e));
    }
    forall k | k in m' ensures m'[k] == WithKey(es + [e], k) {
      WithKeySnoc(es, e, k);
    }
  }

  /** Fills the grouping dictionary entry by entry; the result is `Group(entries)`. */
  method GroupEntries(entries: seq<Entry>) returns (entriesByCat: map<string, seq<Entry>>)
    ensures entriesByCat == Group(entries)
  {
    entriesByCat := map[];
    var i := 0;
    while i < |entries|
      invariant 0 <= i <= |entries|
      invariant entriesByCat.Keys == KeySet(entries[..i])
      invariant forall k :: k in entriesByCat ==> entriesByCat[k] == WithKey(entries[..i], k)
    {
      var e := entries[i];
      var key := e.categoryId.GetOr(UncategorizedKey);
      GroupStep(entries[..i], e, entriesByCat);
      if key !in entriesByCat {
        entriesByCat := entriesByCat[key := []];
      }
      entriesByCat := entriesByCat[key := entriesByCat[key] + [e]];
      assert entries[..i + 1] == entries[..i] + [e];
      i := i + 1;
    }
    assert entries[..i] == entries;
    GroupIs(entries, entriesByCat);
  }

  /** Pushes one node and one root link per category, the count read from the dictionary. */
  method PushCategories(entries: seq<Entry>, entriesByCat: map<string, seq<Entry>>,
                        categories: seq<Category>, nodes0: seq<Node>, links0: seq<Link>)
    returns (nodes: seq<Node>, links: seq<Link>)
    requires entriesByCat == Group(entries)
    ensures nodes == nodes0 + CategoryNodes(categories, entries)
    ensures links == links0 + RootLinks(categories)
  {
    nodes, links := nodes0, links0;
    var c := 0;
    while c < |categories|
      invariant 0 <= c <= |categories|
      invariant nodes == nodes0 + CategoryNodes(categories[..c], entries)
      invariant links == links0 + RootLinks(categories[..c])
    {
      var cat := categories[c];
      GroupAt(entries, cat.id);
      if cat.id !in entriesByCat {
        WithKeyAbsent(entries, cat.id);
      }
      var count := if cat.id in entriesByCat then |entriesByCat[cat.id]| else 0;
      nodes := nodes + [Node("cat-" + cat.id, cat.name, CategoryNode(count))];
      links := links + [Link(RootId, "cat-" + cat.id)];
      c := c + 1;
      assert CategoryNodes(categories[..c], entries)
          == CategoryNodes(categories[..c - 1], entries) + [CategoryNodeFor(cat, entries)];
      assert RootLinks(categories[..c])
          == RootLinks(categories[..c - 1]) + [Link(RootId, CategoryNodeId(cat.id))];
    }
    assert categories[..c] == categories;
  }

  /** Pushes the bucket node and its root link when the dictionary has the bucket key. */
  method PushBucket(entries: seq<Entry>, entriesByCat: map<string, seq<Entry>>,
                    nodes0: seq<Node>, links0: seq<Link>)
    returns (nodes: seq<Node>, links: seq<Link>)
    requires entriesByCat == Group(entries)
    ensures nodes == nodes0 + UncategorizedNodes(entries)
    ensures links == links0 + UncategorizedLinks(entries)
  {
    nodes, links := nodes0, links0;
    GroupAt(entries, UncategorizedKey);
    if UncategorizedKey in entriesByCat {
      BucketNodeId();
      nodes := nodes + [Node("cat-uncategorized", UncategorizedName,
                             CategoryNode(|entriesByCat[UncategorizedKey]|))];
      links := links + [Link(RootId, "cat-uncategorized")];
    } else {
      assert UncategorizedNodes(entries) == [] && UncategorizedLinks(entries) == [];
    }
  }

  /** Pushes one leaf per entry and one link to it from its category node or the bucket. */
  method PushEntries(entries: seq<Entry>, nodes0: seq<Node>, links0: seq<Link>)
    returns (nodes: seq<Node>, links: seq<Link>)
    ensures nodes == nodes0 + EntryNodes(entries)
    ensures links == links0 + EntryLinks(entries)
  {
    nodes, links := nodes0, links0;
    var j := 0;
    while j < |entries|
      invariant 0 <= j <= |entries|
      invariant nodes == nodes0 + EntryNodes(entries[..j])
      invariant links == links0 + EntryLinks(entries[..j])
    {
      var e := entries[j];
      var nodeId := "entry-" + e.id;
      nodes := nodes + [Node(nodeId, e.title, EntryNode(PreviewAsWritten(e.content)))];
      links := links + [Link("cat-" + e.categoryId.GetOr(UncategorizedKey), nodeId)];
      j := j + 1;
      assert EntryNodes(entries[..j]) == EntryNodes(entries[..j - 1]) + [EntryNodeFor(e)];
      assert EntryLinks(entries[..j]) == EntryLinks(entries[..j - 1]) + [EntryLink(e)];
    }
    assert entries[..j] == entries;
  }

  /**
   * Builds the tree the way the component does: the root, then the grouping
   * dictionary, then the category nodes read from it, the bucket, and the entry
   * leaves. The result is exactly `Nodes` and `Links`.
   */
  method BuildGraph(entries: seq<Entry>, categories: seq<Category>, userName: string)
    returns (nodes: seq<Node>, links: seq<Link>)
    ensures nodes == Nodes(entries, categories, userName)
    ensures links == Links(entries, categories)
  {
    nodes := [RootNode(userName)];
    links := [];
    var entriesByCat := GroupEntries(entries);
    nodes, links := PushCategories(entries, entriesByCat, categories, nodes, links);
    nodes, links := PushBucket(entries, entriesByCat, nodes, links);
    nodes, links := PushEntries(entries, nodes, links);
  }
}
