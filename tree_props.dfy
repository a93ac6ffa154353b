/** What the journal tree promises: counts, positions, the bucket, and well-formed links. */
module JournalTreeProps {
  import opened Wrappers
  import opened Types
  import opened JournalTree

  /** Whether some node carries `id`. */
  predicate HasNode(nodes: seq<Node>, id: string)
  {
    exists k :: 0 <= k < |nodes| && nodes[k].id == id
  }

  /** Every link joins two emitted nodes. */
  predicate LinksClosed(nodes: seq<Node>, links: seq<Link>)
  {
    forall l :: 0 <= l < |links| ==> HasNode(nodes, links[l].source) && HasNode(nodes, links[l].target)
  }

  /** Every non-null category id of an entry names one of the categories. */
  predicate CategoriesCover(es: seq<Entry>, cs: seq<Category>)
  {
    forall j :: 0 <= j < |es| && es[j].categoryId.Some? ==>
      exists i :: 0 <= i < |cs| && cs[i].id == es[j].categoryId.value
  }

  /** Some entry has `category_id == cid` exactly when the count of such entries is positive. */
  lemma {:induction false} CountPositive(es: seq<Entry>, cid: Option<string>)
    ensures CountCategory(es, cid) > 0 <==> exists e :: e in es && e.categoryId == cid
  {
    if es != [] {
      var init := es[..|es| - 1];
      CountPositive(init, cid);
      assert es == init + [es[|es| - 1]];
    }
  }

  /**
   * The size of a group: entries whose `category_id` is `k`, plus, for the bucket key
   * only, the entries whose `category_id` is null.
   */
  lemma {:induction false} WithKeyCount(es: seq<Entry>, k: string)
    ensures |WithKey(es, k)| == CountCategory(es, Some(k))
                                + (if k == UncategorizedKey then CountCategory(es, None) else 0)
  {
    if es != [] {
      WithKeyCount(es[..|es| - 1], k);
    }
  }

  /**
   * The node after the root for the i-th category, in input order, and its link from
   * the root. Its count is the number of entries in that category (0 when there are
   * none); only a category whose id is the bucket key itself also counts the null ones.
   */
  lemma CategoryNodeAt(es: seq<Entry>, cs: seq<Category>, userName: string, i: nat)
    requires i < |cs|
    ensures Nodes(es, cs, userName)[1 + i]
         == Node("cat-" + cs[i].id, cs[i].name,
                 CategoryNode(CountCategory(es, Some(cs[i].id))
                              + (if cs[i].id == UncategorizedKey then CountCategory(es, None) else 0)))
    ensures Links(es, cs)[i] == Link(RootId, "cat-" + cs[i].id)
  {
    WithKeyCount(es, cs[i].id);
  }

  /**
   * The bucket exists iff some entry's `category_id` is null or equals the bucket key
   * itself, and its group holds exactly those entries.
   */
  lemma BucketIff(es: seq<Entry>)
    ensures HasUncategorized(es) <==>
      (exists e :: e in es && e.categoryId == None) || (exists e :: e in es && e.categoryId == Some(UncategorizedKey))
    ensures |WithKey(es, UncategorizedKey)| == CountCategory(es, None) + CountCategory(es, Some(UncategorizedKey))
  {
    WithKeyCount(es, UncategorizedKey);
    CountPositive(es, None);
    CountPositive(es, Some(UncategorizedKey));
    if HasUncategorized(es) {
      var e :| e in es && Key(e) == UncategorizedKey;
      assert e in WithKey(es, UncategorizedKey);
    }
  }

  /**
   * The bucket: it exists iff some entry is grouped under the bucket key (a null
   * `category_id`, or one equal to that key), it comes right after the categories,
   * counts those entries and is linked from the root.
   */
  lemma UncategorizedBucket(es: seq<Entry>, cs: seq<Category>, userName: string)
    ensures HasUncategorized(es) <==>
      (exists e :: e in es && e.categoryId == None) || (exists e :: e in es && e.categoryId == Some(UncategorizedKey))
    ensures HasUncategorized(es) ==>
      && Nodes(es, cs, userName)[1 + |cs|]
         == Node("cat-uncategorized", UncategorizedName,
                 CategoryNode(CountCategory(es, None) + CountCategory(es, Some(UncategorizedKey))))
      && Links(es, cs)[|cs|] == Link(RootId, "cat-uncategorized")
  {
    BucketIff(es);
    if HasUncategorized(es) {
      BucketAt(es, cs, userName);
      BucketNodeId();
    }
  }

  /** With no category id equal to the bucket key, the bucket exists iff some entry is uncategorized, and counts exactly those. */
  lemma UncategorizedBucketPlain(es: seq<Entry>, cs: seq<Category>, userName: string)
    requires forall e :: e in es ==> e.categoryId != Some(UncategorizedKey)
    ensures HasUncategorized(es) <==> exists e :: e in es && e.categoryId == None
    ensures HasUncategorized(es) ==>
      Nodes(es, cs, userName)[1 + |cs|]
      == Node("cat-uncategorized", UncategorizedName, CategoryNode(CountCategory(es, None)))
  {
    BucketIff(es);
    CountPositive(es, Some(UncategorizedKey));
    if HasUncategorized(es) {
      BucketAt(es, cs, userName);
      BucketNodeId();
    }
  }

  /** Where the j-th entry's leaf and link sit: after the root, the categories and the bucket. */
  lemma EntryAt(es: seq<Entry>, cs: seq<Category>, userName: string, j: nat)
    requires j < |es|
    ensures Nodes(es, cs, userName)[1 + |cs| + Bucket(es) + j] == EntryNodeFor(es[j])
    ensures Links(es, cs)[|cs| + Bucket(es) + j] == EntryLink(es[j])
  {
    var head := [RootNode(userName)] + CategoryNodes(cs, es) + UncategorizedNodes(es);
    assert |head| == 1 + |cs| + Bucket(es);
    assert Nodes(es, cs, userName) == head + EntryNodes(es);
    var front := RootLinks(cs) + UncategorizedLinks(es);
    assert |front| == |cs| + Bucket(es);
    assert Links(es, cs) == front + EntryLinks(es);
  }

  /**
   * The leaf for the j-th entry, in input order, and its single link, which comes from
   * `cat-<category_id>` as written, or from the bucket when the id is null. An id that
   * names no category is not rerouted to the bucket.
   */
  lemma EntryNodeAt(es: seq<Entry>, cs: seq<Category>, userName: string, j: nat)
    requires j < |es|
    ensures Nodes(es, cs, userName)[1 + |cs| + Bucket(es) + j]
         == Node("entry-" + es[j].id, es[j].title, EntryNode(PreviewAsWritten(es[j].content)))
    ensures Links(es, cs)[|cs| + Bucket(es) + j].target == "entry-" + es[j].id
    ensures es[j].categoryId.Some? ==>
              Links(es, cs)[|cs| + Bucket(es) + j].source == "cat-" + es[j].categoryId.value
    ensures es[j].categoryId.None? ==>
              Links(es, cs)[|cs| + Bucket(es) + j].source == "cat-uncategorized"
  {
    EntryAt(es, cs, userName, j);
  }

  /**
   * The leaf's preview is the content's first 40 characters (all of it when shorter)
   * followed by the three-character suffix of the source, never the single ellipsis.
   */
  lemma LeafPreview(es: seq<Entry>, cs: seq<Category>, userName: string, j: nat)
    requires j < |es|
    ensures var p := Nodes(es, cs, userName)[1 + |cs| + Bucket(es) + j].kind.preview;
            && p != Preview(es[j].content)
            && p == es[j].content[..|p| - 3] + EllipsisAsWritten
            && |p| - 3 == (if |es[j].content| < PreviewLength then |es[j].content| else PreviewLength)
  {
    EntryAt(es, cs, userName, j);
    PreviewSuffixDiffers(es[j].content);
  }

  /** No input gives the root alone and no links. */
  lemma EmptyTree(userName: string)
    ensures Nodes([], [], userName) == [RootNode(userName)]
    ensures Links([], []) == []
  {
  }

  /** Where the i-th category's node and root link sit. */
  lemma CategoryAt(es: seq<Entry>, cs: seq<Category>, userName: string, i: nat)
    requires i < |cs|
    ensures Nodes(es, cs, userName)[1 + i] == CategoryNodeFor(cs[i], es)
    ensures Links(es, cs)[i] == Link(RootId, CategoryNodeId(cs[i].id))
  {
  }

  /** Where the bucket's node and root link sit, when it exists. */
  lemma BucketAt(es: seq<Entry>, cs: seq<Category>, userName: string)
    requires HasUncategorized(es)
    ensures Nodes(es, cs, userName)[1 + |cs|] == UncategorizedNode(es)
    ensures Links(es, cs)[|cs|] == Link(RootId, CategoryNodeId(UncategorizedKey))
  {
  }

  /** One link of the tree joins two emitted nodes. */
  lemma LinkClosed(es: seq<Entry>, cs: seq<Category>, userName: string, l: nat)
    requires CategoriesCover(es, cs)
    requires l < |Links(es, cs)|
    ensures HasNode(Nodes(es, cs, userName), Links(es, cs)[l].source)
    ensures HasNode(Nodes(es, cs, userName), Links(es, cs)[l].target)
  {
    var nodes, links := Nodes(es, cs, userName), Links(es, cs);
    var b := Bucket(es);
    assert nodes[0].id == RootId;
    if l < |cs| {
      CategoryAt(es, cs, userName, l);
      assert nodes[1 + l].id == links[l].target;
    } else if l < |cs| + b {
      BucketAt(es, cs, userName);
      assert nodes[1 + l].id == links[l].target;
    } else {
      var j := l - |cs| - b;
      EntryAt(es, cs, userName, j);
      assert nodes[1 + l].id == links[l].target;
      var e := es[j];
      if e.categoryId.Some? {
        var i :| 0 <= i < |cs| && cs[i].id == e.categoryId.value;
        CategoryAt(es, cs, userName, i);
        assert nodes[1 + i].id == links[l].source;
      } else {
        assert e in es && Key(e) == UncategorizedKey;
        BucketAt(es, cs, userName);
        assert nodes[1 + |cs|].id == links[l].source;
      }
    }
  }

  /** When every non-null category id names a category, every link joins two emitted nodes. */
  lemma AllLinksClosed(es: seq<Entry>, cs: seq<Category>, userName: string)
    requires CategoriesCover(es, cs)
    ensures LinksClosed(Nodes(es, cs, userName), Links(es, cs))
  {
    forall l | 0 <= l < |Links(es, cs)|
      ensures HasNode(Nodes(es, cs, userName), Links(es, cs)[l].source)
      ensures HasNode(Nodes(es, cs, userName), Links(es, cs)[l].target)
    {
      LinkClosed(es, cs, userName, l);
    }
  }

  lemma PrefixesDiffer(x: string, y: string)
    ensures "cat-" + x != "entry-" + y
    ensures "cat-" + x != RootId && "entry-" + y != RootId
  {
    assert ("cat-" + x)[0] == 'c';
    assert ("entry-" + y)[0] == 'e';
    assert RootId[0] == 'u';
  }

  lemma CatIdInjective(x: string, y: string)
    requires "cat-" + x == "cat-" + y
    ensures x == y
  {
    assert x == ("cat-" + x)[4..];
    assert y == ("cat-" + y)[4..];
  }

  /** No node carries the id of a category that is neither listed nor the bucket. */
  lemma NotACategoryNode(es: seq<Entry>, cs: seq<Category>, userName: string, id: string, k: nat)
    requires id != UncategorizedKey
    requires forall i :: 0 <= i < |cs| ==> cs[i].id != id
    requires k < |Nodes(es, cs, userName)|
    ensures Nodes(es, cs, userName)[k].id != "cat-" + id
  {
    var nodes := Nodes(es, cs, userName);
    PrefixesDiffer(id, "");
    if k == 0 {
    } else if k < 1 + |cs| {
      CategoryAt(es, cs, userName, k - 1);
      if nodes[k].id == "cat-" + id { CatIdInjective(cs[k - 1].id, id); }
    } else if k < 1 + |cs| + Bucket(es) {
      BucketAt(es, cs, userName);
      if nodes[k].id == "cat-" + id { CatIdInjective(UncategorizedKey, id); }
    } else {
      EntryAt(es, cs, userName, k - 1 - |cs| - Bucket(es));
      PrefixesDiffer(id, es[k - 1 - |cs| - Bucket(es)].id);
    }
  }

  /**
   * An entry whose category id names no category and is not the bucket key gets a
   * link whose source is no node: the tree does not repair dangling ids.
   */
  lemma DanglingSource(es: seq<Entry>, cs: seq<Category>, userName: string, j: nat)
    requires j < |es| && es[j].categoryId.Some?
    requires es[j].categoryId.value != UncategorizedKey
    requires forall i :: 0 <= i < |cs| ==> cs[i].id != es[j].categoryId.value
    ensures !HasNode(Nodes(es, cs, userName), Links(es, cs)[|cs| + Bucket(es) + j].source)
  {
    var nodes := Nodes(es, cs, userName);
    var id := es[j].categoryId.value;
    EntryAt(es, cs, userName, j);
    forall k | 0 <= k < |nodes| ensures nodes[k].id != "cat-" + id {
      NotACategoryNode(es, cs, userName, id, k);
    }
  }

  /** With distinct entry ids, each leaf has exactly one incoming link: its own. */
  lemma OneIncomingLink(es: seq<Entry>, cs: seq<Category>, j: nat)
    requires DistinctEntryIds(es)
    requires j < |es|
    ensures forall l :: 0 <= l < |Links(es, cs)| ==>
              (Links(es, cs)[l].target == "entry-" + es[j].id <==> l == |cs| + Bucket(es) + j)
  {
    var links := Links(es, cs);
    var b := Bucket(es);
    forall l | 0 <= l < |links|
      ensures links[l].target == "entry-" + es[j].id <==> l == |cs| + b + j
    {
      if l < |cs| {
        PrefixesDiffer(cs[l].id, es[j].id);
      } else if l < |cs| + b {
        PrefixesDiffer(UncategorizedKey, es[j].id);
      } else {
        var j' := l - |cs| - b;
        assert links[l].target == "entry-" + es[j'].id;
        if j' != j {
          assert es[j'].id != es[j].id;
          assert es[j'].id == ("entry-" + es[j'].id)[6..];
          assert es[j].id == ("entry-" + es[j].id)[6..];
        }
      }
    }
  }
}
