/**
 * `RSSManager` (rss_manager.py): creating inputs and outputs, routing items to
 * outputs, ingesting a parsed feed, and the queries behind the dashboard and the
 * public feeds. Operations that write the store are methods on the `Database`;
 * queries are functions of a snapshot of it. Each write happens in one transaction:
 * an operation that raises or returns False before its commit leaves no trace.
 */
module RssManager {
  import opened Wrappers
  import opened Ordering
  import opened DateTimes
  import opened Slugs
  import opened Store
  import opened RssTree
  import opened Ingestion

  // ---- inputs and outputs ----

  /** `create_input`: a new active input, never fetched, under the next id. */
  method CreateInput(db: Database, userId: int, name: string, feedUrl: string, now: DateTime) returns (id: int)
    requires db.Valid()
    modifies db
    ensures db.Valid()
    ensures id == old(db.lastInputId) + 1 && id !in old(db.inputs)
    ensures db.Snapshot() == old(db.Snapshot()).(inputs := old(db.inputs)[id := Input(userId, name, feedUrl, None, true, now)],
                                                 lastInputId := id)
  {
    id := db.lastInputId + 1;
    db.inputs := db.inputs[id := Input(userId, name, feedUrl, None, true, now)];
    db.lastInputId := id;
  }

  /**
   * `create_output`: the output is stored under the slug derived from its name; a
   * slug already in use makes the INSERT raise before the commit.
   */
  method CreateOutput(db: Database, userId: int, name: string, description: string, now: DateTime)
    returns (r: Result<(int, string), StoreError>)
    requires db.Valid()
    modifies db
    ensures db.Valid()
    ensures r.Err? <==> CreateSlug(name) in SlugSet(old(db.outputs))
    ensures r.Err? ==> r.error == DuplicateSlug && db.Snapshot() == old(db.Snapshot())
    ensures r.Ok? ==>
      && r.value == (old(db.lastOutputId) + 1, CreateSlug(name))
      && db.Snapshot() == old(db.Snapshot()).(
           outputs := old(db.outputs)[r.value.0 := Output(userId, name, CreateSlug(name), Some(description), true, now)],
           lastOutputId := r.value.0)
  {
    var slug := CreateSlug(name);
    if slug in SlugSet(db.outputs) {
      return Err(DuplicateSlug);
    }
    var id := db.lastOutputId + 1;
    db.outputs := db.outputs[id := Output(userId, name, slug, Some(description), true, now)];
    db.lastOutputId := id;
    r := Ok((id, slug));
  }

  /** Two outputs of the store never share a slug, and every stored slug has the shape `_create_slug` gives. */
  lemma StoredSlugsUnique(t: Tables, a: int, b: int)
    requires Consistent(t)
    requires a in t.outputs && b in t.outputs && a != b
    ensures t.outputs[a].slug != t.outputs[b].slug
    ensures IsSlug(t.outputs[a].slug) && IsSlug(t.outputs[b].slug)
  {
  }

  /** `link_input_to_output`: the pair is present afterwards; an existing pair is absorbed. Stored items gain no edges. */
  method LinkInputToOutput(db: Database, inputId: int, outputId: int)
    requires db.Valid()
    modifies db
    ensures db.Valid()
    ensures db.Snapshot() == old(db.Snapshot()).(inputOutputs := old(db.inputOutputs) + {(inputId, outputId)})
  {
    db.inputOutputs := db.inputOutputs + {(inputId, outputId)};
  }

  /** `share_item_to_output`: True and the pair added when it was absent, False and no change otherwise. */
  method ShareItemToOutput(db: Database, itemId: int, outputId: int) returns (added: bool)
    requires db.Valid()
    modifies db
    ensures db.Valid()
    ensures added <==> (itemId, outputId) !in old(db.itemOutputs)
    ensures db.Snapshot() == old(db.Snapshot()).(itemOutputs := old(db.itemOutputs) + {(itemId, outputId)})
  {
    added := (itemId, outputId) !in db.itemOutputs;
    db.itemOutputs := db.itemOutputs + {(itemId, outputId)};
  }

  // ---- custom items ----

  /** The row `create_custom_item` writes: custom, owned by the user, dated now, described by its first 200 characters. */
  function CustomItem(userId: int, title: string, content: string, guid: string, now: DateTime): (it: FeedItem)
    ensures it.isCustom && it.userId == Some(userId) && it.inputId == None
    ensures it.guid == guid && it.title == title && it.content == Some(content)
    ensures it.description.Some? && |it.description.value| == Min(200, |content|)
    ensures it.description.value <= content
    ensures |content| <= 200 ==> it.description == Some(content)
    ensures it.link == None && it.author == None
    ensures it.published == Some(now) && it.createdAt == now
  {
    var description := content[..Min(200, |content|)];
    assert |content| <= 200 ==> description == content;
    FeedItem(None, Some(userId), guid, title, None, Some(description), Some(content), None, Some(now), true, now)
  }

  /** The edges `create_custom_item` inserts for the item id. */
  function CustomEdges(itemId: int, outputIds: seq<int>): (r: set<(int, int)>)
    ensures forall o :: (itemId, o) in r <==> o in outputIds
    ensures forall p :: p in r ==> p.0 == itemId
  {
    set k | 0 <= k < |outputIds| :: (itemId, outputIds[k])
  }

  /** Every one of those INSERTs succeeds: no requested output is repeated or already holds the item. */
  predicate EdgesInsertable(existing: set<(int, int)>, itemId: int, outputIds: seq<int>) {
    && (forall k :: 0 <= k < |outputIds| ==> (itemId, outputIds[k]) !in existing)
    && (forall k, l :: 0 <= k < l < |outputIds| ==> outputIds[k] != outputIds[l])
  }

  /**
   * The loop of `create_custom_item`: one edge INSERT per requested output. The
   * first one that meets a pair already present raises, and the rollback removes
   * the edges inserted before it.
   */
  method InsertEdges(db: Database, itemId: int, outputIds: seq<int>) returns (ok: bool)
    modifies db
    ensures ok <==> EdgesInsertable(old(db.itemOutputs), itemId, outputIds)
    ensures ok ==> db.Snapshot() == old(db.Snapshot()).(itemOutputs := old(db.itemOutputs) + CustomEdges(itemId, outputIds))
    ensures !ok ==> db.Snapshot() == old(db.Snapshot())
  {
    var saved := db.itemOutputs;
    var i := 0;
    while i < |outputIds|
      invariant 0 <= i <= |outputIds|
      invariant db.itemOutputs == saved + CustomEdges(itemId, outputIds[..i])
      invariant EdgesInsertable(saved, itemId, outputIds[..i])
      invariant db.Snapshot().(itemOutputs := saved) == old(db.Snapshot())
    {
      if (itemId, outputIds[i]) in db.itemOutputs {
        if (itemId, outputIds[i]) !in saved {
          var k :| 0 <= k < i && outputIds[..i][k] == outputIds[i];
          assert outputIds[k] == outputIds[i];
        }
        db.itemOutputs := saved;
        return false;
      }
      assert outputIds[..i + 1] == outputIds[..i] + [outputIds[i]];
      db.itemOutputs := db.itemOutputs + {(itemId, outputIds[i])};
      i := i + 1;
    }
    assert outputIds[..i] == outputIds;
    ok := true;
  }

  /**
   * `create_custom_item`: inserts the item, then one edge per requested output. A
   * taken guid or a repeated edge raises before the commit, and the connection is
   * closed without it, so nothing is stored. The guid (an md5 over the user, the
   * title and the local time) is a parameter.
   */
  method CreateCustomItem(db: Database, userId: int, title: string, content: string, outputIds: seq<int>,
                          guid: string, now: DateTime) returns (r: Result<int, StoreError>)
    requires db.Valid()
    modifies db
    ensures db.Valid()
    ensures r == Err(DuplicateGuid) <==> guid in GuidSet(old(db.items))
    ensures r == Err(DuplicateEdge) <==>
      guid !in GuidSet(old(db.items)) && !EdgesInsertable(old(db.itemOutputs), old(db.lastItemId) + 1, outputIds)
    ensures r.Err? ==> db.Snapshot() == old(db.Snapshot())
    ensures r.Ok? ==>
      && r.value == old(db.lastItemId) + 1
      && db.Snapshot() == old(db.Snapshot()).(
           items := old(db.items)[r.value := CustomItem(userId, title, content, guid, now)],
           lastItemId := r.value,
           itemOutputs := old(db.itemOutputs) + CustomEdges(r.value, outputIds))
  {
    if guid in GuidSet(db.items) {
      return Err(DuplicateGuid);
    }
    var items, lastItemId := db.items, db.lastItemId;
    var id := db.lastItemId + 1;
    var it := CustomItem(userId, title, content, guid, now);
    assert id !in db.items;
    GuidSetInsert(db.items, id, it);
    db.items := db.items[id := it];
    db.lastItemId := id;
    var ok := InsertEdges(db, id, outputIds);
    if !ok {
      db.items, db.lastItemId := items, lastItemId;
      return Err(DuplicateEdge);
    }
    r := Ok(id);
  }

  // ---- ingestion ----

  /**
   * The per-entry `try` block of `fetch_feed`: the item INSERT, skipped when the
   * guid is taken, then the one-statement fan-out INSERT, which fails as a whole on
   * a pair already present.
   */
  method InsertEntry(db: Database, inputId: int, it: FeedItem)
    modifies db
    ensures db.Snapshot() == IngestOne(old(db.Snapshot()), inputId, it)
  {
    if it.guid !in GuidSet(db.items) {
      var id := db.lastItemId + 1;
      db.items := db.items[id := it];
      db.lastItemId := id;
      var fan := FanOut(db.inputOutputs, inputId, id);
      if fan !! db.itemOutputs {
        db.itemOutputs := db.itemOutputs + fan;
      }
    }
  }

  /**
   * The body of `fetch_feed`'s transaction: each entry is normalised and inserted
   * in feed order; when one fails to normalise, the rollback restores the item
   * tables as they were before the first INSERT.
   */
  method IngestEntries(db: Database, inputId: int, entries: seq<RawEntry>, md5: string -> string, now: DateTime)
    returns (ok: bool)
    modifies db
    ensures ok <==> NormalizeAll(entries, inputId, md5, now).Some?
    ensures ok ==> db.Snapshot() == IngestAll(old(db.Snapshot()), inputId, NormalizeAll(entries, inputId, md5, now).value)
    ensures !ok ==> db.Snapshot() == old(db.Snapshot())
  {
    ghost var t0 := db.Snapshot();
    var items, lastItemId, itemOutputs := db.items, db.lastItemId, db.itemOutputs;
    ghost var normalized: seq<FeedItem> := [];
    var i := 0;
    while i < |entries|
      invariant 0 <= i <= |entries|
      invariant NormalizeAll(entries[..i], inputId, md5, now) == Some(normalized)
      invariant db.Snapshot() == IngestAll(t0, inputId, normalized)
    {
      var entry := Normalize(entries[i], inputId, md5, now);
      if entry.None? {
        assert NormalizeAll(entries, inputId, md5, now).None? by {
          NormalizeAllStep(entries, i, inputId, md5, now);
          NormalizeAllFailsWithPrefix(entries, i + 1, inputId, md5, now);
        }
        db.items, db.lastItemId, db.itemOutputs := items, lastItemId, itemOutputs;
        return false;
      }
      var it := entry.value;
      assert NormalizeAll(entries[..i + 1], inputId, md5, now) == Some(normalized + [it]) by {
        NormalizeAllStep(entries, i, inputId, md5, now);
      }
      assert IngestAll(t0, inputId, normalized + [it]) == IngestOne(db.Snapshot(), inputId, it) by {
        IngestAllStep(t0, inputId, normalized, it);
      }
      InsertEntry(db, inputId, it);
      normalized := normalized + [it];
      i := i + 1;
    }
    assert entries[..i] == entries;
    ok := true;
  }

  /**
   * `fetch_feed`: a missing input raises before anything is read; otherwise the
   * entries are ingested and, unless that was rolled back, `last_fetch` is stamped
   * and the run committed. The entries (what `feedparser.parse` returned), md5 and
   * the clock reading are parameters.
   */
  method FetchFeed(db: Database, inputId: int, entries: seq<RawEntry>, md5: string -> string, now: DateTime)
    returns (r: FetchOutcome)
    requires db.Valid()
    modifies db
    ensures db.Valid()
    ensures (r, db.Snapshot()) == Fetch(old(db.Snapshot()), inputId, entries, md5, now)
  {
    if inputId !in db.inputs {
      return NoSuchInput;
    }
    ghost var t0 := db.Snapshot();
    FetchConsistent(t0, inputId, entries, md5, now);
    var ok := IngestEntries(db, inputId, entries, md5, now);
    if !ok {
      return Failed;
    }
    db.inputs := db.inputs[inputId := db.inputs[inputId].(lastFetch := Some(now))];
    r := Fetched;
  }

  // ---- queries ----

  /** Sort key of `ORDER BY published DESC, created_at DESC`: a NULL date is the smallest, so it sorts last. */
  function ItemKey(it: FeedItem): seq<int> {
    (if it.published.Some? then [1] + SortKey(it.published.value) else [0]) + SortKey(it.createdAt)
  }

  function ItemKeyOf(items: map<int, FeedItem>): int -> seq<int> {
    id => if id in items then ItemKey(items[id]) else []
  }

  /**
   * What the item order means: an undated item is never listed before a dated one,
   * dated items come latest first, and equal dates fall back to the creation time.
   */
  lemma ItemKeyOrder(a: FeedItem, b: FeedItem)
    requires KeyLe(ItemKey(b), ItemKey(a))
    ensures a.published.None? ==> b.published.None?
    ensures a.published.Some? && b.published.Some? ==> KeyLe(SortKey(b.published.value), SortKey(a.published.value))
    ensures a.published == b.published ==> KeyLe(SortKey(b.createdAt), SortKey(a.createdAt))
  {
    var ha := if a.published.Some? then [1] + SortKey(a.published.value) else [0];
    var hb := if b.published.Some? then [1] + SortKey(b.published.value) else [0];
    if a.published.Some? && b.published.Some? {
      KeyLeSplit(hb, SortKey(b.createdAt), ha, SortKey(a.createdAt));
      assert hb[1..] == SortKey(b.published.value) && ha[1..] == SortKey(a.published.value);
    } else if a.published == b.published {
      KeyLeSplit(hb, SortKey(b.createdAt), ha, SortKey(a.createdAt));
    }
  }

  /** The rows with the given ids, in the same order. */
  function RowsOf(items: map<int, FeedItem>, ids: seq<int>): (r: seq<FeedItem>)
    requires forall i :: 0 <= i < |ids| ==> ids[i] in items
    ensures |r| == |ids|
    ensures forall i :: 0 <= i < |ids| ==> r[i] == items[ids[i]]
  {
    if ids == [] then [] else [items[ids[0]]] + RowsOf(items, ids[1..])
  }

  /** `SELECT id FROM outputs WHERE slug = ?`, None when no row matches. */
  function OutputIdBySlug(t: Tables, slug: string): (r: Option<int>)
    ensures r.Some? ==> r.value in t.outputs && t.outputs[r.value].slug == slug
  {
    var ids := IdsWhere(t.lastOutputId, id => id in t.outputs && t.outputs[id].slug == slug);
    if ids == [] then None else assert ids[0] in ids; Some(ids[0])
  }

  /** The items visible on an output, `ORDER BY published DESC, created_at DESC LIMIT 50`. */
  function OutputFeedIds(t: Tables, outputId: int): (r: seq<int>)
    ensures forall i :: 0 <= i < |r| ==> r[i] in t.items
  {
    var ids := IdsWhere(t.lastItemId, id => id in t.items && (id, outputId) in t.itemOutputs);
    assert forall x :: x in ids ==> x in t.items;
    TopKOfIds(ids, ItemKeyOf(t.items), 50);
    var selected := TopK(ids, ItemKeyOf(t.items), 50);
    assert forall i :: 0 <= i < |selected| ==> selected[i] in ids;
    selected
  }

  /** `get_output_feed(slug)`: None for an unknown slug, else the output's RSS document. */
  function GetOutputFeed(t: Tables, slug: string, now: DateTime): Option<Element>
    requires IsValid(now)
  {
    match OutputIdBySlug(t, slug)
    case None => None
    case Some(id) => Some(RssDocument(t.outputs[id], RowsOf(t.items, OutputFeedIds(t, id)), now))
  }

  /** The slug lookup finds the one output with that slug, and fails exactly when there is none. */
  lemma OutputIdBySlugCorrect(t: Tables, slug: string)
    requires Consistent(t)
    ensures OutputIdBySlug(t, slug).None? <==> slug !in SlugSet(t.outputs)
    ensures forall id :: id in t.outputs && t.outputs[id].slug == slug ==> OutputIdBySlug(t, slug) == Some(id)
  {
    if slug in SlugSet(t.outputs) {
      var id :| id in t.outputs && t.outputs[id].slug == slug;
      assert id in IdsWhere(t.lastOutputId, id => id in t.outputs && t.outputs[id].slug == slug);
    } else {
      assert forall id :: id in t.outputs ==> t.outputs[id].slug in SlugSet(t.outputs);
    }
  }

  /**
   * An output's feed lists at most 50 items, each visible on it and each once, in
   * feed order; no visible item left out ranks above one listed, and when fewer than
   * 50 are listed none was left out.
   */
  lemma OutputFeedCorrect(t: Tables, outputId: int)
    requires Consistent(t)
    ensures var r := OutputFeedIds(t, outputId);
      && |r| <= 50
      && (forall id :: id in r ==> id in t.items && (id, outputId) in t.itemOutputs)
      && (forall i, j :: 0 <= i < j < |r| ==> r[i] != r[j])
      && (|r| < 50 ==> forall id :: id in t.items && (id, outputId) in t.itemOutputs ==> id in r)
  {
    TopKWhereMembers(t.lastItemId, id => id in t.items && (id, outputId) in t.itemOutputs, ItemKeyOf(t.items), 50);
  }

  /** The feed is in item order: latest first. */
  lemma OutputFeedSorted(t: Tables, outputId: int)
    requires Consistent(t)
    ensures var r := OutputFeedIds(t, outputId);
      forall i, j :: 0 <= i < j < |r| ==> KeyLe(ItemKey(t.items[r[j]]), ItemKey(t.items[r[i]]))
  {
    TopKWhereSorted(t.lastItemId, id => id in t.items && (id, outputId) in t.itemOutputs, ItemKeyOf(t.items), 50);
  }

  /** No visible item left out by the LIMIT ranks above one that was listed. */
  lemma OutputFeedOutranked(t: Tables, outputId: int)
    requires Consistent(t)
    ensures var r := OutputFeedIds(t, outputId);
      forall x, y :: x in t.items && (x, outputId) in t.itemOutputs && x !in r && y in r ==>
        KeyLe(ItemKey(t.items[x]), ItemKey(t.items[y]))
  {
    var p := id => id in t.items && (id, outputId) in t.itemOutputs;
    var key := ItemKeyOf(t.items);
    var r := OutputFeedIds(t, outputId);
    TopKWhereOutranked(t.lastItemId, p, key, 50);
    forall x, y | x in t.items && (x, outputId) in t.itemOutputs && x !in r && y in r
      ensures KeyLe(ItemKey(t.items[x]), ItemKey(t.items[y]))
    {
      assert 1 <= x <= t.lastItemId && p(x);
      assert y in t.items;
      assert KeyLe(key(x), key(y));
    }
  }

  /** The same, stated on dates: undated items last, latest publication first, ties by creation time. */
  lemma OutputFeedOrder(t: Tables, outputId: int, i: int, j: int)
    requires Consistent(t)
    requires 0 <= i < j < |OutputFeedIds(t, outputId)|
    ensures var a := t.items[OutputFeedIds(t, outputId)[i]];
      var b := t.items[OutputFeedIds(t, outputId)[j]];
      && (a.published.None? ==> b.published.None?)
      && (a.published.Some? && b.published.Some? ==> KeyLe(SortKey(b.published.value), SortKey(a.published.value)))
      && (a.published == b.published ==> KeyLe(SortKey(b.createdAt), SortKey(a.createdAt)))
  {
    OutputFeedSorted(t, outputId);
    var r := OutputFeedIds(t, outputId);
    ItemKeyOrder(t.items[r[i]], t.items[r[j]]);
  }

  /**
   * `get_output_feed` answers None exactly for an unknown slug; otherwise the
   * document is well formed, belongs to the output with that slug, and lists the
   * output's feed items in feed order.
   */
  lemma GetOutputFeedCorrect(t: Tables, slug: string, now: DateTime)
    requires Consistent(t) && IsValid(now)
    ensures GetOutputFeed(t, slug, now).None? <==> slug !in SlugSet(t.outputs)
    ensures GetOutputFeed(t, slug, now).Some? ==>
      var id := OutputIdBySlug(t, slug).value;
      var doc := GetOutputFeed(t, slug, now).value;
      && t.outputs[id].slug == slug
      && WellFormedRss(doc)
      && doc.children[0].children[2] == Leaf("link", FeedLink(slug))
      && Entries(doc) == ItemElements(RowsOf(t.items, OutputFeedIds(t, id)))
      && |Entries(doc)| <= 50
  {
    OutputIdBySlugCorrect(t, slug);
    if OutputIdBySlug(t, slug).Some? {
      var id := OutputIdBySlug(t, slug).value;
      var items := RowsOf(t.items, OutputFeedIds(t, id));
      OutputFeedCorrect(t, id);
      EntriesOfDocument(t.outputs[id], items, now);
      ChannelHeader(t.outputs[id], items, now);
      RssDocumentWellFormed(t.outputs[id], items, now);
    }
  }

  /** `fi.user_id = ? OR fi.input_id IN (SELECT id FROM inputs WHERE user_id = ?)` */
  predicate OwnedBy(t: Tables, userId: int, it: FeedItem) {
    || it.userId == Some(userId)
    || (it.inputId.Some? && it.inputId.value in t.inputs && t.inputs[it.inputId.value].userId == userId)
  }

  /** A row of `get_all_items`: the item and the name of its input (NULL for custom items). */
  datatype ItemRow = ItemRow(id: int, item: FeedItem, inputName: Option<string>)

  function InputName(t: Tables, it: FeedItem): Option<string> {
    if it.inputId.Some? && it.inputId.value in t.inputs then Some(t.inputs[it.inputId.value].name) else None
  }

  /** The ids `get_all_items(user_id)` returns: the user's items, in feed order, at most 100. */
  function AllItemIds(t: Tables, userId: int): (r: seq<int>)
    ensures forall i :: 0 <= i < |r| ==> r[i] in t.items
  {
    var ids := IdsWhere(t.lastItemId, id => id in t.items && OwnedBy(t, userId, t.items[id]));
    assert forall x :: x in ids ==> x in t.items;
    TopKOfIds(ids, ItemKeyOf(t.items), 100);
    var selected := TopK(ids, ItemKeyOf(t.items), 100);
    assert forall i :: 0 <= i < |selected| ==> selected[i] in ids;
    selected
  }

  function ItemRows(t: Tables, ids: seq<int>): (r: seq<ItemRow>)
    requires forall i :: 0 <= i < |ids| ==> ids[i] in t.items
    ensures |r| == |ids|
    ensures forall i :: 0 <= i < |ids| ==> r[i] == ItemRow(ids[i], t.items[ids[i]], InputName(t, t.items[ids[i]]))
  {
    if ids == [] then [] else [ItemRow(ids[0], t.items[ids[0]], InputName(t, t.items[ids[0]]))] + ItemRows(t, ids[1..])
  }

  /** `get_all_items(user_id)` */
  function AllItems(t: Tables, userId: int): seq<ItemRow> {
    ItemRows(t, AllItemIds(t, userId))
  }

  /**
   * The ids `get_all_items` selects: at most 100 of the user's items, each once,
   * in feed order; none left out ranks above one selected, and when fewer than 100
   * are selected none was left out.
   */
  lemma AllItemIdsCorrect(t: Tables, userId: int)
    requires Consistent(t)
    ensures var r := AllItemIds(t, userId);
      && |r| <= 100
      && (forall id :: id in r ==> id in t.items && OwnedBy(t, userId, t.items[id]))
      && (forall i, j :: 0 <= i < j < |r| ==> r[i] != r[j])
      && (|r| < 100 ==> forall id :: id in t.items && OwnedBy(t, userId, t.items[id]) ==> id in r)
  {
    TopKWhereMembers(t.lastItemId, id => id in t.items && OwnedBy(t, userId, t.items[id]), ItemKeyOf(t.items), 100);
  }

  /** The user's items come in item order: latest first. */
  lemma AllItemIdsSorted(t: Tables, userId: int)
    requires Consistent(t)
    ensures var r := AllItemIds(t, userId);
      forall i, j :: 0 <= i < j < |r| ==> KeyLe(ItemKey(t.items[r[j]]), ItemKey(t.items[r[i]]))
  {
    TopKWhereSorted(t.lastItemId, id => id in t.items && OwnedBy(t, userId, t.items[id]), ItemKeyOf(t.items), 100);
  }

  /** None of the user's items left out by the LIMIT ranks above one that was listed. */
  lemma AllItemIdsOutranked(t: Tables, userId: int)
    requires Consistent(t)
    ensures var r := AllItemIds(t, userId);
      forall x, y :: x in t.items && OwnedBy(t, userId, t.items[x]) && x !in r && y in r ==>
        KeyLe(ItemKey(t.items[x]), ItemKey(t.items[y]))
  {
    var p := id => id in t.items && OwnedBy(t, userId, t.items[id]);
    var key := ItemKeyOf(t.items);
    var r := AllItemIds(t, userId);
    TopKWhereOutranked(t.lastItemId, p, key, 100);
    forall x, y | x in t.items && OwnedBy(t, userId, t.items[x]) && x !in r && y in r
      ensures KeyLe(ItemKey(t.items[x]), ItemKey(t.items[y]))
    {
      assert 1 <= x <= t.lastItemId && p(x);
      assert y in t.items;
      assert KeyLe(key(x), key(y));
    }
  }

  /** Each row of `get_all_items` is the stored item with its input's name, one row per selected id. */
  lemma AllItemsRows(t: Tables, userId: int)
    requires Consistent(t)
    ensures var r := AllItems(t, userId);
      && |r| <= 100
      && (forall i :: 0 <= i < |r| ==>
            && r[i].id == AllItemIds(t, userId)[i] && r[i].item == t.items[r[i].id]
            && OwnedBy(t, userId, r[i].item) && r[i].inputName == InputName(t, r[i].item))
      && (forall i, j :: 0 <= i < j < |r| ==> KeyLe(ItemKey(r[j].item), ItemKey(r[i].item)))
  {
    AllItemIdsCorrect(t, userId);
    AllItemIdsSorted(t, userId);
    var ids := AllItemIds(t, userId);
    assert forall i :: 0 <= i < |ids| ==> ids[i] in ids;
  }

  function CreatedKeyOf<V>(m: map<int, V>, created: V -> DateTime): int -> seq<int> {
    id => if id in m then SortKey(created(m[id])) else []
  }

  /** `get_inputs(user_id)`: the ids of the user's inputs, newest first (no LIMIT). */
  function InputsOf(t: Tables, userId: int): seq<int> {
    var ids := IdsWhere(t.lastInputId, id => id in t.inputs && t.inputs[id].userId == userId);
    TopK(ids, CreatedKeyOf(t.inputs, (i: Input) => i.createdAt), |ids|)
  }

  /** `get_outputs(user_id)`: the ids of the user's outputs, newest first (no LIMIT). */
  function OutputsOf(t: Tables, userId: int): seq<int> {
    var ids := IdsWhere(t.lastOutputId, id => id in t.outputs && t.outputs[id].userId == userId);
    TopK(ids, CreatedKeyOf(t.outputs, (o: Output) => o.createdAt), |ids|)
  }

  /** `get_inputs` lists exactly the user's inputs, each once, newest first. */
  lemma InputsOfCorrect(t: Tables, userId: int)
    requires Consistent(t)
    ensures var r := InputsOf(t, userId);
      && (forall id :: id in r <==> id in t.inputs && t.inputs[id].userId == userId)
      && (forall i :: 0 <= i < |r| ==> r[i] in t.inputs)
      && (forall i, j :: 0 <= i < j < |r| ==> r[i] != r[j])
      && (forall i, j :: 0 <= i < j < |r| ==> KeyLe(SortKey(t.inputs[r[j]].createdAt), SortKey(t.inputs[r[i]].createdAt)))
  {
    var ids := IdsWhere(t.lastInputId, id => id in t.inputs && t.inputs[id].userId == userId);
    TopKOfIds(ids, CreatedKeyOf(t.inputs, (i: Input) => i.createdAt), |ids|);
  }

  /** `get_outputs` lists exactly the user's outputs, each once, newest first. */
  lemma OutputsOfCorrect(t: Tables, userId: int)
    requires Consistent(t)
    ensures var r := OutputsOf(t, userId);
      && (forall id :: id in r <==> id in t.outputs && t.outputs[id].userId == userId)
      && (forall i :: 0 <= i < |r| ==> r[i] in t.outputs)
      && (forall i, j :: 0 <= i < j < |r| ==> r[i] != r[j])
      && (forall i, j :: 0 <= i < j < |r| ==> KeyLe(SortKey(t.outputs[r[j]].createdAt), SortKey(t.outputs[r[i]].createdAt)))
  {
    var ids := IdsWhere(t.lastOutputId, id => id in t.outputs && t.outputs[id].userId == userId);
    TopKOfIds(ids, CreatedKeyOf(t.outputs, (o: Output) => o.createdAt), |ids|);
  }
}
