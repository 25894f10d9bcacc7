/**
 * What `RSSManager.fetch_feed` does to the store, as functions: each parsed entry is
 * normalised into a feed item, inserted unless its guid is already stored, and a
 * newly inserted item is made visible on every output its input is linked to at
 * that moment. Only the INSERTs are guarded per entry; a failure while normalising
 * an entry aborts the whole fetch before the commit, so nothing of that run
 * persists. The imperative method in RssManager is proved equal to `Fetch`.
 */
module Ingestion {
  import opened Wrappers
  import opened DateTimes
  import opened Store

  /**
   * One entry as the feed parser delivers it: string fields by key, the `content`
   * list (None when the key is absent) and `published_parsed` (None when absent).
   */
  datatype RawEntry = RawEntry(fields: map<string, string>, content: Option<seq<map<string, string>>>,
                               publishedParsed: Option<seq<int>>)

  datatype FetchOutcome =
    | NoSuchInput   // the input row is missing: the lookup raises outside any handler
    | Failed        // the fetch returned False and rolled back
    | Fetched       // the fetch committed and returned True


  /** `d.get(key, default)` */
  function Get(d: map<string, string>, key: string, default: string): string {
    if key in d then d[key] else default
  }

  /** The entry's guid: `id`, else `link`, else ''; an empty one becomes the md5 of the title. */
  function EntryGuid(e: RawEntry, md5: string -> string): string {
    var g := Get(e.fields, "id", Get(e.fields, "link", ""));
    if g == "" then md5(Get(e.fields, "title", "")) else g
  }

  /** The entry's content: the first content element's `value`; None where indexing raises. */
  function EntryContent(e: RawEntry, description: string): Option<string> {
    match e.content
    case None => Some(description)
    case Some(list) => if |list| == 0 then None else Some(Get(list[0], "value", description))
  }

  /** The entry's publication date; the outer None is a conversion that raises. */
  function EntryPublished(e: RawEntry): Option<Option<DateTime>> {
    match e.publishedParsed
    case None => Some(None)
    case Some(t) =>
      if |t| == 0 then Some(None)
      else match FromTimeTuple(t)
        case None => None
        case Some(d) => Some(Some(d))
  }

  /** The feed item for one entry, or None where normalisation raises. */
  function Normalize(e: RawEntry, inputId: int, md5: string -> string, now: DateTime): Option<FeedItem> {
    var description := Get(e.fields, "summary", Get(e.fields, "description", ""));
    match (EntryContent(e, description), EntryPublished(e))
    case (Some(content), Some(published)) =>
      Some(FeedItem(Some(inputId), None, EntryGuid(e, md5), Get(e.fields, "title", NoTitle),
                    Some(Get(e.fields, "link", "")), Some(description), Some(content),
                    Some(Get(e.fields, "author", "")), published, false, now))
    case _ => None
  }

  /** All entries normalised, or None if any one raises. */
  function NormalizeAll(es: seq<RawEntry>, inputId: int, md5: string -> string, now: DateTime): (r: Option<seq<FeedItem>>)
    ensures r.Some? ==> |r.value| == |es|
  {
    if es == [] then Some([])
    else
      match NormalizeAll(es[..|es| - 1], inputId, md5, now)
      case None => None
      case Some(init) =>
        match Normalize(es[|es| - 1], inputId, md5, now)
        case None => None
        case Some(it) => Some(init + [it])
  }

  /** The visibility edges `INSERT ... SELECT ?, output_id FROM input_output_mapping WHERE input_id = ?` adds. */
  function FanOut(links: set<(int, int)>, inputId: int, itemId: int): (r: set<(int, int)>)
    ensures forall o :: (itemId, o) in r <==> (inputId, o) in links
    ensures forall p :: p in r ==> p.0 == itemId
  {
    set p | p in links && p.0 == inputId :: (itemId, p.1)
  }

  /**
   * One entry's INSERTs. A stored guid makes the item INSERT fail: nothing changes.
   * Otherwise the item gets the next id; the fan-out INSERT is one statement, so if
   * any of its pairs is already present it fails as a whole: the item gets none of
   * its fan-out edges and keeps only the pre-existing edges that name its id.
   */
  function IngestOne(t: Tables, inputId: int, it: FeedItem): (r: Tables)
    // only the item tables change
    ensures r.(items := t.items, lastItemId := t.lastItemId, itemOutputs := t.itemOutputs) == t
  {
    if it.guid in GuidSet(t.items) then t
    else
      var id := t.lastItemId + 1;
      var fan := FanOut(t.inputOutputs, inputId, id);
      t.(items := t.items[id := it], lastItemId := id,
         itemOutputs := if fan !! t.itemOutputs then t.itemOutputs + fan else t.itemOutputs)
  }

  /** The entries' INSERTs in feed order. */
  function IngestAll(t: Tables, inputId: int, its: seq<FeedItem>): (r: Tables)
    ensures r.(items := t.items, lastItemId := t.lastItemId, itemOutputs := t.itemOutputs) == t
  {
    if its == [] then t else IngestOne(IngestAll(t, inputId, its[..|its| - 1]), inputId, its[|its| - 1])
  }

  /** NormalizeAll over one more entry. */
  lemma NormalizeAllStep(es: seq<RawEntry>, i: nat, inputId: int, md5: string -> string, now: DateTime)
    requires i < |es|
    ensures NormalizeAll(es[..i + 1], inputId, md5, now) ==
      match NormalizeAll(es[..i], inputId, md5, now)
      case None => None
      case Some(init) =>
        match Normalize(es[i], inputId, md5, now)
        case None => None
        case Some(it) => Some(init + [it])
  {
    assert es[..i + 1][..i] == es[..i];
  }

  /** IngestAll over one more item. */
  lemma IngestAllStep(t: Tables, inputId: int, its: seq<FeedItem>, it: FeedItem)
    ensures IngestAll(t, inputId, its + [it]) == IngestOne(IngestAll(t, inputId, its), inputId, it)
  {
    assert (its + [it])[..|its|] == its;
  }

  /** `fetch_feed(input_id)` on the store t, with the parsed entries and the clock reading. */
  function Fetch(t: Tables, inputId: int, entries: seq<RawEntry>, md5: string -> string, now: DateTime): (FetchOutcome, Tables) {
    if inputId !in t.inputs then (NoSuchInput, t)
    else
      match NormalizeAll(entries, inputId, md5, now)
      case None => (Failed, t)
      case Some(its) =>
        var t' := IngestAll(t, inputId, its);
        (Fetched, t'.(inputs := t'.inputs[inputId := t'.inputs[inputId].(lastFetch := Some(now))]))
  }

  // ---- normalisation ----

  /** Field defaults: a missing key and an empty value are told apart. */
  lemma NormalizedFields(e: RawEntry, inputId: int, md5: string -> string, now: DateTime)
    requires Normalize(e, inputId, md5, now).Some?
    ensures var it := Normalize(e, inputId, md5, now).value;
      && it.inputId == Some(inputId) && it.userId == None && !it.isCustom && it.createdAt == now
      && it.title == (if "title" in e.fields then e.fields["title"] else "Kein Titel")
      && it.link == Some(if "link" in e.fields then e.fields["link"] else "")
      && it.description == Some(if "summary" in e.fields then e.fields["summary"]
                                else if "description" in e.fields then e.fields["description"] else "")
      && it.author == Some(if "author" in e.fields then e.fields["author"] else "")
      && (e.content.None? ==> it.content == it.description)
      && (e.content.Some? ==>
            |e.content.value| > 0 &&
            it.content == Some(if "value" in e.content.value[0] then e.content.value[0]["value"] else it.description.value))
      && (it.published.Some? <==> e.publishedParsed.Some? && |e.publishedParsed.value| > 0)
      && (it.published.Some? ==> Some(it.published.value) == FromTimeTuple(e.publishedParsed.value))
  {
  }

  /** The guid rules, including that a present but empty `id` skips `link`. */
  lemma GuidRules(e: RawEntry, md5: string -> string)
    ensures "id" in e.fields && e.fields["id"] != "" ==> EntryGuid(e, md5) == e.fields["id"]
    ensures "id" !in e.fields && "link" in e.fields && e.fields["link"] != "" ==> EntryGuid(e, md5) == e.fields["link"]
    ensures "id" in e.fields && e.fields["id"] == "" ==> EntryGuid(e, md5) == md5(Get(e.fields, "title", ""))
    ensures "id" !in e.fields && Get(e.fields, "link", "") == "" ==> EntryGuid(e, md5) == md5(Get(e.fields, "title", ""))
  {
  }

  /** Normalisation raises exactly for an empty content list or a time tuple datetime rejects. */
  lemma NormalizeFailure(e: RawEntry, inputId: int, md5: string -> string, now: DateTime)
    ensures Normalize(e, inputId, md5, now).None? <==>
      (e.content.Some? && |e.content.value| == 0)
      || (e.publishedParsed.Some? && |e.publishedParsed.value| > 0 && FromTimeTuple(e.publishedParsed.value).None?)
  {
  }

  lemma {:induction false} NormalizeAllElements(es: seq<RawEntry>, inputId: int, md5: string -> string, now: DateTime)
    requires NormalizeAll(es, inputId, md5, now).Some?
    ensures forall i :: 0 <= i < |es| ==> Normalize(es[i], inputId, md5, now) == Some(NormalizeAll(es, inputId, md5, now).value[i])
  {
    if es != [] {
      var init := es[..|es| - 1];
      NormalizeAllElements(init, inputId, md5, now);
    }
  }

  /** The fetch fails as soon as one entry fails, whatever follows it. */
  lemma {:induction false} NormalizeAllFailsWithPrefix(es: seq<RawEntry>, k: nat, inputId: int, md5: string -> string, now: DateTime)
    requires k <= |es| && NormalizeAll(es[..k], inputId, md5, now).None?
    ensures NormalizeAll(es, inputId, md5, now).None?
    decreases |es| - k
  {
    if k < |es| {
      assert es[..k + 1][..k] == es[..k];
      NormalizeAllFailsWithPrefix(es, k + 1, inputId, md5, now);
    } else {
      assert es[..k] == es;
    }
  }

  lemma {:induction false} NormalizeAllSucceeds(es: seq<RawEntry>, inputId: int, md5: string -> string, now: DateTime)
    requires forall i :: 0 <= i < |es| ==> Normalize(es[i], inputId, md5, now).Some?
    ensures NormalizeAll(es, inputId, md5, now).Some?
  {
    if es != [] {
      NormalizeAllSucceeds(es[..|es| - 1], inputId, md5, now);
    }
  }

  /** Whether a fetch fails does not depend on the store or the clock, only on the entries. */
  lemma {:induction false} NormalizeAllIgnoresClock(es: seq<RawEntry>, inputId: int, md5: string -> string, now: DateTime, later: DateTime)
    ensures NormalizeAll(es, inputId, md5, now).Some? == NormalizeAll(es, inputId, md5, later).Some?
    ensures NormalizeAll(es, inputId, md5, now).Some? ==>
      forall i :: 0 <= i < |es| ==> NormalizeAll(es, inputId, md5, now).value[i].guid == NormalizeAll(es, inputId, md5, later).value[i].guid
  {
    if es != [] {
      NormalizeAllIgnoresClock(es[..|es| - 1], inputId, md5, now, later);
    }
  }

  // ---- insertion ----

  /** No visibility edge names an item id the counter has not issued yet. */
  ghost predicate EdgesWithin(t: Tables) {
    forall p :: p in t.itemOutputs ==> p.0 <= t.lastItemId
  }

  function GuidsOf(its: seq<FeedItem>): set<string> {
    set i | 0 <= i < |its| :: its[i].guid
  }

  /** Inserting a guid the map lacks at a fresh key adds exactly that guid. */
  lemma GuidSetInsert(items: map<int, FeedItem>, id: int, it: FeedItem)
    requires id !in items
    ensures GuidSet(items[id := it]) == GuidSet(items) + {it.guid}
  {
    var m := items[id := it];
    forall g | g in GuidSet(items) + {it.guid}
      ensures g in GuidSet(m)
    {
      if g == it.guid {
        assert m[id].guid == g;
      } else {
        var j :| j in items && items[j].guid == g;
        assert m[j].guid == g;
      }
    }
  }

  /** One entry's INSERTs keep the store's invariant and the edge bound. */
  lemma IngestOneConsistent(t: Tables, inputId: int, it: FeedItem)
    requires Consistent(t)
    ensures var r := IngestOne(t, inputId, it);
      && Consistent(r)
      && r.lastItemId >= t.lastItemId
      && (EdgesWithin(t) ==> EdgesWithin(r))
  {
    var r := IngestOne(t, inputId, it);
    if it.guid !in GuidSet(t.items) {
      var id := t.lastItemId + 1;
      forall a, b | a in r.items && b in r.items && a != b
        ensures r.items[a].guid != r.items[b].guid
      {
        if a == id {
          assert t.items[b].guid in GuidSet(t.items);
        } else if b == id {
          assert t.items[a].guid in GuidSet(t.items);
        }
      }
    }
  }

  /** One entry's INSERTs add the entry's guid to the stored ones, and no other. */
  lemma IngestOneGuids(t: Tables, inputId: int, it: FeedItem)
    requires IdsWithin(t.items, t.lastItemId)
    ensures GuidSet(IngestOne(t, inputId, it).items) == GuidSet(t.items) + {it.guid}
  {
    if it.guid !in GuidSet(t.items) {
      GuidSetInsert(t.items, t.lastItemId + 1, it);
    }
  }

  /**
   * One entry's INSERTs: a stored guid changes nothing; a new one is stored under
   * the next id, only that id gains edges, and (when no edge names a future id) it
   * gains exactly one per output the input is linked to.
   */
  lemma IngestOneItem(t: Tables, inputId: int, it: FeedItem)
    requires IdsWithin(t.items, t.lastItemId)
    ensures var r := IngestOne(t, inputId, it);
      && (it.guid in GuidSet(t.items) ==> r == t)
      && (it.guid !in GuidSet(t.items) ==> r.lastItemId == t.lastItemId + 1 && r.items == t.items[r.lastItemId := it])
      && t.itemOutputs <= r.itemOutputs
      && (forall p :: p in r.itemOutputs && p !in t.itemOutputs ==> p.0 == r.lastItemId && r.lastItemId in r.items && r.lastItemId !in t.items)
      && (EdgesWithin(t) && it.guid !in GuidSet(t.items) ==>
            forall o :: (r.lastItemId, o) in r.itemOutputs <==> (inputId, o) in t.inputOutputs)
  {
    if it.guid !in GuidSet(t.items) {
      var id := t.lastItemId + 1;
      assert id !in t.items;
      var fan := FanOut(t.inputOutputs, inputId, id);
      if EdgesWithin(t) {
        forall o | (id, o) in t.itemOutputs
          ensures false
        {
        }
        assert fan !! t.itemOutputs;
      }
    }
  }

  /** Ingesting keeps the invariant and the edge bound. */
  lemma {:induction false} IngestAllConsistent(t: Tables, inputId: int, its: seq<FeedItem>)
    requires Consistent(t)
    ensures Consistent(IngestAll(t, inputId, its))
    ensures EdgesWithin(t) ==> EdgesWithin(IngestAll(t, inputId, its))
    ensures IngestAll(t, inputId, its).lastItemId >= t.lastItemId
  {
    if its != [] {
      IngestAllConsistent(t, inputId, its[..|its| - 1]);
      IngestOneConsistent(IngestAll(t, inputId, its[..|its| - 1]), inputId, its[|its| - 1]);
    }
  }

  lemma GuidsOfSnoc(its: seq<FeedItem>)
    requires its != []
    ensures GuidsOf(its) == GuidsOf(its[..|its| - 1]) + {its[|its| - 1].guid}
  {
    var init := its[..|its| - 1];
    assert forall i :: 0 <= i < |init| ==> init[i] == its[i];
  }

  /** After ingesting, the stored guids are the old ones plus those of the items. */
  lemma {:induction false} IngestAllGuids(t: Tables, inputId: int, its: seq<FeedItem>)
    requires Consistent(t)
    ensures GuidSet(IngestAll(t, inputId, its).items) == GuidSet(t.items) + GuidsOf(its)
  {
    if its != [] {
      var init := its[..|its| - 1];
      IngestAllGuids(t, inputId, init);
      IngestAllConsistent(t, inputId, init);
      IngestOneGuids(IngestAll(t, inputId, init), inputId, its[|its| - 1]);
      GuidsOfSnoc(its);
    }
  }

  /**
   * Ingesting never touches a stored item or edge; each item it adds has a fresh id
   * and a guid that was not stored, and new edges only name added items.
   */
  lemma {:induction false} IngestAllKeeps(t: Tables, inputId: int, its: seq<FeedItem>)
    requires Consistent(t)
    ensures var r := IngestAll(t, inputId, its);
      && (forall id :: id in t.items ==> id in r.items && r.items[id] == t.items[id])
      && t.itemOutputs <= r.itemOutputs
      && (forall id :: id in r.items && id !in t.items ==>
            t.lastItemId < id <= r.lastItemId && r.items[id].guid !in GuidSet(t.items))
      && (forall p :: p in r.itemOutputs && p !in t.itemOutputs ==> p.0 in r.items && p.0 !in t.items)
  {
    if its != [] {
      var init := its[..|its| - 1];
      var last := its[|its| - 1];
      IngestAllKeeps(t, inputId, init);
      IngestAllConsistent(t, inputId, init);
      var s := IngestAll(t, inputId, init);
      IngestOneItem(s, inputId, last);
      if last.guid !in GuidSet(s.items) {
        forall g | g in GuidSet(t.items)
          ensures g in GuidSet(s.items)
        {
          var j :| j in t.items && t.items[j].guid == g;
          assert s.items[j].guid == g;
        }
      }
    }
  }

  /** When no edge names a future id, each added item is visible exactly where its input is linked. */
  lemma {:induction false} IngestAllNewEdges(t: Tables, inputId: int, its: seq<FeedItem>)
    requires Consistent(t) && EdgesWithin(t)
    ensures var r := IngestAll(t, inputId, its);
      forall id, o :: id in r.items && id !in t.items ==>
        ((id, o) in r.itemOutputs <==> (inputId, o) in t.inputOutputs)
  {
    if its != [] {
      var init := its[..|its| - 1];
      var last := its[|its| - 1];
      IngestAllNewEdges(t, inputId, init);
      IngestAllConsistent(t, inputId, init);
      var s := IngestAll(t, inputId, init);
      IngestOneItem(s, inputId, last);
      var r := IngestOne(s, inputId, last);
      if last.guid !in GuidSet(s.items) {
        forall id, o | id in r.items && id !in t.items
          ensures (id, o) in r.itemOutputs <==> (inputId, o) in t.inputOutputs
        {
          if id != r.lastItemId {
            assert id in s.items;
            assert (id, o) in r.itemOutputs ==> (id, o) in s.itemOutputs;
          }
        }
      }
    }
  }

  /** Ingesting items whose guids are all stored changes nothing. */
  lemma {:induction false} IngestAllKnownGuids(t: Tables, inputId: int, its: seq<FeedItem>)
    requires GuidsOf(its) <= GuidSet(t.items)
    ensures IngestAll(t, inputId, its) == t
  {
    if its != [] {
      var init := its[..|its| - 1];
      assert GuidsOf(init) <= GuidsOf(its) by {
        assert forall i :: 0 <= i < |init| ==> init[i] == its[i];
      }
      IngestAllKnownGuids(t, inputId, init);
      assert its[|its| - 1].guid in GuidsOf(its);
    }
  }

  // ---- the whole fetch ----

  function EntryGuids(es: seq<RawEntry>, md5: string -> string): set<string> {
    set i | 0 <= i < |es| :: EntryGuid(es[i], md5)
  }

  lemma GuidsOfNormalized(es: seq<RawEntry>, inputId: int, md5: string -> string, now: DateTime)
    requires NormalizeAll(es, inputId, md5, now).Some?
    ensures GuidsOf(NormalizeAll(es, inputId, md5, now).value) == EntryGuids(es, md5)
  {
    var its := NormalizeAll(es, inputId, md5, now).value;
    NormalizeAllElements(es, inputId, md5, now);
    assert forall i :: 0 <= i < |es| ==> its[i].guid == EntryGuid(es[i], md5);
  }

  /**
   * The outcomes: a missing input raises, a normalisation failure returns False,
   * and neither leaves a trace; a successful fetch stamps `last_fetch` and changes
   * nothing outside the item tables and that one input.
   */
  lemma FetchOutcomes(t: Tables, inputId: int, es: seq<RawEntry>, md5: string -> string, now: DateTime)
    ensures var (o, r) := Fetch(t, inputId, es, md5, now);
      && (o == NoSuchInput <==> inputId !in t.inputs)
      && (o == Failed <==> inputId in t.inputs && exists i :: 0 <= i < |es| && Normalize(es[i], inputId, md5, now).None?)
      && (o != Fetched ==> r == t)
      && (o == Fetched ==>
            && r.inputs == t.inputs[inputId := t.inputs[inputId].(lastFetch := Some(now))]
            && r.(inputs := t.inputs, items := t.items, lastItemId := t.lastItemId, itemOutputs := t.itemOutputs) == t)
  {
    if inputId in t.inputs {
      if NormalizeAll(es, inputId, md5, now).Some? {
        NormalizeAllElements(es, inputId, md5, now);
      } else if forall i :: 0 <= i < |es| ==> Normalize(es[i], inputId, md5, now).Some? {
        NormalizeAllSucceeds(es, inputId, md5, now);
      }
    }
  }

  /** A fetch keeps the store's invariant and the edge bound. */
  lemma FetchConsistent(t: Tables, inputId: int, es: seq<RawEntry>, md5: string -> string, now: DateTime)
    requires Consistent(t)
    ensures Consistent(Fetch(t, inputId, es, md5, now).1)
    ensures EdgesWithin(t) ==> EdgesWithin(Fetch(t, inputId, es, md5, now).1)
  {
    if inputId in t.inputs && NormalizeAll(es, inputId, md5, now).Some? {
      IngestAllConsistent(t, inputId, NormalizeAll(es, inputId, md5, now).value);
    }
  }

  /** After a successful fetch every entry's guid is stored, and no other guid was added. */
  lemma FetchGuids(t: Tables, inputId: int, es: seq<RawEntry>, md5: string -> string, now: DateTime)
    requires Consistent(t)
    requires Fetch(t, inputId, es, md5, now).0 == Fetched
    ensures GuidSet(Fetch(t, inputId, es, md5, now).1.items) == GuidSet(t.items) + EntryGuids(es, md5)
  {
    IngestAllGuids(t, inputId, NormalizeAll(es, inputId, md5, now).value);
    GuidsOfNormalized(es, inputId, md5, now);
  }

  /**
   * A successful fetch leaves every stored item as it was, and each item it adds
   * comes from an entry, is new by guid, and is visible exactly on the outputs the
   * input is linked to (when no edge names a future item id).
   */
  lemma FetchNewItems(t: Tables, inputId: int, es: seq<RawEntry>, md5: string -> string, now: DateTime)
    requires Consistent(t)
    requires Fetch(t, inputId, es, md5, now).0 == Fetched
    ensures var r := Fetch(t, inputId, es, md5, now).1;
      && (forall id :: id in t.items ==> id in r.items && r.items[id] == t.items[id])
      && t.itemOutputs <= r.itemOutputs
      && (forall id :: id in r.items && id !in t.items ==>
            && r.items[id].inputId == Some(inputId) && r.items[id].createdAt == now
            && r.items[id].guid in EntryGuids(es, md5) && r.items[id].guid !in GuidSet(t.items))
      && (EdgesWithin(t) ==> forall id, o :: id in r.items && id !in t.items ==>
            ((id, o) in r.itemOutputs <==> (inputId, o) in t.inputOutputs))
  {
    var its := NormalizeAll(es, inputId, md5, now).value;
    IngestAllKeeps(t, inputId, its);
    if EdgesWithin(t) {
      IngestAllNewEdges(t, inputId, its);
    }
    IngestAllFrom(t, inputId, its);
    GuidsOfNormalized(es, inputId, md5, now);
    NormalizeAllElements(es, inputId, md5, now);
    var r := Fetch(t, inputId, es, md5, now).1;
    forall id | id in r.items && id !in t.items
      ensures r.items[id].inputId == Some(inputId) && r.items[id].createdAt == now
      ensures r.items[id].guid in EntryGuids(es, md5)
    {
      var i :| 0 <= i < |its| && r.items[id] == its[i];
      NormalizedFields(es[i], inputId, md5, now);
      assert its[i].guid in GuidsOf(its);
    }
  }

  /** Every item ingesting adds is one of the items ingested. */
  lemma {:induction false} IngestAllFrom(t: Tables, inputId: int, its: seq<FeedItem>)
    ensures var r := IngestAll(t, inputId, its);
      forall id :: id in r.items && id !in t.items ==> exists i :: 0 <= i < |its| && r.items[id] == its[i]
  {
    if its != [] {
      var init := its[..|its| - 1];
      IngestAllFrom(t, inputId, init);
      var s := IngestAll(t, inputId, init);
      var r := IngestOne(s, inputId, its[|its| - 1]);
      forall id | id in r.items && id !in t.items
        ensures exists i :: 0 <= i < |its| && r.items[id] == its[i]
      {
        if id in s.items && r.items[id] == s.items[id] {
          var i :| 0 <= i < |init| && s.items[id] == init[i];
          assert its[i] == init[i];
        } else {
          assert r.items[id] == its[|its| - 1];
        }
      }
    }
  }

  /**
   * Fetching the same entries again, at any later time, adds nothing: every guid is
   * already stored, so the second run only stamps `last_fetch`.
   */
  lemma FetchIdempotent(t: Tables, inputId: int, es: seq<RawEntry>, md5: string -> string, now: DateTime, later: DateTime)
    requires Consistent(t)
    requires Fetch(t, inputId, es, md5, now).0 == Fetched
    ensures var r := Fetch(t, inputId, es, md5, now).1;
      Fetch(r, inputId, es, md5, later) == (Fetched, r.(inputs := r.inputs[inputId := r.inputs[inputId].(lastFetch := Some(later))]))
  {
    var r := Fetch(t, inputId, es, md5, now).1;
    FetchGuids(t, inputId, es, md5, now);
    NormalizeAllIgnoresClock(es, inputId, md5, now, later);
    var its := NormalizeAll(es, inputId, md5, later).value;
    NormalizeAllElements(es, inputId, md5, later);
    assert GuidsOf(its) <= GuidSet(r.items) by {
      forall g | g in GuidsOf(its)
        ensures g in EntryGuids(es, md5)
      {
        var i :| 0 <= i < |its| && its[i].guid == g;
        assert its[i].guid == EntryGuid(es[i], md5);
      }
    }
    IngestAllKnownGuids(r, inputId, its);
  }
}
