/**
 * The RSS 2.0 document `RSSManager._generate_rss_xml` builds for an output, as an
 * element tree (tag, attributes, text, children) before it is serialised. Full item
 * content goes in the `encoded` element of the RSS 1.0 Content module, written in
 * ElementTree's `{namespace}local` notation. Which elements appear, with what text
 * and in what order is decided here; the XML text itself is not modelled.
 */
module RssTree {
  import opened Wrappers
  import opened DateTimes
  import opened Store

  datatype Element = Element(tag: string, attributes: seq<(string, string)>, text: Option<string>,
                             children: seq<Element>)

  const ContentNamespace: string := "http://purl.org/rss/1.0/modules/content/"
  const ContentEncoded: string := "{" + ContentNamespace + "}encoded"
  const Generator: string := "DuckRSS"
  const FeedBase: string := "http://localhost:5000/exit/"

  function Leaf(tag: string, text: string): Element {
    Element(tag, [], Some(text), [])
  }

  /** Python truthiness of a nullable text column: present and not empty. */
  predicate Truthy(s: Option<string>) {
    s.Some? && s.value != ""
  }

  /** `value or ''` */
  function OrEmpty(s: Option<string>): string {
    if Truthy(s) then s.value else ""
  }

  /** The public address of an output's feed. */
  function FeedLink(slug: string): string {
    FeedBase + slug + ".xml"
  }

  function Optional(present: bool, e: Element): (r: seq<Element>)
    ensures forall x :: x in r ==> x == e
  {
    if present then [e] else []
  }

  /** `pubDate`, omitted without failing when the stored date does not convert. */
  function PubDate(published: Option<DateTime>): (r: seq<Element>)
    ensures forall x :: x in r ==> x.tag == "pubDate"
  {
    match published
    case None => []
    case Some(d) =>
      match FormatDate(d)
      case None => []
      case Some(text) => [Leaf("pubDate", text)]
  }

  /** The tags of an item's children, in the order they are appended. */
  const ItemTags: seq<string> := ["title", "link", "description", ContentEncoded, "author", "guid", "pubDate"]

  /** An item's children in seven groups, one per entry of `ItemTags`; an optional element's group may be empty. */
  function ItemParts(it: FeedItem): seq<seq<Element>> {
    [ [Leaf("title", if it.title != "" then it.title else NoTitle)],
      Optional(Truthy(it.link), Leaf("link", OrEmpty(it.link))),
      [Leaf("description", OrEmpty(it.description))],
      Optional(Truthy(it.content), Leaf(ContentEncoded, OrEmpty(it.content))),
      Optional(Truthy(it.author), Leaf("author", OrEmpty(it.author))),
      [Leaf("guid", it.guid)],
      PubDate(it.published) ]
  }

  function Concat(parts: seq<seq<Element>>): seq<Element> {
    if parts == [] then [] else parts[0] + Concat(parts[1..])
  }

  /** One `item` element. */
  function ItemElement(it: FeedItem): Element {
    Element("item", [], None, Concat(ItemParts(it)))
  }

  function ItemElements(items: seq<FeedItem>): (r: seq<Element>)
    ensures |r| == |items|
    ensures forall i :: 0 <= i < |items| ==> r[i] == ItemElement(items[i])
  {
    if items == [] then [] else [ItemElement(items[0])] + ItemElements(items[1..])
  }

  /** The channel's own elements, before its items. */
  function ChannelHead(output: Output, now: DateTime): seq<Element>
    requires IsValid(now)
  {
    [ Leaf("title", output.name),
      Leaf("description", OrEmpty(output.description)),
      Leaf("link", FeedLink(output.slug)),
      Leaf("lastBuildDate", Rfc822(now)),
      Leaf("generator", Generator) ]
  }

  /** The whole document for an output and its (already ordered and truncated) items. */
  function RssDocument(output: Output, items: seq<FeedItem>, now: DateTime): Element
    requires IsValid(now)
  {
    Element("rss", [("version", "2.0")], None,
      [Element("channel", [], None, ChannelHead(output, now) + ItemElements(items))])
  }

  // ---- reading a document back, as a feed reader does ----

  /** The first child with the given tag. */
  function Child(e: Element, tag: string): (r: Option<Element>)
    ensures r.Some? ==> r.value in e.children && r.value.tag == tag
  {
    FirstWithTag(e.children, tag)
  }

  function FirstWithTag(es: seq<Element>, tag: string): (r: Option<Element>)
    ensures r.Some? ==> r.value in es && r.value.tag == tag
    ensures r.None? ==> forall i :: 0 <= i < |es| ==> es[i].tag != tag
  {
    if es == [] then None
    else if es[0].tag == tag then Some(es[0])
    else FirstWithTag(es[1..], tag)
  }

  /** The text of the first child with the given tag. */
  function ChildText(e: Element, tag: string): Option<string> {
    match Child(e, tag)
    case None => None
    case Some(c) => c.text
  }

  /** The `item` children of the document's channel. */
  function Entries(doc: Element): seq<Element> {
    match Child(doc, "channel")
    case None => []
    case Some(channel) => ItemsOf(channel.children)
  }

  function ItemsOf(es: seq<Element>): seq<Element> {
    if es == [] then [] else (if es[0].tag == "item" then [es[0]] else []) + ItemsOf(es[1..])
  }

  /**
   * What RSS 2.0 demands of a document: an `rss` root with version 2.0 holding one
   * `channel`, which has `title`, `link` and `description`; every item has a title or
   * a description.
   */
  ghost predicate WellFormedRss(doc: Element) {
    && doc.tag == "rss"
    && ("version", "2.0") in doc.attributes
    && |doc.children| == 1
    && doc.children[0].tag == "channel"
    && var channel := doc.children[0];
      && Child(channel, "title").Some?
      && Child(channel, "link").Some?
      && Child(channel, "description").Some?
      && forall i :: 0 <= i < |channel.children| && channel.children[i].tag == "item" ==>
           Child(channel.children[i], "title").Some? || Child(channel.children[i], "description").Some?
  }

  // ---- properties ----

  lemma {:induction false} ItemsOfItemElements(items: seq<FeedItem>)
    ensures ItemsOf(ItemElements(items)) == ItemElements(items)
  {
    if items != [] {
      ItemsOfItemElements(items[1..]);
      assert ItemElements(items)[1..] == ItemElements(items[1..]);
    }
  }

  lemma {:induction false} ItemsOfAppend(a: seq<Element>, b: seq<Element>)
    requires forall i :: 0 <= i < |a| ==> a[i].tag != "item"
    ensures ItemsOf(a + b) == ItemsOf(b)
  {
    if a == [] {
      assert a + b == b;
    } else {
      assert (a + b)[1..] == a[1..] + b;
      ItemsOfAppend(a[1..], b);
    }
  }

  lemma {:induction false} FirstWithTagAppend(a: seq<Element>, b: seq<Element>, tag: string)
    requires forall i :: 0 <= i < |a| ==> a[i].tag != tag
    ensures FirstWithTag(a + b, tag) == FirstWithTag(b, tag)
  {
    if a == [] {
      assert a + b == b;
    } else {
      assert (a + b)[1..] == a[1..] + b;
      FirstWithTagAppend(a[1..], b, tag);
    }
  }

  /** The document lists exactly the given items, in the given order. */
  lemma EntriesOfDocument(output: Output, items: seq<FeedItem>, now: DateTime)
    requires IsValid(now)
    ensures Entries(RssDocument(output, items, now)) == ItemElements(items)
    ensures |Entries(RssDocument(output, items, now))| == |items|
  {
    ItemsOfAppend(ChannelHead(output, now), ItemElements(items));
    ItemsOfItemElements(items);
  }

  /** The channel's own elements and their texts. */
  lemma ChannelHeadFields(output: Output, now: DateTime)
    requires IsValid(now)
    ensures var head := ChannelHead(output, now);
      && |head| == 5
      && head[0] == Leaf("title", output.name)
      && head[1] == Leaf("description", if Truthy(output.description) then output.description.value else "")
      && head[2] == Leaf("link", "http://localhost:5000/exit/" + output.slug + ".xml")
      && head[4] == Leaf("generator", "DuckRSS")
  {
  }

  /** The channel's build date reads back as the clock reading. */
  lemma ChannelBuildDate(output: Output, now: DateTime)
    requires IsValid(now)
    ensures var head := ChannelHead(output, now);
      && head[3].tag == "lastBuildDate"
      && ParseRfc822(head[3].text.value) == Some(now)
  {
    Rfc822RoundTrip(now);
  }

  /** The channel header: its first five children in order, and their texts. */
  lemma ChannelHeader(output: Output, items: seq<FeedItem>, now: DateTime)
    requires IsValid(now)
    ensures var channel := RssDocument(output, items, now).children[0];
      && |channel.children| == 5 + |items|
      && channel.children[0] == Leaf("title", output.name)
      && channel.children[1] == Leaf("description", if Truthy(output.description) then output.description.value else "")
      && channel.children[2] == Leaf("link", "http://localhost:5000/exit/" + output.slug + ".xml")
      && channel.children[3].tag == "lastBuildDate"
      && ParseRfc822(channel.children[3].text.value) == Some(now)
      && channel.children[4] == Leaf("generator", "DuckRSS")
  {
    var head := ChannelHead(output, now);
    ChannelHeadFields(output, now);
    ChannelBuildDate(output, now);
    var children := head + ItemElements(items);
    assert RssDocument(output, items, now).children[0].children == children;
    assert children[..5] == head;
  }

  /** The seven item tags differ from one another (already in their first characters). */
  lemma ItemTagsDistinct()
    ensures |ItemTags| == 7
    ensures forall j, k :: 0 <= j < 7 && 0 <= k < 7 && j != k ==> ItemTags[j] != ItemTags[k]
  {
    var firsts := "tld{agp";
    assert ContentEncoded[0] == '{';
    assert forall j :: 0 <= j < 7 ==> |ItemTags[j]| > 0 && ItemTags[j][0] == firsts[j];
  }

  /** Each group holds only elements with its own tag. */
  lemma ItemPartTags(it: FeedItem)
    ensures |ItemParts(it)| == 7
    ensures forall j, e :: 0 <= j < 7 && e in ItemParts(it)[j] ==> e.tag == ItemTags[j]
  {
    var parts := ItemParts(it);
    forall j, e: Element | 0 <= j < 7 && e in parts[j]
      ensures e.tag == ItemTags[j]
    {
    }
  }

  lemma {:induction false} FirstWithTagSplit(a: seq<Element>, b: seq<Element>, tag: string)
    ensures FirstWithTag(a + b, tag) == if FirstWithTag(a, tag).Some? then FirstWithTag(a, tag) else FirstWithTag(b, tag)
  {
    if a == [] {
      assert a + b == b;
    } else {
      assert (a + b)[1..] == a[1..] + b;
      FirstWithTagSplit(a[1..], b, tag);
    }
  }

  lemma {:induction false} ConcatWithout(parts: seq<seq<Element>>, tag: string)
    requires forall j, e :: 0 <= j < |parts| && e in parts[j] ==> e.tag != tag
    ensures FirstWithTag(Concat(parts), tag) == None
  {
    if parts != [] {
      ConcatWithout(parts[1..], tag);
      FirstWithTagSplit(parts[0], Concat(parts[1..]), tag);
      assert forall i :: 0 <= i < |parts[0]| ==> parts[0][i] in parts[0];
    }
  }

  /** In a concatenation of groups, a tag that only group k carries is looked up in group k. */
  lemma {:induction false} FirstWithTagConcat(parts: seq<seq<Element>>, k: nat, tag: string)
    requires k < |parts|
    requires forall j, e :: 0 <= j < |parts| && j != k && e in parts[j] ==> e.tag != tag
    ensures FirstWithTag(Concat(parts), tag) == FirstWithTag(parts[k], tag)
  {
    FirstWithTagSplit(parts[0], Concat(parts[1..]), tag);
    if k == 0 {
      ConcatWithout(parts[1..], tag);
    } else {
      assert forall i :: 0 <= i < |parts[0]| ==> parts[0][i] in parts[0];
      FirstWithTagConcat(parts[1..], k - 1, tag);
    }
  }

  /** Groups tagged by a table of distinct tags: looking up the tag of group k finds group k's element. */
  lemma GroupLookup(parts: seq<seq<Element>>, tags: seq<string>, k: nat)
    requires |parts| == |tags| && k < |parts|
    requires forall j, e :: 0 <= j < |parts| && e in parts[j] ==> e.tag == tags[j]
    requires forall j :: 0 <= j < |tags| && j != k ==> tags[j] != tags[k]
    ensures FirstWithTag(Concat(parts), tags[k]) == FirstWithTag(parts[k], tags[k])
  {
    FirstWithTagConcat(parts, k, tags[k]);
  }

  /** A reader looking for one of the item tags finds that tag's group. */
  lemma ItemLookup(it: FeedItem, k: nat)
    requires k < 7
    ensures ChildText(ItemElement(it), ItemTags[k]) ==
      match FirstWithTag(ItemParts(it)[k], ItemTags[k]) case None => None case Some(e) => e.text
  {
    var parts := ItemParts(it);
    ItemPartTags(it);
    ItemTagsDistinct();
    GroupLookup(parts, ItemTags, k);
    assert ItemElement(it).children == Concat(parts);
  }

  /** A reader finds a title on every item, never empty. */
  lemma ItemTitle(it: FeedItem)
    ensures ChildText(ItemElement(it), "title") == Some(if it.title == "" then "Kein Titel" else it.title)
  {
    ItemLookup(it, 0);
  }

  /** A link appears exactly when the item has a non-empty one. */
  lemma ItemLink(it: FeedItem)
    ensures ChildText(ItemElement(it), "link") == (if Truthy(it.link) then it.link else None)
  {
    ItemLookup(it, 1);
  }

  /** A reader finds the description of every item, empty when the item has none. */
  lemma ItemDescription(it: FeedItem)
    ensures ChildText(ItemElement(it), "description") == Some(if it.description.Some? then it.description.value else "")
  {
    ItemLookup(it, 2);
  }

  /** Full content appears exactly when the item has non-empty content. */
  lemma ItemContent(it: FeedItem)
    ensures ChildText(ItemElement(it), ContentEncoded) == (if Truthy(it.content) then it.content else None)
  {
    ItemLookup(it, 3);
  }

  /** An author appears exactly when the item has a non-empty one. */
  lemma ItemAuthor(it: FeedItem)
    ensures ChildText(ItemElement(it), "author") == (if Truthy(it.author) then it.author else None)
  {
    ItemLookup(it, 4);
  }

  /** A reader finds the guid of every item. */
  lemma ItemGuid(it: FeedItem)
    ensures ChildText(ItemElement(it), "guid") == Some(it.guid)
  {
    ItemLookup(it, 5);
  }

  /** pubDate appears exactly when the item has a date that converts, and reads back as that date. */
  lemma ItemPubDate(it: FeedItem)
    ensures ChildText(ItemElement(it), "pubDate").Some? <==> it.published.Some? && IsValid(it.published.value)
    ensures ChildText(ItemElement(it), "pubDate").Some? ==>
              ParseRfc822(ChildText(ItemElement(it), "pubDate").value) == it.published
  {
    ItemLookup(it, 6);
    if it.published.Some? && IsValid(it.published.value) {
      Rfc822RoundTrip(it.published.value);
    }
  }

  /** Every document built here is a well-formed RSS 2.0 document, whatever the items. */
  lemma RssDocumentWellFormed(output: Output, items: seq<FeedItem>, now: DateTime)
    requires IsValid(now)
    ensures WellFormedRss(RssDocument(output, items, now))
  {
    var head := ChannelHead(output, now);
    var channel := RssDocument(output, items, now).children[0];
    assert channel.children == head + ItemElements(items);
    assert channel.children[0] == head[0];
    assert FirstWithTag(channel.children[2..], "link").Some?;
    assert FirstWithTag(channel.children[1..], "description").Some?;
    forall i | 0 <= i < |channel.children| && channel.children[i].tag == "item"
      ensures Child(channel.children[i], "title").Some?
    {
      assert channel.children[i] == ItemElement(items[i - 5]);
      ItemTitle(items[i - 5]);
    }
  }
}
