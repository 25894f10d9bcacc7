# DuckRSS core in Dafny

DuckRSS lets a user register with several passwords and collect external RSS
feeds ("inputs"). It republishes chosen items on the user's own feeds
("outputs"), each served under a slug. This project models the core of
`rss_manager.py` (`RSSManager`) and `auth.py` (`Auth`) over the SQLite store
created by `database.py`.

Modules:

- `Store`: the database is a class with one field per table. AUTOINCREMENT is
  modelled as a counter of the last id issued. The two mapping tables are sets of
  pairs. The store's invariant `Consistent` holds the UNIQUE constraints
  (`username`, `slug`, `guid`, and the mapping pairs) and says every id lies
  within its counter. Every stored slug has the shape `_create_slug` gives. Foreign keys are never enforced, so referential integrity is
  not assumed.
- `Slugs`: `_create_slug`. It is proved to always return a well-formed slug
  (`IsSlug`), to be idempotent, and to equal a reference definition: the words
  of the lower-cased name joined by single dashes, or `feed` when there are none.
- `DateTimes`: stored timestamps, Python's `datetime(*tuple[:6])`, and the
  `'%a, %d %b %Y %H:%M:%S +0000'` rendering. The rendering is proved to read back
  to the date it came from.
- `Ordering`: `ORDER BY … DESC LIMIT n`, given two ways:
  - a specification, `IsTopK`, which any tie order satisfies;
  - a stable insertion sort that is proved to meet it.
- `RssTree`: the element tree `_generate_rss_xml` builds, as a pure function.
  Lemmas say what a reader of the tree finds.
- `Ingestion`: `fetch_feed` as functions of the store, covering:
  - normalisation of a parsed entry;
  - the dedup-insert by guid;
  - the fan-out to linked outputs at insert time;
  - the all-or-nothing transaction.
- `RssManager`: the state-changing operations, as methods on `Database`. Each
  method is proved equal to its function or states its whole new state. Queries
  are functions of a snapshot.
- `Auth`: `create_user` (a method proved equal to `Register`) and `verify_user`.
  `verify_user` is a nested counting loop with `break`, proved equal to
  `VerifyOutcome`. bcrypt is a pair of functions; its one relied-on property,
  `Sound`, is a lemma hypothesis.

Behaviour of the code that the model keeps as written:

- A raise while normalising one entry fails the whole `fetch_feed` and rolls it
  back, because only the INSERTs are inside the per-entry `try`. The raising cases are an empty `content` list
  (`rss_manager.py:113`) and a time tuple that `datetime` rejects
  (`rss_manager.py:119`).
- If an entry's `id` key is present but empty, its guid is the md5 of its title
  (`rss_manager.py:106-108`). The `link` is never consulted in that case.
- `verify_user` counts a repeated presented password once per occurrence.
- When neither `id` nor `link` yields a guid, the fallback hashes the raw title.
  This is the title before the `Kein Titel` default, so it is md5 of `''` when
  the title is missing.

## Model

| member | source | states |
|---|---|---|
| Store.Database.constructor | database.py:20-145 | `init_db` yields empty tables with every counter at 0, and the store invariant holds |
| Slugs.ReplaceInvalid | rss_manager.py:249 | each character outside `[a-z0-9-]` becomes '-', everything else is kept in place, and the length is unchanged |
| Slugs.CollapseDashesCorrect | rss_manager.py:250 | after collapsing, no "--" remains, the letters and digits are unchanged and in order, and slug characters stay slug characters |
| Slugs.TrimLeadingCorrect | rss_manager.py:251 | stripping leading dashes leaves a suffix with the same letters and digits that does not start with '-' |
| Slugs.TrimTrailingCorrect | rss_manager.py:251 | stripping trailing dashes leaves a prefix with the same letters and digits that does not end with '-' |
| Slugs.CreateSlug | rss_manager.py:246-252 | every slug is non-empty, uses only `[a-z0-9-]`, has no "--" and no '-' at either end |
| Slugs.SlugKeepsLettersAndDigits | rss_manager.py:248-251 | every letter and digit of the lower-cased name survives, in order, and nothing else but single dashes is added |
| Slugs.SlugDefaultsToFeed | rss_manager.py:252 | a name with no letter or digit after lower-casing gets the slug `feed` |
| Slugs.SlugIsFixedPoint | rss_manager.py:246-252 | every well-formed slug is its own slug |
| Slugs.SlugIdempotent | rss_manager.py:246-252 | deriving a slug from a slug changes nothing |
| Slugs.LowerPointwise | rss_manager.py:248 | apart from U+0130 and the Kelvin sign, `lower()` maps a name character by character |
| Slugs.SlugCollisionExample | rss_manager.py:51 | "My Feed" and "my-feed" both map to `my-feed`, so they compete for one address |
| Slugs.Words | rss_manager.py:248-251 | the words of a string (its maximal runs of letters and digits) are never empty |
| Slugs.StripCollapseIsJoinedWords | rss_manager.py:250-251 | on `[a-z0-9-]` text, collapsing and stripping dashes joins the words with single dashes |
| Slugs.WordsOfReplaced | rss_manager.py:249 | replacing the invalid characters with '-' leaves the words unchanged |
| Slugs.CreateSlugIsJoinedWords | rss_manager.py:246-252 | the slug is the words of the lower-cased name joined by single dashes, or `feed` when there are none; this is an independent reference definition that fixes where every dash goes |
| DateTimes.FromTimeTuple | rss_manager.py:118-119 | `datetime(*t[:6])` only yields dates in Python's range (valid month, day within the month including leap years) carrying the tuple's date; a six-field tuple succeeds exactly when all six fields are in range, and is then taken as given; fewer than three fields raise |
| DateTimes.FormatDate | rss_manager.py:299-307 | formatting succeeds exactly for a datetime Python accepts |
| DateTimes.Rfc822RoundTrip | rss_manager.py:305 | every rendered date parses back to the date it came from |
| DateTimes.Rfc822Injective | rss_manager.py:269 | two different dates never render to the same text |
| DateTimes.Rfc822Example2024 | rss_manager.py:305 | 1 January 2024 at midnight renders as "Mon, 01 Jan 2024 00:00:00 +0000" |
| Ordering.KeyLeTotal | rss_manager.py:194 | any two sort keys are comparable |
| Ordering.KeyLeTransitive | rss_manager.py:194 | the sort-key order is transitive |
| Ordering.InsertPermutes | rss_manager.py:194 | inserting into the sorted prefix adds exactly one occurrence of the row |
| Ordering.InsertSorted | rss_manager.py:194 | inserting into a descending sequence keeps it descending |
| Ordering.SortDescCorrect | rss_manager.py:194 | the sort is a permutation of its input and descending by key |
| Ordering.TopKCorrect | rss_manager.py:194-195 | `ORDER BY … DESC LIMIT k` returns a sub-multiset of the rows of size min(k, n), descending, and no row left out outranks one returned |
| Ordering.TopKNoDuplicates | rss_manager.py:194-195 | drawing the answer from distinct rows yields distinct rows |
| Ordering.IdsWhere | rss_manager.py:191-193 | the filtered ids are exactly the issued ids satisfying the WHERE clause, in ascending rowid order |
| Ordering.TopKOfIds | rss_manager.py:190-196 | over distinct candidate ids, the answer holds only candidates, each once; it is descending, complete when below the limit, and no candidate left out outranks one returned |
| RssTree.Optional | rss_manager.py:279-293 | an optional element is either absent or exactly the given element |
| RssTree.PubDate | rss_manager.py:299-307 | the date group holds only `pubDate` elements |
| RssTree.ItemElements | rss_manager.py:272-273 | one `item` per row, in row order |
| RssTree.FirstWithTag | rss_manager.py:272-307 | the lookup returns an element with that tag from the list, and fails only when none has it |
| RssTree.EntriesOfDocument | rss_manager.py:261-307 | the channel's `item` children are exactly the items given, in the given order |
| RssTree.ChannelHeadFields | rss_manager.py:264-270 | the channel's title is the output name, its description is `''` when absent, its link is `http://localhost:5000/exit/<slug>.xml` and its generator is `DuckRSS` |
| RssTree.ChannelBuildDate | rss_manager.py:269 | `lastBuildDate` parses back to the clock reading |
| RssTree.ChannelHeader | rss_manager.py:260-270 | the channel's first five children are title, description, link, lastBuildDate (reading back as the clock) and generator, in that order, followed by one child per item |
| RssTree.ItemTagsDistinct | rss_manager.py:276-305 | the seven item tags differ from one another |
| RssTree.ItemPartTags | rss_manager.py:272-307 | each group of an item's children carries only its own tag |
| RssTree.GroupLookup | rss_manager.py:272-307 | in children built group by group with distinct tags, looking up a tag finds that tag's group |
| RssTree.ItemLookup | rss_manager.py:272-307 | looking up any of the item tags reads that tag's own element |
| RssTree.ItemTitle | rss_manager.py:276 | every item has a title, `Kein Titel` when the stored title is empty |
| RssTree.ItemLink | rss_manager.py:279-280 | a link appears exactly when the stored link is non-empty, and it is that link |
| RssTree.ItemDescription | rss_manager.py:283-284 | every item has a description, `''` when it is NULL |
| RssTree.ItemContent | rss_manager.py:287-289 | `content:encoded` appears exactly when the content is non-empty |
| RssTree.ItemAuthor | rss_manager.py:292-293 | an author appears exactly when it is non-empty |
| RssTree.ItemGuid | rss_manager.py:296 | every item carries its guid |
| RssTree.ItemPubDate | rss_manager.py:299-307 | `pubDate` appears exactly when the item has a date that converts, and it parses back to that date; a failing date is silently omitted |
| RssTree.RssDocumentWellFormed | rss_manager.py:255-307 | every document is well-formed RSS 2.0, whatever the items: it has one channel with a title, link and description, and every item has a title or a description |
| Ingestion.NormalizeAll | rss_manager.py:105-119 | when normalisation succeeds, it gives one item per entry |
| Ingestion.FanOut | rss_manager.py:130-133 | the new item gains an edge to an output exactly when its input is linked to that output, and no other edge |
| Ingestion.IngestOne | rss_manager.py:122-135 | one entry's INSERTs touch only the item tables |
| Ingestion.IngestAll | rss_manager.py:105-135 | the ingestion loop touches only the item tables |
| Ingestion.NormalizedFields | rss_manager.py:106-119 | the title is `Kein Titel` only when the key is absent; the description is `summary`, else `description`, else `''`; the content is the first content value, else the description; the author and link default to `''`; the date is set only when `published_parsed` is truthy |
| Ingestion.GuidRules | rss_manager.py:106-108 | the guid is `id` when present, else `link`, else empty; an empty result becomes md5 of the raw title (`''` when absent) |
| Ingestion.NormalizeFailure | rss_manager.py:113-119 | normalising raises exactly on an empty `content` list or a date tuple `datetime` rejects |
| Ingestion.NormalizeAllElements | rss_manager.py:105-119 | a successful normalisation is the per-entry normalisation, position by position |
| Ingestion.NormalizeAllFailsWithPrefix | rss_manager.py:142-144 | once one entry fails, the whole run fails, whatever follows |
| Ingestion.NormalizeAllSucceeds | rss_manager.py:105-119 | if every entry normalises, the run succeeds |
| Ingestion.NormalizeAllIgnoresClock | rss_manager.py:105-119 | whether normalisation fails, and every item's guid, does not depend on the clock |
| Ingestion.GuidSetInsert | database.py:117 | storing an item under a fresh id adds exactly its guid |
| Ingestion.IngestOneConsistent | rss_manager.py:122-135 | one entry's INSERTs keep guids unique, ids within the counter, and no edge naming a future item |
| Ingestion.IngestOneGuids | rss_manager.py:122-126 | after one entry, the stored guids are the old ones plus the entry's guid |
| Ingestion.IngestOneItem | rss_manager.py:122-135 | a stored guid changes nothing. A new guid is stored under the next id, and only that id gains edges: exactly one per output linked to the input when no edge names a not-yet-issued item id |
| Ingestion.IngestAllConsistent | rss_manager.py:105-135 | ingesting keeps the store invariant and the edge bound |
| Ingestion.IngestAllGuids | rss_manager.py:105-135 | after ingesting, the stored guids are the old ones plus those of the entries |
| Ingestion.IngestAllKeeps | rss_manager.py:105-135 | stored items and edges are untouched; each added item has a fresh id and a guid that was not stored before; new edges only name added items |
| Ingestion.IngestAllNewEdges | rss_manager.py:129-133 | each added item is visible on exactly the outputs its input was linked to at insert time, when no edge names a not-yet-issued item id |
| Ingestion.IngestAllKnownGuids | rss_manager.py:134-135 | entries whose guids are all stored change nothing |
| Ingestion.IngestAllFrom | rss_manager.py:122-127 | every added item is one of the items ingested |
| Ingestion.GuidsOfNormalized | rss_manager.py:106-108 | the normalised items carry exactly the entries' guids |
| Ingestion.FetchOutcomes | rss_manager.py:90-146 | `fetch_feed`: a missing input raises; a normalisation failure returns False; neither leaves a trace. Success stamps `last_fetch` on that input once and changes nothing outside it and the item tables |
| Ingestion.FetchConsistent | rss_manager.py:90-146 | a fetch keeps the store invariant |
| Ingestion.FetchGuids | rss_manager.py:122-140 | after a successful fetch, the stored guids are the old ones plus the entries' guids |
| Ingestion.FetchNewItems | rss_manager.py:105-140 | a successful fetch leaves stored items alone. Each added item belongs to the input, comes from an entry, is new by guid, and is visible exactly where the input is linked when no edge names a not-yet-issued item id |
| Ingestion.FetchIdempotent | rss_manager.py:90-140 | fetching the same entries again, at any time, adds no item or edge and only stamps `last_fetch` |
| RssManager.CreateInput | rss_manager.py:25-36 | the new input is active and never fetched, under the next id, and nothing else changes |
| RssManager.CreateOutput | rss_manager.py:49-62 | creation fails, leaving no trace, exactly when the derived slug is taken; otherwise the output is stored under the next id with that slug, and both are returned |
| RssManager.StoredSlugsUnique | database.py:90 | no two stored outputs share a slug, and every stored slug is well-formed |
| RssManager.LinkInputToOutput | rss_manager.py:75-87 | the pair is present afterwards; linking twice is absorbed; existing items gain no edges |
| RssManager.ShareItemToOutput | rss_manager.py:229-243 | returns True exactly when the pair was absent; afterwards the pair is present, and nothing else changes |
| RssManager.CustomItem | rss_manager.py:154-159 | a custom item is owned by the user, dated now, with the content as given and its first 200 characters as the description |
| RssManager.CustomEdges | rss_manager.py:164-168 | one edge from the item to each requested output |
| RssManager.InsertEdges | rss_manager.py:164-171 | the edge loop succeeds exactly when no requested pair is repeated or already present, and then adds exactly those edges; otherwise nothing persists |
| RssManager.CreateCustomItem | rss_manager.py:149-172 | a taken guid, or a repeated or present edge, raises before the commit and leaves no trace; otherwise the item is stored under the next id, visible on exactly the requested outputs |
| RssManager.InsertEntry | rss_manager.py:122-135 | one entry's guarded INSERTs equal `IngestOne` |
| RssManager.IngestEntries | rss_manager.py:105-139 | the loop succeeds exactly when every entry normalises, and then equals `IngestAll`; otherwise it is rolled back |
| RssManager.FetchFeed | rss_manager.py:90-146 | the method's outcome and new state are those of `Fetch`, and the store invariant is kept |
| RssManager.ItemKeyOrder | rss_manager.py:194 | in item order, undated items come last, dated items latest first, and equal dates by creation time |
| RssManager.RowsOf | rss_manager.py:198 | the rows for the selected ids, in the same order |
| RssManager.OutputIdBySlug | rss_manager.py:180-181 | the id found has an output with that slug |
| RssManager.OutputIdBySlugCorrect | rss_manager.py:180-185 | the lookup fails exactly for an unknown slug, and otherwise finds the one output with that slug |
| RssManager.OutputFeedIds | rss_manager.py:190-196 | the feed's ids are stored items |
| RssManager.OutputFeedCorrect | rss_manager.py:190-196 | at most 50 items, each with an edge to the output, each once; with fewer than 50, no visible item is left out |
| RssManager.OutputFeedSorted | rss_manager.py:194 | the feed is in item order |
| RssManager.OutputFeedOutranked | rss_manager.py:194-195 | no visible item left out by `LIMIT 50` ranks above one listed |
| RssManager.OutputFeedOrder | rss_manager.py:194 | the feed lists undated items last, dated ones latest first, and ties by creation time |
| RssManager.GetOutputFeedCorrect | rss_manager.py:175-201 | None exactly for an unknown slug; otherwise a well-formed document of that output, linking to its slug and listing its feed items in feed order, at most 50 |
| RssManager.AllItemIds | rss_manager.py:209-222 | the selected ids are stored items |
| RssManager.ItemRows | rss_manager.py:210-215 | each row is the stored item with its input's name, NULL for a custom item |
| RssManager.AllItemIdsCorrect | rss_manager.py:218-221 | at most 100 of the user's items (owned directly, or through one of the user's inputs), each once; with fewer than 100, none is left out |
| RssManager.AllItemIdsSorted | rss_manager.py:220 | the user's items come in item order |
| RssManager.AllItemIdsOutranked | rss_manager.py:220-221 | none of the user's items left out by `LIMIT 100` ranks above one listed |
| RssManager.AllItemsRows | rss_manager.py:209-226 | each row is the selected item with its input name, owned by the user; rows come in item order, at most 100 |
| RssManager.InputsOfCorrect | rss_manager.py:39-46 | `get_inputs` lists exactly the user's inputs, each once, newest first |
| RssManager.OutputsOfCorrect | rss_manager.py:65-72 | `get_outputs` lists exactly the user's outputs, each once, newest first |
| Auth.HashesOf | auth.py:82-83 | the query returns at most one hash per password row |
| Auth.HashesOfMembers | auth.py:82-83 | a hash is selected exactly when some password row of that user holds it |
| Auth.SecurityRequirements | auth.py:117-124 | the stored row when there is one, otherwise 1 password and 0 passkeys |
| Auth.UserIdByName | auth.py:64-65 | the id found belongs to a user with that name |
| Auth.CountVerified | auth.py:89-94 | `verified_count` never exceeds the number of presented passwords |
| Auth.VerifyUser | auth.py:58-104 | the nested loop with `break` returns exactly `VerifyOutcome` |
| Auth.UserIdByNameCorrect | auth.py:64-71 | the lookup fails exactly for an unknown name, and otherwise returns that user's unique id |
| Auth.UnknownUserFails | auth.py:64-69 | an unknown username never verifies |
| Auth.CheckSkipped | auth.py:81-104 | with no password presented or none required, the user is returned whatever the hashes |
| Auth.ShortListFails | auth.py:85-87 | a non-empty list shorter than the requirement fails |
| Auth.ThresholdDecides | auth.py:89-98 | on the checked path, the user passes exactly when at least `required_passwords` presented passwords match a stored hash |
| Auth.MissingRequirementsNeedOne | auth.py:77-78 | without a requirements row, the defaults are 1 password and 0 passkeys, so one matching password suffices |
| Auth.PasskeysIgnored | auth.py:100-104 | changing the passkey requirement never changes the outcome |
| Auth.CountPositive | auth.py:89-94 | the count is positive exactly when some presented password matches |
| Auth.CountOfMatching | auth.py:89-94 | a password counts once however many hashes it matches |
| Auth.RepeatedPasswordCounts | auth.py:89-94 | hashes are not used up: one correct password repeated k times counts k |
| Auth.CountPermutation | auth.py:89-94 | the count does not depend on the order of the presented passwords |
| Auth.OrderIrrelevant | auth.py:81-98 | the verification outcome does not depend on the order of the presented passwords |
| Auth.HashedRows | auth.py:40-47 | one row per password, in order, each holding the hash of that password |
| Auth.CreateUser | auth.py:24-55 | the method's outcome and new state are those of `Register`, and the store invariant is kept |
| Auth.RegisterConsistent | auth.py:29-55 | registration keeps the store invariant; a taken username raises and leaves the store unchanged |
| Auth.RegisteredHashes | auth.py:35-47 | a new user's stored hashes are exactly the hashes of the given passwords, one each, in order; the requirements are stored as given |
| Auth.RegisteredUserVerifies | auth.py:24-104 | with a sound hash, a new user presenting their passwords passes exactly when the check is skipped or enough passwords were given |

## Left out

- Web glue is not part of this model. That covers the Flask routes, sessions,
  templates and the browser script (`app.py`, `app.js`).
- The registration form's checks are not preconditions of `Auth.CreateUser`:
  - it collects at most ten passwords (`app.py:46-49`);
  - it rejects fewer passwords than required (`app.py:51`).
  `create_user` itself does neither, and the model follows it.
- `feedparser.parse` and its network fetch (`rss_manager.py:103`) are replaced by
  a parameter: the list of parsed entries. The branch for a missing `feedparser`
  module (`rss_manager.py:92-94`) is not modelled.
- The external effects are parameters:
  - bcrypt's `hashpw`/`checkpw` and the salt `gensalt` draws;
  - md5 of an entry title;
  - the md5 guid of a custom item;
  - the clock (`datetime.now()`, `CURRENT_TIMESTAMP`), read once per operation.
- `checkpw` raising on a malformed stored hash is not modelled. The check is a
  total boolean function.
- `Auth.get_user_by_id` (`auth.py:107-114`) is a plain lookup and is not modelled.
- `Auth.VerifyOutcome`: an absent password list (Python None) is treated as the
  empty list. Both skip the check identically.
- Query results are ids or typed rows rather than dictionaries of every column.
- The `output_names` column of `get_all_items` (`rss_manager.py:213`) is left
  out. Its `GROUP_CONCAT` order is undefined.
- The XML text is not modelled. Serialisation, minidom pretty-printing and the
  unformatted fallback (`rss_manager.py:310-316`) stay outside the element tree.
- Stored timestamps are a six-field record rather than text. A stored `published`
  value that `fromisoformat` rejects is represented as an out-of-range record.
- `DateTimes.Decimal` renders `%Y` without zero padding below year 1000, as the C
  library does. Padded years are not modelled.
- `Slugs.LowerChar` models `str.lower()` only for the characters that can affect
  a slug:
  - `A`–`Z`;
  - U+0130;
  - the Kelvin sign.
  Every other character becomes '-' in the next step whatever its lower case is.
- Ties in `ORDER BY` have no defined order in SQLite. `Ordering.IsTopK` admits
  every tie order. The functions pick one, a stable order by rowid.
- Logging through `print` is not modelled.
- A fan-out edge can already exist before its item does, because
  `share_item_to_output` accepts any item id. The fan-out statement then fails as
  a whole: the item gets none of its fan-out edges and keeps only the
  pre-existing edges that name its id. `Ingestion.IngestOneItem` models
  this. Exact fan-out is stated under `EdgesWithin`, the hypothesis that no edge
  names an item id not yet issued.
