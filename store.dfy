/**
 * The relational store the core runs over (database.py), as in-memory tables.
 * AUTOINCREMENT ids are counters holding the last id issued (SQLite's
 * sqlite_sequence); a failed INSERT issues no id. The store's invariant is its
 * UNIQUE constraints: users.username, outputs.slug, feed_items.guid, and the two
 * mapping tables unique per pair (sets of pairs here). Foreign keys are never
 * enforced (the connection never enables them), so mapping rows may name ids
 * that have no row; nothing here assumes referential integrity.
 */
module Store {
  import opened Wrappers
  import opened DateTimes
  import opened Slugs

  datatype User = User(username: string, createdAt: DateTime)

  /** A row of `passwords`: one stored hash of one of a user's passwords. */
  datatype PasswordRow = PasswordRow(userId: int, passwordHash: string)

  /** A row of `security_requirements`, keyed by user id. */
  datatype Requirements = Requirements(requiredPasswords: int, requiredPasskeys: int)

  /** A row of `inputs`: an external feed a user ingests from. */
  datatype Input = Input(userId: int, name: string, feedUrl: string, lastFetch: Option<DateTime>,
                         active: bool, createdAt: DateTime)

  /** A row of `outputs`: a published feed, served under its slug. */
  datatype Output = Output(userId: int, name: string, slug: string, description: Option<string>,
                           active: bool, createdAt: DateTime)

  /** A row of `feed_items`: an ingested entry (input id set) or a custom one (user id set). */
  datatype FeedItem = FeedItem(inputId: Option<int>, userId: Option<int>, guid: string, title: string,
                               link: Option<string>, description: Option<string>, content: Option<string>,
                               author: Option<string>, published: Option<DateTime>, isCustom: bool,
                               createdAt: DateTime)

  /** The title an item is given when it has none. */
  const NoTitle: string := "Kein Titel"

  /** Why an INSERT was refused: a UNIQUE constraint already held the value. */
  datatype StoreError = DuplicateUsername | DuplicateSlug | DuplicateGuid | DuplicateEdge

  /** The whole store as one value. */
  datatype Tables = Tables(
    users: map<int, User>, lastUserId: nat,
    passwords: seq<PasswordRow>,
    requirements: map<int, Requirements>,
    inputs: map<int, Input>, lastInputId: nat,
    outputs: map<int, Output>, lastOutputId: nat,
    inputOutputs: set<(int, int)>,
    items: map<int, FeedItem>, lastItemId: nat,
    itemOutputs: set<(int, int)>)

  function Usernames(users: map<int, User>): set<string> {
    set id | id in users :: users[id].username
  }

  function SlugSet(outputs: map<int, Output>): set<string> {
    set id | id in outputs :: outputs[id].slug
  }

  function GuidSet(items: map<int, FeedItem>): set<string> {
    set id | id in items :: items[id].guid
  }

  ghost predicate UniqueUsernames(users: map<int, User>) {
    forall a, b :: a in users && b in users && users[a].username == users[b].username ==> a == b
  }

  ghost predicate UniqueSlugs(outputs: map<int, Output>) {
    forall a, b :: a in outputs && b in outputs && outputs[a].slug == outputs[b].slug ==> a == b
  }

  ghost predicate UniqueGuids(items: map<int, FeedItem>) {
    forall a, b :: a in items && b in items && items[a].guid == items[b].guid ==> a == b
  }

  /** Every id of the table was issued by its AUTOINCREMENT counter. */
  ghost predicate IdsWithin<V>(m: map<int, V>, last: int) {
    forall id :: id in m ==> 1 <= id <= last
  }

  /** The store's invariant. */
  ghost predicate Consistent(t: Tables) {
    && UniqueUsernames(t.users)
    && UniqueSlugs(t.outputs)
    && UniqueGuids(t.items)
    && IdsWithin(t.users, t.lastUserId)
    && IdsWithin(t.inputs, t.lastInputId)
    && IdsWithin(t.outputs, t.lastOutputId)
    && IdsWithin(t.items, t.lastItemId)
    // Only `create_output` writes outputs, always under a slug `_create_slug` returned.
    && (forall o :: o in t.outputs ==> IsSlug(t.outputs[o].slug))
    // Only user registration writes these two tables, always for the user it creates.
    && (forall u :: u in t.requirements ==> u <= t.lastUserId)
    && (forall i :: 0 <= i < |t.passwords| ==> t.passwords[i].userId <= t.lastUserId)
  }

  const EmptyTables: Tables := Tables(map[], 0, [], map[], map[], 0, map[], 0, {}, map[], 0, {})

  /** The database: one mutable field per table. */
  class Database {
    var users: map<int, User>
    var lastUserId: nat
    var passwords: seq<PasswordRow>
    var requirements: map<int, Requirements>
    var inputs: map<int, Input>
    var lastInputId: nat
    var outputs: map<int, Output>
    var lastOutputId: nat
    var inputOutputs: set<(int, int)>
    var items: map<int, FeedItem>
    var lastItemId: nat
    var itemOutputs: set<(int, int)>

    function Snapshot(): Tables
      reads this
    {
      Tables(users, lastUserId, passwords, requirements, inputs, lastInputId, outputs, lastOutputId,
             inputOutputs, items, lastItemId, itemOutputs)
    }

    ghost predicate Valid()
      reads this
    {
      Consistent(Snapshot())
    }

    /** `init_db()`: all tables empty. */
    constructor ()
      ensures Snapshot() == EmptyTables
      ensures Valid()
    {
      users, lastUserId, passwords, requirements := map[], 0, [], map[];
      inputs, lastInputId, outputs, lastOutputId := map[], 0, map[], 0;
      inputOutputs, items, lastItemId, itemOutputs := {}, map[], 0, {};
    }
  }
}
