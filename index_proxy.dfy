/// The index side of the vector-store proxy
/// (SearchIndexVectorStoreProxyAgentResource): when the agent deletes
/// chunks by filter, the proxy first removes the search-index rows of every
/// content id the filter names, then hands the call to the real store.
module VectorStoreProxy {
  import opened Text
  import opened PhpValues
  import opened IndexTables
  import opened FullTextIndexing

  /** The filter key the proxy reads. */
  const FilterContentUuid: string := "content_uuid"

  type DeleteFilter = map<string, MetaValue>

  // ---------------------------------------------------------------------
  // extractContentUuidsFromFilter()
  // ---------------------------------------------------------------------

  /** The id one array entry contributes: strtoupper(trim($v)) for a string
      that then has 32 hexadecimal digits. */
  function EntryId(v: MetaValue): (id: Option<ContentId>)
    ensures id.Some? ==> IsCanonicalId(id.value)
  {
    if v.Str? && IsHex32(CanonicalHex(v.s)) then Some(CanonicalHex(v.s)) else None
  }

  /** The ids the filter names: one for a string value, the valid entries
      of an array without repetitions, none for anything else. */
  function ContentUuids(filter: DeleteFilter): seq<ContentId> {
    var value := Lookup(filter, FilterContentUuid);
    if value.Str? then
      if IsHex32(CanonicalHex(value.s)) then [CanonicalHex(value.s)] else []
    else if value.List? then Unique(SomeList(value.items, EntryId))
    else []
  }

  /** Every extracted id is 32 upper-case hexadecimal digits, and no id
      comes twice. */
  lemma ContentUuidsCanonical(filter: DeleteFilter)
    ensures Distinct(ContentUuids(filter))
    ensures forall k :: 0 <= k < |ContentUuids(filter)| ==> IsCanonicalId(ContentUuids(filter)[k])
  {
    var value := Lookup(filter, FilterContentUuid);
    if value.List? {
      var all := SomeList(value.items, EntryId);
      forall k | 0 <= k < |ContentUuids(filter)| ensures IsCanonicalId(ContentUuids(filter)[k]) {
        var id := ContentUuids(filter)[k];
        assert id in all;
        SomeListMembers(value.items, EntryId, id);
      }
    }
  }

  /** An array value names exactly the ids some string entry spells, with
      any surrounding white space and in either case. */
  lemma ContentUuidsOfList(filter: DeleteFilter, id: ContentId)
    requires Lookup(filter, FilterContentUuid).List?
    ensures var items := Lookup(filter, FilterContentUuid).items;
      id in ContentUuids(filter) <==>
        exists k :: 0 <= k < |items| && items[k].Str? && IsHex32(CanonicalHex(items[k].s)) && CanonicalHex(items[k].s) == id
  {
    SomeListMembers(Lookup(filter, FilterContentUuid).items, EntryId, id);
  }

  /** A string value names its canonical form when that has 32 hexadecimal
      digits; a missing key or any other value names nothing. */
  lemma ContentUuidsOfScalar(filter: DeleteFilter)
    ensures var value := Lookup(filter, FilterContentUuid);
      && (value.Str? && IsHex32(CanonicalHex(value.s)) ==> ContentUuids(filter) == [CanonicalHex(value.s)])
      && (value.Str? && !IsHex32(CanonicalHex(value.s)) ==> ContentUuids(filter) == [])
      && (!value.Str? && !value.List? ==> ContentUuids(filter) == [])
      && (FilterContentUuid !in filter ==> ContentUuids(filter) == [])
  {
  }

  /** An array keeps its ids in the order of their first occurrence. */
  lemma ContentUuidsOrder(filter: DeleteFilter, i: nat, j: nat)
    requires Lookup(filter, FilterContentUuid).List?
    requires i < j < |ContentUuids(filter)|
    ensures var all := SomeList(Lookup(filter, FilterContentUuid).items, EntryId);
      FirstIndex(all, ContentUuids(filter)[i]) < FirstIndex(all, ContentUuids(filter)[j])
  {
    UniqueFirstOccurrenceOrder(SomeList(Lookup(filter, FilterContentUuid).items, EntryId));
  }

  /** extractContentUuidsFromFilter() */
  method ExtractContentUuidsFromFilter(filter: DeleteFilter) returns (ids: seq<ContentId>)
    ensures ids == ContentUuids(filter)
  {
    var value := Lookup(filter, FilterContentUuid);
    if value.Str? {
      var hex := CanonicalHex(value.s);
      return if IsHex32(hex) then [hex] else [];
    }
    if value.List? {
      var out: seq<ContentId> := [];
      for i := 0 to |value.items|
        invariant out == SomeList(value.items[..i], EntryId)
      {
        SomeListStep(value.items, EntryId, i);
        var v := value.items[i];
        if !v.Str? {
          continue;
        }
        var hex := CanonicalHex(v.s);
        if IsHex32(hex) {
          out := out + [hex];
        }
      }
      assert value.items[..|value.items|] == value.items;
      return Unique(out);
    }
    return [];
  }

  // ---------------------------------------------------------------------
  // deleteIndexByContentUuidHex()
  // ---------------------------------------------------------------------

  /** The three index tables together. */
  datatype Tables = Tables(tokens: set<(ContentId, int)>, links: map<ContentId, string>, roles: set<(ContentId, int)>)

  /** The number of DELETE statements (of three) that run before one throws;
      three when none throws. */
  const AllDeletes: nat := 3

  /** The rows UNHEX() addresses: the upper-case spelling of the digits,
      since UNHEX reads a hexadecimal digit in either case. */
  function RowKey(uuidHex: string): ContentId {
    AsciiUpperStr(uuidHex)
  }

  /** What deleteIndexByContentUuidHex() leaves: nothing changes for an
      argument that is not 32 hexadecimal digits or without a connection;
      otherwise the token, link and role rows of the id go, in that order,
      until a statement throws. The exception is swallowed. */
  function DeleteIndex(t: Tables, uuidHex: string, connected: bool, succeeded: nat): Tables {
    if !IsHex32(uuidHex) || !connected then t
    else
      var id := RowKey(uuidHex);
      Tables(
        if succeeded >= 1 then WithoutId(t.tokens, id) else t.tokens,
        if succeeded >= 2 then t.links - {id} else t.links,
        if succeeded >= 3 then WithoutId(t.roles, id) else t.roles)
  }

  /** After a delete that does not throw, the id has no token, link or role
      rows left, and every other id keeps its rows. */
  lemma DeleteIndexRemovesOnlyId(t: Tables, uuidHex: string, other: ContentId)
    requires IsHex32(uuidHex) && other != RowKey(uuidHex)
    ensures var after := DeleteIndex(t, uuidHex, true, AllDeletes);
      && ValuesOf(after.tokens, RowKey(uuidHex)) == {}
      && RowKey(uuidHex) !in after.links
      && ValuesOf(after.roles, RowKey(uuidHex)) == {}
      && ValuesOf(after.tokens, other) == ValuesOf(t.tokens, other)
      && (other in t.links <==> other in after.links)
      && (other in t.links ==> after.links[other] == t.links[other])
      && ValuesOf(after.roles, other) == ValuesOf(t.roles, other)
  {
    WithoutIdValues(t.tokens, RowKey(uuidHex), other);
    WithoutIdValues(t.roles, RowKey(uuidHex), other);
  }

  /** The id addressed by a valid argument is canonical, and a canonical id
      addresses itself. */
  lemma RowKeyCanonical(uuidHex: string)
    requires IsHex32(uuidHex)
    ensures IsCanonicalId(RowKey(uuidHex))
    ensures IsCanonicalId(uuidHex) ==> RowKey(uuidHex) == uuidHex
  {
  }

  /** Deleting an id again changes nothing, however the second run ends. */
  lemma DeleteIndexIdempotent(t: Tables, uuidHex: string, connected: bool, succeeded: nat)
    ensures var once := DeleteIndex(t, uuidHex, connected, AllDeletes);
      DeleteIndex(once, uuidHex, connected, succeeded) == once
  {
    if IsHex32(uuidHex) && connected {
      WithoutIdIdempotent(t.tokens, RowKey(uuidHex));
      WithoutIdIdempotent(t.roles, RowKey(uuidHex));
    }
  }

  /** Deleting an id that has no rows changes nothing. */
  lemma DeleteAbsentIndex(t: Tables, uuidHex: string, connected: bool, succeeded: nat)
    requires ValuesOf(t.tokens, RowKey(uuidHex)) == {} && RowKey(uuidHex) !in t.links
    requires ValuesOf(t.roles, RowKey(uuidHex)) == {}
    ensures DeleteIndex(t, uuidHex, connected, succeeded) == t
  {
    WithoutIdIdempotent(t.tokens, RowKey(uuidHex));
    WithoutIdIdempotent(t.roles, RowKey(uuidHex));
  }

  /** The deletes of every extracted id, in order; `succeeded(id)` is how
      many of the id's three statements run before one throws. */
  function DeleteAll(t: Tables, ids: seq<ContentId>, connected: bool, succeeded: ContentId -> nat): Tables
    decreases |ids|
  {
    if ids == [] then t
    else
      var last := ids[|ids| - 1];
      DeleteIndex(DeleteAll(t, ids[..|ids| - 1], connected, succeeded), last, connected, succeeded(last))
  }

  /** After the deletes of a list of canonical ids that all ran through,
      no listed id has rows left, and every unlisted id keeps its rows. */
  lemma {:induction false} DeleteAllRemovesListed(t: Tables, ids: seq<ContentId>, succeeded: ContentId -> nat, other: ContentId)
    requires forall k :: 0 <= k < |ids| ==> IsCanonicalId(ids[k]) && succeeded(ids[k]) >= AllDeletes
    ensures var after := DeleteAll(t, ids, true, succeeded);
      && (other in ids ==>
            ValuesOf(after.tokens, other) == {} && other !in after.links && ValuesOf(after.roles, other) == {})
      && (other !in ids ==>
            && ValuesOf(after.tokens, other) == ValuesOf(t.tokens, other)
            && (other in after.links <==> other in t.links)
            && (other in t.links ==> after.links[other] == t.links[other])
            && ValuesOf(after.roles, other) == ValuesOf(t.roles, other))
    decreases |ids|
  {
    if ids != [] {
      var init := ids[..|ids| - 1];
      var last := ids[|ids| - 1];
      var before := DeleteAll(t, init, true, succeeded);
      DeleteAllRemovesListed(t, init, succeeded, other);
      RowKeyCanonical(last);
      if other == last {
        assert RowKey(last) == other;
        WithoutIdValues(before.tokens, other, other);
        WithoutIdValues(before.roles, other, other);
      } else {
        DeleteIndexRemovesOnlyId(before, last, other);
        assert other in ids <==> other in init;
      }
    }
  }

  // ---------------------------------------------------------------------
  // The proxy object
  // ---------------------------------------------------------------------

  class SearchIndexProxy {
    var tablesReady: bool
    const db: IndexDatabase

    constructor (db: IndexDatabase)
      ensures this.db == db && !tablesReady
    {
      this.db := db;
      tablesReady := false;
    }

    /** ensureTables(): the CREATE TABLE statements are not modelled; the
        flag is set once a connection has been made. */
    method EnsureTables(connected: bool)
      modifies this`tablesReady
      ensures tablesReady == (old(tablesReady) || connected)
    {
      if tablesReady {
        return;
      }
      if !connected {
        return;
      }
      tablesReady := true;
    }

    /** deleteIndexByContentUuidHex(): `succeeded` is how many of the three
        DELETE statements the database runs before one throws. */
    method DeleteIndexByContentUuidHex(uuidHex: string, connected: bool, succeeded: nat)
      modifies db
      ensures Tables(db.tokens, db.links, db.roles)
        == DeleteIndex(old(Tables(db.tokens, db.links, db.roles)), uuidHex, connected, succeeded)
    {
      if !IsHex32(uuidHex) {
        return;
      }
      if !connected {
        return;
      }
      var id := AsciiUpperStr(uuidHex);
      // try { ... } catch (\Throwable $e) { log }
      if succeeded < 1 {
        return;
      }
      db.DeleteTokens(id);
      if succeeded < 2 {
        return;
      }
      db.DeleteLink(id);
      if succeeded < 3 {
        return;
      }
      db.DeleteRoles(id);
    }

    /** deleteByFilter(), index side: the tables are made ready, the index
        rows of every extracted id are deleted, and the real store's count
        (`storeCount`) is returned unchanged. */
    method DeleteByFilter(filter: DeleteFilter, connected: bool, succeeded: ContentId -> nat, storeCount: int)
      returns (count: int)
      modifies this`tablesReady, db
      ensures count == storeCount
      ensures tablesReady == (old(tablesReady) || connected)
      ensures Tables(db.tokens, db.links, db.roles)
        == DeleteAll(old(Tables(db.tokens, db.links, db.roles)), ContentUuids(filter), connected, succeeded)
    {
      EnsureTables(connected);
      var uuids := ExtractContentUuidsFromFilter(filter);
      ghost var start := Tables(db.tokens, db.links, db.roles);
      for i := 0 to |uuids|
        invariant Tables(db.tokens, db.links, db.roles) == DeleteAll(start, uuids[..i], connected, succeeded)
        invariant tablesReady == (old(tablesReady) || connected)
      {
        assert uuids[..i + 1][..i] == uuids[..i];
        DeleteIndexByContentUuidHex(uuids[i], connected, succeeded(uuids[i]));
      }
      assert uuids[..|uuids|] == uuids;
      count := storeCount;
    }
  }

  /** A delete filter that names ids removes, when every delete runs
      through, all their rows and no one else's. */
  lemma DeleteByFilterRemovesNamed(t: Tables, filter: DeleteFilter, succeeded: ContentId -> nat, other: ContentId)
    requires forall id :: id in ContentUuids(filter) ==> succeeded(id) >= AllDeletes
    ensures var after := DeleteAll(t, ContentUuids(filter), true, succeeded);
      && (other in ContentUuids(filter) ==>
            ValuesOf(after.tokens, other) == {} && other !in after.links && ValuesOf(after.roles, other) == {})
      && (other !in ContentUuids(filter) ==>
            && ValuesOf(after.tokens, other) == ValuesOf(t.tokens, other)
            && (other in after.links <==> other in t.links)
            && ValuesOf(after.roles, other) == ValuesOf(t.roles, other))
  {
    ContentUuidsCanonical(filter);
    DeleteAllRemovesListed(t, ContentUuids(filter), succeeded, other);
  }
}
