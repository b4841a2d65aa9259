/// The three tables behind the phonetic search index, as the indexer, the
/// search page and the vector-store proxy use them:
///   base3_content_search_index (content_id, token_int), primary key on both;
///   base3_content_direct_link  (content_id, direct_link), primary key content_id;
///   base3_content_read_roles   (content_id, role_id), primary key on both.
/// A table with a composite primary key is a set of pairs, the link table a
/// map. Each method of IndexDatabase is one SQL statement the core issues.
module IndexTables {
  import opened Text

  /** A content identifier: the 16 bytes UNHEX() makes of 32 hexadecimal
      digits, represented by those digits in upper case. */
  type ContentId = string

  /** The upper-case 32-digit form in which content identifiers travel. */
  predicate IsCanonicalId(id: string) {
    |id| == 32 && forall k :: 0 <= k < |id| ==> ('0' <= id[k] <= '9') || ('A' <= id[k] <= 'F')
  }

  /** The rows of `rows` that belong to `id`, as the second components. */
  function ValuesOf(rows: set<(ContentId, int)>, id: ContentId): set<int> {
    set p | p in rows && p.0 == id :: p.1
  }

  /** The rows `DELETE ... WHERE content_id = id` leaves. */
  function WithoutId(rows: set<(ContentId, int)>, id: ContentId): set<(ContentId, int)> {
    set p | p in rows && p.0 != id
  }

  /** The rows `(id, x)` for every `x` in `xs`. */
  function RowsFor(id: ContentId, xs: set<int>): set<(ContentId, int)> {
    set x | x in xs :: (id, x)
  }

  /** After the delete, `id` has no rows left and every other id keeps its rows. */
  lemma WithoutIdValues(rows: set<(ContentId, int)>, id: ContentId, other: ContentId)
    ensures ValuesOf(WithoutId(rows, id), id) == {}
    ensures other != id ==> ValuesOf(WithoutId(rows, id), other) == ValuesOf(rows, other)
  {
    if other != id {
      forall x | x in ValuesOf(rows, other) ensures x in ValuesOf(WithoutId(rows, id), other) {
        assert (other, x) in WithoutId(rows, id);
      }
    }
  }

  /** Deleting twice is deleting once, and deleting an id without rows changes nothing. */
  lemma WithoutIdIdempotent(rows: set<(ContentId, int)>, id: ContentId)
    ensures WithoutId(WithoutId(rows, id), id) == WithoutId(rows, id)
    ensures ValuesOf(rows, id) == {} ==> WithoutId(rows, id) == rows
  {
    if ValuesOf(rows, id) == {} {
      forall p | p in rows ensures p.0 != id {
        assert p.0 == id ==> p.1 in ValuesOf(rows, id);
      }
    }
  }

  /** The rows written for `id` are exactly its values. */
  lemma RowsForValues(id: ContentId, xs: set<int>, other: ContentId)
    ensures ValuesOf(RowsFor(id, xs), id) == xs
    ensures other != id ==> ValuesOf(RowsFor(id, xs), other) == {}
  {
    forall x | x in xs ensures x in ValuesOf(RowsFor(id, xs), id) {
      assert (id, x) in RowsFor(id, xs);
    }
  }

  /** The values of a union are the values of its parts. */
  lemma ValuesOfUnion(a: set<(ContentId, int)>, b: set<(ContentId, int)>, id: ContentId)
    ensures ValuesOf(a + b, id) == ValuesOf(a, id) + ValuesOf(b, id)
  {
    forall x | x in ValuesOf(a, id) + ValuesOf(b, id) ensures x in ValuesOf(a + b, id) {
      assert (id, x) in a + b;
    }
  }

  /** Writing one more value adds one row. */
  lemma RowsForAdd(id: ContentId, xs: set<int>, x: int)
    ensures RowsFor(id, xs + {x}) == RowsFor(id, xs) + {(id, x)}
  {
  }

  /** Replacing the rows of `id` by `xs` a second time changes nothing. */
  lemma ReplaceIdempotent(rows: set<(ContentId, int)>, id: ContentId, xs: set<int>)
    ensures WithoutId(WithoutId(rows, id) + RowsFor(id, xs), id) == WithoutId(rows, id)
  {
    var kept := WithoutId(rows, id);
    forall p | p in WithoutId(kept + RowsFor(id, xs), id) ensures p in kept {
      assert p in RowsFor(id, xs) ==> p.0 == id;
    }
  }

  // ---------------------------------------------------------------------
  // escapeIdent()
  // ---------------------------------------------------------------------

  const DefaultTable: string := "base3_content_search_index"

  predicate IsIdentChar(c: char) {
    IsAsciiUpper(c) || IsAsciiLower(c) || ('0' <= c <= '9') || c == '_'
  }

  /** escapeIdent(): the identifier characters of `name` between backticks,
      or the default table name when none are left. */
  function EscapeIdent(name: string): (r: string)
    ensures 3 <= |r| && r[0] == '`' && r[|r| - 1] == '`'
    ensures forall k :: 0 < k < |r| - 1 ==> IsIdentChar(r[k])
  {
    var clean := Filter(name, IsIdentChar);
    "`" + (if clean == [] then DefaultTable else clean) + "`"
  }

  /** A name made of identifier characters only is quoted unchanged. */
  lemma EscapeIdentClean(name: string)
    requires name != [] && forall k :: 0 <= k < |name| ==> IsIdentChar(name[k])
    ensures EscapeIdent(name) == "`" + name + "`"
  {
    FilterAll(name, IsIdentChar);
  }

  /** Other characters are removed wherever they stand, and a name with no
      identifier character falls back to the default table. */
  lemma EscapeIdentDrops(u: string, c: char, v: string)
    requires !IsIdentChar(c)
    ensures EscapeIdent(u + [c] + v) == EscapeIdent(u + v)
    ensures EscapeIdent([c]) == "`" + DefaultTable + "`"
  {
    FilterNone([c], IsIdentChar);
    FilterDropMiddle(u, [c], v, IsIdentChar);
  }

  // ---------------------------------------------------------------------
  // The database
  // ---------------------------------------------------------------------

  class IndexDatabase {
    var tokens: set<(ContentId, int)>
    var links: map<ContentId, string>
    var roles: set<(ContentId, int)>

    constructor ()
      ensures tokens == {} && links == map[] && roles == {}
    {
      tokens, links, roles := {}, map[], {};
    }

    /** INSERT IGNORE INTO search_index (content_id, token_int) */
    method InsertToken(id: ContentId, token: int)
      modifies this
      ensures tokens == old(tokens) + {(id, token)}
      ensures links == old(links) && roles == old(roles)
    {
      tokens := tokens + {(id, token)};
    }

    /** INSERT INTO direct_link ... ON DUPLICATE KEY UPDATE direct_link */
    method UpsertLink(id: ContentId, link: string)
      modifies this
      ensures links == old(links)[id := link]
      ensures tokens == old(tokens) && roles == old(roles)
    {
      links := links[id := link];
    }

    /** INSERT IGNORE INTO read_roles (content_id, role_id) */
    method InsertRole(id: ContentId, role: int)
      modifies this
      ensures roles == old(roles) + {(id, role)}
      ensures tokens == old(tokens) && links == old(links)
    {
      roles := roles + {(id, role)};
    }

    /** DELETE FROM search_index WHERE content_id = id */
    method DeleteTokens(id: ContentId)
      modifies this
      ensures tokens == WithoutId(old(tokens), id)
      ensures links == old(links) && roles == old(roles)
    {
      tokens := WithoutId(tokens, id);
    }

    /** DELETE FROM direct_link WHERE content_id = id */
    method DeleteLink(id: ContentId)
      modifies this
      ensures links == old(links) - {id}
      ensures tokens == old(tokens) && roles == old(roles)
    {
      links := links - {id};
    }

    /** DELETE FROM read_roles WHERE content_id = id */
    method DeleteRoles(id: ContentId)
      modifies this
      ensures roles == WithoutId(old(roles), id)
      ensures tokens == old(tokens) && links == old(links)
    {
      roles := WithoutId(roles, id);
    }
  }
}
