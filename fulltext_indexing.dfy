/// The index writer (FullTextIndexingParserAgentResource): after an inner
/// parser has produced the text of a content item, the item's words are
/// encoded phonetically, turned into integer tokens and stored with the
/// item's content identifier, together with its direct link and the roles
/// allowed to read it.
module FullTextIndexing {
  import opened Text
  import opened ReverseConverter
  import opened ColognePhonetic
  import ColognePhoneticEncoder
  import opened PhpValues
  import opened IndexTables

  datatype Option<T> = None | Some(value: T)

  /** The two exceptions requireContentUuidHex() throws. */
  datatype IndexError = MissingContentUuid | InvalidContentUuid

  datatype Result<T> = Ok(value: T) | Err(error: IndexError)

  /** What the inner parser produced: its text, and the JSON encoding of its
      structured part when it has one (json_encode is not modelled). */
  datatype ParsedContent = ParsedContent(text: string, structuredJson: Option<string>)

  const MetaContentUuid: string := "content_uuid"
  const MetaDirectLink: string := "direct_link"
  const MetaReadRoles: string := "read_roles"
  const MetaLang: string := "lang"
  const DefaultLanguage: string := "de"

  // ---------------------------------------------------------------------
  // requireContentUuidHex(), getLanguage(), extractText()
  // ---------------------------------------------------------------------

  /** requireContentUuidHex(): the metadata value must be a string whose
      trimmed, upper-cased form is 32 hexadecimal digits; that form is the id. */
  function RequireContentUuidHex(meta: Metadata): (r: Result<ContentId>)
    ensures r == Err(MissingContentUuid) <==> !Lookup(meta, MetaContentUuid).Str?
    ensures r.Ok? <==> Lookup(meta, MetaContentUuid).Str? && IsHex32(CanonicalHex(Lookup(meta, MetaContentUuid).s))
    ensures r.Ok? ==> IsCanonicalId(r.value)
  {
    var v := Lookup(meta, MetaContentUuid);
    if !v.Str? then Err(MissingContentUuid)
    else
      var hex := CanonicalHex(v.s);
      if !IsHex32(hex) then Err(InvalidContentUuid) else Ok(hex)
  }

  /** The stored form of an id is its own canonical form. */
  lemma CanonicalHexOfId(id: ContentId)
    requires IsCanonicalId(id)
    ensures CanonicalHex(id) == id
  {
    TrimNoop(id);
    assert AsciiUpperStr(id) == id;
  }

  /** The lower-case spelling of an id has the id as its canonical form. */
  lemma CanonicalHexOfLower(id: ContentId)
    requires IsCanonicalId(id)
    ensures CanonicalHex(AsciiLowerStr(id)) == id
  {
    var l := AsciiLowerStr(id);
    assert !IsTrimChar(l[0]) && !IsTrimChar(l[|l| - 1]);
    TrimNoop(l);
    forall k | 0 <= k < |l|
      ensures AsciiUpperStr(l)[k] == id[k]
    {
    }
    assert AsciiUpperStr(l) == id;
  }

  /** An id in its stored form is accepted as itself. */
  lemma StoredIdAccepted(meta: Metadata, id: ContentId)
    requires IsCanonicalId(id)
    requires Lookup(meta, MetaContentUuid) == Str(id)
    ensures RequireContentUuidHex(meta) == Ok(id)
  {
    CanonicalHexOfId(id);
  }

  /** An id spelled in lower case is accepted as its stored form. */
  lemma LowerCaseIdAccepted(meta: Metadata, id: ContentId)
    requires IsCanonicalId(id)
    requires Lookup(meta, MetaContentUuid) == Str(AsciiLowerStr(id))
    ensures RequireContentUuidHex(meta) == Ok(id)
  {
    CanonicalHexOfLower(id);
  }

  /** getLanguage(): the trimmed, ASCII-lower-cased `lang` entry, or "de". */
  function GetLanguage(meta: Metadata): (lang: string)
    ensures lang != []
    ensures forall k :: 0 <= k < |lang| ==> !IsAsciiUpper(lang[k])
    ensures !(Lookup(meta, MetaLang).Str? && Trim(Lookup(meta, MetaLang).s) != []) ==> lang == DefaultLanguage
  {
    var v := Lookup(meta, MetaLang);
    if v.Str? && Trim(v.s) != [] then AsciiLowerStr(Trim(v.s)) else DefaultLanguage
  }

  /** extractText(): the trimmed text, else the trimmed JSON of the
      structured part, else ''. */
  function ExtractText(parsed: ParsedContent): (text: string)
    ensures text != [] ==> !IsTrimChar(text[0]) && !IsTrimChar(text[|text| - 1])
    ensures Trim(parsed.text) != [] ==> text == Trim(parsed.text)
  {
    var t := Trim(parsed.text);
    if t != [] then t
    else if parsed.structuredJson.Some? then Trim(parsed.structuredJson.value)
    else []
  }

  // ---------------------------------------------------------------------
  // splitIntoWords() and filterStopWords()
  // ---------------------------------------------------------------------

  /** mb_strlen($p) >= 2 */
  predicate IsWord(p: string) { |p| >= 2 }

  /** splitIntoWords(): the runs of letters of the lower-cased text, in
      order, that have at least two characters. */
  function SplitIntoWords(text: string): (words: seq<string>)
    ensures forall i :: 0 <= i < |words| ==> IsWord(words[i]) && AllLetters(words[i])
  {
    var runs := LetterRuns(ToLowerStr(text));
    FilterMembership(runs, IsWord);
    Filter(runs, IsWord)
  }

  /** Lower-casing leaves non-letters alone. */
  lemma ToLowerNonLetter(c: char)
    requires !IsLetter(c)
    ensures ToLower(c) == c
  {
  }

  /** A non-letter separates words: the words of `a + [c] + b` are the words
      of `a` followed by the words of `b`. */
  lemma SplitAtNonLetter(a: string, c: char, b: string)
    requires !IsLetter(c)
    ensures SplitIntoWords(a + [c] + b) == SplitIntoWords(a) + SplitIntoWords(b)
  {
    ToLowerNonLetter(c);
    ToLowerConcat(a + [c], b);
    ToLowerConcat(a, [c]);
    var la, lb := ToLowerStr(a), ToLowerStr(b);
    assert ToLowerStr([c]) == [c];
    RunsSplit(la, c, lb);
    FilterConcat(LetterRuns(la), LetterRuns(lb), IsWord);
  }

  /** A run of letters is one word, lower-cased, when it has at least two
      characters, and no word otherwise. */
  lemma SplitSingleRun(w: string)
    requires w != [] && AllLetters(w)
    ensures SplitIntoWords(w) == if IsWord(w) then [ToLowerStr(w)] else []
  {
    var l := ToLowerStr(w);
    assert AllLetters(l);
    WholeRun(l);
    assert [l][1..] == [];
  }

  /** filterStopWords(): the identity when no stop words are loaded,
      otherwise the words that are not stop words, in order. */
  function FilterStopWords(words: seq<string>, stop: set<string>): (r: seq<string>)
    ensures stop == {} ==> r == words
    ensures |r| <= |words|
  {
    if stop == {} then words else Filter(words, w => w !in stop)
  }

  /** The words kept are exactly those that are not stop words. */
  lemma FilterStopWordsMembers(words: seq<string>, stop: set<string>)
    ensures forall w :: w in FilterStopWords(words, stop) <==> w in words && w !in stop
  {
    if stop != {} {
      FilterMembership(words, w => w !in stop);
    }
  }

  /** The filter works word by word, so it keeps the input order. */
  lemma FilterStopWordsConcat(a: seq<string>, b: seq<string>, stop: set<string>)
    ensures FilterStopWords(a + b, stop) == FilterStopWords(a, stop) + FilterStopWords(b, stop)
  {
    if stop != {} {
      FilterConcat(a, b, w => w !in stop);
    }
  }

  // ---------------------------------------------------------------------
  // The stop-word map of ensureStopWordsLoaded()
  // ---------------------------------------------------------------------

  /** Non-empty, and neither starting nor ending with a trim character. */
  predicate IsTrimmedWord(w: string) {
    w != [] && !IsTrimChar(w[0]) && !IsTrimChar(w[|w| - 1])
  }

  /** The key one list entry contributes: trim(mb_strtolower($w)) for a
      string that does not become ''. */
  function StopEntry(v: MetaValue): (e: Option<string>)
    ensures e.Some? ==> IsTrimmedWord(e.value)
  {
    if v.Str? && Trim(ToLowerStr(v.s)) != [] then Some(Trim(ToLowerStr(v.s))) else None
  }

  /** The values `f` gives for the elements of `xs`, as a set. */
  function SomeValues<T, U>(xs: seq<T>, f: T -> Option<U>): (vs: set<U>)
    decreases |xs|
  {
    if xs == [] then {}
    else
      var e := f(xs[|xs| - 1]);
      var rest := SomeValues(xs[..|xs| - 1], f);
      if e.Some? then rest + {e.value} else rest
  }

  /** A value is collected exactly when some element gives it. */
  lemma {:induction false} SomeValuesMembers<T, U>(xs: seq<T>, f: T -> Option<U>, v: U)
    ensures v in SomeValues(xs, f) <==> exists k :: 0 <= k < |xs| && f(xs[k]) == Some(v)
    decreases |xs|
  {
    if xs != [] {
      var p := xs[..|xs| - 1];
      SomeValuesMembers(p, f, v);
      if v in SomeValues(p, f) {
        var k :| 0 <= k < |p| && f(p[k]) == Some(v);
        assert xs[k] == p[k];
      } else if f(xs[|xs| - 1]) != Some(v) {
        forall k | 0 <= k < |xs| ensures f(xs[k]) != Some(v) {
          if k < |p| {
            assert xs[k] == p[k];
          }
        }
      }
    }
  }

  lemma SomeValuesAll<T, U>(xs: seq<T>, f: T -> Option<U>)
    ensures forall v :: v in SomeValues(xs, f) <==> exists k :: 0 <= k < |xs| && f(xs[k]) == Some(v)
  {
    forall v ensures v in SomeValues(xs, f) <==> exists k :: 0 <= k < |xs| && f(xs[k]) == Some(v) {
      SomeValuesMembers(xs, f, v);
    }
  }

  /** The values `f` gives for the elements of `xs`, in order. */
  function SomeList<T, U>(xs: seq<T>, f: T -> Option<U>): seq<U>
    decreases |xs|
  {
    if xs == [] then []
    else
      var e := f(xs[|xs| - 1]);
      var rest := SomeList(xs[..|xs| - 1], f);
      if e.Some? then rest + [e.value] else rest
  }

  /** A value is listed exactly when some element gives it. */
  lemma {:induction false} SomeListMembers<T, U>(xs: seq<T>, f: T -> Option<U>, v: U)
    ensures v in SomeList(xs, f) <==> exists k :: 0 <= k < |xs| && f(xs[k]) == Some(v)
    decreases |xs|
  {
    if xs != [] {
      var p := xs[..|xs| - 1];
      SomeListMembers(p, f, v);
      if v in SomeList(p, f) {
        var k :| 0 <= k < |p| && f(p[k]) == Some(v);
        assert xs[k] == p[k];
      } else if f(xs[|xs| - 1]) != Some(v) {
        forall k | 0 <= k < |xs| ensures f(xs[k]) != Some(v) {
          if k < |p| {
            assert xs[k] == p[k];
          }
        }
      }
    }
  }

  lemma SomeListStep<T, U>(xs: seq<T>, f: T -> Option<U>, i: nat)
    requires i < |xs|
    ensures SomeList(xs[..i + 1], f) == SomeList(xs[..i], f) + (if f(xs[i]).Some? then [f(xs[i]).value] else [])
  {
    assert xs[..i + 1][..i] == xs[..i];
  }

  lemma SomeListOfOne<T, U>(xs: seq<T>, f: T -> Option<U>)
    requires |xs| == 1 && f(xs[0]).Some?
    ensures SomeList(xs, f) == [f(xs[0]).value]
  {
    assert xs[..0] == [];
  }

  /** The keys of the map built from the `words` list: a word is a stop word
      exactly when some entry of the list gives it. */
  function StopSetOf(list: seq<MetaValue>): (stop: set<string>)
    ensures forall w :: w in stop <==> exists k :: 0 <= k < |list| && StopEntry(list[k]) == Some(w)
    ensures forall w :: w in stop ==> IsTrimmedWord(w)
  {
    var stop := SomeValues(list, StopEntry);
    SomeValuesAll(list, StopEntry);
    stop
  }

  /** The stop words a load for `lang` produces. `files` maps a language to
      the `[stopwords] words` entry of its ini file; a language without an
      entry stands for a missing or unreadable file. */
  function LoadedStopWords(lang: string, files: map<string, MetaValue>): set<string> {
    if lang in files && files[lang].List? && files[lang].items != [] then StopSetOf(files[lang].items) else {}
  }

  // ---------------------------------------------------------------------
  // Tokens and read roles
  // ---------------------------------------------------------------------

  /** The token a code gives: the code, trimmed, read by toInt(); none
      when the trimmed code is '' or the token is not positive. */
  function TokenOfCode(code: string): (t: Option<int>)
    ensures t.Some? ==> t.value > 0
  {
    var trimmed := Trim(code);
    if trimmed == [] then None
    else
      var token := ToInt(trimmed);
      if token <= 0 then None else Some(token)
  }

  /** The token one word contributes. */
  function WordToken(w: string): (t: Option<int>)
    ensures t.Some? ==> t.value > 0
  {
    TokenOfCode(CodeOf(w))
  }

  /** A word contributes a token exactly when its code is neither '' nor
      "0"; the token is then positive and has as many digits as the code. */
  lemma WordTokenIff(w: string)
    ensures WordToken(w).Some? <==> CodeOf(w) != [] && CodeOf(w) != "0"
    ensures WordToken(w).Some? ==>
      WordToken(w).value == ToInt(CodeOf(w)) && NumDigits(WordToken(w).value) == |CodeOf(w)|
  {
    CodeShape(w);
    TokenOfShapedCode(CodeOf(w));
    if CodeOf(w) != [] && CodeOf(w) != "0" {
      CodeToken(w);
    }
  }

  /** For a string of digits with no '0' after the first, the token exists
      exactly when the string is neither '' nor "0". */
  lemma TokenOfShapedCode(code: string)
    requires AllCodeDigits(code) && forall k :: 1 <= k < |code| ==> code[k] != '0'
    ensures TokenOfCode(code).Some? <==> code != [] && code != "0"
    ensures TokenOfCode(code).Some? ==> TokenOfCode(code).value == ToInt(code)
  {
    TrimNoop(code);
    if code == "0" {
      ToIntOfDigits(code);
    } else if code != [] {
      CodeShapedToken(code);
    }
  }

  /** The tokens a sequence of words contributes. */
  function WordTokens(words: seq<string>): set<int> {
    SomeValues(words, WordToken)
  }

  /** A token is indexed exactly when some word gives it, and every indexed
      token is positive. */
  lemma WordTokensMembers(words: seq<string>)
    ensures forall t :: t in WordTokens(words) <==> exists k :: 0 <= k < |words| && WordToken(words[k]) == Some(t)
    ensures forall t :: t in WordTokens(words) ==> t > 0
  {
    SomeValuesAll(words, WordToken);
  }

  /** The positive (int) casts of `items`, in order. */
  function PositiveIds(items: seq<MetaValue>): (ids: seq<int>)
    ensures forall x :: x in ids <==> x > 0 && exists k :: 0 <= k < |items| && IntCast(items[k]) == x
  {
    if items == [] then []
    else
      var p := items[..|items| - 1];
      var r := IntCast(items[|items| - 1]);
      assert forall k :: 0 <= k < |p| ==> p[k] == items[k];
      PositiveIds(p) + (if r > 0 then [r] else [])
  }

  /** The role ids replaceReadRoles() writes: none unless `read_roles` is
      a non-empty array, else its positive casts without repetitions. */
  function RoleIdsOf(meta: Metadata): (ids: seq<int>)
    ensures Distinct(ids) && forall k :: 0 <= k < |ids| ==> ids[k] > 0
  {
    var v := Lookup(meta, MetaReadRoles);
    if v.List? && v.items != [] then
      var ids := Unique(PositiveIds(v.items));
      assert forall k :: 0 <= k < |ids| ==> ids[k] in PositiveIds(v.items);
      ids
    else []
  }

  function Elems(s: seq<int>): set<int> {
    set x | x in s
  }

  /** The link table after upsertDirectLink(): a string link that is not
      blank is stored trimmed; anything else leaves the table alone. */
  function LinksAfterUpsert(links: map<ContentId, string>, meta: Metadata, id: ContentId): map<ContentId, string> {
    var v := Lookup(meta, MetaDirectLink);
    if v.Str? && Trim(v.s) != [] then links[id := Trim(v.s)] else links
  }

  /** The role table after replaceReadRoles(): the rows of `id` become
      exactly its role ids, unless there are none. */
  function RolesAfterReplace(roles: set<(ContentId, int)>, meta: Metadata, id: ContentId): set<(ContentId, int)> {
    var ids := RoleIdsOf(meta);
    if ids == [] then roles else WithoutId(roles, id) + RowsFor(id, Elems(ids))
  }

  /** replaceReadRoles() in terms of rows: the role ids are exactly the
      positive casts of the `read_roles` entries; with none the table is
      untouched, otherwise they become the rows of `id`; other ids keep
      their rows either way. */
  lemma ReplaceRolesMeaning(roles: set<(ContentId, int)>, meta: Metadata, id: ContentId, other: ContentId)
    requires other != id
    ensures var v := Lookup(meta, MetaReadRoles);
      forall x :: x in RoleIdsOf(meta) <==>
        v.List? && x > 0 && exists k :: 0 <= k < |v.items| && IntCast(v.items[k]) == x
    ensures RoleIdsOf(meta) == [] ==> RolesAfterReplace(roles, meta, id) == roles
    ensures RoleIdsOf(meta) != [] ==> ValuesOf(RolesAfterReplace(roles, meta, id), id) == Elems(RoleIdsOf(meta))
    ensures ValuesOf(RolesAfterReplace(roles, meta, id), other) == ValuesOf(roles, other)
  {
    var v := Lookup(meta, MetaReadRoles);
    if v.List? && v.items != [] {
      var ids := RoleIdsOf(meta);
      WithoutIdValues(roles, id, other);
      RowsForValues(id, Elems(ids), other);
      ValuesOfUnion(WithoutId(roles, id), RowsFor(id, Elems(ids)), id);
      ValuesOfUnion(WithoutId(roles, id), RowsFor(id, Elems(ids)), other);
    }
  }

  // ---------------------------------------------------------------------
  // indexParsedContent() as a function of the tables
  // ---------------------------------------------------------------------

  /** The words that get indexed: split, stop words removed, repetitions removed. */
  function SurvivingWords(parsed: ParsedContent, stop: set<string>): seq<string> {
    Unique(FilterStopWords(SplitIntoWords(ExtractText(parsed)), stop))
  }

  /** The early exits of indexParsedContent(): no text, no words, or only
      stop words leave nothing to index. */
  lemma NoSurvivingWords(parsed: ParsedContent, stop: set<string>)
    requires ExtractText(parsed) == [] || SplitIntoWords(ExtractText(parsed)) == []
             || FilterStopWords(SplitIntoWords(ExtractText(parsed)), stop) == []
    ensures SurvivingWords(parsed, stop) == []
  {
    var words := SplitIntoWords(ExtractText(parsed));
    if ExtractText(parsed) == [] {
      assert LetterRuns(ToLowerStr([])) == [];
    }
    assert FilterStopWords(words, stop) == [];
  }

  /** One more element adds its value, if it has one. */
  lemma SomeValuesStep<T, U>(xs: seq<T>, f: T -> Option<U>, i: nat)
    requires i < |xs|
    ensures SomeValues(xs[..i + 1], f) == SomeValues(xs[..i], f) + (if f(xs[i]).Some? then {f(xs[i]).value} else {})
  {
    assert xs[..i + 1][..i] == xs[..i];
  }

  /** The same for the rows written under one content id. */
  lemma SomeRowsStep<T>(id: ContentId, xs: seq<T>, f: T -> Option<int>, i: nat)
    requires i < |xs|
    ensures RowsFor(id, SomeValues(xs[..i + 1], f)) ==
      RowsFor(id, SomeValues(xs[..i], f)) + (if f(xs[i]).Some? then {(id, f(xs[i]).value)} else {})
  {
    SomeValuesStep(xs, f, i);
    if f(xs[i]).Some? {
      RowsForAdd(id, SomeValues(xs[..i], f), f(xs[i]).value);
    }
  }

  /** One pass of the token loop: a trimmed code that is '' or reads as a
      non-positive token adds no row, any other adds the row of its token. */
  lemma TokenRowsStep(id: ContentId, words: seq<string>, i: nat, code: string)
    requires i < |words| && code == Trim(CodeOf(words[i]))
    ensures code == [] || ToInt(code) <= 0 ==>
      RowsFor(id, WordTokens(words[..i + 1])) == RowsFor(id, WordTokens(words[..i]))
    ensures code != [] && ToInt(code) > 0 ==>
      RowsFor(id, WordTokens(words[..i + 1])) == RowsFor(id, WordTokens(words[..i])) + {(id, ToInt(code))}
  {
    SomeRowsStep(id, words, WordToken, i);
  }

  /** The three tables after indexing `words` under a valid content id:
      nothing is written when no word survives. */
  function TokensAfterIndexing(tokens: set<(ContentId, int)>, id: ContentId, words: seq<string>): set<(ContentId, int)> {
    if words == [] then tokens else tokens + RowsFor(id, WordTokens(words))
  }

  function LinksAfterIndexing(links: map<ContentId, string>, meta: Metadata, id: ContentId, words: seq<string>): map<ContentId, string> {
    if words == [] then links else LinksAfterUpsert(links, meta, id)
  }

  function RolesAfterIndexing(roles: set<(ContentId, int)>, meta: Metadata, id: ContentId, words: seq<string>): set<(ContentId, int)> {
    if words == [] then roles else RolesAfterReplace(roles, meta, id)
  }

  /** Indexing the same words twice leaves the token table as indexing
      them once. */
  lemma ReindexTokensIdempotent(t: set<(ContentId, int)>, id: ContentId, words: seq<string>)
    ensures TokensAfterIndexing(TokensAfterIndexing(t, id, words), id, words) == TokensAfterIndexing(t, id, words)
  {
  }

  /** The same for the link table. */
  lemma ReindexLinksIdempotent(l: map<ContentId, string>, meta: Metadata, id: ContentId, words: seq<string>)
    ensures LinksAfterIndexing(LinksAfterIndexing(l, meta, id, words), meta, id, words) == LinksAfterIndexing(l, meta, id, words)
  {
  }

  /** The same for the role table: the rows of the id are replaced, not added to. */
  lemma ReindexRolesIdempotent(r: set<(ContentId, int)>, meta: Metadata, id: ContentId, words: seq<string>)
    ensures RolesAfterIndexing(RolesAfterIndexing(r, meta, id, words), meta, id, words) == RolesAfterIndexing(r, meta, id, words)
  {
    var ids := RoleIdsOf(meta);
    if words != [] && ids != [] {
      ReplaceIdempotent(r, id, Elems(ids));
    }
  }

  /** Indexing changes only the rows of its own content id. */
  lemma IndexingTouchesOwnId(t: set<(ContentId, int)>, r: set<(ContentId, int)>, meta: Metadata,
                             id: ContentId, other: ContentId, words: seq<string>)
    requires other != id
    ensures ValuesOf(TokensAfterIndexing(t, id, words), other) == ValuesOf(t, other)
    ensures ValuesOf(RolesAfterIndexing(r, meta, id, words), other) == ValuesOf(r, other)
  {
    if words != [] {
      ValuesOfUnion(t, RowsFor(id, WordTokens(words)), other);
      RowsForValues(id, WordTokens(words), other);
      var ids := RoleIdsOf(meta);
      if ids != [] {
        WithoutIdValues(r, id, other);
        ValuesOfUnion(WithoutId(r, id), RowsFor(id, Elems(ids)), other);
        RowsForValues(id, Elems(ids), other);
      }
    }
  }

  /** The token rows of the content id gain exactly the tokens of its words,
      and its role rows become exactly its role ids when it has any. */
  lemma IndexedRowsOfId(t: set<(ContentId, int)>, r: set<(ContentId, int)>, meta: Metadata, id: ContentId, words: seq<string>)
    requires words != []
    ensures ValuesOf(TokensAfterIndexing(t, id, words), id) == ValuesOf(t, id) + WordTokens(words)
    ensures RoleIdsOf(meta) != [] ==> ValuesOf(RolesAfterIndexing(r, meta, id, words), id) == Elems(RoleIdsOf(meta))
  {
    ValuesOfUnion(t, RowsFor(id, WordTokens(words)), id);
    RowsForValues(id, WordTokens(words), id);
    var ids := RoleIdsOf(meta);
    if ids != [] {
      WithoutIdValues(r, id, id);
      ValuesOfUnion(WithoutId(r, id), RowsFor(id, Elems(ids)), id);
      RowsForValues(id, Elems(ids), id);
    }
  }

  // ---------------------------------------------------------------------
  // The resource
  // ---------------------------------------------------------------------

  class FullTextIndexer {
    var stopWords: set<string>
    var tablesReady: bool
    const db: IndexDatabase

    constructor (db: IndexDatabase)
      ensures this.db == db && stopWords == {} && !tablesReady
    {
      this.db := db;
      stopWords := {};
      tablesReady := false;
    }

    /** ensureTables(): the CREATE TABLE statements are not modelled, only the flag. */
    method EnsureTables()
      modifies this`tablesReady
      ensures tablesReady
    {
      if tablesReady {
        return;
      }
      tablesReady := true;
    }

    /** ensureStopWordsLoaded(): loads the map once; while it is empty, every
        call tries again. */
    method EnsureStopWordsLoaded(lang: string, files: map<string, MetaValue>)
      modifies this`stopWords
      ensures old(stopWords) != {} ==> stopWords == old(stopWords)
      ensures old(stopWords) == {} ==> stopWords == LoadedStopWords(lang, files)
    {
      if stopWords != {} {
        return;
      }
      if lang !in files {
        return;
      }
      var list := files[lang];
      if !list.List? || list.items == [] {
        return;
      }
      var items := list.items;
      var words: set<string> := {};
      for i := 0 to |items|
        invariant words == StopSetOf(items[..i])
      {
        assert items[..i + 1][..i] == items[..i];
        var v := items[i];
        if !v.Str? {
          continue;
        }
        var w := Trim(ToLowerStr(v.s));
        if w == [] {
          continue;
        }
        words := words + {w};
      }
      assert items[..|items|] == items;
      stopWords := words;
    }

    /** upsertDirectLink() */
    method UpsertDirectLink(meta: Metadata, id: ContentId)
      modifies db
      ensures db.links == LinksAfterUpsert(old(db.links), meta, id)
      ensures db.tokens == old(db.tokens) && db.roles == old(db.roles)
    {
      var link := Lookup(meta, MetaDirectLink);
      if !link.Str? || Trim(link.s) == [] {
        return;
      }
      db.UpsertLink(id, Trim(link.s));
    }

    /** replaceReadRoles(): delete the rows of `id`, then insert one row per role id. */
    method ReplaceReadRoles(meta: Metadata, id: ContentId)
      modifies db
      ensures db.roles == RolesAfterReplace(old(db.roles), meta, id)
      ensures db.tokens == old(db.tokens) && db.links == old(db.links)
    {
      var roles := Lookup(meta, MetaReadRoles);
      if !roles.List? || roles.items == [] {
        return;
      }
      var items := roles.items;
      var roleIds: seq<int> := [];
      for i := 0 to |items|
        invariant roleIds == PositiveIds(items[..i])
      {
        assert items[..i + 1][..i] == items[..i];
        var r := IntCast(items[i]);
        if r > 0 {
          roleIds := roleIds + [r];
        }
      }
      assert items[..|items|] == items;
      roleIds := Unique(roleIds);
      if roleIds == [] {
        return;
      }
      db.DeleteRoles(id);
      for i := 0 to |roleIds|
        invariant db.roles == WithoutId(old(db.roles), id) + RowsFor(id, Elems(roleIds[..i]))
        invariant db.tokens == old(db.tokens) && db.links == old(db.links)
      {
        assert Elems(roleIds[..i + 1]) == Elems(roleIds[..i]) + {roleIds[i]};
        db.InsertRole(id, roleIds[i]);
      }
      assert roleIds[..|roleIds|] == roleIds;
    }

    /** indexParsedContent() */
    method IndexParsedContent(meta: Metadata, parsed: ParsedContent) returns (failure: Option<IndexError>)
      modifies db
      ensures RequireContentUuidHex(meta).Err? ==>
        failure == Some(RequireContentUuidHex(meta).error) && db.tokens == old(db.tokens)
        && db.links == old(db.links) && db.roles == old(db.roles)
      ensures RequireContentUuidHex(meta).Ok? ==>
        var id := RequireContentUuidHex(meta).value;
        && failure == None
        && db.tokens == TokensAfterIndexing(old(db.tokens), id, SurvivingWords(parsed, stopWords))
        && db.links == LinksAfterIndexing(old(db.links), meta, id, SurvivingWords(parsed, stopWords))
        && db.roles == RolesAfterIndexing(old(db.roles), meta, id, SurvivingWords(parsed, stopWords))
    {
      var checked := RequireContentUuidHex(meta);
      if checked.Err? {
        return Some(checked.error);
      }
      failure := None;
      var id := checked.value;
      var text := ExtractText(parsed);
      if text == [] {
        NoSurvivingWords(parsed, stopWords);
        return;
      }
      var words := SplitIntoWords(text);
      if words == [] {
        NoSurvivingWords(parsed, stopWords);
        return;
      }
      words := FilterStopWords(words, stopWords);
      if words == [] {
        NoSurvivingWords(parsed, stopWords);
        return;
      }
      var unique := Unique(words);
      if unique == [] {
        return;
      }
      UpsertDirectLink(meta, id);
      ReplaceReadRoles(meta, id);
      InsertWordTokens(id, unique);
    }

    /** The token loop of indexParsedContent(): each word is encoded, the
        code trimmed and read as a token, and a positive token inserted. */
    method InsertWordTokens(id: ContentId, words: seq<string>)
      modifies db
      ensures db.tokens == old(db.tokens) + RowsFor(id, WordTokens(words))
      ensures db.links == old(db.links) && db.roles == old(db.roles)
    {
      for i := 0 to |words|
        invariant db.tokens == old(db.tokens) + RowsFor(id, WordTokens(words[..i]))
        invariant db.links == old(db.links) && db.roles == old(db.roles)
      {
        InsertWordToken(id, words, i, old(db.tokens));
      }
      assert words[..|words|] == words;
    }

    /** One pass of the token loop, for word `i`. */
    method InsertWordToken(id: ContentId, words: seq<string>, i: nat, ghost base: set<(ContentId, int)>)
      requires i < |words|
      requires db.tokens == base + RowsFor(id, WordTokens(words[..i]))
      modifies db
      ensures db.tokens == base + RowsFor(id, WordTokens(words[..i + 1]))
      ensures db.links == old(db.links) && db.roles == old(db.roles)
    {
      ghost var before := RowsFor(id, WordTokens(words[..i]));
      ghost var after := RowsFor(id, WordTokens(words[..i + 1]));
      var w := words[i];
      var code := ColognePhoneticEncoder.Encode(w);
      code := Trim(code);
      TokenRowsStep(id, words, i, code);
      if code == [] {
        return;
      }
      var token := ToInt(code);
      if token <= 0 {
        return;
      }
      assert after == before + {(id, token)};
      db.InsertToken(id, token);
      assert db.tokens == (base + before) + {(id, token)};
    }

    /** parse(), after the inner parser: tables, stop words for the item's
        language, then indexing. */
    method Parse(meta: Metadata, parsed: ParsedContent, files: map<string, MetaValue>) returns (failure: Option<IndexError>)
      modifies this, db
      ensures tablesReady
      ensures old(stopWords) != {} ==> stopWords == old(stopWords)
      ensures old(stopWords) == {} ==> stopWords == LoadedStopWords(GetLanguage(meta), files)
      ensures RequireContentUuidHex(meta).Err? ==>
        failure == Some(RequireContentUuidHex(meta).error) && db.tokens == old(db.tokens)
        && db.links == old(db.links) && db.roles == old(db.roles)
      ensures RequireContentUuidHex(meta).Ok? ==>
        var id := RequireContentUuidHex(meta).value;
        && failure == None
        && db.tokens == TokensAfterIndexing(old(db.tokens), id, SurvivingWords(parsed, stopWords))
        && db.links == LinksAfterIndexing(old(db.links), meta, id, SurvivingWords(parsed, stopWords))
        && db.roles == RolesAfterIndexing(old(db.roles), meta, id, SurvivingWords(parsed, stopWords))
    {
      EnsureTables();
      EnsureStopWordsLoaded(GetLanguage(meta), files);
      failure := IndexParsedContent(meta, parsed);
    }
  }
}
