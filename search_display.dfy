/// The search page (IliasSearchIndexDisplay): a query is normalised, cut
/// into at most six words, and turned into (value, len) terms; a content
/// item matches when, for every term, one of its stored tokens agrees with
/// the term's value modulo 10^len. At most ten matches are joined with the
/// link table and ordered by title.
module SearchDisplay {
  import opened Text
  import opened ReverseConverter
  import opened ColognePhonetic
  import ColognePhoneticEncoder
  import opened IndexTables
  import opened FullTextIndexing

  const MinQueryChars: nat := 3
  const MaxResults: nat := 10
  const MaxWords: nat := 6
  const MaxPowerDigits: nat := 18

  // ---------------------------------------------------------------------
  // normalizeQuery()
  // ---------------------------------------------------------------------

  /** `s` without its leading white space. */
  function SkipSpaces(s: string): (r: string)
    ensures |r| <= |s| && r == s[|s| - |r|..]
    ensures r != [] ==> !IsSpace(r[0])
  {
    if s != [] && IsSpace(s[0]) then SkipSpaces(s[1..]) else s
  }

  /** preg_replace('/\s+/u', ' ', $s): every maximal run of white space
      becomes a single blank. */
  function CollapseSpaces(s: string): (r: string)
    ensures |r| <= |s|
    ensures s != [] ==> r != [] && r[0] == (if IsSpace(s[0]) then ' ' else s[0])
    decreases |s|
  {
    if s == [] then []
    else if IsSpace(s[0]) then [' '] + CollapseSpaces(SkipSpaces(s[1..]))
    else [s[0]] + CollapseSpaces(s[1..])
  }

  /** No white space next to white space, and every white space a blank. */
  predicate SingleBlanks(r: string)
    decreases |r|
  {
    r == [] ||
    (&& (IsSpace(r[0]) ==> r[0] == ' ' && (|r| > 1 ==> !IsSpace(r[1])))
     && SingleBlanks(r[1..]))
  }

  predicate NotSpace(c: char) { !IsSpace(c) }

  /** After collapsing, white space comes as single blanks. */
  lemma {:induction false} CollapseSpacesSingleBlanks(s: string)
    ensures SingleBlanks(CollapseSpaces(s))
    decreases |s|
  {
    if s != [] {
      if IsSpace(s[0]) {
        var t := SkipSpaces(s[1..]);
        CollapseSpacesSingleBlanks(t);
        var rest := CollapseSpaces(t);
        assert CollapseSpaces(s) == [' '] + rest;
        assert rest != [] ==> !IsSpace(rest[0]);
      } else {
        CollapseSpacesSingleBlanks(s[1..]);
      }
    }
  }

  /** Leading white space holds no other character. */
  lemma {:induction false} SkipSpacesKeepsText(s: string)
    ensures Filter(SkipSpaces(s), NotSpace) == Filter(s, NotSpace)
    decreases |s|
  {
    if s != [] && IsSpace(s[0]) {
      SkipSpacesKeepsText(s[1..]);
    }
  }

  /** Collapsing changes only white space: the other characters stay, in order. */
  lemma {:induction false} CollapseSpacesKeepsText(s: string)
    ensures Filter(CollapseSpaces(s), NotSpace) == Filter(s, NotSpace)
    decreases |s|
  {
    if s != [] {
      if IsSpace(s[0]) {
        var t := SkipSpaces(s[1..]);
        CollapseSpacesKeepsText(t);
        SkipSpacesKeepsText(s[1..]);
        assert ([' '] + CollapseSpaces(t))[1..] == CollapseSpaces(t);
      } else {
        CollapseSpacesKeepsText(s[1..]);
        assert ([s[0]] + CollapseSpaces(s[1..]))[1..] == CollapseSpaces(s[1..]);
      }
    }
  }

  /** A string of single blanks is left as it is; so collapsing twice is
      collapsing once. */
  lemma {:induction false} CollapseSpacesFixpoint(s: string)
    requires SingleBlanks(s)
    ensures CollapseSpaces(s) == s
    decreases |s|
  {
    if s != [] {
      assert SingleBlanks(s[1..]);
      CollapseSpacesFixpoint(s[1..]);
      if IsSpace(s[0]) {
        assert SkipSpaces(s[1..]) == s[1..];
      }
    }
  }

  lemma CollapseSpacesIdempotent(s: string)
    ensures CollapseSpaces(CollapseSpaces(s)) == CollapseSpaces(s)
  {
    CollapseSpacesSingleBlanks(s);
    CollapseSpacesFixpoint(CollapseSpaces(s));
  }

  /** normalizeQuery(): trim, then collapse white space. */
  function NormalizeQuery(q: string): string {
    CollapseSpaces(Trim(q))
  }

  /** The normalised query has single blanks and keeps every other
      character of the trimmed query, in order. */
  lemma NormalizeQueryShape(q: string)
    ensures SingleBlanks(NormalizeQuery(q))
    ensures Filter(NormalizeQuery(q), NotSpace) == Filter(Trim(q), NotSpace)
    ensures |NormalizeQuery(q)| <= |q|
  {
    CollapseSpacesSingleBlanks(Trim(q));
    CollapseSpacesKeepsText(Trim(q));
  }

  // ---------------------------------------------------------------------
  // splitWords()
  // ---------------------------------------------------------------------

  /** At most the first six of `words`. */
  function FirstSix(words: seq<string>): (r: seq<string>)
    ensures |r| <= MaxWords && |r| <= |words| && r == words[..|r|]
    ensures |words| <= MaxWords ==> r == words
  {
    if |words| <= MaxWords then words else words[..MaxWords]
  }

  /** The first six words of the query, by the indexer's own splitting. */
  function FirstWords(q: string): (words: seq<string>)
    ensures |words| <= MaxWords
    ensures forall i :: 0 <= i < |words| ==> IsWord(words[i]) && AllLetters(words[i])
  {
    FirstSix(SplitIntoWords(q))
  }

  /** Letters are never trimmed away. */
  lemma LettersTrimNoop(p: string)
    requires AllLetters(p)
    ensures Trim(p) == p
  {
    TrimNoop(p);
  }

  /** trim() on a run of letters changes nothing. */
  method TrimRun(p: string) returns (t: string)
    requires AllLetters(p)
    ensures t == p
  {
    LettersTrimNoop(p);
    t := Trim(p);
  }

  /** splitWords(): lower-case, turn every run of non-letters into a blank,
      trim, split at blanks, keep the parts of two or more characters and
      stop after the sixth. */
  method SplitWords(q: string) returns (words: seq<string>)
    ensures words == FirstWords(q)
  {
    var parts := LetterRuns(ToLowerStr(q));
    words := [];
    if parts == [] {
      return;
    }
    words := TakeWords(parts);
  }

  /** The loop of splitWords() over the blank-separated parts. */
  method TakeWords(parts: seq<string>) returns (words: seq<string>)
    requires forall i :: 0 <= i < |parts| ==> AllLetters(parts[i])
    ensures words == FirstSix(Filter(parts, IsWord))
  {
    words := [];
    for i := 0 to |parts|
      invariant words == Filter(parts[..i], IsWord)
      invariant |words| < MaxWords
    {
      FilterSnoc(parts, i, IsWord);
      var p := parts[i];
      p := TrimRun(p);
      if p == [] {
        continue;
      }
      if |p| < 2 {
        continue;
      }
      words := words + [p];
      if |words| >= MaxWords {
        FilterPrefix(parts, i + 1, IsWord);
        return;
      }
    }
    assert parts[..|parts|] == parts;
  }

  // ---------------------------------------------------------------------
  // pow10()
  // ---------------------------------------------------------------------

  /** max(1, min(18, len)) */
  function Clamp(len: int): (n: nat)
    ensures 1 <= n <= MaxPowerDigits
    ensures 1 <= len <= MaxPowerDigits ==> n == len
  {
    if len < 1 then 1 else if len > MaxPowerDigits then MaxPowerDigits else len
  }

  /** pow10(): ten to the clamped length, by repeated multiplication. */
  method PowerOfTen(len: int) returns (p: int)
    ensures p == Pow10(Clamp(len))
  {
    var n := if len < MaxPowerDigits then len else MaxPowerDigits;
    n := if n > 1 then n else 1;
    p := 1;
    for i := 0 to n
      invariant p == Pow10(i)
    {
      p := p * 10;
    }
  }

  // ---------------------------------------------------------------------
  // buildSearchTerms()
  // ---------------------------------------------------------------------

  /** A search term: a token and the number of its decimal digits. */
  datatype Term = Term(value: int, len: int)

  /** The term one query word gives: words shorter than two characters,
      codes that are '' and tokens that are not positive give none. */
  function TermOf(w: string): (t: Option<Term>)
    ensures t.Some? ==> t.value.value > 0 && t.value.len == NumDigits(t.value.value)
  {
    if |w| < 2 then None
    else
      var token := TokenOfCode(CodeOf(w));
      if token.None? then None else Some(Term(token.value, NumDigits(token.value)))
  }

  /** buildSearchTerms(): the terms of the words, repetitions removed, in
      the order of their first occurrence. */
  function SearchTerms(words: seq<string>): seq<Term> {
    Unique(SomeList(words, TermOf))
  }

  /** The terms are pairwise distinct, positive, carry the digit count of
      their token, and are exactly the terms of the words. */
  lemma SearchTermsShape(words: seq<string>)
    ensures Distinct(SearchTerms(words))
    ensures forall t :: t in SearchTerms(words) <==> exists k :: 0 <= k < |words| && TermOf(words[k]) == Some(t)
    ensures forall t :: t in SearchTerms(words) ==> t.value > 0 && t.len == NumDigits(t.value)
  {
    forall t ensures t in SearchTerms(words) <==> exists k :: 0 <= k < |words| && TermOf(words[k]) == Some(t) {
      SomeListMembers(words, TermOf, t);
    }
  }

  /** A word's term is its token, whose digit count is the length of the
      word's code. */
  lemma TermOfCode(w: string)
    requires TermOf(w).Some?
    ensures TermOf(w).value.value == ToInt(CodeOf(w))
    ensures TermOf(w).value.len == |CodeOf(w)|
    ensures CodeOf(w) != [] && CodeOf(w) != "0"
  {
    WordTokenIff(w);
  }

  /** One pass of the first loop of buildSearchTerms() on a word shorter
      than two characters: no term. */
  lemma ShortWordStep(words: seq<string>, i: nat)
    requires i < |words| && |words[i]| < 2
    ensures SomeList(words[..i + 1], TermOf) == SomeList(words[..i], TermOf)
  {
    SomeListStep(words, TermOf, i);
  }

  /** One pass on a longer word: a trimmed code that is '' or reads as a
      non-positive token gives no term, any other gives its token and its
      digit count. */
  lemma TermStep(words: seq<string>, i: nat, code: string)
    requires i < |words| && |words[i]| >= 2 && code == Trim(CodeOf(words[i]))
    ensures code == [] || ToInt(code) <= 0 ==>
      SomeList(words[..i + 1], TermOf) == SomeList(words[..i], TermOf)
    ensures code != [] && ToInt(code) > 0 ==>
      SomeList(words[..i + 1], TermOf) == SomeList(words[..i], TermOf) + [Term(ToInt(code), NumDigits(ToInt(code)))]
  {
    SomeListStep(words, TermOf, i);
  }

  /** buildSearchTerms(): the terms of the words, then the keyed map that
      drops repeated terms. */
  method BuildSearchTerms(words: seq<string>) returns (terms: seq<Term>)
    ensures terms == SearchTerms(words)
  {
    var out := CollectTerms(words);
    if out == [] {
      return [];
    }
    terms := DropRepeatedTerms(out);
  }

  /** The first loop of buildSearchTerms(). */
  method CollectTerms(words: seq<string>) returns (out: seq<Term>)
    ensures out == SomeList(words, TermOf)
  {
    out := [];
    for i := 0 to |words|
      invariant out == SomeList(words[..i], TermOf)
    {
      var w := words[i];
      if |w| < 2 {
        ShortWordStep(words, i);
        continue;
      }
      var code := ColognePhoneticEncoder.Encode(w);
      code := Trim(code);
      TermStep(words, i, code);
      if code == [] {
        continue;
      }
      var token := ToInt(code);
      if token <= 0 {
        continue;
      }
      // strlen((string)$token) is at least 1 for a positive token, so
      // the source's check for a zero length never skips a term.
      out := out + [Term(token, NumDigits(token))];
    }
    assert words[..|words|] == words;
  }

  /** The keyed map of buildSearchTerms(): a term seen before keeps the
      place of its first occurrence. */
  method DropRepeatedTerms(out: seq<Term>) returns (terms: seq<Term>)
    ensures terms == Unique(out)
  {
    terms := [];
    for i := 0 to |out|
      invariant terms == Unique(out[..i])
    {
      assert out[..i + 1][..i] == out[..i];
      var t := out[i];
      if t !in terms {
        terms := terms + [t];
      }
    }
    assert out[..|out|] == out;
  }

  // ---------------------------------------------------------------------
  // The match predicate of search()
  // ---------------------------------------------------------------------

  /** MySQL's % on integers: the remainder takes the sign of the dividend. */
  function SqlMod(a: int, m: int): (r: int)
    requires m > 0
    ensures a >= 0 ==> r == a % m
    ensures -m < r < m
  {
    if a >= 0 then a % m else -((-a) % m)
  }

  /** One condition `(s.token_int % pow) = value`. */
  datatype Condition = Condition(pow: int, value: int)

  predicate RowMatches(token: int, c: Condition) {
    c.pow > 0 && SqlMod(token, c.pow) == c.value
  }

  /** The conditions of the terms, in order. */
  function ConditionsOf(terms: seq<Term>): (conds: seq<Condition>)
    ensures |conds| == |terms|
  {
    seq(|terms|, i requires 0 <= i < |terms| => Condition(Pow10(Clamp(terms[i].len)), terms[i].value))
  }

  /** GROUP BY content_id HAVING SUM(cond_1) > 0 AND ...: every condition is
      met by some row of the id. */
  predicate Having(rows: set<(ContentId, int)>, id: ContentId, conds: seq<Condition>) {
    forall i :: 0 <= i < |conds| ==> MatchedBy(rows, id, conds[i])
  }

  /** SUM(cond) > 0 within the group of `id`. */
  predicate MatchedBy(rows: set<(ContentId, int)>, id: ContentId, c: Condition) {
    exists p :: p in rows && p.0 == id && RowMatches(p.1, c)
  }

  /** WHERE cond_1 OR ...: the rows that meet some condition. */
  function WhereRows(rows: set<(ContentId, int)>, conds: seq<Condition>): set<(ContentId, int)> {
    set p | p in rows && exists i :: 0 <= i < |conds| && RowMatches(p.1, conds[i])
  }

  /** The WHERE clause changes no group's verdict: a row that meets a
      condition is a row WHERE keeps. */
  lemma WhereIsRedundant(rows: set<(ContentId, int)>, id: ContentId, conds: seq<Condition>)
    ensures Having(WhereRows(rows, conds), id, conds) <==> Having(rows, id, conds)
  {
    forall i | 0 <= i < |conds|
      ensures MatchedBy(WhereRows(rows, conds), id, conds[i]) <==> MatchedBy(rows, id, conds[i])
    {
      if MatchedBy(rows, id, conds[i]) {
        var p :| p in rows && p.0 == id && RowMatches(p.1, conds[i]);
        assert p in WhereRows(rows, conds);
      }
    }
  }

  /** The prefix law on the search page: a query word's condition holds for
      an indexed word's token exactly when the query word's code is a prefix
      of the indexed word's code. */
  lemma ConditionIffCodePrefix(indexed: string, query: string)
    requires WordToken(indexed).Some? && TermOf(query).Some?
    requires |CodeOf(query)| <= MaxPowerDigits
    ensures var t := TermOf(query).value;
      RowMatches(WordToken(indexed).value, Condition(Pow10(Clamp(t.len)), t.value))
      <==> |CodeOf(query)| <= |CodeOf(indexed)| && CodeOf(indexed)[..|CodeOf(query)|] == CodeOf(query)
  {
    var c, q := CodeOf(indexed), CodeOf(query);
    WordTokenIff(indexed);
    TermOfCode(query);
    CodeShape(indexed);
    CodeShape(query);
    assert q[|q| - 1] != '0' by {
      if |q| == 1 {
        assert q == [q[0]];
      }
    }
    PrefixIffModulo(c, q);
  }

  /** A one-word query has the word's term as its only term. */
  lemma SearchTermsOfOneWord(query: string)
    requires TermOf(query).Some?
    ensures SearchTerms([query]) == [TermOf(query).value]
  {
    SomeListOfOne([query], TermOf);
    UniqueOfOne(TermOf(query).value);
  }

  lemma UniqueOfOne<T(!new)>(x: T)
    ensures Unique([x]) == [x]
  {
    assert [x][..0] == [];
  }

  /** A single-word query finds every content item that holds a word whose
      code starts with the query word's code. */
  lemma SingleWordQueryFinds(tokens: set<(ContentId, int)>, id: ContentId, indexed: string, query: string)
    requires WordToken(indexed).Some? && (id, WordToken(indexed).value) in tokens
    requires TermOf(query).Some? && |CodeOf(query)| <= MaxPowerDigits
    requires |CodeOf(query)| <= |CodeOf(indexed)| && CodeOf(indexed)[..|CodeOf(query)|] == CodeOf(query)
    ensures Having(tokens, id, ConditionsOf(SearchTerms([query])))
  {
    var t := TermOf(query).value;
    var c := Condition(Pow10(Clamp(t.len)), t.value);
    SearchTermsOfOneWord(query);
    ConditionIffCodePrefix(indexed, query);
    assert ConditionsOf([t]) == [c];
    HavingOne(tokens, id, WordToken(indexed).value, c);
  }

  lemma HavingOne(tokens: set<(ContentId, int)>, id: ContentId, token: int, c: Condition)
    requires (id, token) in tokens && RowMatches(token, c)
    ensures Having(tokens, id, [c])
  {
    assert MatchedBy(tokens, id, c);
  }

  // ---------------------------------------------------------------------
  // The result rows of search()
  // ---------------------------------------------------------------------

  /** One row of the answer. */
  datatype Hit = Hit(contentId: ContentId, directLink: string, title: string, description: string)

  /** The inner SELECT: the ids that pass HAVING, in the order the grouping
      yields them, cut to the first ten. */
  function InnerHits(tokens: set<(ContentId, int)>, conds: seq<Condition>, groupOrder: seq<ContentId>): (ids: seq<ContentId>)
    ensures |ids| <= MaxResults
    ensures forall k :: 0 <= k < |ids| ==> ids[k] in groupOrder && Having(tokens, ids[k], conds)
  {
    var candidates := Filter(groupOrder, id => Having(tokens, id, conds));
    FilterMembership(groupOrder, id => Having(tokens, id, conds));
    if |candidates| <= MaxResults then candidates else candidates[..MaxResults]
  }

  /** INNER JOIN with the link table: the ids that have a link row, in
      order, each with its link, title and description. */
  function Join(ids: seq<ContentId>, links: map<ContentId, string>,
                titleOf: ContentId -> string, descriptionOf: ContentId -> string): (hits: seq<Hit>)
    ensures |hits| <= |ids|
    ensures forall k :: 0 <= k < |hits| ==>
      && hits[k].contentId in ids && hits[k].contentId in links
      && hits[k] == Hit(hits[k].contentId, links[hits[k].contentId], titleOf(hits[k].contentId), descriptionOf(hits[k].contentId))
  {
    var linked := Filter(ids, id => id in links);
    FilterMembership(ids, id => id in links);
    seq(|linked|, k requires 0 <= k < |linked| => Hit(linked[k], links[linked[k]], titleOf(linked[k]), descriptionOf(linked[k])))
  }

  /** The join repeats no content id of a list without repetitions. */
  lemma JoinDistinct(ids: seq<ContentId>, links: map<ContentId, string>,
                     titleOf: ContentId -> string, descriptionOf: ContentId -> string)
    requires Distinct(ids)
    ensures var hits := Join(ids, links, titleOf, descriptionOf);
      forall i, j :: 0 <= i < j < |hits| ==> hits[i].contentId != hits[j].contentId
  {
    var linked := Filter(ids, id => id in links);
    FilterDistinct(ids, id => id in links);
    assert forall k :: 0 <= k < |linked| ==> Join(ids, links, titleOf, descriptionOf)[k].contentId == linked[k];
  }

  /** No id with a link row is lost by the join. */
  lemma JoinComplete(ids: seq<ContentId>, links: map<ContentId, string>,
                     titleOf: ContentId -> string, descriptionOf: ContentId -> string, id: ContentId)
    requires id in ids && id in links
    ensures exists k :: 0 <= k < |Join(ids, links, titleOf, descriptionOf)| && Join(ids, links, titleOf, descriptionOf)[k].contentId == id
  {
    var linked := Filter(ids, id => id in links);
    FilterMembership(ids, id => id in links);
    var k :| 0 <= k < |linked| && linked[k] == id;
    assert Join(ids, links, titleOf, descriptionOf)[k].contentId == id;
  }

  /** Lexicographic order on titles (collations are not modelled). */
  predicate TitleLe(a: string, b: string)
    decreases |a|
  {
    a == [] || (b != [] && (a[0] < b[0] || (a[0] == b[0] && TitleLe(a[1..], b[1..]))))
  }

  lemma {:induction false} TitleLeTotal(a: string, b: string)
    ensures TitleLe(a, b) || TitleLe(b, a)
    decreases |a|
  {
    if a != [] && b != [] && a[0] == b[0] {
      TitleLeTotal(a[1..], b[1..]);
    }
  }

  predicate SortedByTitle(hits: seq<Hit>) {
    forall k :: 0 <= k < |hits| - 1 ==> TitleLe(hits[k].title, hits[k + 1].title)
  }

  /** Insert `h` before the first hit whose title it does not exceed. */
  function InsertByTitle(h: Hit, hits: seq<Hit>): (r: seq<Hit>)
    requires SortedByTitle(hits)
    ensures SortedByTitle(r) && multiset(r) == multiset(hits) + multiset{h}
    ensures r != [] && (r[0] == h || (hits != [] && r[0] == hits[0]))
  {
    if hits == [] then [h]
    else if TitleLe(h.title, hits[0].title) then [h] + hits
    else
      TitleLeTotal(h.title, hits[0].title);
      var rest := InsertByTitle(h, hits[1..]);
      assert hits == [hits[0]] + hits[1..];
      [hits[0]] + rest
  }

  /** ORDER BY title ASC. */
  function SortByTitle(hits: seq<Hit>): (r: seq<Hit>)
    ensures SortedByTitle(r) && multiset(r) == multiset(hits)
  {
    if hits == [] then []
    else
      assert hits == [hits[0]] + hits[1..];
      InsertByTitle(hits[0], SortByTitle(hits[1..]))
  }

  /** The outer SELECT: the inner hits joined with the link table and
      ordered by title. */
  function Answer(tokens: set<(ContentId, int)>, conds: seq<Condition>, groupOrder: seq<ContentId>,
                  links: map<ContentId, string>, titleOf: ContentId -> string, descriptionOf: ContentId -> string): seq<Hit>
  {
    SortByTitle(Join(InnerHits(tokens, conds, groupOrder), links, titleOf, descriptionOf))
  }

  /** The ids that pass HAVING, in group order. */
  function Candidates(tokens: set<(ContentId, int)>, conds: seq<Condition>, groupOrder: seq<ContentId>): seq<ContentId> {
    Filter(groupOrder, id => Having(tokens, id, conds))
  }

  /** GROUP BY content_id: the order in which the database yields the
      groups lists every content id that has token rows, each once, and
      no other id. */
  ghost predicate GroupsOf(tokens: set<(ContentId, int)>, groupOrder: seq<ContentId>) {
    && Distinct(groupOrder)
    && forall id :: id in groupOrder <==> exists t :: (id, t) in tokens
  }

  /** The candidates are the content ids with token rows that pass HAVING,
      each once. */
  lemma CandidatesOfGroups(tokens: set<(ContentId, int)>, conds: seq<Condition>, groupOrder: seq<ContentId>)
    requires GroupsOf(tokens, groupOrder)
    ensures Distinct(Candidates(tokens, conds, groupOrder))
    ensures forall id :: id in Candidates(tokens, conds, groupOrder) <==>
      (exists t :: (id, t) in tokens) && Having(tokens, id, conds)
  {
    FilterDistinct(groupOrder, id => Having(tokens, id, conds));
    FilterMembership(groupOrder, id => Having(tokens, id, conds));
  }

  /** A content id that meets at least one condition has token rows. */
  lemma HavingHasRows(tokens: set<(ContentId, int)>, id: ContentId, conds: seq<Condition>)
    requires conds != [] && Having(tokens, id, conds)
    ensures exists t :: (id, t) in tokens
  {
    assert MatchedBy(tokens, id, conds[0]);
    var p :| p in tokens && p.0 == id && RowMatches(p.1, conds[0]);
    assert (id, p.1) == p;
  }

  /** No content item appears twice in the answer. */
  lemma AnswerDistinct(tokens: set<(ContentId, int)>, conds: seq<Condition>, groupOrder: seq<ContentId>,
                       links: map<ContentId, string>, titleOf: ContentId -> string, descriptionOf: ContentId -> string)
    requires Distinct(groupOrder)
    ensures var rows := Answer(tokens, conds, groupOrder, links, titleOf, descriptionOf);
      forall i, j :: 0 <= i < j < |rows| ==> rows[i].contentId != rows[j].contentId
  {
    var rows := Answer(tokens, conds, groupOrder, links, titleOf, descriptionOf);
    var ids := InnerHits(tokens, conds, groupOrder);
    var joined := Join(ids, links, titleOf, descriptionOf);
    FilterDistinct(groupOrder, id => Having(tokens, id, conds));
    assert Distinct(ids);
    JoinDistinct(ids, links, titleOf, descriptionOf);
    DistinctPermutation(joined, rows);
    forall i, j | 0 <= i < j < |rows|
      ensures rows[i].contentId != rows[j].contentId
    {
      assert rows[i] in multiset(joined) && rows[j] in multiset(joined);
    }
  }

  /** With at most ten candidates, every content item that meets the
      conditions and has a link row is in the answer. */
  lemma AnswerComplete(tokens: set<(ContentId, int)>, conds: seq<Condition>, groupOrder: seq<ContentId>,
                       links: map<ContentId, string>, titleOf: ContentId -> string, descriptionOf: ContentId -> string,
                       id: ContentId)
    requires GroupsOf(tokens, groupOrder)
    requires conds != [] && |Candidates(tokens, conds, groupOrder)| <= MaxResults
    requires Having(tokens, id, conds) && id in links
    ensures exists k :: 0 <= k < |Answer(tokens, conds, groupOrder, links, titleOf, descriptionOf)|
                         && Answer(tokens, conds, groupOrder, links, titleOf, descriptionOf)[k].contentId == id
  {
    var rows := Answer(tokens, conds, groupOrder, links, titleOf, descriptionOf);
    var ids := InnerHits(tokens, conds, groupOrder);
    var joined := Join(ids, links, titleOf, descriptionOf);
    assert multiset(rows) == multiset(joined);
    HavingHasRows(tokens, id, conds);
    FilterMembership(groupOrder, id => Having(tokens, id, conds));
    assert id in ids;
    JoinComplete(ids, links, titleOf, descriptionOf, id);
    var j :| 0 <= j < |joined| && joined[j].contentId == id;
    assert joined[j] in multiset(joined);
    assert joined[j] in rows;
    var k :| 0 <= k < |rows| && rows[k] == joined[j];
  }

  /** The answer has at most ten rows, sorted by title; each is a content
      item that meets every condition and has a link row, and shows that
      row; no item appears twice. When no more than ten items meet the
      conditions, every one of them that has a link row is in the answer. */
  lemma AnswerShape(tokens: set<(ContentId, int)>, conds: seq<Condition>, groupOrder: seq<ContentId>,
                    links: map<ContentId, string>, titleOf: ContentId -> string, descriptionOf: ContentId -> string)
    requires GroupsOf(tokens, groupOrder)
    ensures var rows := Answer(tokens, conds, groupOrder, links, titleOf, descriptionOf);
      && |rows| <= MaxResults
      && SortedByTitle(rows)
      && (forall k :: 0 <= k < |rows| ==>
            && Having(tokens, rows[k].contentId, conds)
            && rows[k].contentId in links
            && rows[k] == Hit(rows[k].contentId, links[rows[k].contentId], titleOf(rows[k].contentId), descriptionOf(rows[k].contentId)))
    ensures var rows := Answer(tokens, conds, groupOrder, links, titleOf, descriptionOf);
      forall i, j :: 0 <= i < j < |rows| ==> rows[i].contentId != rows[j].contentId
    ensures conds != [] && |Candidates(tokens, conds, groupOrder)| <= MaxResults ==>
      forall id :: Having(tokens, id, conds) && id in links ==>
        exists k :: 0 <= k < |Answer(tokens, conds, groupOrder, links, titleOf, descriptionOf)|
          && Answer(tokens, conds, groupOrder, links, titleOf, descriptionOf)[k].contentId == id
  {
    var rows := Answer(tokens, conds, groupOrder, links, titleOf, descriptionOf);
    var ids := InnerHits(tokens, conds, groupOrder);
    var joined := Join(ids, links, titleOf, descriptionOf);
    assert multiset(rows) == multiset(joined);
    forall k | 0 <= k < |rows|
      ensures Having(tokens, rows[k].contentId, conds) && rows[k].contentId in links
      ensures rows[k] == Hit(rows[k].contentId, links[rows[k].contentId], titleOf(rows[k].contentId), descriptionOf(rows[k].contentId))
    {
      assert rows[k] in multiset(rows);
      var j :| 0 <= j < |joined| && joined[j] == rows[k];
      assert joined[j].contentId in ids;
    }
    assert |rows| == |joined| by {
      assert |multiset(rows)| == |multiset(joined)|;
    }
    AnswerDistinct(tokens, conds, groupOrder, links, titleOf, descriptionOf);
    if conds != [] && |Candidates(tokens, conds, groupOrder)| <= MaxResults {
      forall id | Having(tokens, id, conds) && id in links
        ensures exists k :: 0 <= k < |rows| && rows[k].contentId == id
      {
        AnswerComplete(tokens, conds, groupOrder, links, titleOf, descriptionOf, id);
      }
    }
  }

  /** The conditions a query leads to. */
  function QueryConditions(q: string): seq<Condition> {
    ConditionsOf(SearchTerms(FirstWords(NormalizeQuery(q))))
  }

  /** search(): what the page answers for query `q`, given the token and
      link tables, the titles and descriptions of the link rows, whether the
      database connects, and the order in which it yields groups. */
  function SearchResult(q: string, tokens: set<(ContentId, int)>, links: map<ContentId, string>,
                        titleOf: ContentId -> string, descriptionOf: ContentId -> string,
                        connected: bool, groupOrder: seq<ContentId>): seq<Hit>
  {
    var normalized := NormalizeQuery(q);
    if |normalized| < MinQueryChars then []
    else
      var words := FirstWords(normalized);
      var terms := SearchTerms(words);
      if words == [] || terms == [] || !connected then []
      else Answer(tokens, ConditionsOf(terms), groupOrder, links, titleOf, descriptionOf)
  }

  /** A query whose normalised form is shorter than three characters, that
      gives no term, or that meets no connection is answered with no rows;
      any other query is answered with the rows its conditions select. */
  lemma SearchResultCases(q: string, tokens: set<(ContentId, int)>, links: map<ContentId, string>,
                          titleOf: ContentId -> string, descriptionOf: ContentId -> string,
                          connected: bool, groupOrder: seq<ContentId>)
    ensures |NormalizeQuery(q)| < MinQueryChars || QueryConditions(q) == [] || !connected ==>
      SearchResult(q, tokens, links, titleOf, descriptionOf, connected, groupOrder) == []
    ensures !(|NormalizeQuery(q)| < MinQueryChars || QueryConditions(q) == [] || !connected) ==>
      SearchResult(q, tokens, links, titleOf, descriptionOf, connected, groupOrder)
        == Answer(tokens, QueryConditions(q), groupOrder, links, titleOf, descriptionOf)
  {
    var words := FirstWords(NormalizeQuery(q));
    if words == [] {
      assert SearchTerms(words) == [];
    }
  }

  /** The loop of search() that turns each term into its condition. */
  method BuildConditions(terms: seq<Term>) returns (conds: seq<Condition>)
    ensures conds == ConditionsOf(terms)
  {
    conds := [];
    for i := 0 to |terms|
      invariant conds == ConditionsOf(terms[..i])
    {
      var pow := PowerOfTen(terms[i].len);
      conds := conds + [Condition(pow, terms[i].value)];
    }
    assert terms[..|terms|] == terms;
  }

  /** search() */
  method Search(q: string, tokens: set<(ContentId, int)>, links: map<ContentId, string>,
                titleOf: ContentId -> string, descriptionOf: ContentId -> string,
                connected: bool, groupOrder: seq<ContentId>) returns (rows: seq<Hit>)
    ensures rows == SearchResult(q, tokens, links, titleOf, descriptionOf, connected, groupOrder)
  {
    var normalized := NormalizeQuery(q);
    if |normalized| < MinQueryChars {
      return [];
    }
    var words := SplitWords(normalized);
    if words == [] {
      return [];
    }
    var terms := BuildSearchTerms(words);
    if terms == [] {
      return [];
    }
    if !connected {
      return [];
    }
    var conds := BuildConditions(terms);
    rows := SortByTitle(Join(InnerHits(tokens, conds, groupOrder), links, titleOf, descriptionOf));
  }
}
