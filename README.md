# Phonetic full-text search index for ILIAS content, in Dafny

This project models the core of MissionBayIliasSearchIndex and proves properties of the model. The plugin builds a phonetic search index for ILIAS content items:

- **Encoder.** A German "Kölner Phonetik" encoder turns each word into a string of digits (`ColognePhoneticEncoder::encode`).
- **Converter.** The digit string is reversed and read as an integer token (`ReversePhoneticStringToIntConverter::toInt`). A prefix of a code then becomes a remainder modulo a power of ten.
- **Indexer.** It writes the tokens of an item's words into a token table, and its direct link and read roles into two more tables (`FullTextIndexingParserAgentResource`).
- **Search page.** A query is cut into at most six words. An item matches when each query word's code is a prefix of some indexed word's code. The page tests this as `token % 10^len = value` (`IliasSearchIndexDisplay::search`).
- **Proxy.** When chunks are deleted by `content_uuid`, the vector-store proxy deletes the item's index rows (`SearchIndexVectorStoreProxyAgentResource`).

Modules:

- `Text` (`text.dfy`): the PHP string functions the core uses. This covers `trim`, ASCII-only `strtoupper`/`strtolower`, and `mb_strtolower` and `\p{L}` on the letters modelled. It also covers `\s`, letter runs as `preg_replace`/`preg_split` produce them, `array_unique`, and the hexadecimal id form.
- `ReverseConverter` (`reverse_converter.dfy`): `toInt`, `(string)$n`, `strlen`, and the law relating prefixes of codes to remainders of tokens.
- `ColognePhonetic` (`cologne_phonetic.dfy`): the code of a word as a specification (`CodeOf`), with its shape and invariance properties.
- `ColognePhoneticEncoder` (`cologne_encoder.dfy`): `encode()` with its two loops, proved equal to `CodeOf`.
- `ColognePhoneticExamples` (`cologne_examples.dfy`): worked codes that show the encoder's behaviour, including where it departs from the published rules.
- `PhpValues` (`php_values.dfy`): loosely typed metadata and filter values, `?? null` and `(int)`.
- `IndexTables` (`index_tables.dfy`): the three tables, and a class with one method per SQL statement. A table with a composite key is a set of pairs; the link table is a map.
- `FullTextIndexing` (`fulltext_indexing.dfy`): the indexer. Its pure steps are functions; the object with the `stopWords` and `tablesReady` fields is a class.
- `SearchDisplay` (`search_display.dfy`): query normalisation, `splitWords`, `pow10`, `buildSearchTerms` and `search`.
- `VectorStoreProxy` (`index_proxy.dfy`): `extractContentUuidsFromFilter`, `deleteIndexByContentUuidHex` and `deleteByFilter` on the index side.

Conventions:

- Failures outside the core become parameters:
  - `connected`: whether the database connects.
  - `succeeded`: how many DELETE statements run before one throws.
  - `files`: the stop-word lists that could be read.
  - `storeCount`: the real store's answer.
- A term's length is `strlen((string)$token)`, as the code computes it. `ReverseConverter.CodeShapedToken` shows that this equals the code's length for every code the encoder produces.

## Model

| member | source | states |
|---|---|---|
| ReverseConverter.DigitsOf | src/Service/ReversePhoneticStringToIntConverter.php:19 | the result contains only decimal digits |
| ReverseConverter.Reverse | src/Service/ReversePhoneticStringToIntConverter.php:24 | position k of the result holds the character at position len-1-k of the input |
| ReverseConverter.DecimalString | src/Service/ReversePhoneticStringToIntConverter.php:25 | `(string)$n` is a non-empty digit string |
| ReverseConverter.ToIntIsWeightedSum | src/Service/ReversePhoneticStringToIntConverter.php:13-26 | toInt(s) is the sum of d[i]*10^i over the digits d of s; with no digit (including '' after trim) the result is 0 |
| ReverseConverter.ToIntIgnoresNonDigits | src/Service/ReversePhoneticStringToIntConverter.php:19 | non-digit characters do not change the token |
| ReverseConverter.ToIntOfDigits | src/Service/ReversePhoneticStringToIntConverter.php:13-26 | on a digit string the token is the weighted digit sum |
| ReverseConverter.WeightedBound | src/Service/ReversePhoneticStringToIntConverter.php:24-25 | the token of k digits is below 10^k |
| ReverseConverter.WeightedLower | src/Service/ReversePhoneticStringToIntConverter.php:24-25 | k digits whose last digit is not '0' give a token of at least 10^(k-1) |
| ReverseConverter.WeightedModPrefix | src/Service/ReversePhoneticStringToIntConverter.php:24-25 | the token modulo 10^k is the token of the first k digits |
| ReverseConverter.WeightedInjective | src/Service/ReversePhoneticStringToIntConverter.php:24-25 | two digit strings of equal length with equal tokens are equal |
| ReverseConverter.PrefixIffModulo | src/Service/ReversePhoneticStringToIntConverter.php:13-26 | for a query code q ending in a non-zero digit, toInt(c) % 10^\|q\| == toInt(q) if and only if q is a prefix of c |
| ReverseConverter.LongCodeModulo | src/Service/ReversePhoneticStringToIntConverter.php:24-25 | for a code at least as long as q, equality modulo 10^\|q\| holds if and only if q is its prefix |
| ReverseConverter.ShortCodeModulo | src/Service/ReversePhoneticStringToIntConverter.php:24-25 | a code shorter than q (q ending in non-zero) never matches modulo 10^\|q\| |
| ReverseConverter.DecimalStringOfValue | src/Service/ReversePhoneticStringToIntConverter.php:25 | printing the value of a digit string without a leading zero gives the string back |
| ReverseConverter.ReverseDecimalRoundTrip | src/Service/ReversePhoneticStringToIntConverter.php:13-26 | a code not ending in '0' is recovered by printing its token and reversing |
| ReverseConverter.TrailingZeroLost | src/Service/ReversePhoneticStringToIntConverter.php:24-25 | a trailing '0' is lost: toInt(d + "0") == toInt(d) |
| ReverseConverter.CodeShapedToken | src/Service/ReversePhoneticStringToIntConverter.php:13-26 | a code with no '0' after index 0 that is not "0" gives a positive token with as many digits as the code |
| Text.Trim | src/Service/ColognePhoneticEncoder.php:79 | trim() leaves no trim character at either end |
| Text.TrimSlice | src/Service/ColognePhoneticEncoder.php:79 | trim() removes only trim characters, from the two ends |
| Text.TrimEmptyIff | src/Service/ColognePhoneticEncoder.php:79-82 | trim() gives '' exactly when every character is a trim character |
| Text.AsciiUpperStr | src/Service/ColognePhoneticEncoder.php:84 | strtoupper changes a-z to A-Z and keeps every other character |
| Text.AsciiLowerStr | src/Resource/FullTextIndexingParserAgentResource.php:400 | strtolower changes A-Z to a-z and keeps every other character |
| Text.ToLowerStr | src/Resource/FullTextIndexingParserAgentResource.php:311 | mb_strtolower works character by character and keeps letters letters |
| Text.LetterRuns | src/Resource/FullTextIndexingParserAgentResource.php:313-320 | the pieces are non-empty runs of letters |
| Text.WholeRun | src/Resource/FullTextIndexingParserAgentResource.php:313-320 | a non-empty string of letters is one piece |
| Text.NoRuns | src/Resource/FullTextIndexingParserAgentResource.php:313-320 | a string without letters gives no piece |
| Text.RunsSplit | src/Resource/FullTextIndexingParserAgentResource.php:313-320 | a non-letter separates: the pieces of a+c+b are the pieces of a followed by those of b |
| Text.CanonicalHex | src/Resource/FullTextIndexingParserAgentResource.php:412 | a trimmed, upper-cased value with 32 hexadecimal digits uses only 0-9 and A-F |
| Text.Unique | src/Resource/FullTextIndexingParserAgentResource.php:200 | array_unique keeps exactly the elements of the input, each once |
| Text.UniqueFirstOccurrenceOrder | src/Resource/FullTextIndexingParserAgentResource.php:200 | the kept elements appear in the order of their first occurrence |
| Text.UniqueOfDistinct | src/Resource/FullTextIndexingParserAgentResource.php:200 | a sequence without repetitions is unchanged |
| Text.FilterMembership | src/Resource/FullTextIndexingParserAgentResource.php:350-355 | a loop that keeps the passing elements keeps exactly those |
| Text.FilterConcat | src/Resource/FullTextIndexingParserAgentResource.php:350-355 | such a loop works element by element, so it keeps the order |
| ColognePhonetic.GermanFoldStr | src/Service/ColognePhoneticEncoder.php:87-92 | each character is folded on its own (only Ä, Ö, Ü and ß change) |
| ColognePhonetic.Normalize | src/Service/ColognePhoneticEncoder.php:78-97 | the normalised word consists of A-Z only |
| ColognePhonetic.NormalizeWithoutTrim | src/Service/ColognePhoneticEncoder.php:78-97 | the trim step never matters: normalising is folding, then keeping A-Z |
| ColognePhonetic.MapChar | src/Service/ColognePhoneticEncoder.php:99-172 | a letter's code is at most two digits 0-8; it is empty exactly for H and non-letters; only X gives two digits, "48" |
| ColognePhonetic.ContextRules | src/Service/ColognePhoneticEncoder.php:114-153 | the context rules for C (initial and otherwise, after S/Z, before a hard follower including L and R), X after C/K/Q, D/T before C/S/Z, and P before H |
| ColognePhonetic.RawCodes | src/Service/ColognePhoneticEncoder.php:26-49 | the concatenated letter codes are digits, and are empty exactly when every letter so far is H |
| ColognePhonetic.Collapse | src/Service/ColognePhoneticEncoder.php:40-46 | dropping a digit equal to the last one kept keeps the first and last digits and empties only the empty input |
| ColognePhonetic.CollapseNoRepeats | src/Service/ColognePhoneticEncoder.php:40-46 | after collapsing, no two neighbours are equal |
| ColognePhonetic.CollapseFixpoint | src/Service/ColognePhoneticEncoder.php:40-46 | a sequence without adjacent repeats is unchanged, so collapsing is idempotent |
| ColognePhonetic.CollapseSameDigits | src/Service/ColognePhoneticEncoder.php:40-46 | collapsing keeps the same set of digits |
| ColognePhonetic.DropZeros | src/Service/ColognePhoneticEncoder.php:55-75 | the first digit is kept, every later '0' is removed, and the result is empty only for empty input |
| ColognePhonetic.DropZerosKeepsNonZeros | src/Service/ColognePhoneticEncoder.php:59-64 | only zeros are removed; the other digits stay in order |
| ColognePhonetic.EmptyCodeIff | src/Service/ColognePhoneticEncoder.php:13-76 | the code is '' exactly when the normalised word has no letter other than H |
| ColognePhonetic.CodeShape | src/Service/ColognePhoneticEncoder.php:13-76 | the code is made of 0-8, has '0' only at index 0, and starts with '0' exactly when the first emitted digit is '0' |
| ColognePhonetic.EmittedHasNoRepeats | src/Service/ColognePhoneticEncoder.php:26-49 | the emitted digits have no equal neighbours, across the two digits of X as well |
| ColognePhonetic.CodeToken | src/Service/ColognePhoneticEncoder.php:13-76 | a code other than '' and "0" gives a positive token with as many digits as the code |
| ColognePhonetic.FirstDigit | src/Service/ColognePhoneticEncoder.php:26-56 | the first code digit is the first digit of the first letter's code, unless that letter is H |
| ColognePhonetic.InitialC | src/Service/ColognePhoneticEncoder.php:133-137 | a word-initial C gives 4 before a hard follower and 8 otherwise |
| ColognePhonetic.IgnoresAsciiCase | src/Service/ColognePhoneticEncoder.php:84 | upper-casing or lower-casing ASCII letters first does not change the code |
| ColognePhonetic.IgnoresNonLetter | src/Service/ColognePhoneticEncoder.php:95 | inserting a character that normalises to nothing does not change the code |
| ColognePhonetic.NormalizeIgnoresNonLetter | src/Service/ColognePhoneticEncoder.php:95 | the same for the normalised word |
| ColognePhoneticEncoder.PushDigits | src/Service/ColognePhoneticEncoder.php:39-46 | the inner loop extends the collapsed digits by one letter's code and keeps prevCode equal to the last digit kept |
| ColognePhoneticEncoder.EmitLetter | src/Service/ColognePhoneticEncoder.php:27-48 | one pass of the first loop extends the collapsed digits by the code of letter i in its context; an H adds nothing |
| ColognePhoneticEncoder.EmitDigits | src/Service/ColognePhoneticEncoder.php:19-49 | the first loop leaves $out equal to the collapsed raw codes of the normalised word |
| ColognePhoneticEncoder.Encode | src/Service/ColognePhoneticEncoder.php:13-76 | encode() returns exactly CodeOf(word) |
| ColognePhoneticEncoder.KeepFirstDropZeros | src/Service/ColognePhoneticEncoder.php:55-75 | the filtering loop and the final array_filter give DropZeros of the emitted digits |
| ColognePhoneticExamples.MeierMayer | src/Service/ColognePhoneticEncoder.php:13-76 | "Meier" and "Mayer" both encode to "67" |
| ColognePhoneticExamples.LalaGivesDoubleFive | src/Service/ColognePhoneticEncoder.php:55-64 | dropping zeros after the collapse can leave equal neighbours: "LALA" gives "55" |
| ColognePhoneticExamples.Umlauts | src/Service/ColognePhoneticEncoder.php:84-95 | "müller", "mueller" and "MÜLLER" all encode to "657" |
| ColognePhoneticExamples.LowerUmlautDropped | src/Service/ColognePhoneticEncoder.php:84-95 | a lower-case ü is dropped, not folded |
| ColognePhoneticExamples.NonInitialCBeforeL | src/Service/ColognePhoneticEncoder.php:144 | a non-initial C before L is hard: "ACL" gives "045", and the initial 0 is kept |
| PhpValues.Lookup | src/Resource/FullTextIndexingParserAgentResource.php:406 | a missing key reads as null |
| IndexTables.WithoutIdValues | src/Resource/FullTextIndexingParserAgentResource.php:280 | after deleting an id's rows it has none, and other ids keep theirs |
| IndexTables.WithoutIdIdempotent | src/Resource/SearchIndexVectorStoreProxyAgentResource.php:193-195 | deleting twice is deleting once, and deleting an absent id changes nothing |
| IndexTables.RowsForValues | src/Resource/FullTextIndexingParserAgentResource.php:282-287 | inserting rows for an id gives it exactly those values and no other id any |
| IndexTables.ReplaceIdempotent | src/Resource/FullTextIndexingParserAgentResource.php:280-287 | delete-then-insert replaces the id's rows, and a second delete removes them again |
| IndexTables.EscapeIdent | src/Resource/FullTextIndexingParserAgentResource.php:486-492 | the result is a backtick, at least one character from [A-Za-z0-9_], then a backtick |
| IndexTables.EscapeIdentClean | src/Resource/FullTextIndexingParserAgentResource.php:486-492 | a clean non-empty name is only quoted |
| IndexTables.EscapeIdentDrops | src/Resource/SearchIndexVectorStoreProxyAgentResource.php:262-268 | any other character is dropped, and a name with no valid character becomes the default table |
| IndexTables.IndexDatabase.constructor | src/Resource/FullTextIndexingParserAgentResource.php:444-480 | the three tables start empty |
| IndexTables.IndexDatabase.InsertToken | src/Resource/FullTextIndexingParserAgentResource.php:225-235 | INSERT IGNORE adds the pair once; the other tables are unchanged |
| IndexTables.IndexDatabase.UpsertLink | src/Resource/FullTextIndexingParserAgentResource.php:250-254 | insert-or-update sets the id's link; the other tables are unchanged |
| IndexTables.IndexDatabase.InsertRole | src/Resource/FullTextIndexingParserAgentResource.php:284-286 | INSERT IGNORE adds the role row; the other tables are unchanged |
| IndexTables.IndexDatabase.DeleteTokens | src/Resource/SearchIndexVectorStoreProxyAgentResource.php:193 | the id's token rows go; nothing else changes |
| IndexTables.IndexDatabase.DeleteLink | src/Resource/SearchIndexVectorStoreProxyAgentResource.php:194 | the id's link row goes; nothing else changes |
| IndexTables.IndexDatabase.DeleteRoles | src/Resource/FullTextIndexingParserAgentResource.php:280 | the id's role rows go; nothing else changes |
| FullTextIndexing.RequireContentUuidHex | src/Resource/FullTextIndexingParserAgentResource.php:405-419 | a missing or non-string value is the "missing" error; otherwise the result is Ok exactly when the trimmed, upper-cased value is 32 hexadecimal digits, and then the id is canonical |
| FullTextIndexing.StoredIdAccepted | src/Resource/FullTextIndexingParserAgentResource.php:405-419 | an id given in its stored form is accepted as itself |
| FullTextIndexing.LowerCaseIdAccepted | src/Resource/FullTextIndexingParserAgentResource.php:412 | an id given in lower case is accepted as its upper-case form |
| FullTextIndexing.GetLanguage | src/Resource/FullTextIndexingParserAgentResource.php:397-403 | the language is non-empty and has no ASCII capital; it is "de" unless the lang entry is a non-blank string |
| FullTextIndexing.ExtractText | src/Resource/FullTextIndexingParserAgentResource.php:290-303 | the text is trimmed at both ends, and is the trimmed text whenever that is not '' |
| FullTextIndexing.SplitIntoWords | src/Resource/FullTextIndexingParserAgentResource.php:310-338 | every word has at least two characters, all letters |
| FullTextIndexing.SplitAtNonLetter | src/Resource/FullTextIndexingParserAgentResource.php:310-338 | a non-letter separates words: the words of a+c+b are the words of a then those of b |
| FullTextIndexing.SplitSingleRun | src/Resource/FullTextIndexingParserAgentResource.php:326-335 | a run of letters is one lower-cased word when it has two or more characters, otherwise none |
| FullTextIndexing.FilterStopWords | src/Resource/FullTextIndexingParserAgentResource.php:344-358 | with no stop words the words are returned unchanged; the result is never longer |
| FullTextIndexing.FilterStopWordsMembers | src/Resource/FullTextIndexingParserAgentResource.php:350-355 | a word is kept exactly when it is not a stop word |
| FullTextIndexing.FilterStopWordsConcat | src/Resource/FullTextIndexingParserAgentResource.php:350-355 | the filter works word by word and keeps the order |
| FullTextIndexing.StopEntry | src/Resource/FullTextIndexingParserAgentResource.php:384-391 | every key a list entry yields is non-empty and trimmed |
| FullTextIndexing.StopSetOf | src/Resource/FullTextIndexingParserAgentResource.php:382-394 | a word is a stop word exactly when some list entry yields it, and every stop word is trimmed and non-empty |
| FullTextIndexing.TokenOfCode | src/Resource/FullTextIndexingParserAgentResource.php:211-219 | a code yields a token only when the token is positive |
| FullTextIndexing.WordTokenIff | src/Resource/FullTextIndexingParserAgentResource.php:210-222 | a word yields a token exactly when its code is neither '' nor "0"; the token is toInt(code) and has as many digits as the code |
| FullTextIndexing.TokenOfShapedCode | src/Resource/FullTextIndexingParserAgentResource.php:211-219 | for an encoder-shaped code the token exists exactly when the code is neither '' nor "0", and then it is toInt(code) |
| FullTextIndexing.WordTokensMembers | src/Resource/FullTextIndexingParserAgentResource.php:210-222 | a token is indexed exactly when some word yields it, and every indexed token is positive |
| FullTextIndexing.PositiveIds | src/Resource/FullTextIndexingParserAgentResource.php:264-269 | the kept ids are exactly the positive (int) casts of the entries |
| FullTextIndexing.RoleIdsOf | src/Resource/FullTextIndexingParserAgentResource.php:257-274 | the role ids are distinct and positive |
| FullTextIndexing.ReplaceRolesMeaning | src/Resource/FullTextIndexingParserAgentResource.php:257-288 | the role ids are exactly the positive (int) casts of the read_roles entries; with none the role rows are untouched, otherwise the id's rows become exactly those ids; other ids keep their rows |
| FullTextIndexing.NoSurvivingWords | src/Resource/FullTextIndexingParserAgentResource.php:185-203 | no text, no word, or only stop words leave nothing to index |
| FullTextIndexing.TokenRowsStep | src/Resource/FullTextIndexingParserAgentResource.php:210-222 | one pass of the token loop adds the row of a positive token and nothing otherwise |
| FullTextIndexing.ReindexTokensIdempotent | src/Resource/FullTextIndexingParserAgentResource.php:210-235 | indexing the same words twice leaves the token table as indexing once |
| FullTextIndexing.ReindexLinksIdempotent | src/Resource/FullTextIndexingParserAgentResource.php:237-255 | the same for the link table |
| FullTextIndexing.ReindexRolesIdempotent | src/Resource/FullTextIndexingParserAgentResource.php:257-288 | the same for the role table: an id's roles are replaced, not added to |
| FullTextIndexing.IndexingTouchesOwnId | src/Resource/FullTextIndexingParserAgentResource.php:205-222 | indexing changes no other id's token or role rows |
| FullTextIndexing.IndexedRowsOfId | src/Resource/FullTextIndexingParserAgentResource.php:207-222 | the id's token rows gain exactly its words' tokens, and its role rows become exactly its role ids when there are any |
| FullTextIndexing.FullTextIndexer.constructor | src/Resource/FullTextIndexingParserAgentResource.php:41-57 | no stop words are loaded and the tables are not yet ready |
| FullTextIndexing.FullTextIndexer.EnsureTables | src/Resource/FullTextIndexingParserAgentResource.php:430-442 | afterwards the tables are ready |
| FullTextIndexing.FullTextIndexer.EnsureStopWordsLoaded | src/Resource/FullTextIndexingParserAgentResource.php:360-395 | a loaded map is kept; otherwise the map becomes the stop words of the language's list, or stays empty |
| FullTextIndexing.FullTextIndexer.UpsertDirectLink | src/Resource/FullTextIndexingParserAgentResource.php:237-255 | a non-blank string link is stored trimmed under the id; nothing else changes |
| FullTextIndexing.FullTextIndexer.ReplaceReadRoles | src/Resource/FullTextIndexingParserAgentResource.php:257-288 | the id's role rows become its role ids when there are any; nothing else changes |
| FullTextIndexing.FullTextIndexer.InsertWordTokens | src/Resource/FullTextIndexingParserAgentResource.php:210-222 | the token table gains exactly the rows of the words' tokens |
| FullTextIndexing.FullTextIndexer.InsertWordToken | src/Resource/FullTextIndexingParserAgentResource.php:211-221 | one pass of the token loop adds the row of the word's token when the trimmed code is non-empty and reads as a positive token, and nothing otherwise |
| FullTextIndexing.FullTextIndexer.IndexParsedContent | src/Resource/FullTextIndexingParserAgentResource.php:178-223 | an invalid id fails with its error and changes nothing; otherwise all three tables are updated for the surviving words, and nothing is written when no word survives |
| FullTextIndexing.FullTextIndexer.Parse | src/Resource/FullTextIndexingParserAgentResource.php:119-133 | tables ready, stop words for the item's language loaded once, then indexing as above |
| SearchDisplay.CollapseSpaces | src/Display/IliasSearchIndexDisplay.php:248 | a white-space character becomes a blank and the result is never longer |
| SearchDisplay.CollapseSpacesSingleBlanks | src/Display/IliasSearchIndexDisplay.php:248 | afterwards white space occurs only as single blanks |
| SearchDisplay.CollapseSpacesKeepsText | src/Display/IliasSearchIndexDisplay.php:248 | all other characters are kept, in order |
| SearchDisplay.CollapseSpacesFixpoint | src/Display/IliasSearchIndexDisplay.php:248 | a string of single blanks is unchanged |
| SearchDisplay.CollapseSpacesIdempotent | src/Display/IliasSearchIndexDisplay.php:248 | collapsing twice is collapsing once |
| SearchDisplay.NormalizeQueryShape | src/Display/IliasSearchIndexDisplay.php:246-250 | the normalised query has single blanks, keeps the other characters of the trimmed query in order, and is never longer |
| SearchDisplay.FirstWords | src/Display/IliasSearchIndexDisplay.php:255-287 | at most six words, each of two or more letters |
| SearchDisplay.SplitWords | src/Display/IliasSearchIndexDisplay.php:255-287 | the loop with its break returns the first six words of the indexer's splitting |
| SearchDisplay.TakeWords | src/Display/IliasSearchIndexDisplay.php:271-286 | the loop keeps the parts of two or more characters and stops after the sixth |
| SearchDisplay.Clamp | src/Display/IliasSearchIndexDisplay.php:290 | the length is clamped to 1..18 and left alone inside that range |
| SearchDisplay.PowerOfTen | src/Display/IliasSearchIndexDisplay.php:289-296 | the multiplying loop returns 10 to the clamped length |
| SearchDisplay.TermOf | src/Display/IliasSearchIndexDisplay.php:179-199 | a word's term has a positive value and the value's digit count as its length |
| SearchDisplay.TermOfCode | src/Display/IliasSearchIndexDisplay.php:184-199 | a term's value is toInt of the word's code, and its length is the code's length |
| SearchDisplay.SearchTermsShape | src/Display/IliasSearchIndexDisplay.php:176-214 | the terms are pairwise distinct, positive, and exactly the terms of the words |
| SearchDisplay.BuildSearchTerms | src/Display/IliasSearchIndexDisplay.php:176-214 | the two loops return the words' terms without repeats, in first-occurrence order |
| SearchDisplay.CollectTerms | src/Display/IliasSearchIndexDisplay.php:179-200 | the first loop returns the terms of the words, in order |
| SearchDisplay.DropRepeatedTerms | src/Display/IliasSearchIndexDisplay.php:206-213 | the keyed map keeps each term once, at its first position |
| SearchDisplay.SqlMod | src/Display/IliasSearchIndexDisplay.php:130 | MySQL's % agrees with the mathematical remainder on non-negative tokens and stays inside (-m, m) |
| SearchDisplay.ConditionsOf | src/Display/IliasSearchIndexDisplay.php:128-134 | one condition per term |
| SearchDisplay.WhereIsRedundant | src/Display/IliasSearchIndexDisplay.php:136-151 | the WHERE clause changes no group's HAVING verdict |
| SearchDisplay.ConditionIffCodePrefix | src/Display/IliasSearchIndexDisplay.php:128-133 | a query word's condition holds for an indexed word's token exactly when the query code is a prefix of the indexed code (query codes up to 18 digits) |
| SearchDisplay.SingleWordQueryFinds | src/Display/IliasSearchIndexDisplay.php:128-151 | a one-word query selects every item holding a word whose code starts with the query word's code |
| SearchDisplay.SearchTermsOfOneWord | src/Display/IliasSearchIndexDisplay.php:176-214 | a one-word query has that word's term as its only term |
| SearchDisplay.InnerHits | src/Display/IliasSearchIndexDisplay.php:146-153 | at most ten ids, each passing HAVING |
| SearchDisplay.Join | src/Display/IliasSearchIndexDisplay.php:154 | each joined row is an inner hit with a link row and shows that row |
| SearchDisplay.JoinComplete | src/Display/IliasSearchIndexDisplay.php:154 | no inner hit with a link row is lost |
| SearchDisplay.TitleLeTotal | src/Display/IliasSearchIndexDisplay.php:155 | the title order is total |
| SearchDisplay.InsertByTitle | src/Display/IliasSearchIndexDisplay.php:155 | inserting into sorted rows keeps them sorted and adds exactly the row |
| SearchDisplay.SortByTitle | src/Display/IliasSearchIndexDisplay.php:155 | ORDER BY title gives a sorted permutation of the rows |
| SearchDisplay.CandidatesOfGroups | src/Display/IliasSearchIndexDisplay.php:146-151 | when the groups are exactly the ids with token rows, each once, the ids passing HAVING are exactly the ids with token rows that meet every condition, each once |
| SearchDisplay.HavingHasRows | src/Display/IliasSearchIndexDisplay.php:146-151 | an id that passes HAVING on at least one condition has token rows, so GROUP BY yields it |
| SearchDisplay.JoinDistinct | src/Display/IliasSearchIndexDisplay.php:154 | the join repeats no content id of inner hits without repeats |
| SearchDisplay.AnswerDistinct | src/Display/IliasSearchIndexDisplay.php:141-156 | with each group yielded once, no content item appears twice in the answer |
| SearchDisplay.AnswerComplete | src/Display/IliasSearchIndexDisplay.php:141-156 | with the groups as GROUP BY yields them, non-empty conditions and at most ten candidates, an item with a link row that meets every condition is in the answer |
| SearchDisplay.AnswerShape | src/Display/IliasSearchIndexDisplay.php:141-156 | with the groups as GROUP BY yields them (every id with token rows, each once): at most ten rows sorted by title, each an item with a link row that meets every condition, no item twice; with non-empty conditions and at most ten candidates, every item with a link row that meets every condition is present |
| SearchDisplay.SearchResultCases | src/Display/IliasSearchIndexDisplay.php:98-120 | a short query, a query without terms or a missing connection gives no rows; otherwise the answer to the query's conditions |
| SearchDisplay.BuildConditions | src/Display/IliasSearchIndexDisplay.php:128-134 | the loop builds the condition of each term with pow10 |
| SearchDisplay.Search | src/Display/IliasSearchIndexDisplay.php:98-171 | search() returns exactly the specified result |
| VectorStoreProxy.EntryId | src/Resource/SearchIndexVectorStoreProxyAgentResource.php:162-168 | an entry yields an id only if it is canonical |
| VectorStoreProxy.ContentUuidsCanonical | src/Resource/SearchIndexVectorStoreProxyAgentResource.php:151-174 | every extracted id is 32 upper-case hexadecimal digits, and no id comes twice |
| VectorStoreProxy.ContentUuidsOfList | src/Resource/SearchIndexVectorStoreProxyAgentResource.php:159-171 | an array names exactly the ids some string entry spells, after trim and upper-casing |
| VectorStoreProxy.ContentUuidsOfScalar | src/Resource/SearchIndexVectorStoreProxyAgentResource.php:152-157 | a valid string names its canonical form; an invalid string, a missing key or any other value names nothing |
| VectorStoreProxy.ContentUuidsOrder | src/Resource/SearchIndexVectorStoreProxyAgentResource.php:170 | the ids keep the order of their first occurrence |
| VectorStoreProxy.ExtractContentUuidsFromFilter | src/Resource/SearchIndexVectorStoreProxyAgentResource.php:151-174 | the loop returns exactly the specified ids |
| VectorStoreProxy.DeleteIndexRemovesOnlyId | src/Resource/SearchIndexVectorStoreProxyAgentResource.php:192-197 | after a delete that does not throw, the id has no token, link or role rows, and every other id keeps its rows |
| VectorStoreProxy.RowKeyCanonical | src/Resource/SearchIndexVectorStoreProxyAgentResource.php:177-186 | a valid argument addresses a canonical id, and a canonical id addresses itself |
| VectorStoreProxy.DeleteIndexIdempotent | src/Resource/SearchIndexVectorStoreProxyAgentResource.php:176-201 | deleting again changes nothing, however the second run ends |
| VectorStoreProxy.DeleteAbsentIndex | src/Resource/SearchIndexVectorStoreProxyAgentResource.php:176-201 | deleting an id without rows changes nothing |
| VectorStoreProxy.DeleteAllRemovesListed | src/Resource/SearchIndexVectorStoreProxyAgentResource.php:114-116 | after deletes that all complete, listed ids have no rows and unlisted ids keep theirs |
| VectorStoreProxy.DeleteByFilterRemovesNamed | src/Resource/SearchIndexVectorStoreProxyAgentResource.php:110-119 | a filter removes all rows of the ids it names and no one else's |
| VectorStoreProxy.SearchIndexProxy.constructor | src/Resource/SearchIndexVectorStoreProxyAgentResource.php:27-34 | the tables are not yet ready |
| VectorStoreProxy.SearchIndexProxy.EnsureTables | src/Resource/SearchIndexVectorStoreProxyAgentResource.php:203-218 | the flag is set once a connection is made, and stays set |
| VectorStoreProxy.SearchIndexProxy.DeleteIndexByContentUuidHex | src/Resource/SearchIndexVectorStoreProxyAgentResource.php:176-201 | nothing changes for an invalid argument or without a connection; otherwise the token, link and role rows go in that order until a statement throws, and the exception is swallowed |
| VectorStoreProxy.SearchIndexProxy.DeleteByFilter | src/Resource/SearchIndexVectorStoreProxyAgentResource.php:110-119 | the tables are made ready, each extracted id is deleted in order, and the real store's count is returned unchanged |

## Left out

- I/O and plumbing are not modelled:
  - SQL text, `CREATE TABLE`, `connect`/`escape` and `multiQuery`.
  - Reading stop-word files (`is_file`, `parse_ini_file`): `files` maps a language to its list, and a missing language stands for a missing or unreadable file.
  - Logging, dock and config wiring, class-map lookup of the two services, and the "missing phonetic services" exception.
  - Delegation to the inner parsers, the vector-store forwarding methods, the HTML/JSON output of the page, and `json_encode` (the structured part arrives already encoded).
- The link table the code creates has no `title` or `description` column, yet the search selects and orders by them. Titles and descriptions are therefore abstract functions of the content id.
- Collations are not modelled: titles are ordered lexicographically by code point.
- `LIMIT 10` before the join takes the first ten groups in an order the database chooses. That order is the parameter `groupOrder`. `GroupsOf` states what GROUP BY guarantees of it: it lists every content id with token rows, each once. `Search` and `SearchResultCases` hold for every `groupOrder`, so they do not require it; `AnswerShape` does.
- ReverseConverter.ToInt: PHP's `(int)` on a numeric string above PHP_INT_MAX (9223372036854775807) saturates at PHP_INT_MAX. It does not wrap. The model's integers are unbounded, so every code of 20 or more digits gets a distinct token here, while the source gives them all the same 19-digit token. `ReverseConverter.CodeShapedToken`, `ColognePhonetic.CodeToken`, `FullTextIndexing.WordTokenIff` and `FullTextIndexing.TokenOfShapedCode` therefore state "as many digits as the code" and the value `toInt(code)` beyond what the source keeps for such codes. Codes of 19 digits that exceed PHP_INT_MAX are affected the same way.
- SearchDisplay.ConditionIffCodePrefix: requires query codes of at most 18 digits. The saturated tokens of longer codes are not modelled; integers are unbounded.
- SearchDisplay.SingleWordQueryFinds: requires a query code of at most 18 digits, for the same reason. It relies on the same prefix law.
- FullTextIndexing.ReplaceRolesMeaning: the `role_id` column is `INT`. Under `INSERT IGNORE` (src/Resource/FullTextIndexingParserAgentResource.php:284-286) MySQL clamps a role id above 2147483647 to 2147483647, so two such ids give one row. The model stores the cast value unclamped. `IndexTables.IndexDatabase.InsertRole` and `FullTextIndexing.IndexedRowsOfId` state the unclamped row in the same way.
- SearchDisplay.CollectTerms: leaves out the source's `strlen((string)$token) <= 0` check. That length is at least 1 for every positive token, so the check never skips a term.
- SearchDisplay.TrimRun: the loop of `splitWords` trims each part. A part is a run of letters, so trimming never changes it; the model states this rather than repeating the trim.
- Unicode is approximated:
  - `\p{L}` covers ASCII, Latin-1 Supplement and Latin Extended-A letters.
  - `mb_strtolower` covers ASCII and Latin-1 capitals.
  - `mb_strlen` is the length in code points.
- The encoder's `str_split` works on bytes. The model works on code points; the two agree because every non-ASCII byte is removed by the A-Z filter anyway.
- PhpValues.IntCast: `(int)` on strings reads leading white space, a sign and digits. Exponent forms and floats are not modelled. A numeric string beyond the 64-bit range saturates in PHP; the model's cast does not.
- The `(value, len)` key string of the de-duplication map is the term itself.
- Some loops and loop bodies are separate methods with unchanged behaviour:
  - the token loop of `indexParsedContent` is `InsertWordTokens`, and its body is `InsertWordToken`;
  - the keyed de-duplication of `buildSearchTerms` is `DropRepeatedTerms`;
  - the body of `encode()`'s first loop is `EmitLetter`.
- Connection failures are one flag per call (`connected`). Exceptions thrown by INSERT statements in the indexer are not modelled.
