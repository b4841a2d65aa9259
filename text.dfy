/// Character classes and string operations shared by the phonetic encoder,
/// the two tokenizers and the content-identifier checks: PHP's `trim()`,
/// ASCII case mapping (`strtoupper`/`strtolower`), the letter class and
/// lower-casing the tokenizers use (`\p{L}`, `mb_strtolower`), `\s` under
/// the `u` flag, `ctype_xdigit`, and `array_values(array_unique(...))`.
module Text {

  // ---------------------------------------------------------------------
  // trim()
  // ---------------------------------------------------------------------

  /** The characters PHP's trim() strips by default: " \t\n\r\0\x0B". */
  predicate IsTrimChar(c: char) {
    c == ' ' || c == '\t' || c == '\n' || c == '\r' || c == '\0' || c == '\U{B}'
  }

  /** ltrim(): drops the leading trim characters and nothing else. */
  function TrimLeft(s: string): (r: string)
    ensures |r| <= |s| && r == s[|s| - |r|..]
    ensures forall k :: 0 <= k < |s| - |r| ==> IsTrimChar(s[k])
    ensures r != [] ==> !IsTrimChar(r[0])
  {
    if s != [] && IsTrimChar(s[0]) then TrimLeft(s[1..]) else s
  }

  /** rtrim(): drops the trailing trim characters and nothing else. */
  function TrimRight(s: string): (r: string)
    ensures |r| <= |s| && r == s[..|r|]
    ensures forall k :: |r| <= k < |s| ==> IsTrimChar(s[k])
    ensures r != [] ==> !IsTrimChar(r[|r| - 1])
  {
    if s != [] && IsTrimChar(s[|s| - 1]) then TrimRight(s[..|s| - 1]) else s
  }

  /** trim(): the longest infix of `s` that neither starts nor ends with a trim character. */
  function Trim(s: string): (r: string)
    ensures |r| <= |s|
    ensures r != [] ==> !IsTrimChar(r[0]) && !IsTrimChar(r[|r| - 1])
  {
    TrimRight(TrimLeft(s))
  }

  /** What trim() removes is trim characters only: `s` is a prefix of trim
      characters, then `Trim(s)`, then a suffix of trim characters. */
  lemma TrimSlice(s: string) returns (i: nat)
    ensures i + |Trim(s)| <= |s| && Trim(s) == s[i..i + |Trim(s)|]
    ensures forall k :: 0 <= k < i ==> IsTrimChar(s[k])
    ensures forall k :: i + |Trim(s)| <= k < |s| ==> IsTrimChar(s[k])
  {
    var l := TrimLeft(s);
    i := |s| - |l|;
    var r := TrimRight(l);
    assert r == l[..|r|];
    assert l == s[i..];
    forall k | i + |r| <= k < |s| ensures IsTrimChar(s[k]) {
      assert s[k] == l[k - i];
    }
  }

  lemma TrimLeftSplit(s: string) returns (a: string)
    ensures s == a + TrimLeft(s)
    ensures forall k :: 0 <= k < |a| ==> IsTrimChar(a[k])
  {
    a := s[..|s| - |TrimLeft(s)|];
  }

  lemma TrimRightSplit(s: string) returns (b: string)
    ensures s == TrimRight(s) + b
    ensures forall k :: 0 <= k < |b| ==> IsTrimChar(b[k])
  {
    var r := TrimRight(s);
    b := s[|r|..];
    forall k | 0 <= k < |b| ensures IsTrimChar(b[k]) {
      assert b[k] == s[|r| + k];
    }
  }

  /** `s` splits into trim characters, `Trim(s)` and trim characters. */
  lemma TrimSplit(s: string) returns (a: string, b: string)
    ensures s == a + (Trim(s) + b)
    ensures forall k :: 0 <= k < |a| ==> IsTrimChar(a[k])
    ensures forall k :: 0 <= k < |b| ==> IsTrimChar(b[k])
  {
    a := TrimLeftSplit(s);
    b := TrimRightSplit(TrimLeft(s));
  }

  /** A string that does not start or end with a trim character is its own trim. */
  lemma TrimNoop(s: string)
    requires s != [] ==> !IsTrimChar(s[0]) && !IsTrimChar(s[|s| - 1])
    ensures TrimLeft(s) == s && TrimRight(s) == s && Trim(s) == s
  {
  }

  /** trim() yields '' exactly when every character is a trim character. */
  lemma {:induction false} TrimEmptyIff(s: string)
    ensures Trim(s) == [] <==> forall k :: 0 <= k < |s| ==> IsTrimChar(s[k])
  {
    var i := TrimSlice(s);
    if Trim(s) != [] {
      assert !IsTrimChar(s[i]);
    }
  }

  // ---------------------------------------------------------------------
  // Filtering and mapping
  // ---------------------------------------------------------------------

  /** The elements of `s` that satisfy `p`, in order. */
  function Filter<T(!new)>(s: seq<T>, p: T -> bool): (r: seq<T>)
    ensures |r| <= |s|
    ensures forall k :: 0 <= k < |r| ==> p(r[k])
  {
    if s == [] then [] else (if p(s[0]) then [s[0]] else []) + Filter(s[1..], p)
  }

  /** Filter keeps exactly the elements that pass. */
  lemma {:induction false} FilterMembership<T(!new)>(s: seq<T>, p: T -> bool)
    ensures forall x :: x in Filter(s, p) <==> x in s && p(x)
  {
    if s != [] {
      FilterMembership(s[1..], p);
      assert s == [s[0]] + s[1..];
    }
  }

  lemma {:induction false} FilterConcat<T(!new)>(a: seq<T>, b: seq<T>, p: T -> bool)
    ensures Filter(a + b, p) == Filter(a, p) + Filter(b, p)
  {
    if a == [] {
      assert a + b == b;
    } else {
      assert (a + b)[1..] == a[1..] + b;
      FilterConcat(a[1..], b, p);
    }
  }

  /** Filtering one more element appends it when it passes. */
  lemma FilterSnoc<T(!new)>(s: seq<T>, i: nat, p: T -> bool)
    requires i < |s|
    ensures Filter(s[..i + 1], p) == Filter(s[..i], p) + (if p(s[i]) then [s[i]] else [])
  {
    assert s[..i + 1] == s[..i] + [s[i]];
    FilterConcat(s[..i], [s[i]], p);
    assert [s[i]][1..] == [];
  }

  /** What a prefix filters to is a prefix of what the whole filters to. */
  lemma FilterPrefix<T(!new)>(s: seq<T>, i: nat, p: T -> bool)
    requires i <= |s|
    ensures |Filter(s[..i], p)| <= |Filter(s, p)|
    ensures Filter(s, p)[..|Filter(s[..i], p)|] == Filter(s[..i], p)
  {
    assert s == s[..i] + s[i..];
    FilterConcat(s[..i], s[i..], p);
  }

  /** Filtering keeps a sequence whose every element passes. */
  lemma {:induction false} FilterAll<T(!new)>(s: seq<T>, p: T -> bool)
    requires forall k :: 0 <= k < |s| ==> p(s[k])
    ensures Filter(s, p) == s
  {
    if s != [] {
      FilterAll(s[1..], p);
    }
  }

  /** Filtering drops a sequence whose every element fails. */
  lemma {:induction false} FilterNone<T(!new)>(s: seq<T>, p: T -> bool)
    requires forall k :: 0 <= k < |s| ==> !p(s[k])
    ensures Filter(s, p) == []
  {
    if s != [] {
      FilterNone(s[1..], p);
    }
  }

  /** A middle part that filters to nothing can be left out before filtering. */
  lemma FilterDropMiddle<T(!new)>(a: seq<T>, m: seq<T>, b: seq<T>, p: T -> bool)
    requires Filter(m, p) == []
    ensures Filter(a + m + b, p) == Filter(a + b, p)
  {
    FilterConcat(a + m, b, p);
    FilterConcat(a, m, p);
    FilterConcat(a, b, p);
  }

  /** Filtering after trim() is filtering, when `p` rejects every trim character. */
  lemma FilterTrim(s: string, p: char -> bool)
    requires forall c :: IsTrimChar(c) ==> !p(c)
    ensures Filter(Trim(s), p) == Filter(s, p)
  {
    var i := TrimSlice(s);
    var j := i + |Trim(s)|;
    assert s == s[..i] + s[i..j] + s[j..];
    FilterConcat(s[..i] + s[i..j], s[j..], p);
    FilterConcat(s[..i], s[i..j], p);
    FilterNone(s[..i], p);
    FilterNone(s[j..], p);
  }

  // ---------------------------------------------------------------------
  // ASCII case mapping: strtoupper / strtolower (locale-independent since PHP 8)
  // ---------------------------------------------------------------------

  predicate IsAsciiUpper(c: char) { 'A' <= c <= 'Z' }

  predicate IsAsciiLower(c: char) { 'a' <= c <= 'z' }

  function AsciiUpper(c: char): (u: char)
    ensures IsAsciiLower(c) ==> IsAsciiUpper(u) && u as int == c as int - 32
    ensures !IsAsciiLower(c) ==> u == c
  {
    if IsAsciiLower(c) then (c as int - 32) as char else c
  }

  function AsciiLower(c: char): (l: char)
    ensures IsAsciiUpper(c) ==> IsAsciiLower(l) && l as int == c as int + 32
    ensures !IsAsciiUpper(c) ==> l == c
  {
    if IsAsciiUpper(c) then (c as int + 32) as char else c
  }

  /** strtoupper(): ASCII letters only; every other character is kept. */
  function AsciiUpperStr(s: string): (r: string)
    ensures |r| == |s| && forall k :: 0 <= k < |s| ==> r[k] == AsciiUpper(s[k])
  {
    seq(|s|, k requires 0 <= k < |s| => AsciiUpper(s[k]))
  }

  /** strtolower(): ASCII letters only; every other character is kept. */
  function AsciiLowerStr(s: string): (r: string)
    ensures |r| == |s| && forall k :: 0 <= k < |s| ==> r[k] == AsciiLower(s[k])
  {
    seq(|s|, k requires 0 <= k < |s| => AsciiLower(s[k]))
  }

  // ---------------------------------------------------------------------
  // The letter class \p{L}, mb_strtolower and \s (with the `u` flag)
  // ---------------------------------------------------------------------

  /** `\p{L}` on the part of Unicode this model covers: ASCII, Latin-1
      Supplement and Latin Extended-A letters. */
  predicate IsLetter(c: char) {
    || IsAsciiUpper(c) || IsAsciiLower(c)
    || c == '\U{AA}' || c == '\U{B5}' || c == '\U{BA}'
    || ('\U{C0}' <= c <= '\U{FF}' && c != '\U{D7}' && c != '\U{F7}')
    || ('\U{100}' <= c <= '\U{17F}')
  }

  /** mb_strtolower() on one character, for ASCII and Latin-1 capitals. */
  function ToLower(c: char): (l: char)
    ensures IsLetter(c) ==> IsLetter(l)
  {
    if IsAsciiUpper(c) || ('\U{C0}' <= c <= '\U{DE}' && c != '\U{D7}') then (c as int + 32) as char else c
  }

  /** mb_strtolower() on a string. */
  function ToLowerStr(s: string): (r: string)
    ensures |r| == |s| && forall k :: 0 <= k < |s| ==> r[k] == ToLower(s[k])
  {
    seq(|s|, k requires 0 <= k < |s| => ToLower(s[k]))
  }

  lemma ToLowerConcat(a: string, b: string)
    ensures ToLowerStr(a + b) == ToLowerStr(a) + ToLowerStr(b)
  {
  }

  /** `\s` under PCRE's Unicode property mode: the Unicode white-space characters. */
  predicate IsSpace(c: char) {
    || c == ' ' || c == '\t' || c == '\n' || c == '\U{B}' || c == '\U{C}' || c == '\r'
    || c == '\U{85}' || c == '\U{A0}' || c == '\U{1680}'
    || ('\U{2000}' <= c <= '\U{200A}')
    || c == '\U{2028}' || c == '\U{2029}' || c == '\U{202F}' || c == '\U{205F}' || c == '\U{3000}'
  }

  // ---------------------------------------------------------------------
  // Letter runs: preg_replace('/[^\p{L}]+/u', ' ') + trim + preg_split('/\s+/u')
  // ---------------------------------------------------------------------

  predicate AllLetters(w: string) {
    forall k :: 0 <= k < |w| ==> IsLetter(w[k])
  }

  /** The length of the run of letters `s` starts with. */
  function LeadingLetters(s: string): (n: nat)
    ensures n <= |s|
    ensures forall k :: 0 <= k < n ==> IsLetter(s[k])
    ensures n < |s| ==> !IsLetter(s[n])
  {
    if s != [] && IsLetter(s[0]) then 1 + LeadingLetters(s[1..]) else 0
  }

  /** The maximal runs of letters in `s`, left to right. Replacing every run
      of non-letters by one space, trimming and splitting on white space
      yields exactly these pieces, since no letter is white space. */
  function LetterRuns(s: string): (runs: seq<string>)
    ensures forall i :: 0 <= i < |runs| ==> runs[i] != [] && AllLetters(runs[i])
    decreases |s|
  {
    if s == [] then []
    else if !IsLetter(s[0]) then LetterRuns(s[1..])
    else
      var n := LeadingLetters(s);
      [s[..n]] + LetterRuns(s[n..])
  }

  /** A non-empty string of letters is a single run. */
  lemma WholeRun(w: string)
    requires w != [] && AllLetters(w)
    ensures LetterRuns(w) == [w]
  {
    LeadingLettersOfLetters(w);
    assert w[..|w|] == w && w[|w|..] == [];
  }

  lemma {:induction false} LeadingLettersOfLetters(w: string)
    requires AllLetters(w)
    ensures LeadingLetters(w) == |w|
  {
    if w != [] {
      LeadingLettersOfLetters(w[1..]);
    }
  }

  /** A string without letters has no runs. */
  lemma {:induction false} NoRuns(s: string)
    requires forall k :: 0 <= k < |s| ==> !IsLetter(s[k])
    ensures LetterRuns(s) == []
  {
    if s != [] {
      NoRuns(s[1..]);
    }
  }

  /** A non-letter separates: the runs of `a + [c] + b` are the runs of `a`
      followed by the runs of `b`. With WholeRun and NoRuns this pins
      LetterRuns down as the maximal letter runs. */
  lemma {:induction false} RunsSplit(a: string, c: char, b: string)
    requires !IsLetter(c)
    ensures LetterRuns(a + [c] + b) == LetterRuns(a) + LetterRuns(b)
    decreases |a|
  {
    var s := a + [c] + b;
    if a == [] {
      assert s[1..] == b;
    } else if !IsLetter(a[0]) {
      assert s[1..] == a[1..] + [c] + b;
      RunsSplit(a[1..], c, b);
    } else {
      var n := LeadingLetters(a);
      LeadingLettersPrefix(a, [c] + b);
      assert LeadingLetters(s) == n by { assert s == a + ([c] + b); }
      assert s[..n] == a[..n];
      if n < |a| {
        assert s[n..] == a[n..] + [c] + b;
        RunsSplit(a[n..], c, b);
      } else {
        assert s[n..] == [c] + b;
        assert a[n..] == [];
        assert LetterRuns([c] + b) == LetterRuns(b) by { assert ([c] + b)[1..] == b; }
      }
    }
  }

  /** A letter run inside `a` is not extended by what follows `a` when `a`
      has a non-letter after it or the follower starts with a non-letter. */
  lemma {:induction false} LeadingLettersPrefix(a: string, t: string)
    requires t != [] && !IsLetter(t[0])
    ensures LeadingLetters(a + t) == LeadingLetters(a)
  {
    if a != [] && IsLetter(a[0]) {
      assert (a + t)[1..] == a[1..] + t;
      LeadingLettersPrefix(a[1..], t);
    }
  }

  // ---------------------------------------------------------------------
  // Hexadecimal identifiers: strlen($hex) === 32 && ctype_xdigit($hex)
  // ---------------------------------------------------------------------

  predicate IsHexDigit(c: char) {
    ('0' <= c <= '9') || ('A' <= c <= 'F') || ('a' <= c <= 'f')
  }

  predicate IsHex32(s: string) {
    |s| == 32 && forall k :: 0 <= k < |s| ==> IsHexDigit(s[k])
  }

  /** strtoupper(trim($v)), the form in which content identifiers are kept. */
  function CanonicalHex(v: string): (r: string)
    ensures IsHex32(r) ==> forall k :: 0 <= k < |r| ==> ('0' <= r[k] <= '9') || ('A' <= r[k] <= 'F')
  {
    AsciiUpperStr(Trim(v))
  }

  // ---------------------------------------------------------------------
  // array_values(array_unique($xs))
  // ---------------------------------------------------------------------

  predicate Distinct<T(==)>(s: seq<T>) {
    forall i, j :: 0 <= i < j < |s| ==> s[i] != s[j]
  }

  /** The position of the first occurrence of `x` in `s`. */
  function FirstIndex<T(==)>(s: seq<T>, x: T): (i: nat)
    requires x in s
    ensures i < |s| && s[i] == x && x !in s[..i]
  {
    if s[0] == x then 0 else 1 + FirstIndex(s[1..], x)
  }

  /** The first occurrences of the elements of `s`, in input order. */
  function Unique<T(==,!new)>(s: seq<T>): (r: seq<T>)
    ensures forall x :: x in r <==> x in s
    ensures Distinct(r)
    decreases |s|
  {
    if s == [] then []
    else
      var u := Unique(s[..|s| - 1]);
      if s[|s| - 1] in u then u else u + [s[|s| - 1]]
  }

  lemma FirstIndexExtend<T>(s: seq<T>, x: T, y: T)
    requires y in s
    ensures FirstIndex(s + [x], y) == FirstIndex(s, y)
  {
    var i := FirstIndex(s, y);
    assert (s + [x])[..i] == s[..i];
    FirstIndexAt(s + [x], y, i);
  }

  /** The first occurrence is the one with no occurrence before it. */
  lemma {:induction false} FirstIndexAt<T>(s: seq<T>, y: T, i: nat)
    requires i < |s| && s[i] == y && y !in s[..i]
    ensures FirstIndex(s, y) == i
  {
    if i > 0 {
      assert s[0] != y by { assert s[0] in s[..i]; }
      assert s[1..][..i - 1] == s[1..i];
      assert s[1..i] == s[..i][1..];
      FirstIndexAt(s[1..], y, i - 1);
    }
  }

  /** array_unique keeps first occurrences: the survivors appear in the
      order in which they first occur in the input. */
  lemma {:induction false} UniqueFirstOccurrenceOrder<T(!new)>(s: seq<T>)
    ensures forall i, j :: 0 <= i < j < |Unique(s)| ==>
      FirstIndex(s, Unique(s)[i]) < FirstIndex(s, Unique(s)[j])
    decreases |s|
  {
    if s != [] {
      var p := s[..|s| - 1];
      var x := s[|s| - 1];
      assert s == p + [x];
      var u := Unique(p);
      UniqueFirstOccurrenceOrder(p);
      forall y | y in p ensures FirstIndex(s, y) == FirstIndex(p, y) {
        FirstIndexExtend(p, x, y);
      }
      if x !in u {
        assert x !in p;
        assert s[..|p|] == p;
        FirstIndexAt(s, x, |p|);
      }
    }
  }

  /** Filtering keeps a sequence free of repetitions. */
  lemma {:induction false} FilterDistinct<T(!new)>(s: seq<T>, p: T -> bool)
    requires Distinct(s)
    ensures Distinct(Filter(s, p))
  {
    if s != [] {
      FilterDistinct(s[1..], p);
      FilterMembership(s[1..], p);
      assert s[0] !in s[1..];
    }
  }

  /** In a sequence without repetitions every element occurs once. */
  lemma {:induction false} DistinctCounts<T>(s: seq<T>)
    requires Distinct(s)
    ensures forall x :: multiset(s)[x] <= 1
  {
    if s != [] {
      DistinctCounts(s[1..]);
      assert s == [s[0]] + s[1..];
      assert s[0] !in multiset(s[1..]);
    }
  }

  /** A rearrangement of a sequence without repetitions has none either. */
  lemma DistinctPermutation<T>(a: seq<T>, b: seq<T>)
    requires Distinct(a) && multiset(a) == multiset(b)
    ensures Distinct(b)
  {
    DistinctCounts(a);
    forall i, j | 0 <= i < j < |b|
      ensures b[i] != b[j]
    {
      assert b == b[..j] + b[j..];
      assert b[i] in multiset(b[..j]);
      assert b[j] in multiset(b[j..]);
      assert multiset(b) == multiset(b[..j]) + multiset(b[j..]);
      assert multiset(b)[b[i]] >= 1 + multiset(b[j..])[b[i]];
    }
  }

  /** A sequence without repetitions is its own array_unique. */
  lemma {:induction false} UniqueOfDistinct<T(!new)>(s: seq<T>)
    requires Distinct(s)
    ensures Unique(s) == s
    decreases |s|
  {
    if s != [] {
      var p := s[..|s| - 1];
      UniqueOfDistinct(p);
      assert s[|s| - 1] !in p;
      assert s == p + [s[|s| - 1]];
    }
  }
}
