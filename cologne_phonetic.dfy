/// The Cologne phonetics encoder (Kölner Phonetik, H. J. Postel 1969) as
/// ColognePhoneticEncoder implements it: normalise the word to A-Z, map each
/// letter to 0-2 digits using the previous letter, the next letter and
/// whether it is the first, drop a digit equal to the last digit emitted,
/// then drop every '0' except one at index 0.
///
/// The specification is the chain Normalize -> RawCodes -> Collapse ->
/// DropZeros (CodeOf); the method Encode is the source's two loops, proved
/// to compute CodeOf.
module ColognePhonetic {
  import opened Text
  import opened ReverseConverter

  predicate IsAZ(c: char) { 'A' <= c <= 'Z' }

  predicate IsNonZero(c: char) { c != '0' }

  /** The digits a code is made of. */
  predicate AllCodeDigits(s: string) {
    forall k :: 0 <= k < |s| ==> '0' <= s[k] <= '8'
  }

  // ---------------------------------------------------------------------
  // normalize()
  // ---------------------------------------------------------------------

  /** strtr($word, ['Ä' => 'A', 'Ö' => 'O', 'Ü' => 'U', 'ß' => 'S']) on one
      character. Only the capital umlauts are listed, and strtoupper() does
      not touch non-ASCII characters, so a lower-case umlaut stays as it is
      (and is then dropped as a non A-Z character). */
  function GermanFold(c: char): char {
    if c == 'Ä' then 'A'
    else if c == 'Ö' then 'O'
    else if c == 'Ü' then 'U'
    else if c == 'ß' then 'S'
    else c
  }

  function GermanFoldStr(s: string): (r: string)
    ensures |r| == |s| && forall k :: 0 <= k < |s| ==> r[k] == GermanFold(s[k])
  {
    seq(|s|, k requires 0 <= k < |s| => GermanFold(s[k]))
  }

  /** normalize(): trim, strtoupper, the German folding, then keep A-Z only. */
  function Normalize(word: string): (w: string)
    ensures forall k :: 0 <= k < |w| ==> IsAZ(w[k])
  {
    var t := Trim(word);
    if t == [] then [] else Filter(Folded(t), IsAZ)
  }

  /** strtoupper() followed by the German folding. */
  function Folded(s: string): (r: string)
    ensures |r| == |s| && forall k :: 0 <= k < |s| ==> r[k] == GermanFold(AsciiUpper(s[k]))
  {
    GermanFoldStr(AsciiUpperStr(s))
  }

  lemma FoldedConcat(a: string, b: string)
    ensures Folded(a + b) == Folded(a) + Folded(b)
  {
    assert forall k :: 0 <= k < |a + b| ==> Folded(a + b)[k] == (Folded(a) + Folded(b))[k];
  }

  lemma FoldedConcat3(a: string, b: string, c: string)
    ensures Folded(a + b + c) == Folded(a) + Folded(b) + Folded(c)
  {
    FoldedConcat(a + b, c);
    FoldedConcat(a, b);
  }

  /** A run of trim characters folds to trim characters, which are not A-Z. */
  lemma FoldedTrimCharsVanish(s: string)
    requires forall k :: 0 <= k < |s| ==> IsTrimChar(s[k])
    ensures Filter(Folded(s), IsAZ) == []
  {
    var m := Folded(s);
    assert forall k :: 0 <= k < |m| ==> !IsAZ(m[k]);
    FilterNone(m, IsAZ);
  }

  /** The characters trim() removes are dropped by the A-Z filter anyway. */
  lemma NormalizeWithoutTrim(word: string)
    ensures Normalize(word) == Filter(Folded(word), IsAZ)
  {
    var a, b := TrimSplit(word);
    var t := Trim(word);
    FoldedConcat(a, t + b);
    FoldedConcat(t, b);
    FoldedTrimCharsVanish(a);
    FoldedTrimCharsVanish(b);
    FilterConcat(Folded(a), Folded(t) + Folded(b), IsAZ);
    FilterConcat(Folded(t), Folded(b), IsAZ);
  }

  // ---------------------------------------------------------------------
  // mapChar() and isCFollowedByHard()
  // ---------------------------------------------------------------------

  /** The letters after which a C is hard (the digit 4). The published rules
      list L and R only for a word-initial C; this encoder uses the same set
      for a C anywhere in the word. */
  const HardFollowers: set<char> := {'A', 'H', 'K', 'L', 'O', 'Q', 'R', 'U', 'X'}

  /** isCFollowedByHard(): `next` is the one-letter string after the C, or ''. */
  predicate IsCFollowedByHard(next: string) {
    next == "A" || next == "H" || next == "K" || next == "L" || next == "O"
    || next == "Q" || next == "R" || next == "U" || next == "X"
  }

  /** mapChar(): the raw code of letter `c` given the previous letter `p` and
      the next letter `n` (each '' at the word's edge). The result is at most
      two digits from '0' to '8'; it is empty exactly for H and for
      characters outside A-Z, and two digits only for X. */
  function MapChar(c: char, p: string, n: string, isFirst: bool): (r: string)
    ensures |r| <= 2 && AllCodeDigits(r)
    ensures IsAZ(c) ==> (r == [] <==> c == 'H')
    ensures !IsAZ(c) ==> r == []
    ensures |r| == 2 ==> c == 'X' && r == "48"
  {
    if c == 'A' || c == 'E' || c == 'I' || c == 'J' || c == 'O' || c == 'U' || c == 'Y' then "0"
    else if c == 'H' then ""
    else if c == 'B' then "1"
    else if c == 'P' then (if n == "H" then "3" else "1")
    else if c == 'D' || c == 'T' then (if n == "C" || n == "S" || n == "Z" then "8" else "2")
    else if c == 'F' || c == 'V' || c == 'W' then "3"
    else if c == 'G' || c == 'K' || c == 'Q' then "4"
    else if c == 'C' then
      if isFirst then (if IsCFollowedByHard(n) then "4" else "8")
      else if p == "S" || p == "Z" then "8"
      else if IsCFollowedByHard(n) then "4" else "8"
    else if c == 'X' then (if p == "C" || p == "K" || p == "Q" then "8" else "48")
    else if c == 'L' then "5"
    else if c == 'M' || c == 'N' then "6"
    else if c == 'R' then "7"
    else if c == 'S' || c == 'Z' then "8"
    else ""
  }

  /** The context rules, stated with the follower set as a set of letters. */
  lemma ContextRules(p: string, n: char)
    ensures MapChar('C', "", [n], true) == if n in HardFollowers then "4" else "8"
    ensures p == "S" || p == "Z" ==> MapChar('C', p, [n], false) == "8"
    ensures p != "S" && p != "Z" ==> MapChar('C', p, [n], false) == if n in HardFollowers then "4" else "8"
    ensures MapChar('C', p, "", false) == "8" && MapChar('C', "", "", true) == "8"
    ensures MapChar('X', p, [n], false) == if p == "C" || p == "K" || p == "Q" then "8" else "48"
    ensures MapChar('D', p, [n], false) == MapChar('T', p, [n], false) == if n in {'C', 'S', 'Z'} then "8" else "2"
    ensures MapChar('P', p, [n], false) == if n == 'H' then "3" else "1"
  {
  }

  // ---------------------------------------------------------------------
  // The emitted sequence $out and the final filtering
  // ---------------------------------------------------------------------

  /** The previous and next letter of position `i`, as '' or a one-letter string. */
  function Prev(w: string, i: nat): string
    requires i < |w|
  {
    if i > 0 then [w[i - 1]] else ""
  }

  function Next(w: string, i: nat): string
    requires i < |w|
  {
    if i + 1 < |w| then [w[i + 1]] else ""
  }

  function CodeAt(w: string, i: nat): string
    requires i < |w|
  {
    MapChar(w[i], Prev(w, i), Next(w, i), i == 0)
  }

  /** The raw codes of the first `k` letters of the normalised word `w`, concatenated. */
  function RawCodes(w: string, k: nat): (r: string)
    requires k <= |w| && forall i :: 0 <= i < |w| ==> IsAZ(w[i])
    ensures AllCodeDigits(r)
    ensures r == [] <==> forall i :: 0 <= i < k ==> w[i] == 'H'
  {
    if k == 0 then [] else RawCodes(w, k - 1) + CodeAt(w, k - 1)
  }

  predicate NoAdjacentRepeats(s: string) {
    forall i :: 0 <= i < |s| - 1 ==> s[i] != s[i + 1]
  }

  /** Drops every digit equal to the last digit kept, i.e. collapses each run
      of equal digits to one. Comparing with the last digit kept is the same
      as comparing with the previous raw digit. */
  function Collapse(s: string): (r: string)
    ensures |r| <= |s| && (r == [] <==> s == [])
    ensures s != [] ==> r[0] == s[0] && r[|r| - 1] == s[|s| - 1]
  {
    if s == [] then []
    else
      var r := Collapse(s[..|s| - 1]);
      if r != [] && r[|r| - 1] == s[|s| - 1] then r else r + [s[|s| - 1]]
  }

  /** Collapse leaves no two equal neighbours. */
  lemma {:induction false} CollapseNoRepeats(s: string)
    ensures NoAdjacentRepeats(Collapse(s))
  {
    if s != [] {
      CollapseNoRepeats(s[..|s| - 1]);
    }
  }

  /** A sequence without adjacent repeats is left alone; in particular
      Collapse is idempotent. */
  lemma {:induction false} CollapseFixpoint(s: string)
    requires NoAdjacentRepeats(s)
    ensures Collapse(s) == s
  {
    if s != [] {
      var p := s[..|s| - 1];
      CollapseFixpoint(p);
      assert s == p + [s[|s| - 1]];
    }
  }

  /** Keeps the first digit and every later digit that is not '0'. */
  function DropZeros(e: string): (r: string)
    ensures r == [] <==> e == []
    ensures e != [] ==> r[0] == e[0]
    ensures forall k :: 1 <= k < |r| ==> r[k] != '0'
  {
    if e == [] then [] else [e[0]] + Filter(e[1..], IsNonZero)
  }

  /** DropZeros removes zeros only: the non-zero digits, in order, are kept. */
  lemma DropZerosKeepsNonZeros(e: string)
    ensures Filter(DropZeros(e), IsNonZero) == Filter(e, IsNonZero)
  {
    if e != [] {
      var t := Filter(e[1..], IsNonZero);
      assert e == [e[0]] + e[1..];
      FilterConcat([e[0]], t, IsNonZero);
      FilterConcat([e[0]], e[1..], IsNonZero);
      FilterAll(t, IsNonZero);
    }
  }

  /** The digits `$out` of a normalised word after the first loop. */
  function Emitted(w: string): string
    requires forall i :: 0 <= i < |w| ==> IsAZ(w[i])
  {
    Collapse(RawCodes(w, |w|))
  }

  /** The code encode() returns. */
  function CodeOf(word: string): string {
    DropZeros(Emitted(Normalize(word)))
  }

  // ---------------------------------------------------------------------
  // The source's two loops
  // ---------------------------------------------------------------------

  function LastOrEmpty(s: string): string {
    if s == [] then "" else [s[|s| - 1]]
  }

  /** Appending one raw digit: it is kept unless it equals the last digit kept. */
  lemma CollapseSnoc(s: string, d: char)
    ensures Collapse(s + [d]) == if LastOrEmpty(Collapse(s)) == [d] then Collapse(s) else Collapse(s) + [d]
  {
    assert (s + [d])[..|s|] == s;
  }

  // ---------------------------------------------------------------------
  // Properties of the encoder
  // ---------------------------------------------------------------------

  lemma {:induction false} RawCodesPrefix(w: string, k: nat, m: nat)
    requires k <= m <= |w| && forall i :: 0 <= i < |w| ==> IsAZ(w[i])
    ensures |RawCodes(w, k)| <= |RawCodes(w, m)| && RawCodes(w, m)[..|RawCodes(w, k)|] == RawCodes(w, k)
    decreases m
  {
    if k < m {
      RawCodesPrefix(w, k, m - 1);
      var a, l := RawCodes(w, m - 1), |RawCodes(w, k)|;
      assert RawCodes(w, m) == a + CodeAt(w, m - 1);
      assert (a + CodeAt(w, m - 1))[..l] == a[..l];
    }
  }

  /** The code is empty exactly when the normalised word has no letter other
      than H; in particular a word without any A-Z letter encodes to ''. */
  lemma EmptyCodeIff(word: string)
    ensures CodeOf(word) == [] <==> forall k :: 0 <= k < |Normalize(word)| ==> Normalize(word)[k] == 'H'
  {
  }

  lemma EmittedDigits(w: string)
    requires forall i :: 0 <= i < |w| ==> IsAZ(w[i])
    ensures AllCodeDigits(Emitted(w))
  {
    var raw := RawCodes(w, |w|);
    CollapseSameDigits(raw);
    forall k | 0 <= k < |Emitted(w)| ensures '0' <= Emitted(w)[k] <= '8' {
      assert Emitted(w)[k] in raw;
    }
  }

  lemma DropZerosDigits(e: string)
    requires AllCodeDigits(e)
    ensures AllCodeDigits(DropZeros(e))
  {
    if e != [] {
      var c := DropZeros(e);
      FilterMembership(e[1..], IsNonZero);
      forall k | 1 <= k < |c| ensures '0' <= c[k] <= '8' {
        assert c[k] in Filter(e[1..], IsNonZero);
      }
    }
  }

  /** The code is made of the digits '0'..'8'; '0' occurs at most once, and
      only at index 0, exactly when the first emitted digit is '0'. */
  lemma CodeShape(word: string)
    ensures AllCodeDigits(CodeOf(word))
    ensures forall k :: 1 <= k < |CodeOf(word)| ==> CodeOf(word)[k] != '0'
    ensures CodeOf(word) != [] ==>
      (CodeOf(word)[0] == '0' <==> Emitted(Normalize(word))[0] == '0')
  {
    EmittedDigits(Normalize(word));
    DropZerosDigits(Emitted(Normalize(word)));
  }

  /** Collapse removes repeats only: the same digits occur before and after. */
  lemma {:induction false} CollapseSameDigits(s: string)
    ensures forall c :: c in Collapse(s) <==> c in s
  {
    if s != [] {
      CollapseSameDigits(s[..|s| - 1]);
      assert s == s[..|s| - 1] + [s[|s| - 1]];
    }
  }

  /** The emitted sequence never holds two equal adjacent digits (across the
      two digits of X as well); the final code can: "LALA" gives "55". */
  lemma EmittedHasNoRepeats(word: string)
    ensures NoAdjacentRepeats(Emitted(Normalize(word)))
  {
    var w := Normalize(word);
    CollapseNoRepeats(RawCodes(w, |w|));
  }

  /** A code that is neither '' nor "0" yields a positive token with exactly
      as many decimal digits as the code has. */
  lemma CodeToken(word: string)
    requires CodeOf(word) != [] && CodeOf(word) != "0"
    ensures ToInt(CodeOf(word)) > 0 && NumDigits(ToInt(CodeOf(word))) == |CodeOf(word)|
  {
    CodeShape(word);
    CodeShapedToken(CodeOf(word));
  }

  /** The first digit of the code is the first digit of the first letter's
      raw code, when that letter is not H. */
  lemma FirstDigit(word: string)
    requires Normalize(word) != [] && Normalize(word)[0] != 'H'
    ensures CodeOf(word) != [] && CodeOf(word)[0] == CodeAt(Normalize(word), 0)[0]
  {
    var w := Normalize(word);
    RawCodesPrefix(w, 1, |w|);
    assert RawCodes(w, 1) == CodeAt(w, 0);
  }

  /** A word-initial C is 4 before a hard follower and 8 otherwise. */
  lemma InitialC(word: string)
    requires |Normalize(word)| >= 2 && Normalize(word)[0] == 'C'
    ensures CodeOf(word) != []
    ensures CodeOf(word)[0] == if Normalize(word)[1] in HardFollowers then '4' else '8'
  {
    FirstDigit(word);
  }

  lemma FoldedIgnoresAsciiCase(word: string)
    ensures Folded(AsciiUpperStr(word)) == Folded(word)
    ensures Folded(AsciiLowerStr(word)) == Folded(word)
  {
    assert forall k :: 0 <= k < |word| ==> Folded(AsciiUpperStr(word))[k] == Folded(word)[k];
    assert forall k :: 0 <= k < |word| ==> Folded(AsciiLowerStr(word))[k] == Folded(word)[k];
  }

  /** Upper-casing (or lower-casing) ASCII letters first does not change the code. */
  lemma IgnoresAsciiCase(word: string)
    ensures CodeOf(AsciiUpperStr(word)) == CodeOf(word)
    ensures CodeOf(AsciiLowerStr(word)) == CodeOf(word)
  {
    NormalizeWithoutTrim(word);
    NormalizeWithoutTrim(AsciiUpperStr(word));
    NormalizeWithoutTrim(AsciiLowerStr(word));
    FoldedIgnoresAsciiCase(word);
  }

  /** Inserting a character that normalises to nothing (a digit, punctuation,
      white space, a lower-case umlaut) does not change the code. */
  lemma IgnoresNonLetter(u: string, c: char, v: string)
    requires !IsAZ(GermanFold(AsciiUpper(c)))
    ensures CodeOf(u + [c] + v) == CodeOf(u + v)
  {
    NormalizeIgnoresNonLetter(u, c, v);
  }

  lemma NormalizeIgnoresNonLetter(u: string, c: char, v: string)
    requires !IsAZ(GermanFold(AsciiUpper(c)))
    ensures Normalize(u + [c] + v) == Normalize(u + v)
  {
    NormalizeWithoutTrim(u + [c] + v);
    NormalizeWithoutTrim(u + v);
    FoldedConcat3(u, [c], v);
    FoldedConcat(u, v);
    FilterNone(Folded([c]), IsAZ);
    FilterDropMiddle(Folded(u), Folded([c]), Folded(v), IsAZ);
  }
}
