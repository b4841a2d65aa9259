/// Worked examples of the Cologne phonetics encoder, each computed stage by
/// stage (normalised word, raw digits, collapsed digits, final code). The
/// words are parameters pinned by `requires` so that every stage is proved
/// by a short chain of steps.
module ColognePhoneticExamples {
  import opened Text
  import opened ColognePhonetic

  // ---------------------------------------------------------------------
  // Steps of the stages
  // ---------------------------------------------------------------------

  /** A word normalises to `t` when its folded characters are exactly the
      letters of `t`. */
  lemma NormalizeAs(word: string, t: string)
    requires |word| == |t|
    requires forall k :: 0 <= k < |t| ==> GermanFold(AsciiUpper(word[k])) == t[k] && IsAZ(t[k])
    ensures Normalize(word) == t
  {
    NormalizeWithoutTrim(word);
    assert Folded(word) == t;
    FilterAll(t, IsAZ);
  }

  /** One step of the raw digits: the codes of the first `k` letters. */
  lemma RawStep(w: string, k: nat, r: string, d: string)
    requires 0 < k <= |w| && forall i :: 0 <= i < |w| ==> IsAZ(w[i])
    requires RawCodes(w, k - 1) == r && CodeAt(w, k - 1) == d
    ensures RawCodes(w, k) == r + d
  {
  }

  /** One step of the collapse: digit `k - 1` repeats the last one kept. */
  lemma CollapseKeep(s: string, k: nat, r: string)
    requires 0 < k <= |s| && Collapse(s[..k - 1]) == r && r != [] && r[|r| - 1] == s[k - 1]
    ensures Collapse(s[..k]) == r
  {
    assert s[..k][..k - 1] == s[..k - 1];
  }

  /** One step of the collapse: digit `k - 1` differs from the last one kept. */
  lemma CollapseAdd(s: string, k: nat, r: string)
    requires 0 < k <= |s| && Collapse(s[..k - 1]) == r && (r == [] || r[|r| - 1] != s[k - 1])
    ensures Collapse(s[..k]) == r + [s[k - 1]]
  {
    assert s[..k][..k - 1] == s[..k - 1];
  }

  // ---------------------------------------------------------------------
  // Meier and Mayer
  // ---------------------------------------------------------------------

  lemma CodesMeier(w: string)
    requires w == "MEIER" || w == "MAYER"
    ensures CodeAt(w, 0) == "6" && CodeAt(w, 1) == "0" && CodeAt(w, 2) == "0"
    ensures CodeAt(w, 3) == "0" && CodeAt(w, 4) == "7"
  {
  }

  lemma RawCodesMeier(w: string)
    requires w == "MEIER" || w == "MAYER"
    ensures RawCodes(w, 5) == "60007"
  {
    CodesMeier(w);
    RawStep(w, 1, "", "6");
    RawStep(w, 2, "6", "0");
    RawStep(w, 3, "60", "0");
    RawStep(w, 4, "600", "0");
    RawStep(w, 5, "6000", "7");
  }

  lemma CollapseMeier(raw: string)
    requires raw == "60007"
    ensures Collapse(raw) == "607"
  {
    assert raw[..0] == [];
    CollapseAdd(raw, 1, "");
    CollapseAdd(raw, 2, "6");
    CollapseKeep(raw, 3, "60");
    CollapseKeep(raw, 4, "60");
    CollapseAdd(raw, 5, "60");
    assert raw[..5] == raw;
  }

  lemma DropZerosMeier(e: string)
    requires e == "607"
    ensures DropZeros(e) == "67"
  {
    assert Filter(e[3..], IsNonZero) == [];
    assert Filter(e[2..], IsNonZero) == "7";
    assert Filter(e[1..], IsNonZero) == "7";
  }

  /** Spelling variants of one name share a code: the vowels give zeros,
      which collapse and are then dropped. */
  lemma MeierMayer(a: string, b: string)
    requires a == "Meier" && b == "Mayer"
    ensures CodeOf(a) == "67" && CodeOf(b) == "67"
  {
    NormalizeAs(a, "MEIER");
    NormalizeAs(b, "MAYER");
    var wa, wb := Normalize(a), Normalize(b);
    RawCodesMeier(wa);
    RawCodesMeier(wb);
    CollapseMeier(RawCodes(wa, |wa|));
    CollapseMeier(RawCodes(wb, |wb|));
    DropZerosMeier(Emitted(wa));
    DropZerosMeier(Emitted(wb));
  }

  // ---------------------------------------------------------------------
  // LALA
  // ---------------------------------------------------------------------

  lemma CodesLala(w: string)
    requires w == "LALA"
    ensures CodeAt(w, 0) == "5" && CodeAt(w, 1) == "0" && CodeAt(w, 2) == "5" && CodeAt(w, 3) == "0"
  {
  }

  lemma RawCodesLala(w: string)
    requires w == "LALA"
    ensures RawCodes(w, 4) == "5050"
  {
    CodesLala(w);
    RawStep(w, 1, "", "5");
    RawStep(w, 2, "5", "0");
    RawStep(w, 3, "50", "5");
    RawStep(w, 4, "505", "0");
  }

  lemma CollapseLala(raw: string)
    requires raw == "5050"
    ensures Collapse(raw) == "5050"
  {
    assert raw[..0] == [];
    CollapseAdd(raw, 1, "");
    CollapseAdd(raw, 2, "5");
    CollapseAdd(raw, 3, "50");
    CollapseAdd(raw, 4, "505");
    assert raw[..4] == raw;
  }

  lemma DropZerosLala(e: string)
    requires e == "5050"
    ensures DropZeros(e) == "55"
  {
    assert Filter(e[4..], IsNonZero) == [];
    assert Filter(e[3..], IsNonZero) == [];
    assert Filter(e[2..], IsNonZero) == "5";
    assert Filter(e[1..], IsNonZero) == "5";
  }

  /** Only the emitted digits are free of repeats: removing the zeros
      afterwards can leave equal neighbours. */
  lemma LalaGivesDoubleFive(word: string)
    requires word == "LALA"
    ensures CodeOf(word) == "55"
  {
    NormalizeAs(word, "LALA");
    var w := Normalize(word);
    RawCodesLala(w);
    CollapseLala(RawCodes(w, |w|));
    DropZerosLala(Emitted(w));
  }

  // ---------------------------------------------------------------------
  // Umlauts: müller, mueller, MÜLLER
  // ---------------------------------------------------------------------

  lemma CodesMller(w: string)
    requires w == "MLLER"
    ensures CodeAt(w, 0) == "6" && CodeAt(w, 1) == "5" && CodeAt(w, 2) == "5"
    ensures CodeAt(w, 3) == "0" && CodeAt(w, 4) == "7"
  {
  }

  lemma RawCodesMller(w: string)
    requires w == "MLLER"
    ensures RawCodes(w, 5) == "65507"
  {
    CodesMller(w);
    RawStep(w, 1, "", "6");
    RawStep(w, 2, "6", "5");
    RawStep(w, 3, "65", "5");
    RawStep(w, 4, "655", "0");
    RawStep(w, 5, "6550", "7");
  }

  lemma CodesMueller(w: string)
    requires w == "MUELLER"
    ensures CodeAt(w, 0) == "6" && CodeAt(w, 1) == "0" && CodeAt(w, 2) == "0" && CodeAt(w, 3) == "5"
    ensures CodeAt(w, 4) == "5" && CodeAt(w, 5) == "0" && CodeAt(w, 6) == "7"
  {
  }

  lemma RawCodesMueller(w: string)
    requires w == "MUELLER"
    ensures RawCodes(w, 7) == "6005507"
  {
    CodesMueller(w);
    RawStep(w, 1, "", "6");
    RawStep(w, 2, "6", "0");
    RawStep(w, 3, "60", "0");
    RawStep(w, 4, "600", "5");
    RawStep(w, 5, "6005", "5");
    RawStep(w, 6, "60055", "0");
    RawStep(w, 7, "600550", "7");
  }

  lemma CodesMuller(w: string)
    requires w == "MULLER"
    ensures CodeAt(w, 0) == "6" && CodeAt(w, 1) == "0" && CodeAt(w, 2) == "5"
    ensures CodeAt(w, 3) == "5" && CodeAt(w, 4) == "0" && CodeAt(w, 5) == "7"
  {
  }

  lemma RawCodesMuller(w: string)
    requires w == "MULLER"
    ensures RawCodes(w, 6) == "605507"
  {
    CodesMuller(w);
    RawStep(w, 1, "", "6");
    RawStep(w, 2, "6", "0");
    RawStep(w, 3, "60", "5");
    RawStep(w, 4, "605", "5");
    RawStep(w, 5, "6055", "0");
    RawStep(w, 6, "60550", "7");
  }

  lemma CollapseMller(raw: string)
    requires raw == "65507"
    ensures Collapse(raw) == "6507"
  {
    assert raw[..0] == [];
    CollapseAdd(raw, 1, "");
    CollapseAdd(raw, 2, "6");
    CollapseKeep(raw, 3, "65");
    CollapseAdd(raw, 4, "65");
    CollapseAdd(raw, 5, "650");
    assert raw[..5] == raw;
  }

  lemma CollapseMueller(raw: string)
    requires raw == "6005507"
    ensures Collapse(raw) == "60507"
  {
    assert raw[..0] == [];
    CollapseAdd(raw, 1, "");
    CollapseAdd(raw, 2, "6");
    CollapseKeep(raw, 3, "60");
    CollapseAdd(raw, 4, "60");
    CollapseKeep(raw, 5, "605");
    CollapseAdd(raw, 6, "605");
    CollapseAdd(raw, 7, "6050");
    assert raw[..7] == raw;
  }

  lemma CollapseMuller(raw: string)
    requires raw == "605507"
    ensures Collapse(raw) == "60507"
  {
    assert raw[..0] == [];
    CollapseAdd(raw, 1, "");
    CollapseAdd(raw, 2, "6");
    CollapseAdd(raw, 3, "60");
    CollapseKeep(raw, 4, "605");
    CollapseAdd(raw, 5, "605");
    CollapseAdd(raw, 6, "6050");
    assert raw[..6] == raw;
  }

  lemma DropZerosMller(e: string)
    requires e == "6507"
    ensures DropZeros(e) == "657"
  {
    assert Filter(e[4..], IsNonZero) == [];
    assert Filter(e[3..], IsNonZero) == "7";
    assert Filter(e[2..], IsNonZero) == "7";
    assert Filter(e[1..], IsNonZero) == "57";
  }

  lemma DropZerosMuller(e: string)
    requires e == "60507"
    ensures DropZeros(e) == "657"
  {
    assert Filter(e[5..], IsNonZero) == [];
    assert Filter(e[4..], IsNonZero) == "7";
    assert Filter(e[3..], IsNonZero) == "7";
    assert Filter(e[2..], IsNonZero) == "57";
    assert Filter(e[1..], IsNonZero) == "57";
  }

  lemma MllerCode(word: string)
    requires word == "mller"
    ensures CodeOf(word) == "657"
  {
    NormalizeAs(word, "MLLER");
    var w := Normalize(word);
    RawCodesMller(w);
    CollapseMller(RawCodes(w, |w|));
    DropZerosMller(Emitted(w));
  }

  lemma MuellerCode(word: string)
    requires word == "mueller"
    ensures CodeOf(word) == "657"
  {
    NormalizeAs(word, "MUELLER");
    var w := Normalize(word);
    RawCodesMueller(w);
    CollapseMueller(RawCodes(w, |w|));
    DropZerosMuller(Emitted(w));
  }

  lemma CapitalMullerCode(word: string)
    requires word == "MÜLLER"
    ensures CodeOf(word) == "657"
  {
    NormalizeAs(word, "MULLER");
    var w := Normalize(word);
    RawCodesMuller(w);
    CollapseMuller(RawCodes(w, |w|));
    DropZerosMuller(Emitted(w));
  }

  /** A lower-case ü is not folded (only the capital umlauts are), so it
      is dropped with the other non-letters. */
  lemma LowerUmlautDropped(a: string, m: string)
    requires a == "müller" && m == "mller"
    ensures CodeOf(a) == CodeOf(m)
  {
    assert a == m[..1] + ['ü'] + m[1..];
    assert m == m[..1] + m[1..];
    IgnoresNonLetter(m[..1], 'ü', m[1..]);
  }

  /** Both callers lower-case words first, so a lower-case umlaut is
      dropped rather than folded; "müller" still meets "mueller" because
      the vowels vanish, and the capital Ü is folded to U. */
  lemma Umlauts(a: string, b: string, c: string)
    requires a == "müller" && b == "mueller" && c == "MÜLLER"
    ensures CodeOf(a) == "657" && CodeOf(b) == "657" && CodeOf(c) == "657"
  {
    LowerUmlautDropped(a, "mller");
    MllerCode("mller");
    MuellerCode(b);
    CapitalMullerCode(c);
  }

  // ---------------------------------------------------------------------
  // ACL: the hard follower set of a non-initial C
  // ---------------------------------------------------------------------

  lemma CodesAcl(w: string)
    requires w == "ACL"
    ensures CodeAt(w, 0) == "0" && CodeAt(w, 1) == "4" && CodeAt(w, 2) == "5"
  {
  }

  lemma RawCodesAcl(w: string)
    requires w == "ACL"
    ensures RawCodes(w, 3) == "045"
  {
    CodesAcl(w);
    RawStep(w, 1, "", "0");
    RawStep(w, 2, "0", "4");
    RawStep(w, 3, "04", "5");
  }

  lemma CollapseAcl(raw: string)
    requires raw == "045"
    ensures Collapse(raw) == "045"
  {
    assert raw[..0] == [];
    CollapseAdd(raw, 1, "");
    CollapseAdd(raw, 2, "0");
    CollapseAdd(raw, 3, "04");
    assert raw[..3] == raw;
  }

  /** Dropping zeros leaves a code with no zero after its first digit as it is. */
  lemma DropZerosOfZeroFree(e: string)
    requires e != [] && '0' !in e[1..]
    ensures DropZeros(e) == e
  {
    FilterAll(e[1..], IsNonZero);
  }

  /** A non-initial C before L is hard here (4), where the published rules
      give 8; the initial 0 is kept. */
  lemma NonInitialCBeforeL(word: string)
    requires word == "ACL"
    ensures CodeOf(word) == "045"
  {
    NormalizeAs(word, "ACL");
    var w := Normalize(word);
    RawCodesAcl(w);
    CollapseAcl(RawCodes(w, |w|));
    DropZerosOfZeroFree("045");
  }
}
