/// encode() of ColognePhoneticEncoder as the source writes it: a loop over
/// the normalised letters with an inner loop over each letter's digits,
/// then a loop dropping the later zeros. Encode is proved to compute
/// ColognePhonetic.CodeOf, about which the properties are stated.
module ColognePhoneticEncoder {
  import opened Text
  import opened ColognePhonetic

  /** The inner foreach of encode(): push the digits of one letter's code
      onto `out`, skipping a digit equal to `prevCode`. With `out` the
      collapsed form of the raw digits so far, the result is the collapsed
      form of the raw digits with this letter's code appended. */
  method PushDigits(out: string, prevCode: string, digits: string, ghost raw: string)
    returns (out': string, prevCode': string)
    requires out == Collapse(raw) && prevCode == LastOrEmpty(out)
    ensures out' == Collapse(raw + digits) && prevCode' == LastOrEmpty(out')
  {
    out', prevCode' := out, prevCode;
    ghost var acc := raw;
    var j := 0;
    while j < |digits|
      invariant 0 <= j <= |digits|
      invariant acc == raw + digits[..j]
      invariant out' == Collapse(acc) && prevCode' == LastOrEmpty(out')
    {
      var d := digits[j];
      CollapseSnoc(acc, d);
      if [d] != prevCode' {
        out' := out' + [d];
        prevCode' := [d];
      }
      acc := acc + [d];
      assert acc == raw + digits[..j + 1];
      j := j + 1;
    }
    assert digits[..|digits|] == digits;
  }

  /** encode() */
  method Encode(word: string) returns (code: string)
    ensures code == CodeOf(word)
  {
    var w := Normalize(word);
    if w == [] {
      return "";
    }
    var out := EmitDigits(w);
    if out == [] {
      return "";
    }
    code := KeepFirstDropZeros(out);
  }

  /** The first loop of encode(): map each letter in its context and push
      its digits, so that `out` is the collapsed form of the raw codes. */
  method EmitDigits(w: string) returns (out: string)
    requires forall i :: 0 <= i < |w| ==> IsAZ(w[i])
    ensures out == Emitted(w)
  {
    out := [];
    var prevCode: string := "";
    var i := 0;
    assert RawCodes(w, 0) == [];
    while i < |w|
      invariant 0 <= i <= |w|
      invariant out == Collapse(RawCodes(w, i))
      invariant prevCode == LastOrEmpty(out)
    {
      out, prevCode := EmitLetter(w, i, out, prevCode);
      i := i + 1;
    }
  }

  /** One pass of the first loop: the code of letter `i` in its context,
      pushed onto `out` unless it is empty (an H). */
  method EmitLetter(w: string, i: nat, out: string, prevCode: string)
    returns (out': string, prevCode': string)
    requires i < |w| && forall k :: 0 <= k < |w| ==> IsAZ(w[k])
    requires out == Collapse(RawCodes(w, i)) && prevCode == LastOrEmpty(out)
    ensures out' == Collapse(RawCodes(w, i + 1)) && prevCode' == LastOrEmpty(out')
  {
    var c := w[i];
    var n := if i + 1 < |w| then [w[i + 1]] else "";
    var p := if i > 0 then [w[i - 1]] else "";
    var digits := MapChar(c, p, n, i == 0);
    assert digits == CodeAt(w, i);
    ghost var raw := RawCodes(w, i);
    assert RawCodes(w, i + 1) == raw + digits;
    if digits == "" {
      assert raw + digits == raw;
      return out, prevCode;
    }
    out', prevCode' := PushDigits(out, prevCode, digits, raw);
  }

  /** The last part of encode(): keep out[0] whatever it is and every later
      digit that is not '0'; out[0] is always kept, so the result is never
      empty, and when it is not '0' the final array_filter has nothing left
      to remove. */
  method KeepFirstDropZeros(out: string) returns (code: string)
    requires out != []
    ensures code == DropZeros(out)
  {
    var first := out[0];
    var filtered: string := [];
    var idx := 0;
    while idx < |out|
      invariant 0 <= idx <= |out|
      invariant idx == 0 ==> filtered == []
      invariant idx > 0 ==> filtered == [out[0]] + Filter(out[1..idx], IsNonZero)
    {
      var d := out[idx];
      if !(d == '0' && idx != 0) {
        filtered := filtered + [d];
      }
      if idx > 0 {
        assert out[1..idx + 1] == out[1..idx] + [d];
        FilterConcat(out[1..idx], [d], IsNonZero);
      }
      idx := idx + 1;
    }
    assert out[1..] == out[1..|out|];
    if first != '0' {
      FilterAll(filtered, IsNonZero);
      filtered := Filter(filtered, IsNonZero);
    }
    code := filtered;
  }
}
