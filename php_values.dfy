/// The loosely typed values that arrive as item metadata and as delete
/// filters (`$item->metadata[...]`, `$filter['content_uuid']`), the
/// `?? null` lookup, and PHP's `(int)` cast on them.
module PhpValues {
  import opened ReverseConverter

  /** A PHP value as far as the core inspects it. Floats and objects are
      not distinguished from `Other`. */
  datatype MetaValue =
    | Null
    | Bool(b: bool)
    | Int(i: int)
    | Str(s: string)
    | List(items: seq<MetaValue>)
    | Other

  type Metadata = map<string, MetaValue>

  /** `$meta[$key] ?? null` */
  function Lookup(meta: Metadata, key: string): (v: MetaValue)
    ensures key !in meta ==> v == Null
  {
    if key in meta then meta[key] else Null
  }

  /** The white space (int) skips before a numeric string: " \t\n\r\v\f". */
  predicate IsNumericSpace(c: char) {
    c == ' ' || c == '\t' || c == '\n' || c == '\r' || c == '\U{B}' || c == '\U{C}'
  }

  /** The number of leading decimal digits of `s`. */
  function LeadingDigits(s: string): (n: nat)
    ensures n <= |s| && AllDigits(s[..n])
    ensures n < |s| ==> !IsDigit(s[n])
  {
    if s != [] && IsDigit(s[0]) then
      assert s[..1 + LeadingDigits(s[1..])] == [s[0]] + s[1..][..LeadingDigits(s[1..])];
      1 + LeadingDigits(s[1..])
    else 0
  }

  /** `s` without its leading numeric white space. */
  function SkipNumericSpace(s: string): (r: string)
    ensures |r| <= |s| && r == s[|s| - |r|..]
    ensures r != [] ==> !IsNumericSpace(r[0])
  {
    if s != [] && IsNumericSpace(s[0]) then SkipNumericSpace(s[1..]) else s
  }

  /** The value of the leading digits of `s`; 0 when there are none. */
  function DigitPrefixValue(s: string): (v: nat)
    ensures LeadingDigits(s) == 0 ==> v == 0
  {
    DecimalValue(s[..LeadingDigits(s)])
  }

  /** (int) on a string: leading white space, an optional sign, then the
      longest run of decimal digits; anything else gives 0. */
  function StringToInt(s: string): int {
    var t := SkipNumericSpace(s);
    if t != [] && t[0] == '-' then -(DigitPrefixValue(t[1..]) as int)
    else if t != [] && t[0] == '+' then DigitPrefixValue(t[1..]) as int
    else DigitPrefixValue(t)
  }

  /** (int)$v */
  function IntCast(v: MetaValue): int {
    match v
    case Null => 0
    case Bool(b) => if b then 1 else 0
    case Int(i) => i
    case Str(s) => StringToInt(s)
    case List(items) => if items == [] then 0 else 1
    case Other => 0
  }
}
