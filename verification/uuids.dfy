/** The canonical text form of a `java.util.UUID`: 32 hexadecimal digits in
    groups of 8-4-4-4-12 separated by dashes, written in lower case by
    `toString` and read back, in either case, by `fromString`. */
module Uuids {
  import opened Wrappers

  /** One hexadecimal digit. */
  type Nibble = x: int | 0 <= x < 16

  /** A 128-bit identifier as its 32 hexadecimal digits, most significant first. */
  type Uuid = s: seq<Nibble> | |s| == 32 witness seq(32, _ => 0)

  /** Length of the text form. */
  const TextLength: nat := 36

  /** The four dash positions of the text form. */
  predicate IsDashPosition(i: int) {
    i == 8 || i == 13 || i == 18 || i == 23
  }

  /** Where the `j`-th digit sits in the text form. */
  function DigitPosition(j: nat): (i: nat)
    requires j < 32
    ensures i < TextLength && !IsDashPosition(i)
  {
    if j < 8 then j
    else if j < 12 then j + 1
    else if j < 16 then j + 2
    else if j < 20 then j + 3
    else j + 4
  }

  /** Which digit a non-dash position of the text form holds. */
  function DigitIndex(i: nat): (j: nat)
    requires i < TextLength && !IsDashPosition(i)
    ensures j < 32 && DigitPosition(j) == i
  {
    if i < 8 then i
    else if i < 13 then i - 1
    else if i < 18 then i - 2
    else if i < 23 then i - 3
    else i - 4
  }

  function LowerHexDigit(n: Nibble): (c: char)
    ensures IsHexChar(c) && !('A' <= c <= 'F') && HexValue(c) == n
  {
    "0123456789abcdef"[n]
  }

  predicate IsHexChar(c: char) {
    ('0' <= c <= '9') || ('a' <= c <= 'f') || ('A' <= c <= 'F')
  }

  function HexValue(c: char): (n: Nibble)
    requires IsHexChar(c)
  {
    if '0' <= c <= '9' then (c - '0') as int
    else if 'a' <= c <= 'f' then (c - 'a') as int + 10
    else (c - 'A') as int + 10
  }

  /** Text that `fromString` reads: dashes in the four dash positions and a
      hexadecimal digit of either case everywhere else. */
  predicate IsUuidText(s: string) {
    && |s| == TextLength
    && forall i :: 0 <= i < TextLength ==>
         if IsDashPosition(i) then s[i] == '-' else IsHexChar(s[i])
  }

  /** Text that `toString` could have written: the form above in lower case. */
  predicate IsCanonicalText(s: string) {
    && IsUuidText(s)
    && forall i :: 0 <= i < |s| ==> !('A' <= s[i] <= 'F')
  }

  /** `UUID.toString`. */
  function ToString(u: Uuid): (s: string)
    ensures IsCanonicalText(s)
  {
    seq(TextLength, i requires 0 <= i < TextLength =>
      if IsDashPosition(i) then '-' else LowerHexDigit(u[DigitIndex(i)]))
  }

  /** `UUID.fromString` on the canonical form; `None` is the
      IllegalArgumentException it throws on anything else. */
  function FromString(s: string): (r: Option<Uuid>)
    ensures r.Some? <==> IsUuidText(s)
  {
    if IsUuidText(s) then
      Some(seq(32, j requires 0 <= j < 32 => HexValue(s[DigitPosition(j)])))
    else
      None
  }

  /** Reading back what `toString` wrote gives the same identifier. */
  lemma ParseOfFormat(u: Uuid)
    ensures FromString(ToString(u)) == Some(u)
  {
    var s := ToString(u);
    var v := FromString(s).value;
    forall j | 0 <= j < 32
      ensures v[j] == u[j]
    {
      assert DigitIndex(DigitPosition(j)) == j;
      assert s[DigitPosition(j)] == LowerHexDigit(u[j]);
    }
    assert v == u;
  }

  /** Text in canonical form is exactly what `toString` writes for the
      identifier it parses to. */
  lemma FormatOfParse(s: string)
    requires IsCanonicalText(s)
    ensures FromString(s).Some? && ToString(FromString(s).value) == s
  {
  }

  /** ASCII letters folded to lower case; every other character kept. */
  function LowerCase(s: string): (t: string)
    ensures |t| == |s|
    ensures forall i :: 0 <= i < |s| ==> !('A' <= t[i] <= 'Z')
  {
    seq(|s|, i requires 0 <= i < |s| => if 'A' <= s[i] <= 'Z' then (s[i] as int + 32) as char else s[i])
  }

  /** Hex digits are read without regard to case: text of either case parses,
      and the parsed identifier's text form is that text in lower case. */
  lemma FormatOfParseFoldsCase(s: string)
    requires IsUuidText(s)
    ensures FromString(s).Some? && ToString(FromString(s).value) == LowerCase(s)
    ensures FromString(LowerCase(s)) == FromString(s)
  {
    var u := FromString(s).value;
    var t := ToString(u);
    var l := LowerCase(s);
    forall i | 0 <= i < TextLength
      ensures t[i] == l[i]
    {
      if !IsDashPosition(i) {
        assert DigitPosition(DigitIndex(i)) == i;
      }
    }
    assert t == l;
    ParseOfFormat(u);
  }

  /** Distinct identifiers have distinct text forms. */
  lemma ToStringInjective(u: Uuid, v: Uuid)
    requires ToString(u) == ToString(v)
    ensures u == v
  {
    ParseOfFormat(u);
    ParseOfFormat(v);
  }
}
