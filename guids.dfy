/** News identifiers: a `Guid` as its 32 hexadecimal digits, read from and written to
    the canonical hyphenated `8-4-4-4-12` layout (the "D" format of .NET and the string
    representation of section 3 of RFC 4122). */
module Guids {
  import opened Common

  type Nibble = n: int | 0 <= n < 16

  /** The 128 bits of an identifier, most significant digit first. */
  type Guid = s: seq<Nibble> | |s| == 32 witness seq(32, _ => 0)

  /** Positions of the four hyphens in the 36-character layout. */
  predicate IsDashPosition(j: int)
  {
    j == 8 || j == 13 || j == 18 || j == 23
  }

  /** How many hyphens precede position `j` of the layout. */
  function DashesBefore(j: int): (k: int)
    ensures 0 <= k <= 4
  {
    if j <= 8 then 0 else if j <= 13 then 1 else if j <= 18 then 2 else if j <= 23 then 3 else 4
  }

  /** Which digit of the identifier a non-hyphen position of the layout holds. */
  function DigitIndex(j: int): (i: int)
    requires 0 <= j < 36 && !IsDashPosition(j)
    ensures 0 <= i < 32
  {
    j - DashesBefore(j)
  }

  /** Where digit `i` of the identifier sits in the layout. */
  function DigitPosition(i: int): (j: int)
    requires 0 <= i < 32
    ensures 0 <= j < 36 && !IsDashPosition(j) && DigitIndex(j) == i
  {
    if i < 8 then i else if i < 12 then i + 1 else if i < 16 then i + 2 else if i < 20 then i + 3 else i + 4
  }

  predicate IsHexDigit(c: char)
  {
    ('0' <= c <= '9') || ('a' <= c <= 'f') || ('A' <= c <= 'F')
  }

  /** The value of a hexadecimal digit of either case. */
  function HexValue(c: char): (n: Nibble)
    requires IsHexDigit(c)
  {
    if '0' <= c <= '9' then c as int - '0' as int
    else if 'a' <= c <= 'f' then c as int - 'a' as int + 10
    else c as int - 'A' as int + 10
  }

  /** The lower-case digit `Guid.ToString()` prints. */
  function HexChar(n: Nibble): (c: char)
    ensures IsHexDigit(c) && HexValue(c) == n
    ensures !('A' <= c <= 'F')
  {
    if n < 10 then ('0' as int + n) as char else ('a' as int + n - 10) as char
  }

  /** `id.ToString()`: 36 characters, lower-case digits and four hyphens. */
  function FormatGuid(g: Guid): (s: string)
    ensures |s| == 36
    ensures forall j :: 0 <= j < 36 ==> (s[j] == '-' <==> IsDashPosition(j))
    ensures forall j :: 0 <= j < 36 && !IsDashPosition(j) ==> IsHexDigit(s[j]) && HexValue(s[j]) == g[DigitIndex(j)]
  {
    seq(36, j requires 0 <= j < 36 => if IsDashPosition(j) then '-' else HexChar(g[DigitIndex(j)]))
  }

  /** The character pattern of the canonical layout, either case. */
  predicate GuidShape(s: string)
  {
    |s| == 36 && forall j :: 0 <= j < 36 ==> if IsDashPosition(j) then s[j] == '-' else IsHexDigit(s[j])
  }

  /** `Guid.TryParse` restricted to the hyphenated layout. */
  function ParseGuid(s: string): (r: Option<Guid>)
    ensures r.Some? <==> GuidShape(s)
    ensures r.Some? ==> forall i :: 0 <= i < 32 ==> r.value[i] == HexValue(s[DigitPosition(i)])
  {
    if GuidShape(s) then Some(seq(32, i requires 0 <= i < 32 => HexValue(s[DigitPosition(i)]))) else None
  }

  /** The rendering parses back to the identifier it came from. */
  lemma {:induction false} ParseFormatGuid(g: Guid)
    ensures ParseGuid(FormatGuid(g)) == Some(g)
  {
    var s := FormatGuid(g);
    assert GuidShape(s);
    var h := ParseGuid(s).value;
    assert forall i :: 0 <= i < 32 ==> h[i] == g[i] by {
      forall i | 0 <= i < 32
        ensures h[i] == g[i]
      {
        assert DigitIndex(DigitPosition(i)) == i;
      }
    }
    assert h == g;
  }

  /** Distinct identifiers have distinct renderings. */
  lemma {:induction false} FormatGuidInjective(g1: Guid, g2: Guid)
    requires FormatGuid(g1) == FormatGuid(g2)
    ensures g1 == g2
  {
    ParseFormatGuid(g1);
    ParseFormatGuid(g2);
  }

  /** Parsing ignores case: a successfully parsed spelling agrees with the lower-case
      rendering of its identifier hyphen for hyphen and digit value for digit value. */
  lemma {:induction false} ParseGuidCanonical(s: string)
    requires ParseGuid(s).Some?
    ensures forall j :: 0 <= j < 36 ==>
      if IsDashPosition(j) then FormatGuid(ParseGuid(s).value)[j] == s[j]
      else IsHexDigit(s[j]) && HexValue(FormatGuid(ParseGuid(s).value)[j]) == HexValue(s[j])
  {
    var g := ParseGuid(s).value;
    forall j | 0 <= j < 36
      ensures if IsDashPosition(j) then FormatGuid(g)[j] == s[j]
              else IsHexDigit(s[j]) && HexValue(FormatGuid(g)[j]) == HexValue(s[j])
    {
      if !IsDashPosition(j) {
        assert DigitPosition(DigitIndex(j)) == j;
      }
    }
  }
}
