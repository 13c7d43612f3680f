/** Name of the index file: the relation name, a dot, and the attribute's byte offset
    written in decimal, as an output string stream formats an `int`. */
module IndexFilename {
  import opened BTreeTypes

  predicate IsDigit(c: char)
  {
    '0' <= c <= '9'
  }

  predicate AllDigits(s: string)
  {
    forall i :: 0 <= i < |s| ==> IsDigit(s[i])
  }

  function DigitChar(d: nat): (c: char)
    requires d < 10
    ensures IsDigit(c)
  {
    ('0' as int + d) as char
  }

  function DigitValue(c: char): (d: nat)
    requires IsDigit(c)
    ensures d < 10
  {
    c as int - '0' as int
  }

  /** Decimal digits of n, most significant first, without leading zeros. */
  function NatToDecimal(n: nat): (s: string)
    ensures |s| > 0 && AllDigits(s)
  {
    if n < 10 then [DigitChar(n)] else NatToDecimal(n / 10) + [DigitChar(n % 10)]
  }

  /** `os << n` for an integer: a minus sign before the digits of a negative value. */
  function IntToDecimal(n: int): (s: string)
    ensures '.' !in s
  {
    if n < 0 then "-" + NatToDecimal(-n) else NatToDecimal(n)
  }

  /** makeIndexFilename: the relation name, a dot, then the offset in decimal; the text
      after the name holds no further dot. */
  function MakeIndexFilename(relationName: string, attrByteOffset: int): (name: string)
    ensures |name| > |relationName| + 1
    ensures name[..|relationName|] == relationName && name[|relationName|] == '.'
    ensures '.' !in name[|relationName| + 1..]
  {
    relationName + "." + IntToDecimal(attrByteOffset)
  }

  /** Value of a non-empty digit string. */
  function ParseNat(s: string): nat
    requires |s| > 0 && AllDigits(s)
  {
    if |s| == 1 then DigitValue(s[0])
    else 10 * ParseNat(s[..|s| - 1]) + DigitValue(s[|s| - 1])
  }

  /** Reads back an optional minus sign followed by digits. */
  function ParseInt(s: string): Option<int>
  {
    if |s| > 0 && AllDigits(s) then Some(ParseNat(s))
    else if |s| > 1 && s[0] == '-' && AllDigits(s[1..]) then Some(-(ParseNat(s[1..]) as int))
    else None
  }

  /** Index of the last '.' of s. */
  function LastDot(s: string): (r: Option<nat>)
    ensures r.Some? ==> r.value < |s| && s[r.value] == '.'
  {
    if s == [] then None
    else if s[|s| - 1] == '.' then Some(|s| - 1)
    else LastDot(s[..|s| - 1])
  }

  /** Recovers relation name and offset from an index file name. */
  function SplitIndexFilename(name: string): Option<(string, int)>
  {
    match LastDot(name)
    case None => None
    case Some(i) =>
      match ParseInt(name[i + 1..])
      case None => None
      case Some(offset) => Some((name[..i], offset))
  }

  lemma {:induction false} NatDecimalRoundTrip(n: nat)
    ensures ParseNat(NatToDecimal(n)) == n
  {
    if n >= 10 {
      var s := NatToDecimal(n);
      assert s[..|s| - 1] == NatToDecimal(n / 10);
      NatDecimalRoundTrip(n / 10);
    }
  }

  lemma IntDecimalRoundTrip(n: int)
    ensures ParseInt(IntToDecimal(n)) == Some(n)
  {
    var s := IntToDecimal(n);
    if n < 0 {
      assert !IsDigit(s[0]);
      assert s[1..] == NatToDecimal(-n);
      NatDecimalRoundTrip(-n);
    } else {
      NatDecimalRoundTrip(n);
    }
  }

  lemma {:induction false} LastDotBeforeSuffix(prefix: string, suffix: string)
    requires '.' !in suffix
    ensures LastDot(prefix + "." + suffix) == Some(|prefix|)
  {
    if suffix != [] {
      var s := prefix + "." + suffix;
      assert s[|s| - 1] == suffix[|suffix| - 1];
      assert s[..|s| - 1] == prefix + "." + suffix[..|suffix| - 1];
      LastDotBeforeSuffix(prefix, suffix[..|suffix| - 1]);
    }
  }

  /** The file name determines the relation name and offset it was made from. */
  lemma IndexFilenameRoundTrip(relationName: string, attrByteOffset: int)
    ensures SplitIndexFilename(MakeIndexFilename(relationName, attrByteOffset)) == Some((relationName, attrByteOffset))
  {
    var digits := IntToDecimal(attrByteOffset);
    var name := MakeIndexFilename(relationName, attrByteOffset);
    LastDotBeforeSuffix(relationName, digits);
    assert name[|relationName| + 1..] == digits;
    assert name[..|relationName|] == relationName;
    IntDecimalRoundTrip(attrByteOffset);
  }

  /** Two indexes share a file name only if they index the same relation at the same offset. */
  lemma IndexFilenameInjective(r1: string, o1: int, r2: string, o2: int)
    requires MakeIndexFilename(r1, o1) == MakeIndexFilename(r2, o2)
    ensures r1 == r2 && o1 == o2
  {
    IndexFilenameRoundTrip(r1, o1);
    IndexFilenameRoundTrip(r2, o2);
  }
}
