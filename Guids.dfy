/**
 * System.Guid as far as the archive core uses it: an opaque 128-bit value
 * compared for equality and rendered in the default "D" format
 * (32 lower-case hex digits in groups 8-4-4-4-12, separated by hyphens).
 * The value is kept as its 32 hex digits in display order, which sidesteps
 * .NET's mixed-endian byte layout without changing which values are equal.
 */
module Guids {

  type Nibble = n: int | 0 <= n < 16

  datatype GuidBits = GuidBits(nibbles: seq<Nibble>)

  type Guid = g: GuidBits | |g.nibbles| == 32 witness GuidBits(seq(32, _ => 0))

  const HEX_DIGITS: string := "0123456789abcdef"

  function HexDigit(n: Nibble): char {
    HEX_DIGITS[n]
  }

  function HexText(ns: seq<Nibble>): (s: string)
    ensures |s| == |ns|
    ensures forall i :: 0 <= i < |ns| ==> s[i] == HexDigit(ns[i])
  {
    seq(|ns|, i requires 0 <= i < |ns| => HexDigit(ns[i]))
  }

  /** `Guid.ToString()`: "xxxxxxxx-xxxx-xxxx-xxxx-xxxxxxxxxxxx". */
  function GuidText(g: Guid): (s: string)
    ensures |s| == 36
    ensures s[8] == '-' && s[13] == '-' && s[18] == '-' && s[23] == '-'
  {
    var n := g.nibbles;
    HexText(n[0..8]) + "-" + HexText(n[8..12]) + "-" + HexText(n[12..16]) + "-"
      + HexText(n[16..20]) + "-" + HexText(n[20..32])
  }

  /** Where the k-th hex digit lands in the text: one position further per hyphen before it. */
  function DigitPosition(k: int): (p: int)
    requires 0 <= k < 32
    ensures 0 <= p < 36
  {
    if k < 8 then k else if k < 12 then k + 1 else if k < 16 then k + 2 else if k < 20 then k + 3 else k + 4
  }

  lemma GuidTextAt(g: Guid, k: int)
    requires 0 <= k < 32
    ensures GuidText(g)[DigitPosition(k)] == HexDigit(g.nibbles[k])
  {
    var n := g.nibbles;
    var a, b, c, d, e := HexText(n[0..8]), HexText(n[8..12]), HexText(n[12..16]), HexText(n[16..20]), HexText(n[20..32]);
    assert GuidText(g) == a + "-" + b + "-" + c + "-" + d + "-" + e;
    if k < 8 {
      assert GuidText(g)[k] == a[k];
    } else if k < 12 {
      assert GuidText(g)[k + 1] == b[k - 8];
    } else if k < 16 {
      assert GuidText(g)[k + 2] == c[k - 12];
    } else if k < 20 {
      assert GuidText(g)[k + 3] == d[k - 16];
    } else {
      assert GuidText(g)[k + 4] == e[k - 20];
    }
  }

  lemma HexDigitInjective(m: Nibble, n: Nibble)
    requires HexDigit(m) == HexDigit(n)
    ensures m == n
  {
  }

  /** Distinct job identifiers have distinct texts: the text determines the Guid. */
  lemma GuidTextInjective(a: Guid, b: Guid)
    requires GuidText(a) == GuidText(b)
    ensures a == b
  {
    forall k | 0 <= k < 32
      ensures a.nibbles[k] == b.nibbles[k]
    {
      GuidTextAt(a, k);
      GuidTextAt(b, k);
      HexDigitInjective(a.nibbles[k], b.nibbles[k]);
    }
    assert a.nibbles == b.nibbles;
  }
}
