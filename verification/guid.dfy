/** `System.Guid` as the 128-bit number its canonical text spells. */
module Guids {
  import opened Text

  const GuidBound: nat := 0x1_0000_0000_0000_0000_0000_0000_0000_0000

  type Guid = g: nat | g < GuidBound

  /** `Guid.Empty`, the all-zero identifier. */
  const Empty: Guid := 0

  function HexChar(d: nat): (c: char)
    requires d < 16
  {
    if d < 10 then DigitChar(d) else ('a' as int + (d - 10)) as char
  }

  /** `n` as exactly `width` lower-case hexadecimal digits. */
  function HexDigits(n: nat, width: nat): (s: string)
    ensures |s| == width
  {
    if width == 0 then [] else HexDigits(n / 16, width - 1) + [HexChar(n % 16)]
  }

  /** `Guid.ToString()`: 32 hexadecimal digits in groups of 8-4-4-4-12. */
  function GuidText(g: Guid): (s: string)
    ensures |s| == 36
    ensures s[8] == '-' && s[13] == '-' && s[18] == '-' && s[23] == '-'
  {
    var h := HexDigits(g, 32);
    h[..8] + "-" + h[8..12] + "-" + h[12..16] + "-" + h[16..20] + "-" + h[20..]
  }

  // ---------------------------------------------------------------------
  // Reading the text back

  /** The value of a lower-case hexadecimal digit. */
  function HexCharValue(c: char): (d: nat)
    ensures d < 16
  {
    if '0' <= c <= '9' then c as int - '0' as int
    else if 'a' <= c <= 'f' then c as int - 'a' as int + 10
    else 0
  }

  /** The number a string of hexadecimal digits spells, most significant first. */
  function HexValue(s: string): nat {
    if s == [] then 0 else HexValue(s[..|s| - 1]) * 16 + HexCharValue(s[|s| - 1])
  }

  function Pow16(w: nat): (p: nat)
    ensures p > 0
  {
    if w == 0 then 1 else 16 * Pow16(w - 1)
  }

  /** The 32 digits of a canonical identifier with its four dashes removed. */
  function Undashed(s: string): string
    requires |s| == 36
  {
    s[..8] + s[9..13] + s[14..18] + s[19..23] + s[24..]
  }

  lemma HexCharReadsBack(d: nat)
    requires d < 16
    ensures HexCharValue(HexChar(d)) == d
  {
  }

  /** Euclidean remainder is the unique `x` in `[0, m)` with `n == m * a + x`. */
  lemma ModUnique(n: int, m: int, a: int, x: int)
    requires m > 0 && n == m * a + x && 0 <= x < m
    ensures n % m == x
  {
    var k := a - n / m;
    assert m * k == n % m - x by {
      assert n == m * (n / m) + n % m;
    }
    assert k == 0;
  }

  /** Splitting off the last hexadecimal digit: `q * 16 + r` with `q` taken
      modulo `p` is `n` modulo `16 * p`. */
  lemma ModOfShift(n: nat, p: nat)
    requires p > 0
    ensures (n / 16 % p) * 16 + n % 16 == n % (16 * p)
  {
    var q, r := n / 16, n % 16;
    var a, b := q / p, q % p;
    assert n == (16 * p) * a + (b * 16 + r) by {
      assert n == 16 * q + r;
      assert q == p * a + b;
    }
    ModUnique(n, 16 * p, a, b * 16 + r);
  }

  /** `HexDigits` keeps the low `width` digits of `n`. */
  lemma {:induction false} HexDigitsReadBack(n: nat, width: nat)
    ensures HexValue(HexDigits(n, width)) == n % Pow16(width)
  {
    if width > 0 {
      var s := HexDigits(n, width);
      assert s[..|s| - 1] == HexDigits(n / 16, width - 1);
      HexDigitsReadBack(n / 16, width - 1);
      HexCharReadsBack(n % 16);
      ModOfShift(n, Pow16(width - 1));
    }
  }

  /** Dropping the dashes of the canonical text leaves the 32 digits. */
  lemma UndashedGuidText(g: Guid)
    ensures Undashed(GuidText(g)) == HexDigits(g, 32)
  {
    var h := HexDigits(g, 32);
    var s := GuidText(g);
    assert s[..8] == h[..8];
    assert s[9..13] == h[8..12];
    assert s[14..18] == h[12..16];
    assert s[19..23] == h[16..20];
    assert s[24..] == h[20..];
    assert h == h[..8] + h[8..12] + h[12..16] + h[16..20] + h[20..];
  }

  lemma {:induction false} Pow16Add(a: nat, b: nat)
    ensures Pow16(a + b) == Pow16(a) * Pow16(b)
  {
    if b > 0 {
      calc {
        Pow16(a + b);
        16 * Pow16(a + (b - 1));
        { Pow16Add(a, b - 1); }
        16 * (Pow16(a) * Pow16(b - 1));
        Pow16(a) * (16 * Pow16(b - 1));
        Pow16(a) * Pow16(b);
      }
    }
  }

  /** 32 hexadecimal digits hold exactly the 128-bit range. */
  lemma Pow16Of32()
    ensures Pow16(32) == GuidBound
  {
    assert Pow16(8) == 0x1_0000_0000 by {
      assert Pow16(4) == 0x1_0000;
      Pow16Add(4, 4);
    }
    assert Pow16(16) == 0x1_0000_0000_0000_0000 by {
      Pow16Add(8, 8);
    }
    calc {
      Pow16(32);
      { Pow16Add(16, 16); }
      Pow16(16) * Pow16(16);
      0x1_0000_0000_0000_0000 * 0x1_0000_0000_0000_0000;
    }
  }

  /** The canonical text spells the identifier: dropping its dashes and
      reading the digits gives `g` back. */
  lemma GuidTextReadsBack(g: Guid)
    ensures HexValue(Undashed(GuidText(g))) == g
  {
    calc {
      HexValue(Undashed(GuidText(g)));
      { UndashedGuidText(g); }
      HexValue(HexDigits(g, 32));
      { HexDigitsReadBack(g, 32); Pow16Of32(); }
      g % GuidBound;
      { ModUnique(g, GuidBound, 0, g); }
      g;
    }
  }

  /** Distinct identifiers have distinct texts. */
  lemma GuidTextInjective(a: Guid, b: Guid)
    ensures GuidText(a) == GuidText(b) <==> a == b
  {
    if GuidText(a) == GuidText(b) {
      GuidTextReadsBack(a);
      GuidTextReadsBack(b);
    }
  }
}
