/**
 * The generated identities of bots and cells: the `pybot_` id built from a
 * uuid's text, the default display name built from the id's last three
 * characters, and the random colour written as `#rrggbb` in lower-case hex.
 */
module Naming {

  const BotIdPrefix: string := "pybot_"
  const NamePrefix: string := "PyBot "

  /** Python's `s[:n]`: the first n characters, or all of a shorter string. */
  function Prefix(s: string, n: nat): (p: string)
    ensures |p| == if |s| <= n then |s| else n
    ensures p <= s
  {
    if |s| <= n then s else s[..n]
  }

  /** Python's `s[-n:]` for a positive n: the last n characters, or all of a shorter string. */
  function Suffix(s: string, n: nat): (t: string)
    requires 0 < n
    ensures |t| == if |s| <= n then |s| else n
    ensures t == s[|s| - |t|..]
  {
    if |s| <= n then s else s[|s| - n..]
  }

  /** `"pybot_" + str(uuid.uuid4())[:8]`, the uuid's text given. */
  function GenerateBotId(uuidText: string): (id: string)
    ensures BotIdPrefix <= id
    ensures |id| <= |BotIdPrefix| + 8
    ensures 8 <= |uuidText| ==> |id| == |BotIdPrefix| + 8
    ensures id[|BotIdPrefix|..] <= uuidText
  {
    var p := Prefix(uuidText, 8);
    assert (BotIdPrefix + p)[|BotIdPrefix|..] == p;
    BotIdPrefix + p
  }

  /** `f"PyBot {id[-3:]}"`: the default name ends with the id's last three characters. */
  function DefaultName(id: string): (name: string)
    ensures NamePrefix <= name
    ensures |name| == |NamePrefix| + (if |id| <= 3 then |id| else 3)
    ensures name[|NamePrefix|..] == id[|id| - (|name| - |NamePrefix|)..]
  {
    var t := Suffix(id, 3);
    assert (NamePrefix + t)[|NamePrefix|..] == t;
    NamePrefix + t
  }

  // ---------------------------------------------------------------------------
  // Colours

  const HexDigitChars: string := "0123456789abcdef"

  predicate IsHexDigit(c: char)
  {
    c in HexDigitChars
  }

  function HexChar(d: nat): (c: char)
    requires d < 16
    ensures IsHexDigit(c)
  {
    HexDigitChars[d]
  }

  /** The value of a lower-case hex digit. */
  function HexValue(c: char): (d: nat)
    requires IsHexDigit(c)
    ensures d < 16 && HexChar(d) == c
  {
    if '0' <= c <= '9' then (c - '0') as nat else (c - 'a') as nat + 10
  }

  lemma HexValueOfChar(d: nat)
    requires d < 16
    ensures HexValue(HexChar(d)) == d
  {
  }

  function Pow16(k: nat): (p: nat)
    ensures 0 < p
  {
    if k == 0 then 1 else 16 * Pow16(k - 1)
  }

  /** The last k hex digits of n, most significant first, zero-padded. */
  function HexDigits(n: nat, k: nat): (s: string)
    ensures |s| == k
    ensures forall i :: 0 <= i < |s| ==> IsHexDigit(s[i])
  {
    if k == 0 then [] else HexDigits(n / 16, k - 1) + [HexChar(n % 16)]
  }

  /** The number a string of lower-case hex digits denotes. */
  function ParseHex(s: string): nat
    requires forall i :: 0 <= i < |s| ==> IsHexDigit(s[i])
  {
    if s == [] then 0 else 16 * ParseHex(s[..|s| - 1]) + HexValue(s[|s| - 1])
  }

  /** Writing a number below 16^k with k hex digits loses nothing. */
  lemma {:induction false} HexDigitsRoundTrip(n: nat, k: nat)
    requires n < Pow16(k)
    ensures ParseHex(HexDigits(n, k)) == n
  {
    if k > 0 {
      var s := HexDigits(n, k);
      assert s[..|s| - 1] == HexDigits(n / 16, k - 1);
      assert n / 16 < Pow16(k - 1);
      HexDigitsRoundTrip(n / 16, k - 1);
      HexValueOfChar(n % 16);
    }
  }

  /** `f"#{n:06x}"` for `n = random.randint(0, 0xFFFFFF)`. */
  function HexColor(n: int): (color: string)
    requires 0 <= n <= 0xFF_FFFF
    ensures |color| == 7 && color[0] == '#'
    ensures forall i :: 1 <= i < 7 ==> IsHexDigit(color[i])
    ensures ParseHex(color[1..]) == n
  {
    var digits := HexDigits(n, 6);
    assert Pow16(6) == 0x100_0000;
    HexDigitsRoundTrip(n, 6);
    assert (['#'] + digits)[1..] == digits;
    ['#'] + digits
  }
}
