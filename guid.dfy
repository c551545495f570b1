/** The ids `_guid` makes for records that arrive without one. Each of its eight
    `s4()` calls draws a random number `r` in [0, 1) and writes
    `Math.floor((1 + r) * 0x10000)` in hexadecimal without its leading digit. The
    model takes the draw `floor(r * 0x10000)`, a number below 0x10000, as given. */
module Guid {

  predicate IsHexChar(c: char) {
    '0' <= c <= '9' || 'a' <= c <= 'f'
  }

  function HexDigit(d: nat): (c: char)
    requires d < 16
    ensures IsHexChar(c)
  {
    "0123456789abcdef"[d]
  }

  function HexDigitValue(c: char): nat {
    if '0' <= c <= '9' then (c - '0') as nat
    else if 'a' <= c <= 'f' then (c - 'a') as nat + 10
    else 0
  }

  /** `n.toString(16)`. */
  function Hex(n: nat): (s: string)
    ensures |s| >= 1
    ensures forall i :: 0 <= i < |s| ==> IsHexChar(s[i])
    decreases n
  {
    if n < 16 then [HexDigit(n)] else Hex(n / 16) + [HexDigit(n % 16)]
  }

  /** The number a hexadecimal numeral denotes. */
  function HexValue(s: string): nat
    decreases |s|
  {
    if s == [] then 0 else HexValue(s[..|s| - 1]) * 16 + HexDigitValue(s[|s| - 1])
  }

  lemma HexDigitRoundTrip(d: nat)
    requires d < 16
    ensures HexDigitValue(HexDigit(d)) == d
  {
  }

  lemma {:induction false} HexRoundTrip(n: nat)
    ensures HexValue(Hex(n)) == n
    decreases n
  {
    var q, d := n / 16, n % 16;
    HexDigitRoundTrip(d);
    if n >= 16 {
      var s := Hex(n);
      assert s == Hex(q) + [HexDigit(d)];
      assert s[..|s| - 1] == Hex(q);
      HexRoundTrip(q);
    }
  }

  /** Every number in [0x10000, 0x20000) is five hexadecimal digits, the first a '1'. */
  lemma HexOfFiveDigits(n: nat)
    requires 0x10000 <= n < 0x20000
    ensures |Hex(n)| == 5 && Hex(n)[0] == '1'
  {
    var n1 := n / 16;
    var n2 := n1 / 16;
    var n3 := n2 / 16;
    var n4 := n3 / 16;
    assert n4 == 1;
    assert Hex(n4) == "1";
    assert |Hex(n3)| == 2 && Hex(n3)[0] == '1';
    assert |Hex(n2)| == 3 && Hex(n2)[0] == '1';
    assert |Hex(n1)| == 4 && Hex(n1)[0] == '1';
  }

  /** Dropping the leading '1' of a five-digit numeral subtracts 0x10000. */
  lemma DropLeadingOne(s: string)
    requires |s| == 5 && s[0] == '1'
    ensures HexValue(s) == 0x10000 + HexValue(s[1..])
  {
    var u := s[1..];
    var v1, v2, v3, v4 := HexDigitValue(s[1]), HexDigitValue(s[2]), HexDigitValue(s[3]), HexDigitValue(s[4]);
    assert s[..1] == "1" && HexValue(s[..1]) == 1;
    assert s[..2][..1] == s[..1] && HexValue(s[..2]) == 16 + v1;
    assert s[..3][..2] == s[..2] && HexValue(s[..3]) == (16 + v1) * 16 + v2;
    assert s[..4][..3] == s[..3] && HexValue(s[..4]) == ((16 + v1) * 16 + v2) * 16 + v3;
    assert s[..5][..4] == s[..4] && s[..5] == s;
    assert HexValue(s) == (((16 + v1) * 16 + v2) * 16 + v3) * 16 + v4;
    assert u[..1] == s[1..2] && HexValue(u[..1]) == v1;
    assert u[..2][..1] == u[..1] && HexValue(u[..2]) == v1 * 16 + v2;
    assert u[..3][..2] == u[..2] && HexValue(u[..3]) == (v1 * 16 + v2) * 16 + v3;
    assert u[..4][..3] == u[..3] && u[..4] == u;
    assert HexValue(u) == ((v1 * 16 + v2) * 16 + v3) * 16 + v4;
  }

  /** `s4()` for the draw `x`: four lower-case hexadecimal digits. */
  function S4(x: nat): (s: string)
    requires x < 0x10000
    ensures |s| == 4
    ensures forall i :: 0 <= i < 4 ==> IsHexChar(s[i])
  {
    HexOfFiveDigits(0x10000 + x);
    Hex(0x10000 + x)[1..]
  }

  /** The four digits of `s4()` give its draw back. */
  lemma S4RoundTrip(x: nat)
    requires x < 0x10000
    ensures HexValue(S4(x)) == x
  {
    var m := 0x10000 + x;
    HexOfFiveDigits(m);
    HexRoundTrip(m);
    DropLeadingOne(Hex(m));
  }

  /** The eight draws one `_guid()` call makes. */
  type Draw = d: seq<nat> | |d| == 8 && forall i :: 0 <= i < |d| ==> d[i] < 0x10000
    witness [0, 0, 0, 0, 0, 0, 0, 0]

  /** `_guid()`: `xxxxxxxx-xxxx-xxxx-xxxx-xxxxxxxxxxxx` from eight draws. */
  function Format(d: Draw): (g: string)
    ensures |g| == 36
    ensures forall i :: 0 <= i < 36 && i != 8 && i != 13 && i != 18 && i != 23 ==> IsHexChar(g[i])
    ensures g[8] == '-' && g[13] == '-' && g[18] == '-' && g[23] == '-'
  {
    S4(d[0]) + S4(d[1]) + "-" + S4(d[2]) + "-" + S4(d[3]) + "-" + S4(d[4]) + "-" +
    S4(d[5]) + S4(d[6]) + S4(d[7])
  }

  /** The positions of the eight four-digit groups in a formatted id. */
  function GroupStart(k: nat): nat
    requires k < 8
  {
    [0, 4, 9, 14, 19, 24, 28, 32][k]
  }

  lemma FormatGroups(d: Draw, k: nat)
    requires k < 8
    ensures GroupStart(k) + 4 <= 36 && Format(d)[GroupStart(k)..GroupStart(k) + 4] == S4(d[k])
  {
    var g := Format(d);
    var a, b, c, e, f, h, i, j := S4(d[0]), S4(d[1]), S4(d[2]), S4(d[3]), S4(d[4]), S4(d[5]), S4(d[6]), S4(d[7]);
    assert g == a + b + "-" + c + "-" + e + "-" + f + "-" + h + i + j;
    var p := GroupStart(k);
    var w := [a, b, c, e, f, h, i, j][k];
    assert w == S4(d[k]);
    forall t | 0 <= t < 4 ensures g[p + t] == w[t] { }
    assert g[p..p + 4] == w;
  }

  /** Different draws always give different ids: a collision between two generated
      ids needs the same 128 bits to be drawn twice. */
  lemma FormatInjective(d1: Draw, d2: Draw)
    requires Format(d1) == Format(d2)
    ensures d1 == d2
  {
    forall k | 0 <= k < 8 ensures d1[k] == d2[k] {
      FormatGroups(d1, k);
      FormatGroups(d2, k);
      S4RoundTrip(d1[k]);
      S4RoundTrip(d2[k]);
    }
  }
}
