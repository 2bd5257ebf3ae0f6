/**
 * Java string helpers the modelled code relies on: StringJoiner, decimal digits of
 * Integer/Long.toString, ASCII lower-casing (String.toLowerCase on enum names),
 * zero padding and the UTF-8 bytes of Binary.fromString.
 */
module Text {
  import opened TwosComplement

  // ---------------------------------------------------------------------------
  // StringJoiner

  /** What a StringJoiner with delimiter sep holds after adding parts in order ("" when none were added). */
  function Join(sep: string, parts: seq<string>): string
  {
    if parts == [] then ""
    else if |parts| == 1 then parts[0]
    else Join(sep, parts[..|parts| - 1]) + sep + parts[|parts| - 1]
  }

  /** Appending the delimiter (none before the first part) and part i to text ending in the first i parts joined. */
  lemma JoinStep(head: string, sep: string, parts: seq<string>, i: nat)
    requires i < |parts|
    ensures head + Join(sep, parts[..i]) + (if i == 0 then "" else sep) + parts[i] == head + Join(sep, parts[..i + 1])
  {
    assert parts[..i + 1][..i] == parts[..i];
    var joined := Join(sep, parts[..i]);
    if i == 0 {
      assert joined == "";
      assert Join(sep, parts[..1]) == parts[0];
    } else {
      assert Join(sep, parts[..i + 1]) == joined + sep + parts[i];
      assert head + joined + sep + parts[i] == head + (joined + sep + parts[i]);
    }
  }

  /** A join holds a character only if the separator or some part holds it. */
  lemma {:induction false} JoinAvoids(c: char, sep: string, parts: seq<string>)
    requires c !in sep && forall i :: 0 <= i < |parts| ==> c !in parts[i]
    ensures c !in Join(sep, parts)
  {
    if |parts| > 1 {
      JoinAvoids(c, sep, parts[..|parts| - 1]);
    }
  }

  /** The position of the last c in w, or -1 when there is none. */
  function LastIndexOf(c: char, w: string): (k: int)
    ensures -1 <= k < |w|
  {
    if w == [] then -1
    else if w[|w| - 1] == c then |w| - 1
    else LastIndexOf(c, w[..|w| - 1])
  }

  /** The last c of u + [c] + a is the one after u when a holds no c. */
  lemma {:induction false} LastIndexAfter(c: char, u: string, a: string)
    requires c !in a
    ensures LastIndexOf(c, u + [c] + a) == |u|
    decreases |a|
  {
    var w := u + [c] + a;
    if a != [] {
      var a' := a[..|a| - 1];
      assert w[..|w| - 1] == u + [c] + a';
      assert w[|w| - 1] == a[|a| - 1];
      LastIndexAfter(c, u, a');
    }
  }

  /** Cutting a string at the last occurrence of c: both sides are determined. */
  lemma SplitAtLast(c: char, u: string, a: string, v: string, b: string)
    requires c !in a && c !in b
    requires u + [c] + a == v + [c] + b
    ensures u == v && a == b
  {
    var w := u + [c] + a;
    LastIndexAfter(c, u, a);
    LastIndexAfter(c, v, b);
    assert |u| == |v|;
    assert u == w[..|u|] == v;
    assert a == w[|u| + 1..] == b;
  }

  /**
   * A join with a one-character separator that no part contains determines its
   * parts, as long as there is at least one part on each side.
   */
  lemma {:induction false} JoinInjective(c: char, xs: seq<string>, ys: seq<string>)
    requires |xs| > 0 && |ys| > 0
    requires forall i :: 0 <= i < |xs| ==> c !in xs[i]
    requires forall i :: 0 <= i < |ys| ==> c !in ys[i]
    requires Join([c], xs) == Join([c], ys)
    ensures xs == ys
    decreases |xs| + |ys|
  {
    if |xs| == 1 || |ys| == 1 {
    } else {
      var xs', ys' := xs[..|xs| - 1], ys[..|ys| - 1];
      SplitAtLast(c, Join([c], xs'), xs[|xs| - 1], Join([c], ys'), ys[|ys| - 1]);
      JoinInjective(c, xs', ys');
      assert xs == xs' + [xs[|xs| - 1]] && ys == ys' + [ys[|ys| - 1]];
    }
  }

  // ---------------------------------------------------------------------------
  // Decimal digits

  /** The character of a decimal digit. */
  function DigitChar(d: nat): (c: char)
    requires d < 10
    ensures '0' <= c <= '9'
  {
    ['0', '1', '2', '3', '4', '5', '6', '7', '8', '9'][d]
  }

  /** The value of a decimal digit character. */
  function DigitValue(c: char): (d: nat)
    requires '0' <= c <= '9'
    ensures d < 10
  {
    c as int - '0' as int
  }

  /** Digits only. */
  predicate AllDigits(s: string) {
    forall i :: 0 <= i < |s| ==> '0' <= s[i] <= '9'
  }

  /** The decimal text of a natural number, without leading zeros. */
  function NatText(n: nat): (s: string)
    ensures |s| > 0 && AllDigits(s)
    decreases n
  {
    if n < 10 then [DigitChar(n)] else NatText(n / 10) + [DigitChar(n % 10)]
  }

  /** Reading decimal digits back. */
  function ParseNat(s: string): nat
    requires AllDigits(s)
  {
    if s == [] then 0 else ParseNat(s[..|s| - 1]) * 10 + DigitValue(s[|s| - 1])
  }

  /** Round trip: the digits of n read back as n. */
  lemma {:induction false} ParseNatText(n: nat)
    ensures ParseNat(NatText(n)) == n
    decreases n
  {
    forall d: nat | d < 10 ensures DigitValue(DigitChar(d)) == d { }
    if n < 10 {
      assert NatText(n)[..0] == [];
    } else {
      var s := NatText(n);
      assert s[..|s| - 1] == NatText(n / 10);
      ParseNatText(n / 10);
    }
  }

  /** Integer.toString and Long.toString: a minus sign for negative values, then the digits. */
  function IntText(i: int): (s: string)
  {
    if i < 0 then "-" + NatText(-i) else NatText(i)
  }

  /** The decimal text of an integer holds only a leading minus sign and digits. */
  lemma IntTextChars(i: int)
    ensures |IntText(i)| > 0
    ensures forall k :: 0 <= k < |IntText(i)| ==> IntText(i)[k] == '-' || '0' <= IntText(i)[k] <= '9'
    ensures '\'' !in IntText(i)
  {
  }

  /** The text s preceded by zeros up to width characters. */
  function ZeroPad(s: string, width: nat): (r: string)
    ensures |r| == if |s| < width then width else |s|
    ensures r[|r| - |s|..] == s
  {
    if |s| < width then seq(width - |s|, _ => '0') + s else s
  }

  // ---------------------------------------------------------------------------
  // Lower case

  /** Character.toLowerCase restricted to ASCII capitals (the only letters of the enum names). */
  function LowerChar(c: char): (r: char)
    ensures 'A' <= c <= 'Z' ==> 'a' <= r <= 'z'
    ensures !('A' <= c <= 'Z') ==> r == c
  {
    if 'A' <= c <= 'Z' then (c as int - 'A' as int + 'a' as int) as char else c
  }

  /** String.toLowerCase on ASCII text. */
  function ToLower(s: string): (r: string)
    ensures |r| == |s|
  {
    seq(|s|, i requires 0 <= i < |s| => LowerChar(s[i]))
  }

  /** Text without lower-case ASCII letters, such as a Java enum constant's name. */
  predicate NoLowerCase(s: string) {
    forall i :: 0 <= i < |s| ==> !('a' <= s[i] <= 'z')
  }

  /** Lower-casing loses nothing on texts without lower-case letters. */
  lemma ToLowerInjective(s: string, t: string)
    requires NoLowerCase(s) && NoLowerCase(t)
    requires ToLower(s) == ToLower(t)
    ensures s == t
  {
    assert |s| == |t|;
    forall i | 0 <= i < |s| ensures s[i] == t[i] {
      assert LowerChar(s[i]) == ToLower(s)[i] == ToLower(t)[i] == LowerChar(t[i]);
    }
  }

  // ---------------------------------------------------------------------------
  // UTF-8 (Binary.fromString)

  /** The UTF-8 bytes of one code point. */
  function Utf8Char(c: char): (r: seq<Byte>)
    ensures 1 <= |r| <= 4
    ensures (c as int < 0x80) <==> |r| == 1
  {
    var cp := c as int;
    if cp < 0x80 then [cp]
    else if cp < 0x800 then [0xC0 + cp / 64, 0x80 + cp % 64]
    else if cp < 0x10000 then [0xE0 + cp / 4096, 0x80 + (cp / 64) % 64, 0x80 + cp % 64]
    else [0xF0 + cp / 262144, 0x80 + (cp / 4096) % 64, 0x80 + (cp / 64) % 64, 0x80 + cp % 64]
  }

  /** The UTF-8 encoding of a string. */
  function Utf8Bytes(s: string): seq<Byte>
  {
    if s == [] then [] else Utf8Bytes(s[..|s| - 1]) + Utf8Char(s[|s| - 1])
  }

  /** Text made of ASCII characters only. */
  predicate IsAscii(s: string) {
    forall i :: 0 <= i < |s| ==> s[i] as int < 0x80
  }

  /** ASCII text encodes to one byte per character, the character's code. */
  lemma {:induction false} Utf8Ascii(s: string)
    requires IsAscii(s)
    ensures |Utf8Bytes(s)| == |s|
    ensures forall i :: 0 <= i < |s| ==> Utf8Bytes(s)[i] == s[i] as int
  {
    if s != [] {
      Utf8Ascii(s[..|s| - 1]);
    }
  }
}
