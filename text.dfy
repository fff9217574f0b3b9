/**
 * The Java string operations the word-count pipeline is built on, restricted to
 * what the pipeline needs: String.trim, ASCII case folding, String.split with a
 * one-character pattern, Integer.toString and Integer.parseInt.
 */
module JavaText {
  import opened Wrappers

  const INT_MIN: int := -0x8000_0000
  const INT_MAX: int := 0x7FFF_FFFF

  predicate IsLower(c: char) { 'a' <= c <= 'z' }

  predicate IsDigit(c: char) { '0' <= c <= '9' }

  /** What String.trim strips from both ends: every character up to U+0020. */
  predicate IsTrimmable(c: char) { c <= ' ' }

  /** String.toLowerCase on one character, for the ASCII range only. */
  function LowerAscii(c: char): char {
    if 'A' <= c <= 'Z' then (c as int + 32) as char else c
  }

  /**
   * Text made of lower-case letters and single spaces: what both character filters
   * of the server produce.
   */
  ghost predicate WordText(s: string) {
    && (forall i :: 0 <= i < |s| ==> IsLower(s[i]) || s[i] == ' ')
    && (forall i :: 0 <= i < |s| - 1 ==> s[i] != ' ' || s[i + 1] != ' ')
  }

  lemma WordTextSlice(s: string, i: nat, j: nat)
    requires WordText(s) && i <= j <= |s|
    ensures WordText(s[i..j])
  {
    var t := s[i..j];
    forall k | 0 <= k < |t| - 1 ensures t[k] != ' ' || t[k + 1] != ' ' {
      assert t[k] == s[i + k] && t[k + 1] == s[i + k + 1];
    }
  }

  // ---------------------------------------------------------------- String.trim

  function TrimLeft(s: string): (r: string)
    ensures |r| <= |s| && r == s[|s| - |r|..]
    ensures r == [] || !IsTrimmable(r[0])
    ensures forall i :: 0 <= i < |s| - |r| ==> IsTrimmable(s[i])
    decreases |s|
  {
    if s != [] && IsTrimmable(s[0]) then
      var r := TrimLeft(s[1..]);
      assert s[1..][|s| - 1 - |r|..] == s[|s| - |r|..];
      assert forall i :: 1 <= i < |s| - |r| ==> s[i] == s[1..][i - 1];
      r
    else s
  }

  function TrimRight(s: string): (r: string)
    ensures |r| <= |s| && r == s[..|r|]
    ensures r == [] || !IsTrimmable(r[|r| - 1])
    ensures forall i :: |r| <= i < |s| ==> IsTrimmable(s[i])
    decreases |s|
  {
    if s != [] && IsTrimmable(s[|s| - 1]) then TrimRight(s[..|s| - 1]) else s
  }

  /** String.trim. */
  function Trim(s: string): string {
    TrimRight(TrimLeft(s))
  }

  /**
   * Trimming text of letters and single spaces leaves text of letters and single
   * spaces that neither starts nor ends with a space.
   */
  lemma TrimWordText(s: string)
    requires WordText(s)
    ensures WordText(Trim(s))
    ensures Trim(s) == [] || (Trim(s)[0] != ' ' && Trim(s)[|Trim(s)| - 1] != ' ')
  {
    var l := TrimLeft(s);
    WordTextSlice(s, |s| - |l|, |s|);
    TrimRightWordText(l);
  }

  lemma TrimRightWordText(l: string)
    requires WordText(l) && (l == [] || !IsTrimmable(l[0]))
    ensures WordText(TrimRight(l))
    ensures TrimRight(l) == [] || (TrimRight(l)[0] != ' ' && TrimRight(l)[|TrimRight(l)| - 1] != ' ')
  {
    var r := TrimRight(l);
    WordTextSlice(l, 0, |r|);
    if r != [] {
      assert r[0] == l[0];
    }
  }

  /** A leading space never survives trimming. */
  lemma TrimLeadingSpace(s: string)
    ensures Trim([' '] + s) == Trim(s)
  {
    assert ([' '] + s)[1..] == s;
  }

  // --------------------------------------------------------- String.split

  /** The pieces of `s` between occurrences of `sep`, empty pieces included. */
  function Pieces(s: string, sep: char): (r: seq<string>)
    ensures |r| >= 1
    ensures forall i :: 0 <= i < |r| ==> sep !in r[i]
    ensures sep !in s ==> r == [s]
    ensures sep in s ==> |r| >= 2
    decreases |s|
  {
    if s == [] then [""]
    else
      var rest := Pieces(s[1..], sep);
      assert s == [s[0]] + s[1..];
      if s[0] == sep then [""] + rest else [[s[0]] + rest[0]] + rest[1..]
  }

  /** Pieces joined back with the separator between them. */
  function JoinWith(parts: seq<string>, sep: char): string
    requires |parts| >= 1
  {
    if |parts| == 1 then parts[0] else parts[0] + [sep] + JoinWith(parts[1..], sep)
  }

  /** Splitting loses nothing: joining the pieces with the separator gives the text back. */
  lemma {:induction false} JoinPieces(s: string, sep: char)
    ensures JoinWith(Pieces(s, sep), sep) == s
    decreases |s|
  {
    if s != [] {
      JoinPieces(s[1..], sep);
      var rest := Pieces(s[1..], sep);
      if s[0] != sep && |rest| > 1 {
        var p := Pieces(s, sep);
        assert p[1..] == rest[1..];
      }
    }
  }

  /** Joining separator-free parts and splitting again gives the parts back. */
  lemma {:induction false} PiecesOfJoin(parts: seq<string>, sep: char)
    requires |parts| >= 1 && forall i :: 0 <= i < |parts| ==> sep !in parts[i]
    ensures Pieces(JoinWith(parts, sep), sep) == parts
    decreases |parts|
  {
    if |parts| > 1 {
      PiecesOfJoin(parts[1..], sep);
      PiecesAfter(parts[0], sep, JoinWith(parts[1..], sep));
    }
  }

  /** A separator-free head is split off as one piece. */
  lemma {:induction false} PiecesAfter(a: string, sep: char, b: string)
    requires sep !in a
    ensures Pieces(a + [sep] + b, sep) == [a] + Pieces(b, sep)
    decreases |a|
  {
    if a == [] {
      assert a + [sep] + b == [sep] + b;
      assert ([sep] + b)[1..] == b;
    } else {
      PiecesAfter(a[1..], sep, b);
      assert (a + [sep] + b)[1..] == a[1..] + [sep] + b;
      assert [a[0]] + a[1..] == a;
    }
  }

  /** String.indexOf(char) for a character that occurs: the position of its first occurrence. */
  function IndexOf(s: string, c: char): (r: nat)
    requires c in s
    ensures r < |s| && s[r] == c
    ensures forall i :: 0 <= i < r ==> s[i] != c
    decreases |s|
  {
    if s[0] == c then 0 else 1 + IndexOf(s[1..], c)
  }

  /** Drops empty strings from the end, as String.split does. */
  function DropTrailingEmpty(parts: seq<string>): (r: seq<string>)
    ensures |r| <= |parts| && r == parts[..|r|]
    ensures r == [] || r[|r| - 1] != ""
    ensures forall i :: |r| <= i < |parts| ==> parts[i] == ""
  {
    if parts != [] && parts[|parts| - 1] == "" then DropTrailingEmpty(parts[..|parts| - 1]) else parts
  }

  /**
   * String.split(regex) for a regex that matches exactly the one character `sep`:
   * without a match the whole text is the only element; otherwise the pieces with
   * trailing empty pieces removed.
   */
  function JavaSplit(s: string, sep: char): (r: seq<string>)
    ensures forall i :: 0 <= i < |r| ==> sep !in r[i]
    ensures sep !in s ==> r == [s]
    ensures sep in s ==> (r == [] || r[|r| - 1] != "")
    ensures sep in s ==> |r| <= |Pieces(s, sep)| && r == Pieces(s, sep)[..|r|]
    ensures sep in s ==> forall i :: |r| <= i < |Pieces(s, sep)| ==> Pieces(s, sep)[i] == ""
  {
    if sep !in s then [s] else DropTrailingEmpty(Pieces(s, sep))
  }

  /** String.replace(char, char): every occurrence of `from` becomes `to`. */
  function ReplaceChar(s: string, from: char, to: char): (r: string)
    ensures |r| == |s|
    ensures forall i :: 0 <= i < |s| ==> r[i] == if s[i] == from then to else s[i]
    decreases |s|
  {
    if s == [] then ""
    else ReplaceChar(s[..|s| - 1], from, to) + [if s[|s| - 1] == from then to else s[|s| - 1]]
  }

  // ------------------------------------------------------------ int arithmetic

  const TWO_TO_32: int := 0x1_0000_0000

  /** Java's int addition and multiplication keep the result modulo 2^32, in [INT_MIN, INT_MAX]. */
  function Wrap32(x: int): (r: int)
    ensures INT_MIN <= r <= INT_MAX
    ensures (x - r) % TWO_TO_32 == 0
    ensures INT_MIN <= x <= INT_MAX ==> r == x
  {
    (x - INT_MIN) % TWO_TO_32 + INT_MIN
  }

  /** The wrapped value is the only int that differs from x by a multiple of 2^32. */
  lemma WrapUnique(x: int, r: int)
    requires INT_MIN <= r <= INT_MAX && (x - r) % TWO_TO_32 == 0
    ensures Wrap32(x) == r
  {
    var w := Wrap32(x);
    var q1, q2 := (x - r) / TWO_TO_32, (x - w) / TWO_TO_32;
    assert x - r == TWO_TO_32 * q1;
    assert x - w == TWO_TO_32 * q2;
    assert w - r == TWO_TO_32 * (q1 - q2);
  }

  /** Wrapping an operand before an addition does not change the wrapped sum. */
  lemma WrapAdd(x: int, y: int)
    ensures Wrap32(Wrap32(x) + y) == Wrap32(x + y)
  {
    var w := Wrap32(x);
    var r := Wrap32(w + y);
    var q1, q2 := (x - w) / TWO_TO_32, (w + y - r) / TWO_TO_32;
    assert x - w == TWO_TO_32 * q1;
    assert w + y - r == TWO_TO_32 * q2;
    assert x + y - r == TWO_TO_32 * (q1 + q2);
    WrapUnique(x + y, r);
  }

  /** Java's int `+` on two ints: the sum, brought back into range by one turn of 2^32 when it overflows. */
  function AddInt(a: int, b: int): int
    requires INT_MIN <= a <= INT_MAX && INT_MIN <= b <= INT_MAX
  {
    var t := a + b;
    if t > INT_MAX then t - TWO_TO_32 else if t < INT_MIN then t + TWO_TO_32 else t
  }

  /** The int sum is the wrapped mathematical sum. */
  lemma AddIntIsWrapped(a: int, b: int)
    requires INT_MIN <= a <= INT_MAX && INT_MIN <= b <= INT_MAX
    ensures INT_MIN <= AddInt(a, b) <= INT_MAX
    ensures AddInt(a, b) == Wrap32(a + b)
  {
    WrapUnique(a + b, AddInt(a, b));
  }

  /** Java's `/` on int, for a positive divisor: the quotient is truncated toward zero. */
  function JavaDiv(a: int, b: int): int
    requires b > 0
  {
    if a >= 0 then a / b else -((-a) / b)
  }

  /** Java's `%` on int, for a positive divisor: the remainder takes the sign of the dividend. */
  function JavaRem(a: int, b: int): (r: int)
    requires b > 0
    ensures a == JavaDiv(a, b) * b + r
    ensures a >= 0 ==> 0 <= r < b && r == a % b
    ensures a < 0 ==> -b < r <= 0
  {
    if a >= 0 then a % b else -((-a) % b)
  }

  // ------------------------------------------------ Integer.toString / parseInt

  function DigitChar(d: nat): (c: char)
    requires d < 10
    ensures IsDigit(c)
  {
    ('0' as int + d) as char
  }

  /** Decimal digits of a natural number, no leading zeros. */
  function ShowNat(n: nat): (r: string)
    ensures |r| >= 1 && forall i :: 0 <= i < |r| ==> IsDigit(r[i])
    decreases n
  {
    if n < 10 then [DigitChar(n)] else ShowNat(n / 10) + [DigitChar(n % 10)]
  }

  /** Integer.toString: an optional minus sign followed by the digits. */
  function ShowInt(n: int): (r: string)
    ensures r != [] && forall i :: 0 <= i < |r| ==> IsDigit(r[i]) || (i == 0 && r[i] == '-')
  {
    if n < 0 then "-" + ShowNat(-n) else ShowNat(n)
  }

  /** Integer.toString writes nothing but digits and a leading minus sign. */
  lemma ShowIntAvoids(n: int, c: char)
    requires c != '-' && !IsDigit(c)
    ensures c !in ShowInt(n)
  {
    var r := ShowInt(n);
    forall i | 0 <= i < |r| ensures r[i] != c { }
  }

  ghost predicate AllDigits(s: string) {
    forall i :: 0 <= i < |s| ==> IsDigit(s[i])
  }

  function DigitsValue(s: string): nat
    requires AllDigits(s)
  {
    if s == [] then 0 else DigitsValue(s[..|s| - 1]) * 10 + (s[|s| - 1] as int - '0' as int)
  }

  /**
   * Integer.parseInt (what `new Integer(String)` calls), for ASCII digits: an optional
   * sign, at least one digit, and a value within the 32-bit range; anything else is
   * a NumberFormatException, modelled as None.
   */
  function ParseInt(s: string): Option<int> {
    var signed := s != [] && (s[0] == '-' || s[0] == '+');
    var digits := if signed then s[1..] else s;
    if digits == [] || exists i :: 0 <= i < |digits| && !IsDigit(digits[i]) then None
    else
      var v: int := if signed && s[0] == '-' then -(DigitsValue(digits) as int) else DigitsValue(digits);
      if INT_MIN <= v <= INT_MAX then Some(v) else None
  }

  lemma {:induction false} ShowNatValue(n: nat)
    ensures AllDigits(ShowNat(n)) && DigitsValue(ShowNat(n)) == n
    decreases n
  {
    if n >= 10 {
      ShowNatValue(n / 10);
      var s := ShowNat(n);
      assert s[..|s| - 1] == ShowNat(n / 10);
    }
  }

  /** Integer.parseInt reads back what Integer.toString wrote, for every 32-bit value. */
  lemma ParseShowInt(n: int)
    requires INT_MIN <= n <= INT_MAX
    ensures ParseInt(ShowInt(n)) == Some(n)
  {
    var s := ShowInt(n);
    var d := ShowNat(if n < 0 then -n else n);
    ShowNatValue(if n < 0 then -n else n);
    assert IsDigit(d[0]);
    if n < 0 {
      assert s[1..] == d;
    }
    assert !exists i :: 0 <= i < |d| && !IsDigit(d[i]);
  }
}
