/**
 * The JavaScript string operations the catalogue code relies on, over `string`
 * (a sequence of characters): case mapping, `includes`/`indexOf`, `split` and its
 * inverse `join`, `trim`, `parseInt` and the decimal rendering of a number in a
 * template literal.
 */
module Text {
  import opened Wrappers

  // ----- case -----

  /** `toLowerCase` on one character; only the ASCII letters are mapped. */
  function LowerChar(c: char): char {
    if 'A' <= c <= 'Z' then (c as int + 32) as char else c
  }

  /** `toUpperCase` on one character; only the ASCII letters are mapped. */
  function UpperChar(c: char): char {
    if 'a' <= c <= 'z' then (c as int - 32) as char else c
  }

  /** `s.toLowerCase()`. */
  function Lower(s: string): string {
    seq(|s|, i requires 0 <= i < |s| => LowerChar(s[i]))
  }

  /** JavaScript truthiness of an optional string: present and not empty. */
  predicate Truthy(s: Option<string>) {
    s.Some? && s.value != ""
  }

  /** `s || fallback` for an optional string. */
  function OrElse(s: Option<string>, fallback: string): string {
    if Truthy(s) then s.value else fallback
  }

  // ----- occurrences -----

  /** `t` occurs in `s` at index `i`. */
  predicate OccursAt(s: string, t: string, i: int) {
    0 <= i && i + |t| <= |s| && s[i..i + |t|] == t
  }

  /** `t` is a substring of `s`: the reference meaning of `includes`. */
  ghost predicate Contains(s: string, t: string) {
    exists i :: OccursAt(s, t, i)
  }

  /** `s.indexOf(t, k)`: the first occurrence of `t` at or after `k`, if any. */
  function IndexOfFrom(s: string, t: string, k: nat): (r: Option<nat>)
    ensures r.Some? ==> k <= r.value && OccursAt(s, t, r.value)
    ensures forall j :: k <= j && (r.None? || j < r.value) ==> !OccursAt(s, t, j)
    decreases |s| - k
  {
    if |s| < k + |t| then None
    else if s[k..k + |t|] == t then Some(k)
    else IndexOfFrom(s, t, k + 1)
  }

  /** `s.indexOf(t)`, with `None` for -1. */
  function IndexOf(s: string, t: string): Option<nat> {
    IndexOfFrom(s, t, 0)
  }

  /** `s.includes(t)` is exactly the substring relation. */
  function Includes(s: string, t: string): (b: bool)
    ensures b <==> Contains(s, t)
  {
    IndexOf(s, t).Some?
  }

  /** `s.toLowerCase().includes(t.toLowerCase())`. */
  predicate IncludesIgnoringCase(s: string, t: string) {
    Includes(Lower(s), Lower(t))
  }

  /** Nothing before the first occurrence contains `t`. */
  lemma NoOccurrenceBefore(s: string, t: string, i: nat)
    requires i <= |s|
    requires forall j :: 0 <= j < i ==> !OccursAt(s, t, j)
    requires t != []
    ensures !Contains(s[..i], t)
  {
    forall j | OccursAt(s[..i], t, j)
      ensures false
    {
      assert s[..i][j..j + |t|] == s[j..j + |t|];
      assert OccursAt(s, t, j);
    }
  }

  /** A one-character needle occurs exactly where the character does. */
  lemma CharOccurrence(s: string, c: char)
    ensures Contains(s, [c]) <==> c in s
  {
    if c in s {
      var j :| 0 <= j < |s| && s[j] == c;
      assert s[j..j + 1] == [c];
      assert OccursAt(s, [c], j);
    }
    if Contains(s, [c]) {
      var j :| OccursAt(s, [c], j);
      assert s[j] == s[j..j + 1][0];
    }
  }

  // ----- split and join -----

  /** `parts.join(sep)`. */
  function Join(parts: seq<string>, sep: string): string
    decreases |parts|
  {
    if |parts| == 0 then ""
    else if |parts| == 1 then parts[0]
    else parts[0] + sep + Join(parts[1..], sep)
  }

  /** `s.split(sep)` for a non-empty separator: the pieces hold no separator and join back to `s`. */
  function Split(s: string, sep: string): (parts: seq<string>)
    requires sep != []
    ensures |parts| >= 1
    ensures forall i :: 0 <= i < |parts| ==> !Contains(parts[i], sep)
    ensures Join(parts, sep) == s
    decreases |s|
  {
    match IndexOf(s, sep)
    case None => [s]
    case Some(i) =>
      NoOccurrenceBefore(s, sep, i);
      var rest := Split(s[i + |sep|..], sep);
      assert ([s[..i]] + rest)[1..] == rest;
      assert s == s[..i] + sep + s[i + |sep|..];
      [s[..i]] + rest
  }

  /** Joining with a separator before the last piece. */
  lemma {:induction false} JoinLast(parts: seq<string>, sep: string)
    requires |parts| >= 2
    ensures Join(parts, sep) == Join(parts[..|parts| - 1], sep) + sep + parts[|parts| - 1]
    decreases |parts|
  {
    if |parts| > 2 {
      JoinLast(parts[1..], sep);
      assert parts[1..][..|parts| - 2] == parts[..|parts| - 1][1..];
    }
  }

  /** The first occurrence of a character in `p + [c] + q`, when `p` lacks it, is at `|p|`. */
  lemma FirstCharAt(p: string, c: char, q: string)
    requires c !in p
    ensures IndexOf(p + [c] + q, [c]) == Some(|p|)
  {
    var s := p + [c] + q;
    assert s[|p|..|p| + 1] == [c];
    assert OccursAt(s, [c], |p|);
    forall j | 0 <= j < |p|
      ensures !OccursAt(s, [c], j)
    {
      assert s[j..j + 1] == [p[j]];
    }
  }

  /** `split` on one character undoes `join`: the pieces come back when none holds the character. */
  lemma {:induction false} SplitJoin(parts: seq<string>, c: char)
    requires |parts| >= 1
    requires forall i :: 0 <= i < |parts| ==> c !in parts[i]
    ensures Split(Join(parts, [c]), [c]) == parts
    decreases |parts|
  {
    if |parts| == 1 {
      CharOccurrence(parts[0], c);
    } else {
      var rest := Join(parts[1..], [c]);
      assert Join(parts, [c]) == parts[0] + [c] + rest;
      FirstCharAt(parts[0], c, rest);
      var s := parts[0] + [c] + rest;
      assert s[..|parts[0]|] == parts[0];
      assert s[|parts[0]| + 1..] == rest;
      SplitJoin(parts[1..], c);
    }
  }

  /** `s.split(sep)[0]`: the text before the first `sep`, or all of `s`. */
  function BeforeFirst(s: string, sep: string): (r: string)
    requires sep != []
    ensures r <= s
    ensures !Contains(r, sep)
    ensures |r| < |s| ==> OccursAt(s, sep, |r|)
  {
    Split(s, sep)[0]
  }

  /** The text after the last `c`, or all of `s` when it has none: `s.split(c).pop()` (see `AfterLastOfJoin`). */
  function AfterLast(s: string, c: char): (r: string)
    ensures c !in r
    ensures |r| <= |s| && s[|s| - |r|..] == r
    ensures |r| < |s| ==> s[|s| - |r| - 1] == c
    decreases |s|
  {
    if s == [] || s[|s| - 1] == c then [] else AfterLast(s[..|s| - 1], c) + [s[|s| - 1]]
  }

  /**
   * `AfterLast` is `split(c).pop()`: joined with `c` from pieces without `c` (which
   * `split` gives back unchanged, see `SplitJoin`), the text after the last `c` is the last piece.
   */
  lemma AfterLastOfJoin(parts: seq<string>, c: char)
    requires |parts| >= 1
    requires forall i :: 0 <= i < |parts| ==> c !in parts[i]
    ensures AfterLast(Join(parts, [c]), c) == parts[|parts| - 1]
  {
    var s := Join(parts, [c]);
    var r := parts[|parts| - 1];
    assert c !in r;
    LastPieceIsSuffix(parts, [c]);
    if |parts| >= 2 {
      assert s[|s| - |r| - 1..|s| - |r|] == [c];
      assert s[|s| - |r| - 1] == c;
    }
    AfterLastIs(s, c, r);
  }

  /** The last piece ends the joined text, right after a separator when there are several pieces. */
  lemma LastPieceIsSuffix(parts: seq<string>, sep: string)
    requires |parts| >= 1
    ensures var s := Join(parts, sep); var r := parts[|parts| - 1];
      |r| <= |s| && s[|s| - |r|..] == r && (|parts| >= 2 ==> |r| + |sep| <= |s| && s[|s| - |r| - |sep|..|s| - |r|] == sep)
  {
    var r := parts[|parts| - 1];
    if |parts| >= 2 {
      JoinLast(parts, sep);
      var front := Join(parts[..|parts| - 1], sep);
      var s := front + sep + r;
      assert s[|s| - |r|..] == r;
      assert s[|s| - |r| - |sep|..|s| - |r|] == sep;
    }
  }

  /** `AfterLast` is the one suffix without `c` that is all of `s` or follows a `c`. */
  lemma AfterLastIs(s: string, c: char, u: string)
    requires |u| <= |s| && s[|s| - |u|..] == u
    requires c !in u
    requires |u| < |s| ==> s[|s| - |u| - 1] == c
    ensures AfterLast(s, c) == u
  {
  }

  /** Text without `c` appended after `s` extends the part after the last `c`. */
  lemma AfterLastAppend(s: string, c: char, t: string)
    requires c !in t
    ensures AfterLast(s + t, c) == AfterLast(s, c) + t
  {
    var r := AfterLast(s, c);
    var u := r + t;
    assert (s + t)[|s + t| - |u|..] == u;
    if |u| < |s + t| {
      assert (s + t)[|s + t| - |u| - 1] == s[|s| - |r| - 1];
    }
    AfterLastIs(s + t, c, u);
  }

  // ----- whitespace -----

  /** The characters `trim` removes: ECMAScript WhiteSpace and LineTerminator. */
  predicate IsSpace(c: char) {
    || c == ' ' || c == '\t' || c == '\n' || c == '\r'
    || c == '\U{000B}' || c == '\U{000C}' || c == '\U{00A0}' || c == '\U{1680}'
    || ('\U{2000}' <= c <= '\U{200A}')
    || c == '\U{2028}' || c == '\U{2029}' || c == '\U{202F}' || c == '\U{205F}'
    || c == '\U{3000}' || c == '\U{FEFF}'
  }

  /** `s.trimStart()`: the suffix left after dropping leading white space. */
  function TrimStart(s: string): (r: string)
    ensures |r| <= |s| && r == s[|s| - |r|..]
    ensures forall i :: 0 <= i < |s| - |r| ==> IsSpace(s[i])
    ensures r == [] || !IsSpace(r[0])
    decreases |s|
  {
    if s != [] && IsSpace(s[0]) then TrimStart(s[1..]) else s
  }

  /** `s.trimEnd()`: the prefix left after dropping trailing white space. */
  function TrimEnd(s: string): (r: string)
    ensures r <= s
    ensures forall i :: |r| <= i < |s| ==> IsSpace(s[i])
    ensures r == [] || !IsSpace(r[|r| - 1])
    decreases |s|
  {
    if s != [] && IsSpace(s[|s| - 1]) then TrimEnd(s[..|s| - 1]) else s
  }

  /** `s.trim()`. */
  function Trim(s: string): string {
    TrimEnd(TrimStart(s))
  }

  // ----- numbers -----

  /** A digit of radix 10, or of radix 16 when `hex`. */
  predicate IsDigit(c: char, hex: bool) {
    ('0' <= c <= '9') || (hex && ('a' <= c <= 'f' || 'A' <= c <= 'F'))
  }

  function DigitValue(c: char): nat {
    if '0' <= c <= '9' then c as int - '0' as int
    else if 'a' <= c <= 'f' then c as int - 'a' as int + 10
    else if 'A' <= c <= 'F' then c as int - 'A' as int + 10
    else 0
  }

  function Radix(hex: bool): nat {
    if hex then 16 else 10
  }

  /** The longest prefix of `s` made of digits. */
  function DigitRun(s: string, hex: bool): (r: string)
    ensures r <= s
    ensures forall i :: 0 <= i < |r| ==> IsDigit(r[i], hex)
    ensures |r| == |s| || !IsDigit(s[|r|], hex)
    decreases |s|
  {
    if s != [] && IsDigit(s[0], hex) then [s[0]] + DigitRun(s[1..], hex) else []
  }

  /** The value of a digit string, most significant digit first. */
  function DigitsValue(ds: string, hex: bool): nat
    decreases |ds|
  {
    if ds == [] then 0 else DigitsValue(ds[..|ds| - 1], hex) * Radix(hex) + DigitValue(ds[|ds| - 1])
  }

  /**
   * `parseInt(s)` with no radix: skip leading white space, read an optional sign,
   * switch to radix 16 after a `0x`/`0X` prefix, then read the longest run of digits.
   * `None` is `NaN` (no digit at all).
   */
  function ParseInt(s: string): Option<int> {
    var t := TrimStart(s);
    if t != [] && t[0] == '-' then
      match ParseUnsigned(t[1..])
      case Some(v) => Some(-(v as int))
      case None => None
    else if t != [] && t[0] == '+' then ParseUnsigned(t[1..])
    else ParseUnsigned(t)
  }

  /** The unsigned part of `parseInt`: an optional `0x`/`0X` prefix, then the longest digit run. */
  function ParseUnsigned(u: string): Option<nat> {
    var hex := |u| >= 2 && u[0] == '0' && (u[1] == 'x' || u[1] == 'X');
    var digits := DigitRun(if hex then u[2..] else u, hex);
    if digits == [] then None else Some(DigitsValue(digits, hex))
  }

  /** On text that starts with a decimal digit and has no `0x` prefix, `parseInt` reads the decimal digit run. */
  lemma ParseIntOfDecimal(s: string)
    requires s != [] && '0' <= s[0] <= '9'
    requires !(|s| >= 2 && s[0] == '0' && (s[1] == 'x' || s[1] == 'X'))
    ensures ParseInt(s) == Some(DigitsValue(DigitRun(s, false), false) as int)
  {
    assert !IsSpace(s[0]);
    assert TrimStart(s) == s;
    assert DigitRun(s, false) != [];
  }

  function DigitChar(d: nat): char
    requires d < 10
  {
    ('0' as int + d) as char
  }

  /** `${n}` for a natural number: decimal digits without leading zeros. */
  function NatToString(n: nat): (r: string)
    ensures |r| >= 1
    ensures forall i :: 0 <= i < |r| ==> '0' <= r[i] <= '9'
    ensures r[0] == '0' ==> n == 0
    decreases n
  {
    if n < 10 then [DigitChar(n)] else NatToString(n / 10) + [DigitChar(n % 10)]
  }

  lemma {:induction false} DigitRunOfDigits(d: string, rest: string, hex: bool)
    requires forall i :: 0 <= i < |d| ==> IsDigit(d[i], hex)
    requires rest == [] || !IsDigit(rest[0], hex)
    ensures DigitRun(d + rest, hex) == d
    decreases |d|
  {
    if d != [] {
      assert (d + rest)[1..] == d[1..] + rest;
      DigitRunOfDigits(d[1..], rest, hex);
    } else {
      assert d + rest == rest;
    }
  }

  lemma {:induction false} ValueOfNatToString(n: nat)
    ensures DigitsValue(NatToString(n), false) == n
    decreases n
  {
    if n >= 10 {
      var s := NatToString(n);
      assert s[..|s| - 1] == NatToString(n / 10);
      ValueOfNatToString(n / 10);
    }
  }

  /**
   * `parseInt` reads back a rendered natural number, and stops at the first
   * character after it that is not a digit (so "3abc" and "3.5" read as 3).
   */
  lemma ParseIntOfRendered(n: nat, rest: string)
    requires rest == [] || !IsDigit(rest[0], false)
    requires n == 0 && rest != [] ==> rest[0] != 'x' && rest[0] != 'X'
    ensures ParseInt(NatToString(n) + rest) == Some(n)
  {
    var d := NatToString(n);
    var s := d + rest;
    assert s[0] == d[0];
    assert !(|s| >= 2 && s[0] == '0' && (s[1] == 'x' || s[1] == 'X')) by {
      if |s| >= 2 && s[0] == '0' {
        assert n == 0 && |d| == 1 && s[1] == rest[0];
      }
    }
    ParseIntOfDecimal(s);
    DigitRunOfDigits(d, rest, false);
    ValueOfNatToString(n);
  }

  /** The round trip `parseInt(`${n}`) == n`. */
  lemma ParseIntRoundTrip(n: nat)
    ensures ParseInt(NatToString(n)) == Some(n)
  {
    ParseIntOfRendered(n, []);
    assert NatToString(n) + [] == NatToString(n);
  }
}
