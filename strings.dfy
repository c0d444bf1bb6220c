/**
 * Text helpers over `seq<char>` mirroring the few Python and PHP string builtins the
 * system relies on. Character classes are the ASCII ones.
 */
module Strings {

  /** `c.isdigit()` restricted to ASCII. */
  predicate IsDigit(c: char) {
    '0' <= c <= '9'
  }

  predicate AllDigits(s: string) {
    forall i :: 0 <= i < |s| ==> IsDigit(s[i])
  }

  /** `''.join(filter(str.isdigit, s))`. */
  function Digits(s: string): (d: string)
    ensures AllDigits(d)
    ensures |d| <= |s|
  {
    if s == [] then []
    else if IsDigit(s[0]) then [s[0]] + Digits(s[1..])
    else Digits(s[1..])
  }

  lemma {:induction false} DigitsAppend(a: string, b: string)
    ensures Digits(a + b) == Digits(a) + Digits(b)
  {
    if a == [] {
      assert a + b == b;
    } else {
      assert (a + b)[1..] == a[1..] + b;
      DigitsAppend(a[1..], b);
    }
  }

  lemma {:induction false} DigitsOfDigits(s: string)
    requires AllDigits(s)
    ensures Digits(s) == s
  {
    if s != [] {
      DigitsOfDigits(s[1..]);
    }
  }

  /** `s == s[0] * len(s)` for a non-empty `s`. */
  predicate AllSame(s: string) {
    forall i :: 0 <= i < |s| ==> s[i] == s[0]
  }

  /** Number of occurrences of `c` in `s`. */
  function Count(s: string, c: char): (n: nat)
    ensures n <= |s|
    ensures n == 0 <==> c !in s
  {
    if s == [] then 0 else (if s[0] == c then 1 else 0) + Count(s[1..], c)
  }

  /** `s.split(sep)` for a one-character separator. */
  function Split(s: string, sep: char): (parts: seq<string>)
    ensures |parts| == Count(s, sep) + 1
    ensures forall k :: 0 <= k < |parts| ==> sep !in parts[k]
  {
    if s == [] then [""]
    else
      var rest := Split(s[1..], sep);
      if s[0] == sep then [""] + rest
      else [[s[0]] + rest[0]] + rest[1..]
  }

  /** With no separator, `split` returns the whole string. */
  lemma {:induction false} SplitNone(s: string, sep: char)
    requires sep !in s
    ensures Split(s, sep) == [s]
  {
    if s != [] {
      SplitNone(s[1..], sep);
      assert [s[0]] + s[1..] == s;
    }
  }

  /** With exactly one separator at index i, `split` returns the text on each side of it. */
  lemma {:induction false} SplitOne(s: string, sep: char, i: nat)
    requires i < |s| && s[i] == sep && Count(s, sep) == 1
    ensures Split(s, sep) == [s[..i], s[i + 1..]]
  {
    if i == 0 {
      assert Count(s[1..], sep) == 0;
      SplitNone(s[1..], sep);
    } else {
      assert s[1..][i - 1] == sep;
      SplitOne(s[1..], sep, i - 1);
      assert s[1..][..i - 1] == s[1..i];
      assert [s[0]] + s[1..i] == s[..i];
      assert s[1..][i..] == s[i + 1..];
    }
  }

  /** Whitespace as Python's `str.strip()` sees it, restricted to ASCII. */
  predicate IsSpace(c: char) {
    c == ' ' || '\t' <= c <= '\r' || 28 as char <= c <= 31 as char
  }

  function StripLeft(s: string): (r: string)
  {
    if s != [] && IsSpace(s[0]) then StripLeft(s[1..]) else s
  }

  function StripRight(s: string): (r: string)
  {
    if s != [] && IsSpace(s[|s| - 1]) then StripRight(s[..|s| - 1]) else s
  }

  /** `s.strip()`. */
  function Strip(s: string): string {
    StripRight(StripLeft(s))
  }

  /** `s.lower()`, restricted to ASCII letters. */
  function Lower(s: string): (r: string)
  {
    seq(|s|, i requires 0 <= i < |s| => LowerChar(s[i]))
  }

  function LowerChar(c: char): char {
    if 'A' <= c <= 'Z' then (c as int - 'A' as int + 'a' as int) as char else c
  }

  /** Lexicographic order on code points, the order `ORDER BY` and `sorted` give these ASCII keys. */
  predicate LessEq(a: string, b: string) {
    a == [] || (b != [] && (a[0] < b[0] || (a[0] == b[0] && LessEq(a[1..], b[1..]))))
  }

  /** Strict lexicographic order. */
  predicate Less(a: string, b: string) {
    LessEq(a, b) && a != b
  }

  lemma {:induction false} LessEqTotal(a: string, b: string)
    ensures LessEq(a, b) || LessEq(b, a)
  {
    if a != [] && b != [] && a[0] == b[0] {
      LessEqTotal(a[1..], b[1..]);
    }
  }

  lemma {:induction false} LessEqAntisymmetric(a: string, b: string)
    requires LessEq(a, b) && LessEq(b, a)
    ensures a == b
  {
    if a != [] && b != [] {
      LessEqAntisymmetric(a[1..], b[1..]);
      assert a == [a[0]] + a[1..] && b == [b[0]] + b[1..];
    }
  }

  lemma {:induction false} LessEqTransitive(a: string, b: string, c: string)
    requires LessEq(a, b) && LessEq(b, c)
    ensures LessEq(a, c)
  {
    if a != [] && b != [] && c != [] && a[0] == b[0] && b[0] == c[0] {
      LessEqTransitive(a[1..], b[1..], c[1..]);
    }
  }

  /** `s.endswith(suffix)`. */
  predicate EndsWith(s: string, suffix: string) {
    |suffix| <= |s| && s[|s| - |suffix|..] == suffix
  }

  /** `sep.join(parts)`. */
  function Join(parts: seq<string>, sep: string): (r: string)
    ensures parts == [] ==> r == ""
    ensures |parts| == 1 ==> r == parts[0]
  {
    if parts == [] then ""
    else if |parts| == 1 then parts[0]
    else parts[0] + sep + Join(parts[1..], sep)
  }

  /** Joining non-empty parts gives the empty string only for no parts at all. */
  lemma JoinEmpty(parts: seq<string>, sep: string)
    requires forall i :: 0 <= i < |parts| ==> parts[i] != ""
    ensures Join(parts, sep) == "" <==> parts == []
  {
    if parts != [] {
      assert |Join(parts, sep)| >= |parts[0]|;
    }
  }

  /** The decimal digits of a natural number, as `str(n)` writes them. */
  function NatToString(n: nat): (r: string)
    ensures r != [] && AllDigits(r)
  {
    var d := ['0' + (n % 10) as char];
    if n < 10 then d else NatToString(n / 10) + d
  }

  /** `str(i)` for an integer. */
  function IntToString(i: int): (r: string)
    ensures r != []
  {
    if i < 0 then "-" + NatToString(-i) else NatToString(i)
  }

  /** Each string comes strictly before the next. */
  predicate StrictlySorted(ks: seq<string>) {
    forall i :: 0 < i < |ks| ==> Less(ks[i - 1], ks[i])
  }

  /** Insert `k` into a strictly sorted list unless it is already there. */
  function InsertUnique(k: string, ks: seq<string>): (r: seq<string>)
    requires StrictlySorted(ks)
    ensures StrictlySorted(r)
    ensures forall x :: x in r <==> x == k || x in ks
    ensures r != [] && (r[0] == k || (ks != [] && r[0] == ks[0]))
  {
    if ks == [] then [k]
    else if k == ks[0] then ks
    else if LessEq(k, ks[0]) then [k] + ks
    else
      LessEqTotal(k, ks[0]);
      assert ks == [ks[0]] + ks[1..];
      [ks[0]] + InsertUnique(k, ks[1..])
  }

  /** `sorted(set(ks))`: the distinct strings of `ks` in increasing order. */
  function SortedUnique(ks: seq<string>): (r: seq<string>)
    ensures StrictlySorted(r)
    ensures forall x :: x in r <==> x in ks
  {
    if ks == [] then []
    else
      assert ks == [ks[0]] + ks[1..];
      InsertUnique(ks[0], SortedUnique(ks[1..]))
  }
}
