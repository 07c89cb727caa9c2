/**
 * The string primitives the catalog engine and the language negotiator rely on,
 * with the semantics of their JavaScript counterparts: `indexOf`, `split` with a
 * non-empty separator, `trim`, `toLowerCase` (ASCII letters), `parseInt` with
 * radix 10, `parseFloat` and the conversion of an integer back to a string.
 */
module Text {
  import opened Wrappers

  // ---------------------------------------------------------------------------
  // indexOf / split
  // ---------------------------------------------------------------------------

  /** `sep` occurs in `s` starting at index `k`. */
  predicate OccursAt(s: string, sep: string, k: int) {
    0 <= k && k + |sep| <= |s| && s[k..k + |sep|] == sep
  }

  lemma OccursAtTail(s: string, sep: string, k: int)
    requires |s| > 0 && 0 <= k
    ensures OccursAt(s, sep, k + 1) <==> OccursAt(s[1..], sep, k)
  {
    if k + 1 + |sep| <= |s| {
      assert s[k + 1..k + 1 + |sep|] == s[1..][k..k + |sep|];
    }
  }

  lemma OccursAtShift(s: string, sep: string)
    requires |s| > 0
    ensures forall k :: 1 <= k ==> (OccursAt(s, sep, k) <==> OccursAt(s[1..], sep, k - 1))
  {
    forall k | 1 <= k ensures OccursAt(s, sep, k) <==> OccursAt(s[1..], sep, k - 1) {
      OccursAtTail(s, sep, k - 1);
    }
  }

  /** `String.prototype.indexOf`: the first index at which `sep` occurs, or -1. */
  function IndexOf(s: string, sep: string): (r: int)
    ensures r == -1 || OccursAt(s, sep, r)
    ensures forall k :: 0 <= k && (r == -1 || k < r) ==> !OccursAt(s, sep, k)
    decreases |s|
  {
    if |s| < |sep| then -1
    else if s[..|sep|] == sep then 0
    else
      var r := IndexOf(s[1..], sep);
      OccursAtShift(s, sep);
      assert !OccursAt(s, sep, 0);
      if r == -1 then -1 else r + 1
  }

  /** A prefix that ends before the first occurrence of `sep` does not contain it. */
  lemma NoOccurrenceBefore(s: string, sep: string, i: nat)
    requires |sep| > 0 && i <= |s|
    requires forall k :: 0 <= k < i ==> !OccursAt(s, sep, k)
    ensures IndexOf(s[..i], sep) == -1
  {
    var p := s[..i];
    forall k | OccursAt(p, sep, k) ensures OccursAt(s, sep, k) && k < i {
      assert p[k..k + |sep|] == s[k..k + |sep|];
    }
  }

  /** `String.prototype.split(sep)` for a non-empty separator: every piece, empty ones included. */
  function Split(s: string, sep: string): (pieces: seq<string>)
    requires |sep| > 0
    ensures |pieces| >= 1
    decreases |s|
  {
    var i := IndexOf(s, sep);
    if i == -1 then [s]
    else [s[..i]] + Split(s[i + |sep|..], sep)
  }

  /** No piece of a split contains the separator. */
  lemma {:induction false} SplitPieces(s: string, sep: string)
    requires |sep| > 0
    ensures forall p :: p in Split(s, sep) ==> IndexOf(p, sep) == -1
    decreases |s|
  {
    var i := IndexOf(s, sep);
    if i != -1 {
      NoOccurrenceBefore(s, sep, i);
      SplitPieces(s[i + |sep|..], sep);
    }
  }

  /** `Array.prototype.join(sep)`. */
  function Join(pieces: seq<string>, sep: string): string {
    if |pieces| == 0 then ""
    else if |pieces| == 1 then pieces[0]
    else pieces[0] + sep + Join(pieces[1..], sep)
  }

  /** A string is rebuilt from the text around an occurrence of `sep` and `sep` itself. */
  lemma Reassemble(s: string, sep: string, i: int)
    requires OccursAt(s, sep, i)
    ensures s == s[..i] + sep + s[i + |sep|..]
  {
    assert s == s[..i] + s[i..i + |sep|] + s[i + |sep|..];
  }

  /** A split at the first separator: the piece before it, then the split of the rest. */
  lemma SplitAt(s: string, sep: string)
    requires |sep| > 0 && IndexOf(s, sep) != -1
    ensures var i := IndexOf(s, sep);
      && i + |sep| <= |s|
      && Split(s, sep) == [s[..i]] + Split(s[i + |sep|..], sep)
  {
  }

  lemma JoinCons(head: string, tail: seq<string>, sep: string)
    requires |tail| >= 1
    ensures Join([head] + tail, sep) == head + sep + Join(tail, sep)
  {
    assert ([head] + tail)[1..] == tail;
  }

  /** Joining the pieces of a split with the same separator gives back the string. */
  lemma {:induction false} JoinSplit(s: string, sep: string)
    requires |sep| > 0
    ensures Join(Split(s, sep), sep) == s
    decreases |s|
  {
    var i := IndexOf(s, sep);
    if i != -1 {
      SplitAt(s, sep);
      Reassemble(s, sep, i);
      var rest := s[i + |sep|..];
      JoinSplit(rest, sep);
      JoinCons(s[..i], Split(rest, sep), sep);
    }
  }

  /** An occurrence that ends inside `s` is one in `s + t` and the other way round. */
  lemma OccursAtPrefix(s: string, t: string, sep: string, k: int)
    requires 0 <= k && k + |sep| <= |s|
    ensures OccursAt(s + t, sep, k) <==> OccursAt(s, sep, k)
  {
    assert (s + t)[k..k + |sep|] == s[k..k + |sep|];
  }

  /** The first occurrence determines `indexOf`. */
  lemma IndexOfFirst(s: string, sep: string, i: int)
    requires OccursAt(s, sep, i) && forall k :: 0 <= k < i ==> !OccursAt(s, sep, k)
    ensures IndexOf(s, sep) == i
  {
  }

  /**
   * A separator absent from `head` that does not start across the end of
   * `head` first occurs right after it in `head + sep`.
   */
  lemma FirstAfter(head: string, sep: string)
    requires IndexOf(head, sep) == -1
    requires forall k :: 0 <= k < |head| < k + |sep| ==> !OccursAt(head + sep, sep, k)
    ensures IndexOf(head + sep, sep) == |head|
  {
    var s := head + sep;
    forall k | 0 <= k < |head| ensures !OccursAt(s, sep, k) {
      if k + |sep| <= |head| {
        assert !OccursAt(head, sep, k);
        OccursAtPrefix(head, sep, sep, k);
      }
    }
    assert s[|head|..|head| + |sep|] == sep;
    IndexOfFirst(s, sep, |head|);
  }

  /** When `sep` first occurs right after `head`, the split starts with `head` and goes on with the rest. */
  lemma SplitFirst(head: string, sep: string, rest: string)
    requires |sep| > 0 && IndexOf(head + sep, sep) == |head|
    ensures Split(head + sep + rest, sep) == [head] + Split(rest, sep)
  {
    var hs := head + sep;
    var s := hs + rest;
    forall k | 0 <= k < |head| ensures !OccursAt(s, sep, k) {
      assert !OccursAt(hs, sep, k);
      assert s[k..k + |sep|] == hs[k..k + |sep|];
    }
    assert s[|head|..|head| + |sep|] == sep;
    IndexOfFirst(s, sep, |head|);
    assert s[..|head|] == head;
    assert s[|head| + |sep|..] == rest;
  }

  /** The first piece of a split is everything before the first separator. */
  lemma SplitHead(s: string, sep: string)
    requires |sep| > 0
    ensures var i := IndexOf(s, sep); Split(s, sep)[0] == if i == -1 then s else s[..i]
  {
  }

  // ---------------------------------------------------------------------------
  // trim / toLowerCase
  // ---------------------------------------------------------------------------

  /** ECMAScript WhiteSpace and LineTerminator code points, which `trim` removes. */
  predicate IsSpace(c: char) {
    c == ' ' || c == '\t' || c == '\n' || c == '\r' || c == '\U{000B}' || c == '\U{000C}'
    || c == '\U{00A0}' || c == '\U{1680}' || ('\U{2000}' <= c <= '\U{200A}')
    || c == '\U{2028}' || c == '\U{2029}' || c == '\U{202F}' || c == '\U{205F}'
    || c == '\U{3000}' || c == '\U{FEFF}'
  }

  function TrimStart(s: string): (r: string)
    ensures |r| <= |s| && r == s[|s| - |r|..]
    ensures r == [] || !IsSpace(r[0])
    ensures forall k :: 0 <= k < |s| - |r| ==> IsSpace(s[k])
  {
    if |s| > 0 && IsSpace(s[0]) then TrimStart(s[1..]) else s
  }

  function TrimEnd(s: string): (r: string)
    ensures |r| <= |s| && r == s[..|r|]
    ensures r == [] || !IsSpace(r[|r| - 1])
    ensures forall k :: |r| <= k < |s| ==> IsSpace(s[k])
  {
    if |s| > 0 && IsSpace(s[|s| - 1]) then TrimEnd(s[..|s| - 1]) else s
  }

  /** `String.prototype.trim`. */
  function Trim(s: string): string {
    TrimStart(TrimEnd(s))
  }

  /** `String.prototype.toLowerCase`, restricted to the ASCII letters. */
  function LowerChar(c: char): char {
    if 'A' <= c <= 'Z' then (c as int - 'A' as int + 'a' as int) as char else c
  }

  function LowerAscii(s: string): (r: string)
    ensures |r| == |s|
    ensures forall k :: 0 <= k < |s| ==> r[k] == LowerChar(s[k])
  {
    if |s| == 0 then "" else [LowerChar(s[0])] + LowerAscii(s[1..])
  }

  // ---------------------------------------------------------------------------
  // parseInt / parseFloat / integer to string
  // ---------------------------------------------------------------------------

  predicate IsDigit(c: char) {
    '0' <= c <= '9'
  }

  function DigitValue(c: char): nat
    requires IsDigit(c)
  {
    c as int - '0' as int
  }

  /** The number of leading decimal digits of `s`. */
  function LeadingDigits(s: string): (n: nat)
    ensures n <= |s|
    ensures forall k :: 0 <= k < n ==> IsDigit(s[k])
    ensures n == |s| || !IsDigit(s[n])
  {
    if |s| > 0 && IsDigit(s[0]) then 1 + LeadingDigits(s[1..]) else 0
  }

  /** The value of a string of decimal digits. */
  function DigitsValue(s: string): nat
    requires forall k :: 0 <= k < |s| ==> IsDigit(s[k])
  {
    if |s| == 0 then 0 else DigitsValue(s[..|s| - 1]) * 10 + DigitValue(s[|s| - 1])
  }

  function Sign(s: string): (r: (int, nat))
    ensures r.1 <= |s|
  {
    if |s| > 0 && s[0] == '-' then (-1, 1)
    else if |s| > 0 && s[0] == '+' then (1, 1)
    else (1, 0)
  }

  /**
   * `parseInt(s, 10)`: leading white space is skipped, an optional sign is read,
   * then the longest run of decimal digits; `None` is NaN (no digit at all).
   */
  function ParseInt(s: string): Option<int> {
    var t := TrimStart(s);
    var (sign, start) := Sign(t);
    var n := LeadingDigits(t[start..]);
    if n == 0 then None else Some(sign * DigitsValue(t[start..][..n]))
  }

  /** What a number parser reads after the leading white space and an optional sign. */
  function Unsigned(s: string): string {
    var t := TrimStart(s);
    t[Sign(t).1..]
  }

  /** A decimal literal starts here: a digit, or a point followed by a digit. */
  predicate StartsNumber(u: string) {
    (|u| > 0 && IsDigit(u[0])) || (|u| > 1 && u[0] == '.' && IsDigit(u[1]))
  }

  /**
   * `parseFloat(s)` for decimal literals: white space, sign, integer digits and an
   * optional fraction; at least one digit is needed, otherwise the result is NaN.
   */
  function ParseFloat(s: string): (r: Option<real>)
    ensures r.None? <==> !StartsNumber(Unsigned(s))
  {
    var t := TrimStart(s);
    var (sign, start) := Sign(t);
    var u := t[start..];
    var n := LeadingDigits(u);
    var whole := DigitsValue(u[..n]) as real;
    if n < |u| && u[n] == '.' then
      var f := u[n + 1..];
      var m := LeadingDigits(f);
      if n == 0 && m == 0 then None
      else Some(sign as real * (whole + DigitsValue(f[..m]) as real / Pow10(m) as real))
    else if n == 0 then None
    else Some(sign as real * whole)
  }

  /** The value of the decimal literal with integer digits `a` and fraction digits `b`. */
  function DecimalValue(a: string, b: string): real
    requires AllDigits(a) && AllDigits(b)
  {
    DigitsValue(a) as real + DigitsValue(b) as real / Pow10(|b|) as real
  }

  predicate AllDigits(s: string) {
    forall k :: 0 <= k < |s| ==> IsDigit(s[k])
  }

  /** The leading digits of a run of digits followed by a non-digit are that run. */
  lemma LeadingDigitsStop(a: string, rest: string)
    requires AllDigits(a) && (rest == [] || !IsDigit(rest[0]))
    ensures LeadingDigits(a + rest) == |a| && (a + rest)[..|a|] == a
  {
  }

  /** `parseFloat` of a literal with a decimal point reads the digits on both sides. */
  lemma ParseFloatDecimal(a: string, b: string)
    requires AllDigits(a) && AllDigits(b) && |a| + |b| >= 1
    ensures ParseFloat(a + "." + b) == Some(DecimalValue(a, b))
  {
    var s := a + "." + b;
    assert !IsSpace(s[0]) && s[0] != '-' && s[0] != '+' by {
      if |a| > 0 { assert s[0] == a[0]; } else { assert s[0] == '.'; }
    }
    TrimStartNoSpace(s);
    assert Sign(s) == (1, 0);
    assert s[0..] == s;
    assert s == a + ("." + b);
    LeadingDigitsStop(a, "." + b);
    assert s[|a|] == '.';
    assert s[|a| + 1..] == b;
    LeadingDigitsStop(b, "");
    assert b + "" == b;
  }

  /** `parseFloat` of a run of digits reads it as an integer. */
  lemma ParseFloatInteger(a: string)
    requires AllDigits(a) && |a| >= 1
    ensures ParseFloat(a) == Some(DigitsValue(a) as real)
  {
    assert !IsSpace(a[0]);
    TrimStartNoSpace(a);
    assert Sign(a) == (1, 0);
    assert a[0..] == a;
    LeadingDigitsStop(a, "");
    assert a + "" == a;
  }

  function Pow10(n: nat): (r: nat)
    ensures r >= 1
  {
    if n == 0 then 1 else 10 * Pow10(n - 1)
  }

  function DigitChar(d: nat): char
    requires d < 10
  {
    ('0' as int + d) as char
  }

  /** The decimal representation of a natural number, without leading zeros. */
  function NatToString(n: nat): (s: string)
    ensures |s| >= 1
    ensures forall k :: 0 <= k < |s| ==> IsDigit(s[k])
    ensures |s| > 1 ==> s[0] != '0'
  {
    if n < 10 then [DigitChar(n)] else NatToString(n / 10) + [DigitChar(n % 10)]
  }

  /** `String(n)` for an integer `n`. */
  function IntToString(n: int): string {
    if n < 0 then "-" + NatToString(-n) else NatToString(n)
  }

  lemma {:induction false} NatToStringValue(n: nat)
    ensures DigitsValue(NatToString(n)) == n
  {
    if n >= 10 {
      NatToStringValue(n / 10);
      var s := NatToString(n);
      assert s[..|s| - 1] == NatToString(n / 10);
    }
  }

  /** A string that starts with a character other than white space is its own `trimStart`. */
  lemma TrimStartNoSpace(s: string)
    requires |s| > 0 && !IsSpace(s[0])
    ensures TrimStart(s) == s
  {
  }

  /** A run of digits is all leading digits. */
  lemma LeadingDigitsAll(digits: string)
    requires forall k :: 0 <= k < |digits| ==> IsDigit(digits[k])
    ensures LeadingDigits(digits) == |digits|
  {
  }

  /** A non-empty run of digits parses as its value. */
  lemma ParseDigits(digits: string)
    requires |digits| >= 1 && forall k :: 0 <= k < |digits| ==> IsDigit(digits[k])
    ensures ParseInt(digits) == Some(DigitsValue(digits))
  {
    assert !IsSpace(digits[0]);
    TrimStartNoSpace(digits);
    assert Sign(digits) == (1, 0);
    assert digits[0..] == digits;
    LeadingDigitsAll(digits);
    assert digits[..|digits|] == digits;
  }

  /** A minus sign followed by a non-empty run of digits parses as the negated value. */
  lemma ParseNegatedDigits(digits: string)
    requires |digits| >= 1 && forall k :: 0 <= k < |digits| ==> IsDigit(digits[k])
    ensures ParseInt("-" + digits) == Some(-(DigitsValue(digits) as int))
  {
    var s := "-" + digits;
    assert s[0] == '-';
    TrimStartNoSpace(s);
    assert Sign(s) == (-1, 1);
    assert s[1..] == digits;
    LeadingDigitsAll(digits);
    assert digits[..|digits|] == digits;
  }

  /** Reading back the decimal representation of an integer gives the integer. */
  lemma ParseIntToString(n: int)
    ensures ParseInt(IntToString(n)) == Some(n)
  {
    var m: nat := if n < 0 then -n else n;
    NatToStringValue(m);
    if n < 0 {
      ParseNegatedDigits(NatToString(m));
    } else {
      ParseDigits(NatToString(m));
    }
  }
}
