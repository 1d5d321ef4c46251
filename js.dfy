/**
 * The few JavaScript built-ins the core relies on, with their ECMAScript
 * semantics written out: `String.prototype.indexOf`, `includes`, `replace`
 * with a string pattern, `split` with a string separator, `Array.prototype.join`
 * and `filter(v => v !== x)`, integer-to-string conversion and `parseInt`
 * without a radix (section 19.2.5 of ECMA-262).
 */
module Js {
  import opened Wrappers

  // ---------------------------------------------------------------------------
  // Substring search

  /** `sub` occurs in `s` starting at position `j`. */
  predicate OccursAt(s: string, sub: string, j: nat) {
    j + |sub| <= |s| && s[j..j + |sub|] == sub
  }

  /** The first position at or after `k` at which `sub` occurs in `s`. */
  function IndexOfFrom(s: string, sub: string, k: nat): (r: Option<nat>)
    ensures r.Some? ==> k <= r.value && OccursAt(s, sub, r.value)
    ensures r.Some? ==> forall j :: k <= j < r.value ==> !OccursAt(s, sub, j)
    ensures r.None? ==> forall j :: k <= j ==> !OccursAt(s, sub, j)
    decreases |s| - k
  {
    if k + |sub| > |s| then None
    else if OccursAt(s, sub, k) then Some(k)
    else IndexOfFrom(s, sub, k + 1)
  }

  /** `s.indexOf(sub)`: the first position at which `sub` occurs in `s`. */
  function IndexOf(s: string, sub: string): (r: Option<nat>)
    ensures r.Some? ==> OccursAt(s, sub, r.value)
    ensures r.Some? ==> forall j :: 0 <= j < r.value ==> !OccursAt(s, sub, j)
    ensures r.None? ==> forall j :: 0 <= j ==> !OccursAt(s, sub, j)
  {
    IndexOfFrom(s, sub, 0)
  }

  /** `s.includes(sub)`. */
  predicate Includes(s: string, sub: string) {
    IndexOf(s, sub).Some?
  }

  /** An occurrence found in a prefix is still the first occurrence after appending. */
  lemma IndexOfAppend(a: string, b: string, sub: string, i: nat)
    requires IndexOf(a, sub) == Some(i)
    ensures IndexOf(a + b, sub) == Some(i)
  {
    var s := a + b;
    assert s[i..i + |sub|] == a[i..i + |sub|];
    assert OccursAt(s, sub, i);
    forall j | 0 <= j < i
      ensures !OccursAt(s, sub, j)
    {
      assert s[j..j + |sub|] == a[j..j + |sub|];
      assert !OccursAt(a, sub, j);
    }
  }

  /** `s.replace(pattern, replacement)` with a string pattern: only the first occurrence is replaced. */
  function ReplaceFirst(s: string, pattern: string, replacement: string): (r: string)
    ensures !Includes(s, pattern) ==> r == s
    ensures Includes(s, pattern) ==> |r| == |s| - |pattern| + |replacement|
    ensures Includes(s, pattern) ==>
      var i := IndexOf(s, pattern).value;
      r[..i] == s[..i] && r[i..i + |replacement|] == replacement
      && r[i + |replacement|..] == s[i + |pattern|..]
  {
    match IndexOf(s, pattern)
    case None => s
    case Some(i) => s[..i] + replacement + s[i + |pattern|..]
  }

  /** An occurrence at the start of `s` is found after any prefix. */
  lemma IncludesAfterPrefix(a: string, s: string, sub: string)
    requires OccursAt(s, sub, 0)
    ensures Includes(a + s, sub)
  {
    assert (a + s)[|a|..|a| + |sub|] == s[..|sub|];
    assert OccursAt(a + s, sub, |a|);
  }

  /** A pattern at the very start is the one `replace` replaces. */
  lemma ReplaceFirstAtStart(s: string, pattern: string, replacement: string)
    requires OccursAt(s, pattern, 0)
    ensures ReplaceFirst(s, pattern, replacement) == replacement + s[|pattern|..]
  {
    assert IndexOf(s, pattern) == Some(0);
  }

  // ---------------------------------------------------------------------------
  // split and join

  /** `s.split(sep)` for a non-empty separator: cut at each leftmost, non-overlapping occurrence. */
  function Split(s: string, sep: string): (r: seq<string>)
    requires sep != ""
    ensures |r| >= 1
    ensures Includes(s, sep) <==> |r| >= 2
    decreases |s|
  {
    match IndexOf(s, sep)
    case None => [s]
    case Some(i) => [s[..i]] + Split(s[i + |sep|..], sep)
  }

  /** `parts.join(sep)`. */
  function JoinWith(parts: seq<string>, sep: string): string {
    if parts == [] then ""
    else if |parts| == 1 then parts[0]
    else parts[0] + sep + JoinWith(parts[1..], sep)
  }

  /** A join of no parts is empty, and a join of some parts begins with the first part. */
  lemma JoinWithStartsWithFirst(parts: seq<string>, sep: string)
    ensures parts == [] ==> JoinWith(parts, sep) == ""
    ensures parts != [] ==> |parts[0]| <= |JoinWith(parts, sep)| && JoinWith(parts, sep)[..|parts[0]|] == parts[0]
  {
    if |parts| > 1 {
      var rest := sep + JoinWith(parts[1..], sep);
      assert JoinWith(parts, sep) == parts[0] + rest;
    }
  }

  /** When the first separator in `p + sep` is the appended one, `split` cuts `p` off the front. */
  lemma SplitCutsFirst(p: string, rest: string, sep: string)
    requires sep != "" && IndexOf(p + sep, sep) == Some(|p|)
    ensures Split(p + sep + rest, sep) == [p] + Split(rest, sep)
  {
    var s := p + sep + rest;
    IndexOfAppend(p + sep, rest, sep, |p|);
    assert s[..|p|] == p;
    assert s[|p| + |sep|..] == rest;
  }

  /** Splitting undoes joining whenever each separator that `JoinWith` inserts is the first
      occurrence of `sep` in what follows the previous cut. */
  lemma {:induction false} SplitJoin(parts: seq<string>, sep: string)
    requires sep != "" && |parts| >= 1
    requires forall k :: 0 <= k < |parts| - 1 ==> IndexOf(parts[k] + sep, sep) == Some(|parts[k]|)
    requires !Includes(parts[|parts| - 1], sep)
    ensures Split(JoinWith(parts, sep), sep) == parts
    decreases |parts|
  {
    if |parts| > 1 {
      var p, tail := parts[0], parts[1..];
      assert JoinWith(parts, sep) == p + sep + JoinWith(tail, sep);
      SplitCutsFirst(p, JoinWith(tail, sep), sep);
      assert forall k :: 0 <= k < |tail| ==> tail[k] == parts[k + 1];
      SplitJoin(tail, sep);
      assert [p] + tail == parts;
    }
  }

  /** Joining undoes splitting. */
  lemma {:induction false} JoinSplit(s: string, sep: string)
    requires sep != ""
    ensures JoinWith(Split(s, sep), sep) == s
    decreases |s|
  {
    match IndexOf(s, sep)
    case None =>
    case Some(i) =>
      var rest := s[i + |sep|..];
      JoinSplit(rest, sep);
      assert s == s[..i] + sep + rest;
  }

  // ---------------------------------------------------------------------------
  // Arrays

  /** `xs.filter(v => v !== x)`. */
  function FilterOut<T(==)>(xs: seq<T>, x: T): (r: seq<T>)
    ensures x !in r
    ensures forall y :: y in r ==> y in xs
    ensures forall y :: y in xs && y != x ==> y in r
    ensures |r| <= |xs|
  {
    if xs == [] then []
    else if xs[0] == x then FilterOut(xs[1..], x)
    else [xs[0]] + FilterOut(xs[1..], x)
  }

  /** Filtering distributes over concatenation, so the kept elements stay in order. */
  lemma {:induction false} FilterOutAppend<T>(a: seq<T>, b: seq<T>, x: T)
    ensures FilterOut(a + b, x) == FilterOut(a, x) + FilterOut(b, x)
    decreases |a|
  {
    if a != [] {
      assert a + b == [a[0]] + (a[1..] + b);
      FilterOutAppend(a[1..], b, x);
    } else {
      assert a + b == b;
    }
  }

  /** Filtering out an absent element changes nothing. */
  lemma {:induction false} FilterOutAbsent<T>(xs: seq<T>, x: T)
    requires x !in xs
    ensures FilterOut(xs, x) == xs
    decreases |xs|
  {
    if xs != [] {
      FilterOutAbsent(xs[1..], x);
    }
  }

  /** `xs.findIndex(p)`, the position `xs.find(p)` returns the element of: the first position
      whose element satisfies `p`; `None` when there is none (`find` gives undefined). */
  function FindIndex<T>(xs: seq<T>, p: T -> bool): (r: Option<nat>)
    ensures r.Some? ==> r.value < |xs| && p(xs[r.value])
    ensures r.Some? ==> forall j :: 0 <= j < r.value ==> !p(xs[j])
    ensures r.None? <==> forall j :: 0 <= j < |xs| ==> !p(xs[j])
  {
    if xs == [] then None
    else if p(xs[0]) then Some(0)
    else match FindIndex(xs[1..], p)
      case None => None
      case Some(i) => Some(i + 1)
  }

  // ---------------------------------------------------------------------------
  // Numbers and strings

  predicate IsDecimalDigit(c: char) { '0' <= c <= '9' }

  predicate AllDecimalDigits(s: string) {
    forall k :: 0 <= k < |s| ==> IsDecimalDigit(s[k])
  }

  /** The value of one digit in base 16 or below, if `c` is one. */
  function DigitValue(c: char, base: nat): (r: Option<nat>)
    ensures r.Some? ==> r.value < base
  {
    var v: Option<nat> :=
      if '0' <= c <= '9' then Some(c as nat - '0' as nat)
      else if 'a' <= c <= 'f' then Some(c as nat - 'a' as nat + 10)
      else if 'A' <= c <= 'F' then Some(c as nat - 'A' as nat + 10)
      else None;
    if v.Some? && v.value < base then v else None
  }

  /** `String(n)` for a non-negative integer. */
  function NatToString(n: nat): (r: string)
    ensures |r| >= 1 && AllDecimalDigits(r)
  {
    var d := [('0' as int + n % 10) as char];
    if n < 10 then d else NatToString(n / 10) + d
  }

  /** `String(i)` (and `${i}`, `i.toString()`) for an integer. */
  function IntToString(i: int): (r: string)
    ensures |r| >= 1 && (r[0] == '-' <==> i < 0)
  {
    if i < 0 then "-" + NatToString(-i) else NatToString(i)
  }

  /** StrWhiteSpaceChar of ECMA-262: WhiteSpace and LineTerminator code points. */
  predicate IsJsWhitespace(c: char) {
    c == '\t' || c == '\n' || c == '\U{000B}' || c == '\U{000C}' || c == '\r' || c == ' '
    || c == '\U{00A0}' || c == '\U{1680}' || ('\U{2000}' <= c <= '\U{200A}')
    || c == '\U{2028}' || c == '\U{2029}' || c == '\U{202F}' || c == '\U{205F}'
    || c == '\U{3000}' || c == '\U{FEFF}'
  }

  function TrimStart(s: string): (r: string)
    ensures |r| <= |s| && r == s[|s| - |r|..]
    ensures |r| > 0 ==> !IsJsWhitespace(r[0])
    ensures forall k :: 0 <= k < |s| - |r| ==> IsJsWhitespace(s[k])
  {
    if s != [] && IsJsWhitespace(s[0]) then TrimStart(s[1..]) else s
  }

  /** The longest prefix of `s` made of digits of the given base. */
  function DigitPrefix(s: string, base: nat): (r: string)
    ensures |r| <= |s| && r == s[..|r|]
    ensures forall k {:trigger DigitValue(r[k], base)} :: 0 <= k < |r| ==> DigitValue(r[k], base).Some?
    ensures |r| < |s| ==> DigitValue(s[|r|], base).None?
  {
    if s != [] && DigitValue(s[0], base).Some? then [s[0]] + DigitPrefix(s[1..], base) else []
  }

  lemma ProductOfNats(a: nat, b: nat)
    ensures a * b >= 0
  {
  }

  /** The number a string of digits denotes. */
  function DigitsValue(s: string, base: nat): nat
    requires forall k {:trigger DigitValue(s[k], base)} :: 0 <= k < |s| ==> DigitValue(s[k], base).Some?
  {
    if s == [] then 0
    else
      var init := s[..|s| - 1];
      assert forall k :: 0 <= k < |init| ==> init[k] == s[k];
      var high := DigitsValue(init, base);
      ProductOfNats(high, base);
      high * base + DigitValue(s[|s| - 1], base).value
  }

  /** The unsigned part of `parseInt`: a `0x`/`0X` prefix selects base 16, otherwise base 10,
      and parsing stops at the first character that is not a digit; no digit at all is NaN. */
  function ParseUnsigned(u: string): (r: Option<nat>)
    ensures r.Some? ==> |u| > 0 && IsDecimalDigit(u[0])
  {
    if |u| >= 2 && u[0] == '0' && (u[1] == 'x' || u[1] == 'X') then
      var digits := DigitPrefix(u[2..], 16);
      if digits == [] then None else Some(DigitsValue(digits, 16))
    else
      var digits := DigitPrefix(u, 10);
      if digits == [] then None else Some(DigitsValue(digits, 10))
  }

  /** `parseInt(s)` without a radix; `None` stands for NaN. Leading white space is skipped and
      one sign is accepted before the unsigned part. */
  function ParseInt(s: string): (r: Option<int>)
    ensures TrimStart(s) == "" ==> r.None?
    ensures r.Some? ==>
      |TrimStart(s)| > 0 && (TrimStart(s)[0] in {'-', '+'} || IsDecimalDigit(TrimStart(s)[0]))
    ensures r.Some? && r.value < 0 ==> TrimStart(s)[0] == '-'
  {
    ParseSigned(TrimStart(s))
  }

  /** `parseInt` after the white space: an optional sign, then the unsigned part. */
  function ParseSigned(t: string): Option<int> {
    if |t| > 0 && t[0] == '-' then
      match ParseUnsigned(t[1..])
      case None => None
      case Some(m) => Some(0 - m as int)
    else if |t| > 0 && t[0] == '+' then
      match ParseUnsigned(t[1..])
      case None => None
      case Some(m) => Some(m)
    else
      match ParseUnsigned(t)
      case None => None
      case Some(m) => Some(m)
  }

  lemma {:induction false} DigitPrefixOfDigits(s: string)
    requires AllDecimalDigits(s)
    ensures DigitPrefix(s, 10) == s
    decreases |s|
  {
    if s != [] {
      DigitPrefixOfDigits(s[1..]);
    }
  }

  lemma {:induction false} DigitsValueOfNatToString(n: nat)
    ensures forall k {:trigger DigitValue(NatToString(n)[k], 10)} :: 0 <= k < |NatToString(n)| ==> DigitValue(NatToString(n)[k], 10).Some?
    ensures DigitsValue(NatToString(n), 10) == n
    decreases n
  {
    var s := NatToString(n);
    if n >= 10 {
      DigitsValueOfNatToString(n / 10);
      assert s[..|s| - 1] == NatToString(n / 10);
    }
  }

  /** `parseInt(String(n)) === n`. */
  lemma ParseIntNatToString(n: nat)
    ensures ParseInt(NatToString(n)) == Some(n)
  {
    var s := NatToString(n);
    DigitsValueOfNatToString(n);
    ParseIntOfDigits(s);
  }

  /** A digit string parses to its decimal value: no sign and no `0x` prefix can occur in it. */
  lemma ParseIntOfDigits(s: string)
    requires s != [] && AllDecimalDigits(s)
    ensures forall k {:trigger DigitValue(s[k], 10)} :: 0 <= k < |s| ==> DigitValue(s[k], 10).Some?
    ensures ParseInt(s) == Some(DigitsValue(s, 10))
  {
    ParseUnsignedOfDigits(s);
    ParseIntUnsigned(s, DigitsValue(s, 10));
  }

  /** Without white space or a sign in front, `parseInt` is its unsigned part. */
  lemma ParseIntUnsigned(u: string, m: nat)
    requires |u| > 0 && '0' <= u[0] <= '9' && ParseUnsigned(u) == Some(m)
    ensures ParseInt(u) == Some(m)
  {
    TrimStartOfNonSpace(u);
  }

  lemma TrimStartOfNonSpace(s: string)
    requires |s| > 0 && !IsJsWhitespace(s[0])
    ensures TrimStart(s) == s
  {
  }

  /** A minus sign negates the unsigned part. */
  lemma ParseIntMinus(u: string, m: nat)
    requires ParseUnsigned(u) == Some(m)
    ensures ParseInt("-" + u) == Some(0 - m as int)
  {
    var s := "-" + u;
    assert s[1..] == u;
    TrimStartOfNonSpace(s);
  }

  lemma ParseUnsignedOfDigits(s: string)
    requires s != [] && AllDecimalDigits(s)
    ensures forall k {:trigger DigitValue(s[k], 10)} :: 0 <= k < |s| ==> DigitValue(s[k], 10).Some?
    ensures ParseUnsigned(s) == Some(DigitsValue(s, 10))
  {
    DigitPrefixOfDigits(s);
    assert !(|s| >= 2 && s[0] == '0' && (s[1] == 'x' || s[1] == 'X')) by {
      if |s| >= 2 {
        assert IsDecimalDigit(s[1]);
      }
    }
  }

  /** `parseInt(String(i)) === i` for every integer. */
  lemma ParseIntIntToString(i: int)
    ensures ParseInt(IntToString(i)) == Some(i)
  {
    if i >= 0 {
      ParseIntNatToString(i);
    } else {
      ParseIntNegativeToString(i);
    }
  }

  lemma ParseIntNegativeToString(i: int)
    requires i < 0
    ensures ParseInt(IntToString(i)) == Some(i)
  {
    var n: nat := -i;
    var digits := NatToString(n);
    assert IntToString(i) == "-" + digits;
    DigitsValueOfNatToString(n);
    NegatedDigitsParse(digits, n);
  }

  lemma NegatedDigitsParse(digits: string, n: nat)
    requires digits != [] && AllDecimalDigits(digits)
    requires forall k {:trigger DigitValue(digits[k], 10)} :: 0 <= k < |digits| ==> DigitValue(digits[k], 10).Some?
    requires DigitsValue(digits, 10) == n
    ensures ParseInt("-" + digits) == Some(0 - n as int)
  {
    ParseUnsignedOfDigits(digits);
    ParseIntMinus(digits, n);
  }
}
