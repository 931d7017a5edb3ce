/**
  The JavaScript string built-ins the sports-analytics components call:
  String.prototype.trim, split with a one-character separator, includes,
  toLowerCase/toUpperCase (ASCII letters only), the global parseInt with no
  radix, and Number.prototype.toString for integers.
 */
module JsString {

  import opened Optional

  // ---------------------------------------------------------------------
  // Whitespace and trim
  // ---------------------------------------------------------------------

  /** ECMAScript WhiteSpace and LineTerminator code points: what trim() and parseInt strip. */
  predicate IsWhitespace(c: char) {
    || c == '\t' || c == '\n' || c == '\U{0B}' || c == '\U{0C}' || c == '\r' || c == ' '
    || c == '\U{A0}' || c == '\U{1680}' || ('\U{2000}' <= c <= '\U{200A}')
    || c == '\U{2028}' || c == '\U{2029}' || c == '\U{202F}' || c == '\U{205F}'
    || c == '\U{3000}' || c == '\U{FEFF}'
  }

  /** String.prototype.trimStart: the suffix left after dropping the leading whitespace. */
  function TrimStart(s: string): (r: string)
    ensures |r| <= |s|
    ensures r == [] || !IsWhitespace(r[0])
  {
    if s != [] && IsWhitespace(s[0]) then TrimStart(s[1..]) else s
  }

  /** trimStart keeps a suffix of the text and drops only whitespace before it. */
  lemma {:induction false} TrimStartDropsWhitespace(s: string)
    ensures TrimStart(s) == s[|s| - |TrimStart(s)|..]
    ensures forall k :: 0 <= k < |s| - |TrimStart(s)| ==> IsWhitespace(s[k])
  {
    if s != [] && IsWhitespace(s[0]) {
      TrimStartDropsWhitespace(s[1..]);
      assert forall k :: 1 <= k < |s| ==> s[k] == s[1..][k - 1];
      assert s[1..][|s| - 1 - |TrimStart(s)|..] == s[|s| - |TrimStart(s)|..];
    }
  }

  /** String.prototype.trimEnd: the prefix left after dropping the trailing whitespace. */
  function TrimEnd(s: string): (r: string)
    ensures |r| <= |s|
    ensures r == [] || !IsWhitespace(r[|r| - 1])
  {
    if s != [] && IsWhitespace(s[|s| - 1]) then TrimEnd(s[..|s| - 1]) else s
  }

  /** trimEnd keeps a prefix of the text and drops only whitespace after it. */
  lemma {:induction false} TrimEndDropsWhitespace(s: string)
    ensures TrimEnd(s) == s[..|TrimEnd(s)|]
    ensures forall k :: |TrimEnd(s)| <= k < |s| ==> IsWhitespace(s[k])
  {
    if s != [] && IsWhitespace(s[|s| - 1]) {
      TrimEndDropsWhitespace(s[..|s| - 1]);
    }
  }

  /** `r` is the infix of `s` at `i`, and only whitespace lies before and after it. */
  predicate TrimmedAt(s: string, r: string, i: int) {
    && 0 <= i <= |s| - |r| && r == s[i..i + |r|]
    && (forall k :: 0 <= k < i ==> IsWhitespace(s[k]))
    && (forall k :: i + |r| <= k < |s| ==> IsWhitespace(s[k]))
  }

  /** String.prototype.trim: the infix between the leading and the trailing whitespace. */
  function Trim(s: string): (r: string)
    ensures |r| <= |s|
  {
    TrimEnd(TrimStart(s))
  }

  /** A prefix `r` of the suffix `t` of `s` at `i` is the infix of `s` at `i`, followed by the rest of `t`. */
  lemma PrefixOfSuffix<T>(s: seq<T>, t: seq<T>, r: seq<T>, i: int, p: T -> bool)
    requires 0 <= i <= |s| && t == s[i..]
    requires |r| <= |t| && r == t[..|r|]
    requires forall k :: |r| <= k < |t| ==> p(t[k])
    ensures r == s[i..i + |r|]
    ensures forall k :: i + |r| <= k < |s| ==> p(s[k])
  {
    forall k | i + |r| <= k < |s| ensures p(s[k]) {
      assert s[k] == t[k - i];
    }
  }

  /** trim keeps an infix of the text with only whitespace before and after it. */
  lemma TrimIsInfix(s: string)
    ensures TrimmedAt(s, Trim(s), |s| - |TrimStart(s)|)
  {
    var t := TrimStart(s);
    TrimStartDropsWhitespace(s);
    TrimEndDropsWhitespace(t);
    PrefixOfSuffix(s, t, Trim(s), |s| - |t|, IsWhitespace);
  }

  /** What trim keeps neither starts nor ends with whitespace. */
  lemma TrimEnds(s: string)
    ensures Trim(s) == [] || (!IsWhitespace(Trim(s)[0]) && !IsWhitespace(Trim(s)[|Trim(s)| - 1]))
  {
    var t := TrimStart(s);
    var r := Trim(s);
    TrimEndDropsWhitespace(t);
    if r != [] {
      assert r[0] == t[0];
    }
  }

  /** trim gives the empty string exactly when the text is whitespace only. */
  lemma TrimBlank(s: string)
    ensures Trim(s) == [] <==> forall k :: 0 <= k < |s| ==> IsWhitespace(s[k])
  {
    var i := |s| - |TrimStart(s)|;
    var r := Trim(s);
    TrimIsInfix(s);
    TrimEnds(s);
    if r != [] {
      assert r[0] == s[i];
    }
  }

  /** A text that neither starts nor ends with whitespace is its own trim. */
  lemma TrimUnpadded(s: string)
    requires s == [] || (!IsWhitespace(s[0]) && !IsWhitespace(s[|s| - 1]))
    ensures Trim(s) == s
  {
    var i := |s| - |TrimStart(s)|;
    var r := Trim(s);
    TrimIsInfix(s);
    if s != [] {
      assert i == 0 && i + |r| == |s|;
      assert s[0..|s|] == s;
    }
  }

  /** Trimming removes exactly the whitespace padding around a text that neither starts nor ends with whitespace. */
  lemma TrimPadded(before: string, t: string, after: string)
    requires forall k :: 0 <= k < |before| ==> IsWhitespace(before[k])
    requires forall k :: 0 <= k < |after| ==> IsWhitespace(after[k])
    requires t != [] && !IsWhitespace(t[0]) && !IsWhitespace(t[|t| - 1])
    ensures Trim(before + t + after) == t
  {
    var s := before + t + after;
    var r := Trim(s);
    var i := |s| - |TrimStart(s)|;
    TrimIsInfix(s);
    TrimEnds(s);
    assert s[|before|] == t[0] && s[|before| + |t| - 1] == t[|t| - 1];
    assert r != [] by {
      TrimBlank(s);
    }
    assert i == |before| by {
      assert r[0] == s[i];
    }
    assert i + |r| == |before| + |t| by {
      assert r[|r| - 1] == s[i + |r| - 1];
    }
    assert s[|before|..|before| + |t|] == t;
  }

  // ---------------------------------------------------------------------
  // ASCII case mapping
  // ---------------------------------------------------------------------

  function LowerChar(c: char): char {
    if 'A' <= c <= 'Z' then (c as int + 32) as char else c
  }

  function UpperChar(c: char): char {
    if 'a' <= c <= 'z' then (c as int - 32) as char else c
  }

  /** String.prototype.toLowerCase, code point by code point. */
  function Lower(s: string): (r: string)
    ensures |r| == |s| && forall k :: 0 <= k < |s| ==> r[k] == LowerChar(s[k])
  {
    if s == [] then [] else [LowerChar(s[0])] + Lower(s[1..])
  }

  /** String.prototype.toUpperCase, code point by code point. */
  function Upper(s: string): (r: string)
    ensures |r| == |s| && forall k :: 0 <= k < |s| ==> r[k] == UpperChar(s[k])
  {
    if s == [] then [] else [UpperChar(s[0])] + Upper(s[1..])
  }

  /** Lower-casing forgets any earlier case mapping, and upper-casing is idempotent. */
  lemma CaseFolding(s: string)
    ensures Lower(Upper(s)) == Lower(s)
    ensures Lower(Lower(s)) == Lower(s)
    ensures Upper(Upper(s)) == Upper(s)
    ensures Upper(Lower(s)) == Upper(s)
  {
    assert Lower(Upper(s)) == Lower(s);
    assert Upper(Lower(s)) == Upper(s);
  }

  // ---------------------------------------------------------------------
  // split and join
  // ---------------------------------------------------------------------

  /** Array.prototype.join with a one-character separator. */
  function Join(parts: seq<string>, sep: char): string
  {
    if parts == [] then []
    else if |parts| == 1 then parts[0]
    else parts[0] + [sep] + Join(parts[1..], sep)
  }

  /** String.prototype.split with a one-character separator: the pieces between consecutive separators. */
  function Split(s: string, sep: char): (r: seq<string>)
    ensures |r| >= 1
  {
    if s == [] then [[]]
    else
      var rest := Split(s[1..], sep);
      if s[0] == sep then [[]] + rest
      else [[s[0]] + rest[0]] + rest[1..]
  }

  /** No piece of a split contains the separator, and joining the pieces gives the text back. */
  lemma {:induction false} SplitPieces(s: string, sep: char)
    ensures forall k :: 0 <= k < |Split(s, sep)| ==> sep !in Split(s, sep)[k]
    ensures Join(Split(s, sep), sep) == s
  {
    if s != [] {
      var rest := Split(s[1..], sep);
      SplitPieces(s[1..], sep);
      var r := Split(s, sep);
      if s[0] == sep {
        assert r[1..] == rest;
      } else {
        assert r[1..] == rest[1..];
        assert |rest| > 1 ==> Join(rest, sep) == rest[0] + [sep] + Join(rest[1..], sep);
        assert forall k :: 1 <= k < |r| ==> r[k] == rest[k];
      }
    }
  }

  /** There is one piece more than there are separators. */
  lemma {:induction false} SplitCount(s: string, sep: char)
    ensures |Split(s, sep)| == multiset(s)[sep] + 1
  {
    if s != [] {
      SplitCount(s[1..], sep);
      assert s == [s[0]] + s[1..];
      assert multiset(s) == multiset([s[0]]) + multiset(s[1..]);
    }
  }

  /** A separator-free piece followed by the separator is determined by the text. */
  lemma SeparatorSplitsUniquely(x: string, y: string, x': string, y': string, sep: char)
    requires sep !in x && sep !in x'
    requires x + [sep] + y == x' + [sep] + y'
    ensures x == x' && y == y'
  {
    var w := x + [sep] + y;
    assert w[|x|] == sep && w[|x'|] == sep;
    assert forall k :: 0 <= k < |x'| ==> x'[k] == w[k];
    assert forall k :: 0 <= k < |x| ==> x[k] == w[k];
    assert x == w[..|x|] == x';
    assert y == w[|x| + 1..] == y';
  }

  /** join is one-to-one on non-empty lists of separator-free pieces. */
  lemma {:induction false} JoinInjective(a: seq<string>, b: seq<string>, sep: char)
    requires |a| >= 1 && |b| >= 1
    requires forall k :: 0 <= k < |a| ==> sep !in a[k]
    requires forall k :: 0 <= k < |b| ==> sep !in b[k]
    requires Join(a, sep) == Join(b, sep)
    ensures a == b
  {
    if |a| > 1 && |b| > 1 {
      SeparatorSplitsUniquely(a[0], Join(a[1..], sep), b[0], Join(b[1..], sep), sep);
      JoinInjective(a[1..], b[1..], sep);
      assert a == [a[0]] + a[1..] && b == [b[0]] + b[1..];
    }
  }

  /** split undoes join: splitting the joined pieces gives back exactly those pieces. */
  lemma SplitJoin(parts: seq<string>, sep: char)
    requires |parts| >= 1
    requires forall k :: 0 <= k < |parts| ==> sep !in parts[k]
    ensures Split(Join(parts, sep), sep) == parts
  {
    SplitPieces(Join(parts, sep), sep);
    JoinInjective(Split(Join(parts, sep), sep), parts, sep);
  }

  /** The joined text starts with the first piece and ends with the last one. */
  lemma {:induction false} JoinEnds(parts: seq<string>, sep: char)
    requires |parts| >= 1
    ensures |Join(parts, sep)| >= |parts[0]| && |Join(parts, sep)| >= |parts[|parts| - 1]|
    ensures Join(parts, sep)[..|parts[0]|] == parts[0]
    ensures Join(parts, sep)[|Join(parts, sep)| - |parts[|parts| - 1]|..] == parts[|parts| - 1]
  {
    if |parts| > 1 {
      JoinEnds(parts[1..], sep);
      var j := Join(parts, sep);
      var tail := Join(parts[1..], sep);
      assert j == parts[0] + [sep] + tail;
      assert j[|j| - |tail|..] == tail;
      assert j[|j| - |parts[|parts| - 1]|..] == tail[|tail| - |parts[|parts| - 1]|..];
    }
  }

  // ---------------------------------------------------------------------
  // includes
  // ---------------------------------------------------------------------

  /** `t` occurs in `s` starting at index `i`. */
  predicate OccursAt(s: string, t: string, i: int) {
    0 <= i && i + |t| <= |s| && s[i..i + |t|] == t
  }

  /** String.prototype.includes, searching from the start. */
  function Includes(s: string, t: string): (r: bool)
    ensures r ==> |t| <= |s|
  {
    if |t| > |s| then false
    else if s[..|t|] == t then true
    else Includes(s[1..], t)
  }

  /** includes holds exactly when the term occurs somewhere in the text. */
  lemma {:induction false} IncludesIffOccurs(s: string, t: string)
    ensures Includes(s, t) <==> exists i :: OccursAt(s, t, i)
  {
    if |t| > |s| {
    } else if s[..|t|] == t {
      assert OccursAt(s, t, 0);
    } else {
      IncludesIffOccurs(s[1..], t);
      if Includes(s, t) {
        var i :| OccursAt(s[1..], t, i);
        assert s[i + 1..i + 1 + |t|] == s[1..][i..i + |t|];
        assert OccursAt(s, t, i + 1);
      }
      if i :| OccursAt(s, t, i) {
        assert i != 0;
        assert s[1..][i - 1..i - 1 + |t|] == s[i..i + |t|];
        assert OccursAt(s[1..], t, i - 1);
      }
    }
  }

  // ---------------------------------------------------------------------
  // parseInt and toString
  // ---------------------------------------------------------------------

  predicate IsDecimalDigit(c: char) {
    '0' <= c <= '9'
  }

  /** The value parseInt gives a digit character: 0-9, then a/A = 10 up to z/Z = 35; 36 for anything else. */
  function DigitValue(c: char): nat {
    if '0' <= c <= '9' then c as nat - '0' as nat
    else if 'a' <= c <= 'z' then c as nat - 'a' as nat + 10
    else if 'A' <= c <= 'Z' then c as nat - 'A' as nat + 10
    else 36
  }

  /** The length of the longest prefix of `s` made of digits of the radix. */
  function DigitPrefix(s: string, radix: nat): (n: nat)
    ensures n <= |s|
    ensures n == |s| || DigitValue(s[n]) >= radix
  {
    if s == [] || DigitValue(s[0]) >= radix then 0 else 1 + DigitPrefix(s[1..], radix)
  }

  /** The digit prefix is made of digits of the radix only. */
  lemma {:induction false} DigitPrefixDigits(s: string, radix: nat)
    ensures forall k :: 0 <= k < DigitPrefix(s, radix) ==> DigitValue(s[k]) < radix
  {
    if s != [] && DigitValue(s[0]) < radix {
      DigitPrefixDigits(s[1..], radix);
      assert forall k :: 1 <= k < |s| ==> s[k] == s[1..][k - 1];
    }
  }

  /** The number the digits denote, most significant first. */
  function DigitsValue(ds: string, radix: nat): nat {
    if ds == [] then 0 else DigitsValue(ds[..|ds| - 1], radix) * radix + DigitValue(ds[|ds| - 1])
  }

  /** The text parseInt reads digits from: leading whitespace and one optional sign removed. */
  function Unsigned(s: string): (r: string)
    ensures |r| <= |s|
  {
    var t := TrimStart(s);
    if t != [] && (t[0] == '-' || t[0] == '+') then t[1..] else t
  }

  /** Whether the text parseInt reads starts with a minus sign. */
  predicate IsNegative(s: string) {
    var t := TrimStart(s);
    t != [] && t[0] == '-'
  }

  /** The magnitude parseInt reads from the unsigned text; a "0x"/"0X" prefix selects radix 16. */
  function ParseMagnitude(u: string): Option<nat> {
    var hex := |u| >= 2 && u[0] == '0' && (u[1] == 'x' || u[1] == 'X');
    var radix := if hex then 16 else 10;
    var v := if hex then u[2..] else u;
    var n := DigitPrefix(v, radix);
    if n == 0 then None else Some(DigitsValue(v[..n], radix))
  }

  /** The global parseInt with no radix; None stands for NaN. */
  function ParseInt(s: string): Option<int> {
    match ParseMagnitude(Unsigned(s))
    case None => None
    case Some(m) => Some(if IsNegative(s) then -(m as int) else m)
  }

  /** `parseInt(s) || 0`: NaN (and -0) become 0. */
  function ParseIntOrZero(s: string): int {
    match ParseInt(s)
    case None => 0
    case Some(m) => m
  }

  function DigitChar(d: nat): char
    requires d < 10
  {
    ('0' as int + d) as char
  }

  /** The decimal numeral of a natural number, without leading zeros. */
  function NatToString(n: nat): (r: string)
    ensures |r| >= 1
    ensures forall k :: 0 <= k < |r| ==> IsDecimalDigit(r[k])
    ensures r[0] == '0' <==> n == 0
  {
    if n < 10 then [DigitChar(n)] else NatToString(n / 10) + [DigitChar(n % 10)]
  }

  /** Number.prototype.toString for an integer. */
  function IntToString(n: int): (r: string)
    ensures |r| >= 1
    ensures r[0] == '-' <==> n < 0
  {
    if n < 0 then "-" + NatToString(-n) else NatToString(n)
  }

  lemma {:induction false} NatToStringValue(n: nat)
    ensures DigitsValue(NatToString(n), 10) == n
  {
    var s := NatToString(n);
    if n >= 10 {
      NatToStringValue(n / 10);
      assert s[..|s| - 1] == NatToString(n / 10);
    }
  }

  lemma {:induction false} DigitPrefixOfDigits(ds: string, rest: string, radix: nat)
    requires forall k :: 0 <= k < |ds| ==> DigitValue(ds[k]) < radix
    requires rest == [] || DigitValue(rest[0]) >= radix
    ensures DigitPrefix(ds + rest, radix) == |ds|
  {
    if ds != [] {
      assert (ds + rest)[1..] == ds[1..] + rest;
      DigitPrefixOfDigits(ds[1..], rest, radix);
    } else {
      assert ds + rest == rest;
    }
  }

  /** A numeral followed by a non-digit that is not `x`/`X` parses, in radix 10, to its value. */
  lemma UnsignedNumeral(m: nat, rest: string)
    requires rest == [] || (!IsDecimalDigit(rest[0]) && rest[0] != 'x' && rest[0] != 'X')
    ensures ParseMagnitude(NatToString(m) + rest) == Some(m)
  {
    var ds := NatToString(m);
    var u := ds + rest;
    if |u| >= 2 && u[0] == '0' {
      assert m == 0 && |ds| == 1;
      assert u[1] == rest[0];
    }
    DigitPrefixOfDigits(ds, rest, 10);
    assert u[..|ds|] == ds;
    NatToStringValue(m);
  }

  /** A numeral starts with a minus sign or a digit, never with whitespace. */
  lemma NumeralStart(n: int, rest: string)
    ensures var s := IntToString(n) + rest;
            |s| > 0 && (s[0] == '-' || IsDecimalDigit(s[0])) && TrimStart(s) == s
  {
    var s := IntToString(n) + rest;
    if n >= 0 {
      assert s[0] == NatToString(n)[0];
    }
  }

  /** parseInt sees the sign of the numeral of `n` and then the digits of |n|. */
  lemma NumeralSign(n: int, rest: string)
    ensures var s := IntToString(n) + rest;
            && Unsigned(s) == NatToString(if n < 0 then -n else n) + rest
            && IsNegative(s) == (n < 0)
  {
    NumeralStart(n, rest);
    var s := IntToString(n) + rest;
    var u := NatToString(if n < 0 then -n else n) + rest;
    if n < 0 {
      assert s == ['-'] + u;
      assert s[1..] == u;
    } else {
      assert s == u;
    }
  }

  /**
    parseInt reads back the integer prefix of a text: the numeral of `n`
    followed by anything that does not continue it (neither a digit nor the
    `x` that would turn a leading 0 into a hexadecimal prefix) parses as `n`.
   */
  lemma ParseIntOfNumeral(n: int, rest: string)
    requires rest == [] || (!IsDecimalDigit(rest[0]) && rest[0] != 'x' && rest[0] != 'X')
    ensures ParseInt(IntToString(n) + rest) == Some(n)
    ensures ParseIntOrZero(IntToString(n) + rest) == n
  {
    NumeralSign(n, rest);
    UnsignedNumeral(if n < 0 then -n else n, rest);
  }

  /** toString then parseInt is the identity on integers. */
  lemma ParseIntToString(n: int)
    ensures ParseIntOrZero(IntToString(n)) == n
  {
    ParseIntOfNumeral(n, []);
    assert IntToString(n) + [] == IntToString(n);
  }

  /** parseInt is NaN, so `parseInt(s) || 0` is 0, when no digit follows the whitespace and sign. */
  lemma ParseIntWithoutLeadingDigit(s: string)
    requires Unsigned(s) == [] || !IsDecimalDigit(Unsigned(s)[0])
    ensures ParseInt(s) == None
    ensures ParseIntOrZero(s) == 0
  {
  }

  /** `undefined`, what a missing CSV column reads as, parses to NaN. */
  lemma ParseUndefined()
    ensures ParseIntOrZero("undefined") == 0
  {
    ParseIntWithoutLeadingDigit("undefined");
  }
}
