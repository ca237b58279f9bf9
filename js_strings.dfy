/**
 * The JavaScript string built-ins that scripts/sync-machines.js relies on:
 * `trim`, `indexOf`, `split`, `endsWith`, `replace` with a string pattern,
 * `toLowerCase` and the global `parseInt`. Strings are sequences of chars.
 */
module JsStrings {
  import opened Wrappers

  // ---------------------------------------------------------------------------
  // Whitespace and trim
  // ---------------------------------------------------------------------------

  /** ECMAScript WhiteSpace and LineTerminator: what `trim` and `parseInt` skip. */
  predicate IsSpace(c: char)
  {
    || c == '\t' || c == '\n' || c == '\U{B}' || c == '\U{C}' || c == '\r' || c == ' '
    || c == '\U{A0}' || c == '\U{1680}' || ('\U{2000}' <= c <= '\U{200A}')
    || c == '\U{2028}' || c == '\U{2029}' || c == '\U{202F}' || c == '\U{205F}'
    || c == '\U{3000}' || c == '\U{FEFF}'
  }

  predicate AllSpace(s: string)
  {
    forall i :: 0 <= i < |s| ==> IsSpace(s[i])
  }

  /** A string `trim` leaves alone: it neither starts nor ends with whitespace. */
  predicate Trimmed(s: string)
  {
    s == [] || (!IsSpace(s[0]) && !IsSpace(s[|s| - 1]))
  }

  /** `String.prototype.trimStart`: the suffix left after dropping leading whitespace. */
  function TrimStart(s: string): (r: string)
    ensures |r| <= |s|
    ensures r == [] || !IsSpace(r[0])
  {
    if s != [] && IsSpace(s[0]) then TrimStart(s[1..]) else s
  }

  /** What `trimStart` keeps is a suffix of its argument. */
  lemma {:induction false} TrimStartSuffix(s: string)
    ensures TrimStart(s) == s[|s| - |TrimStart(s)|..]
  {
    if s != [] && IsSpace(s[0]) {
      TrimStartSuffix(s[1..]);
      assert s[1..][|s| - 1 - |TrimStart(s)|..] == s[|s| - |TrimStart(s)|..];
    }
  }

  /** `String.prototype.trimEnd`: the prefix left after dropping trailing whitespace. */
  function TrimEnd(s: string): (r: string)
    ensures |r| <= |s|
    ensures r == [] || !IsSpace(r[|r| - 1])
  {
    if s != [] && IsSpace(s[|s| - 1]) then TrimEnd(s[..|s| - 1]) else s
  }

  /** What `trimEnd` keeps is a prefix of its argument. */
  lemma {:induction false} TrimEndPrefix(s: string)
    ensures TrimEnd(s) == s[..|TrimEnd(s)|]
  {
    if s != [] && IsSpace(s[|s| - 1]) {
      TrimEndPrefix(s[..|s| - 1]);
      assert s[..|s| - 1][..|TrimEnd(s)|] == s[..|TrimEnd(s)|];
    }
  }

  /** What `trimStart` drops is whitespace only. */
  lemma {:induction false} TrimStartDropsSpace(s: string)
    ensures AllSpace(s[..|s| - |TrimStart(s)|])
  {
    if s != [] && IsSpace(s[0]) {
      TrimStartDropsSpace(s[1..]);
      var k := |s| - |TrimStart(s)|;
      forall i | 0 <= i < k ensures IsSpace(s[..k][i]) {
        if i > 0 { assert s[..k][i] == s[1..][..k - 1][i - 1]; }
      }
    }
  }

  /** What `trimEnd` drops is whitespace only. */
  lemma {:induction false} TrimEndDropsSpace(s: string)
    ensures AllSpace(s[|TrimEnd(s)|..])
  {
    if s != [] && IsSpace(s[|s| - 1]) {
      var init := s[..|s| - 1];
      TrimEndDropsSpace(init);
      var k := |TrimEnd(s)|;
      forall i | 0 <= i < |s| - k ensures IsSpace(s[k..][i]) {
        if k + i < |s| - 1 { assert s[k..][i] == init[k..][i]; }
      }
    }
  }

  /** An all-whitespace string trims to nothing from the start. */
  lemma {:induction false} TrimStartOfSpace(s: string)
    requires AllSpace(s)
    ensures TrimStart(s) == []
  {
    if s != [] {
      assert AllSpace(s[1..]) by {
        forall i | 0 <= i < |s| - 1 ensures IsSpace(s[1..][i]) { assert s[1..][i] == s[i + 1]; }
      }
      TrimStartOfSpace(s[1..]);
    }
  }

  /** `String.prototype.trim`: `trimStart` and then `trimEnd`. */
  function Trim(s: string): (r: string)
    ensures Trimmed(r)
    ensures |r| <= |s|
  {
    var t := TrimStart(s);
    var r := TrimEnd(t);
    TrimEndPrefix(t);
    assert r != [] ==> !IsSpace(r[0]) by {
      if r != [] { assert r[0] == t[0]; }
    }
    r
  }

  /**
   * What `trim` returns is the input with its leading and its trailing
   * whitespace cut off: a slice of the input with only whitespace on either
   * side of it (and, by `Trim`'s contract, none at its own ends).
   */
  lemma TrimSlice(s: string)
    ensures exists k :: 0 <= k <= |s| - |Trim(s)| && Trim(s) == s[k..k + |Trim(s)|]
                        && AllSpace(s[..k]) && AllSpace(s[k + |Trim(s)|..])
  {
    var k := |s| - |TrimStart(s)|;
    TrimIsSlice(s);
    TrimDropsSpace(s);
    assert 0 <= k <= |s| - |Trim(s)| && Trim(s) == s[k..k + |Trim(s)|];
  }

  /** `trim` keeps the slice that starts where `trimStart` stops. */
  lemma TrimIsSlice(s: string)
    ensures |s| - |TrimStart(s)| + |Trim(s)| <= |s|
    ensures Trim(s) == s[|s| - |TrimStart(s)|..|s| - |TrimStart(s)| + |Trim(s)|]
  {
    var t := TrimStart(s);
    TrimStartSuffix(s);
    TrimEndPrefix(t);
  }

  /** What `trim` cuts off at either end is whitespace. */
  lemma TrimDropsSpace(s: string)
    ensures |s| - |TrimStart(s)| + |Trim(s)| <= |s|
    ensures AllSpace(s[..|s| - |TrimStart(s)|])
    ensures AllSpace(s[|s| - |TrimStart(s)| + |Trim(s)|..])
  {
    var t := TrimStart(s);
    var k := |s| - |t|;
    TrimStartDropsSpace(s);
    TrimStartSuffix(s);
    TrimEndDropsSpace(t);
    assert s[k + |Trim(s)|..] == t[|Trim(s)|..];
  }

  /** Every character `trim` keeps was in its input. */
  lemma TrimKeeps(s: string, c: char)
    requires c in Trim(s)
    ensures c in s
  {
    var r := Trim(s);
    TrimSlice(s);
    var k :| 0 <= k <= |s| - |r| && r == s[k..k + |r|];
    var j :| 0 <= j < |r| && r[j] == c;
    assert s[k + j] == c;
  }

  /**
   * `trim` gives the empty string exactly for an all-whitespace string: the
   * case in which `fm.key || fallback` falls back.
   */
  lemma TrimEmpty(s: string)
    ensures Trim(s) == [] <==> AllSpace(s)
  {
    var t := TrimStart(s);
    TrimStartDropsSpace(s);
    TrimStartSuffix(s);
    TrimEndDropsSpace(t);
    if Trim(s) == [] {
      assert t[|TrimEnd(t)|..] == t;
      forall i | 0 <= i < |s| ensures IsSpace(s[i]) {
        assert s[i] == s[..|s| - |t|][i];
      }
    }
    if AllSpace(s) {
      TrimStartOfSpace(s);
    }
  }

  /** Trimming a trimmed string changes nothing. */
  lemma TrimIdempotent(s: string)
    ensures Trim(Trim(s)) == Trim(s)
  {
    var t := Trim(s);
    assert TrimStart(t) == t;
    assert TrimEnd(t) == t;
  }

  // ---------------------------------------------------------------------------
  // Searching
  // ---------------------------------------------------------------------------

  predicate StartsWith(s: string, prefix: string)
  {
    |prefix| <= |s| && s[..|prefix|] == prefix
  }

  /** `String.prototype.endsWith`. */
  predicate EndsWith(s: string, suffix: string)
  {
    |suffix| <= |s| && s[|s| - |suffix|..] == suffix
  }

  /** `pat` occurs in `s` starting at index `i`. */
  predicate OccursAt(s: string, pat: string, i: nat)
  {
    i + |pat| <= |s| && s[i..i + |pat|] == pat
  }

  /** `s.indexOf(c)` for a one-character pattern; `None` stands for -1. */
  function IndexOfChar(s: string, c: char): (r: Option<nat>)
    ensures r.Some? ==> r.value < |s| && s[r.value] == c && c !in s[..r.value]
    ensures r.None? ==> c !in s
  {
    if s == [] then None
    else if s[0] == c then Some(0)
    else match IndexOfChar(s[1..], c)
      case None => None
      case Some(i) =>
        assert s[..i + 1] == [s[0]] + s[1..][..i];
        Some(i + 1)
  }

  /** The first occurrence of `c` is the index `indexOf` finds. */
  lemma IndexOfCharAt(s: string, c: char, i: nat)
    requires i < |s| && s[i] == c && c !in s[..i]
    ensures IndexOfChar(s, c) == Some(i)
  {
    var r := IndexOfChar(s, c);
    assert r.Some? by {
      assert c in s;
    }
    assert forall k :: 0 <= k < i ==> s[..i][k] == s[k];
    assert forall k :: 0 <= k < r.value ==> s[..r.value][k] == s[k];
  }

  /** `s.indexOf(pat, from)`: the first occurrence of `pat` at or after `from`. */
  function IndexOfFrom(s: string, pat: string, from: nat): (r: Option<nat>)
    ensures r.Some? ==> from <= r.value && OccursAt(s, pat, r.value)
    ensures r.Some? ==> forall i :: from <= i < r.value ==> !OccursAt(s, pat, i)
    ensures r.None? ==> forall i :: from <= i ==> !OccursAt(s, pat, i)
    decreases |s| - from
  {
    if |s| < from + |pat| then None
    else if OccursAt(s, pat, from) then Some(from)
    else IndexOfFrom(s, pat, from + 1)
  }

  /** `pat` occurs at `i` and nowhere before. */
  predicate FirstAt(s: string, pat: string, i: nat)
  {
    OccursAt(s, pat, i) && forall j :: 0 <= j < i ==> !OccursAt(s, pat, j)
  }

  /**
   * `s.replace(pat, '')` with a string pattern: the first occurrence of
   * `pat` is cut out, and nothing else; without an occurrence, `s` is kept.
   */
  function RemoveFirst(s: string, pat: string): (r: string)
    ensures (forall i: nat :: !OccursAt(s, pat, i)) ==> r == s
    ensures forall i: nat :: FirstAt(s, pat, i) ==> r == s[..i] + s[i + |pat|..]
  {
    match IndexOfFrom(s, pat, 0)
    case None => s
    case Some(i) => s[..i] + s[i + |pat|..]
  }

  /**
   * A string made of `pre`, `pat` and `post`, in which `pat` does not occur
   * inside `pre` or across its end, loses exactly that `pat`.
   */
  lemma RemoveFirstAt(pre: string, pat: string, post: string)
    requires forall i :: 0 <= i < |pre| ==> !OccursAt(pre + pat + post, pat, i)
    ensures RemoveFirst(pre + pat + post, pat) == pre + post
  {
    var s := pre + pat + post;
    assert OccursAt(s, pat, |pre|) by { assert s[|pre|..|pre| + |pat|] == pat; }
    assert FirstAt(s, pat, |pre|);
    assert s[..|pre|] == pre;
    assert s[|pre| + |pat|..] == post;
  }

  // ---------------------------------------------------------------------------
  // split and its inverse, join
  // ---------------------------------------------------------------------------

  /** `Array.prototype.join(sep)`: the inverse of `Split`. */
  function Join(parts: seq<string>, sep: char): string
  {
    if |parts| == 0 then ""
    else if |parts| == 1 then parts[0]
    else parts[0] + [sep] + Join(parts[1..], sep)
  }

  /**
   * `s.split(sep)` for a one-character separator: always at least one
   * piece. `JoinSplit` and `SplitJoin` show that it is the inverse of `Join`.
   */
  function Split(s: string, sep: char): (parts: seq<string>)
    ensures |parts| >= 1
    decreases |s|
  {
    match IndexOfChar(s, sep)
    case None => [s]
    case Some(i) => [s[..i]] + Split(s[i + 1..], sep)
  }

  /**
   * `split` always yields at least one piece, no piece holds the separator,
   * and joining the pieces gives the string back.
   */
  lemma {:induction false} JoinSplit(s: string, sep: char)
    ensures |Split(s, sep)| >= 1
    ensures forall i :: 0 <= i < |Split(s, sep)| ==> sep !in Split(s, sep)[i]
    ensures Join(Split(s, sep), sep) == s
    decreases |s|
  {
    match IndexOfChar(s, sep)
    case None =>
    case Some(i) =>
      var rest := Split(s[i + 1..], sep);
      JoinSplit(s[i + 1..], sep);
      var parts := [s[..i]] + rest;
      assert parts[1..] == rest;
      assert s == s[..i] + [sep] + s[i + 1..];
  }

  /** Splitting a joined list of separator-free pieces gives the pieces back. */
  lemma {:induction false} SplitJoin(parts: seq<string>, sep: char)
    requires |parts| >= 1
    requires forall i :: 0 <= i < |parts| ==> sep !in parts[i]
    ensures Split(Join(parts, sep), sep) == parts
  {
    if |parts| > 1 {
      var tail := parts[1..];
      SplitJoin(tail, sep);
      var s := Join(parts, sep);
      assert s == parts[0] + [sep] + Join(tail, sep);
      assert s[..|parts[0]|] == parts[0];
      IndexOfCharAt(s, sep, |parts[0]|);
      assert s[|parts[0]| + 1..] == Join(tail, sep);
      assert parts == [parts[0]] + tail;
    } else {
      assert IndexOfChar(parts[0], sep) == None;
    }
  }

  // ---------------------------------------------------------------------------
  // toLowerCase
  // ---------------------------------------------------------------------------

  /** Capital letters of the Basic Latin and Latin-1 blocks. */
  predicate IsUpper(c: char)
  {
    ('A' <= c <= 'Z') || ('\U{C0}' <= c <= '\U{DE}' && c != '\U{D7}')
  }

  function LowerChar(c: char): (r: char)
  {
    if IsUpper(c) then (c as int + 32) as char else c
  }

  /**
   * `String.prototype.toLowerCase` on Basic Latin and Latin-1: every capital
   * becomes its small letter, every other character stays, the length is kept.
   */
  function ToLower(s: string): (r: string)
    ensures |r| == |s|
    ensures forall i :: 0 <= i < |s| ==> !IsUpper(r[i])
    ensures forall i :: 0 <= i < |s| && !IsUpper(s[i]) ==> r[i] == s[i]
    ensures forall i :: 0 <= i < |s| && IsUpper(s[i]) ==> r[i] as int == s[i] as int + 32
  {
    seq(|s|, i requires 0 <= i < |s| => LowerChar(s[i]))
  }

  /** Two characters that are the same letter, each capital or small. */
  predicate SameUpToCase(a: char, b: char)
  {
    || a == b
    || (IsUpper(a) && b as int == a as int + 32)
    || (IsUpper(b) && a as int == b as int + 32)
  }

  /**
   * Two strings lower to the same string exactly when they differ only in
   * the case of their letters.
   */
  lemma ToLowerEqual(s: string, t: string)
    ensures ToLower(s) == ToLower(t)
            <==> |s| == |t| && forall i :: 0 <= i < |s| ==> SameUpToCase(s[i], t[i])
  {
    var ls, lt := ToLower(s), ToLower(t);
    if |s| == |t| && forall i :: 0 <= i < |s| ==> SameUpToCase(s[i], t[i]) {
      forall i | 0 <= i < |s| ensures ls[i] == lt[i] {
        assert ls[i] as int == lt[i] as int;
      }
    }
    if ls == lt {
      forall i | 0 <= i < |s| ensures SameUpToCase(s[i], t[i]) {
        assert ls[i] as int == lt[i] as int;
      }
    }
  }

  /** Lowercasing twice is lowercasing once. */
  lemma ToLowerIdempotent(s: string)
    ensures ToLower(ToLower(s)) == ToLower(s)
  {
  }

  // ---------------------------------------------------------------------------
  // parseInt
  // ---------------------------------------------------------------------------

  /** The value of `c` as a digit in any radix up to 36; 36 when it is no digit. */
  function DigitValue(c: char): (d: nat)
    ensures d <= 36
  {
    if '0' <= c <= '9' then c as int - '0' as int
    else if 'a' <= c <= 'z' then c as int - 'a' as int + 10
    else if 'A' <= c <= 'Z' then c as int - 'A' as int + 10
    else 36
  }

  /** Length of the longest prefix of `s` made of radix-`radix` digits. */
  function DigitRun(s: string, radix: nat): (n: nat)
    ensures n <= |s|
    ensures forall i :: 0 <= i < n ==> DigitValue(s[i]) < radix
    ensures n < |s| ==> DigitValue(s[n]) >= radix
  {
    if s == [] || DigitValue(s[0]) >= radix then 0 else 1 + DigitRun(s[1..], radix)
  }

  /** The number a string of radix-`radix` digits denotes, most significant first. */
  function DigitsValue(s: string, radix: nat): nat
  {
    if s == [] then 0
    else DigitsValue(s[..|s| - 1], radix) * radix + DigitValue(s[|s| - 1])
  }

  /**
   * The global `parseInt(s)` without a radix: skip leading whitespace, take an
   * optional sign, read hexadecimal after a `0x`/`0X` prefix and decimal
   * otherwise, and stop at the first character that is no digit. `None` is
   * `NaN`, the result when no digit is found.
   */
  function ParseInt(s: string): (r: Option<int>)
    ensures r.Some? ==> TrimStart(s) != []
    ensures r.Some? && r.value < 0 ==> TrimStart(s)[0] == '-'
  {
    var t := TrimStart(s);
    var unsigned := if t != [] && (t[0] == '-' || t[0] == '+') then t[1..] else t;
    match ParseUnsigned(unsigned)
    case None => None
    case Some(magnitude) =>
      var m: int := magnitude;
      Some(if t != [] && t[0] == '-' then -m else m)
  }

  /** `parseInt` finds a number only in a string that holds a decimal digit. */
  lemma ParseIntNeedsDigit(s: string)
    requires ParseInt(s).Some?
    ensures exists i :: 0 <= i < |s| && '0' <= s[i] <= '9'
  {
    var t := TrimStart(s);
    var signed := t[0] == '-' || t[0] == '+';
    var unsigned := if signed then t[1..] else t;
    TrimStartSuffix(s);
    var at := |s| - |t| + if signed then 1 else 0;
    assert s[at] == unsigned[0];
  }

  /**
   * The part of `parseInt` after the sign: the radix prefix and the digits.
   * A number is read only from a string that starts with a decimal digit
   * (the `0` of a `0x` prefix included).
   */
  function ParseUnsigned(u: string): (r: Option<nat>)
    ensures r.Some? ==> u != [] && '0' <= u[0] <= '9'
  {
    if |u| >= 2 && u[0] == '0' && (u[1] == 'x' || u[1] == 'X') then ParseDigits(u[2..], 16)
    else ParseDigits(u, 10)
  }

  /** The value of the longest run of radix-`radix` digits `s` starts with; `None` when there is none. */
  function ParseDigits(s: string, radix: nat): (r: Option<nat>)
    ensures r.Some? <==> s != [] && DigitValue(s[0]) < radix
  {
    var n := DigitRun(s, radix);
    if n == 0 then None else Some(DigitsValue(s[..n], radix))
  }

  /** The decimal numeral of a natural number, as JavaScript prints it. */
  function NatToDecimal(n: nat): (s: string)
    ensures s != []
    ensures forall i :: 0 <= i < |s| ==> '0' <= s[i] <= '9'
    ensures |s| > 1 ==> s[0] != '0'
  {
    if n < 10 then ['0' + n as char]
    else NatToDecimal(n / 10) + ['0' + (n % 10) as char]
  }

  /** The decimal numeral of an integer, with a leading `-` when negative. */
  function IntToDecimal(n: int): string
  {
    if n < 0 then "-" + NatToDecimal(-n) else NatToDecimal(n)
  }

  lemma {:induction false} DigitsValueOfDecimal(n: nat)
    ensures DigitsValue(NatToDecimal(n), 10) == n
  {
    var s := NatToDecimal(n);
    if n >= 10 {
      DigitsValueOfDecimal(n / 10);
      assert s[..|s| - 1] == NatToDecimal(n / 10);
    }
  }

  lemma {:induction false} DigitRunOfDecimal(n: nat, rest: string)
    requires rest == [] || DigitValue(rest[0]) >= 10
    ensures DigitRun(NatToDecimal(n) + rest, 10) == |NatToDecimal(n)|
  {
    var digits := NatToDecimal(n);
    var s := digits + rest;
    assert forall i :: 0 <= i < |digits| ==> s[i] == digits[i];
    assert |digits| < |s| ==> s[|digits|] == rest[0];
  }

  /**
   * `parseInt` reads back what `IntToDecimal` writes, and ignores whatever
   * follows the numeral as long as it does not continue it: neither a digit
   * nor, after a lone `0`, an `x` that would turn it into a hexadecimal prefix.
   */
  lemma ParseIntDecimal(n: int, rest: string)
    requires rest == [] || DigitValue(rest[0]) >= 10
    requires n == 0 && rest != [] ==> rest[0] != 'x' && rest[0] != 'X'
    ensures ParseInt(IntToDecimal(n) + rest) == Some(n)
  {
    if n < 0 {
      ParseIntNegative(n, rest);
    } else {
      ParseIntNatural(n, rest);
    }
  }

  lemma ParseIntNatural(n: int, rest: string)
    requires n >= 0
    requires rest == [] || DigitValue(rest[0]) >= 10
    requires n == 0 && rest != [] ==> rest[0] != 'x' && rest[0] != 'X'
    ensures ParseInt(IntToDecimal(n) + rest) == Some(n)
  {
    ParseUnsignedDecimal(n, rest);
    ParseIntUnsigned(NatToDecimal(n) + rest);
  }

  lemma ParseIntNegative(n: int, rest: string)
    requires n < 0
    requires rest == [] || DigitValue(rest[0]) >= 10
    ensures ParseInt(IntToDecimal(n) + rest) == Some(n)
  {
    NegativeNumeral(n, rest);
    ParseIntMinusDecimal(IntToDecimal(n) + rest, -n, rest);
  }

  lemma NegativeNumeral(n: int, rest: string)
    requires n < 0
    ensures IntToDecimal(n) + rest == ['-'] + (NatToDecimal(-n) + rest)
  {
  }

  lemma ParseIntMinusDecimal(s: string, m: nat, rest: string)
    requires s == ['-'] + (NatToDecimal(m) + rest)
    requires m > 0
    requires rest == [] || DigitValue(rest[0]) >= 10
    ensures ParseInt(s) == Some(-(m as int))
  {
    ParseUnsignedDecimal(m, rest);
    ParseIntMinus(NatToDecimal(m) + rest, m);
  }

  /** A leading digit is read as is. */
  lemma ParseIntUnsigned(u: string)
    requires u != [] && '0' <= u[0] <= '9'
    ensures ParseInt(u) == ParseUnsigned(u)
  {
    TrimStartStops(u);
  }

  lemma TrimStartStops(s: string)
    requires s != [] && !IsSpace(s[0])
    ensures TrimStart(s) == s
  {
  }

  /** A leading `-` negates what follows it. */
  lemma ParseIntMinus(u: string, m: nat)
    requires ParseUnsigned(u) == Some(m)
    ensures ParseInt(['-'] + u) == Some(-(m as int))
  {
    var s := ['-'] + u;
    TrimStartStops(s);
    assert s[1..] == u;
  }

  lemma ParseUnsignedDecimal(m: nat, rest: string)
    requires rest == [] || DigitValue(rest[0]) >= 10
    requires m == 0 && rest != [] ==> rest[0] != 'x' && rest[0] != 'X'
    ensures ParseUnsigned(NatToDecimal(m) + rest) == Some(m)
  {
    var digits := NatToDecimal(m);
    var u := digits + rest;
    if |u| >= 2 && u[0] == '0' {
      assert |digits| == 1;
      assert u[1] == rest[0];
    }
    DigitRunOfDecimal(m, rest);
    assert u[..|digits|] == digits;
    DigitsValueOfDecimal(m);
  }

  /** The fallback numeral the record builder uses reads as fifty. */
  lemma ParseFifty()
    ensures ParseInt("50") == Some(50)
  {
    assert "50" == IntToDecimal(50) + "";
    ParseIntDecimal(50, "");
  }

  /** A run of `0` characters. */
  predicate AllZeros(s: string)
  {
    forall i :: 0 <= i < |s| ==> s[i] == '0'
  }

  /** `trimStart` drops exactly the whitespace in front of a non-space character. */
  lemma {:induction false} TrimStartAfterSpace(ws: string, v: string)
    requires AllSpace(ws)
    requires v == [] || !IsSpace(v[0])
    ensures TrimStart(ws + v) == v
    decreases |ws|
  {
    if ws == [] {
      assert ws + v == v;
    } else {
      assert (ws + v)[0] == ws[0];
      assert (ws + v)[1..] == ws[1..] + v;
      assert forall i :: 0 <= i < |ws| - 1 ==> ws[1..][i] == ws[i + 1];
      TrimStartAfterSpace(ws[1..], v);
    }
  }

  /** A string of zeros is worth nothing. */
  lemma {:induction false} ZerosValue(zeros: string, radix: nat)
    requires AllZeros(zeros)
    ensures DigitsValue(zeros, radix) == 0
    decreases |zeros|
  {
    if zeros != [] {
      ZerosValue(zeros[..|zeros| - 1], radix);
    }
  }

  /** Leading zeros add nothing to the value of a digit string. */
  lemma {:induction false} DigitsValueLeadingZeros(zeros: string, d: string, radix: nat)
    requires AllZeros(zeros)
    ensures DigitsValue(zeros + d, radix) == DigitsValue(d, radix)
    decreases |d|
  {
    if d == [] {
      assert zeros + d == zeros;
      ZerosValue(zeros, radix);
    } else {
      assert (zeros + d)[..|zeros + d| - 1] == zeros + d[..|d| - 1];
      DigitsValueLeadingZeros(zeros, d[..|d| - 1], radix);
    }
  }

  /** The digit run is the prefix of digits that a non-digit (or the end) closes. */
  lemma DigitRunIs(s: string, radix: nat, n: nat)
    requires n <= |s|
    requires forall i :: 0 <= i < n ==> DigitValue(s[i]) < radix
    requires n < |s| ==> DigitValue(s[n]) >= radix
    ensures DigitRun(s, radix) == n
  {
  }

  /**
   * A decimal numeral, padded with any number of leading zeros, reads back
   * as its value when no digit follows it ("007" is 7). Only an unpadded
   * lone `0` can be taken for the start of a `0x` prefix.
   */
  lemma ParseUnsignedPadded(zeros: string, m: nat, rest: string)
    requires AllZeros(zeros)
    requires rest == [] || DigitValue(rest[0]) >= 10
    requires zeros == [] && m == 0 && rest != [] ==> rest[0] != 'x' && rest[0] != 'X'
    ensures ParseUnsigned(zeros + NatToDecimal(m) + rest) == Some(m)
  {
    var numeral := NatToDecimal(m);
    if zeros == [] {
      assert zeros + numeral + rest == numeral + rest;
      ParseUnsignedDecimal(m, rest);
    } else {
      var digits := zeros + numeral;
      var u := digits + rest;
      assert forall i :: 0 <= i < |digits| ==> u[i] == digits[i];
      assert forall i :: 0 <= i < |digits| ==> '0' <= digits[i] <= '9' by {
        assert forall i :: |zeros| <= i < |digits| ==> digits[i] == numeral[i - |zeros|];
      }
      assert |digits| < |u| ==> u[|digits|] == rest[0];
      ParseDecimalRun(u, |digits|);
      assert u[..|digits|] == digits;
      DigitsValueLeadingZeros(zeros, numeral, 10);
      DigitsValueOfDecimal(m);
    }
  }

  /** Two or more decimal digits, then no digit: read in base 10. */
  lemma ParseDecimalRun(u: string, n: nat)
    requires 2 <= n <= |u|
    requires forall i :: 0 <= i < n ==> '0' <= u[i] <= '9'
    requires n < |u| ==> DigitValue(u[n]) >= 10
    ensures ParseUnsigned(u) == Some(DigitsValue(u[..n], 10))
  {
    DigitRunIs(u, 10, n);
    assert ParseUnsigned(u) == ParseDigits(u, 10);
  }

  /**
   * After a `0x` or `0X` prefix, the longest run of hexadecimal digits (of
   * either case) is read in base 16.
   */
  lemma ParseUnsignedHex(x: char, digits: string, rest: string)
    requires x == 'x' || x == 'X'
    requires digits != [] && forall i :: 0 <= i < |digits| ==> DigitValue(digits[i]) < 16
    requires rest == [] || DigitValue(rest[0]) >= 16
    ensures ParseUnsigned(['0', x] + digits + rest) == Some(DigitsValue(digits, 16))
  {
    var u := ['0', x] + digits + rest;
    var tail := digits + rest;
    assert u == ['0', x] + tail;
    assert u[0] == '0' && u[1] == x && u[2..] == tail;
    assert ParseUnsigned(u) == ParseDigits(tail, 16);
    ParseDigitsRun(digits, rest, 16);
  }

  /** The digits in front of a non-digit are read as a whole. */
  lemma ParseDigitsRun(digits: string, rest: string, radix: nat)
    requires digits != [] && forall i :: 0 <= i < |digits| ==> DigitValue(digits[i]) < radix
    requires rest == [] || DigitValue(rest[0]) >= radix
    ensures ParseDigits(digits + rest, radix) == Some(DigitsValue(digits, radix))
  {
    var s := digits + rest;
    assert forall i :: 0 <= i < |digits| ==> s[i] == digits[i];
    assert |digits| < |s| ==> s[|digits|] == rest[0];
    DigitRunIs(s, radix, |digits|);
    assert s[..|digits|] == digits;
  }


  /**
   * Leading whitespace is skipped, a `+` keeps the number that follows and a
   * `-` negates it.
   */
  lemma ParseIntSigned(ws: string, sign: string, u: string, m: nat)
    requires AllSpace(ws)
    requires sign == "" || sign == "+" || sign == "-"
    requires ParseUnsigned(u) == Some(m)
    ensures ParseInt(ws + sign + u) == Some(if sign == "-" then -(m as int) else m)
  {
    SignedStart(ws, sign, u);
    ParseIntOfStart(ws + sign + u, sign, u, m);
  }

  /** Whitespace in front of a sign or a digit is all `trimStart` drops. */
  lemma SignedStart(ws: string, sign: string, u: string)
    requires AllSpace(ws)
    requires sign == "" || sign == "+" || sign == "-"
    requires u != [] && '0' <= u[0] <= '9'
    ensures TrimStart(ws + sign + u) == sign + u
  {
    var v := sign + u;
    assert ws + sign + u == ws + v;
    assert v[0] == if sign == "" then u[0] else sign[0];
    TrimStartAfterSpace(ws, v);
  }

  /** What `parseInt` reads once whitespace is skipped: the sign, then the number. */
  lemma ParseIntOfStart(s: string, sign: string, u: string, m: nat)
    requires sign == "" || sign == "+" || sign == "-"
    requires TrimStart(s) == sign + u
    requires ParseUnsigned(u) == Some(m)
    ensures ParseInt(s) == Some(if sign == "-" then -(m as int) else m)
  {
    var t := sign + u;
    if sign == "" {
      assert t == u;
    } else {
      assert t[0] == sign[0];
      assert t[1..] == u;
    }
  }



  /**
   * `parseInt` of a decimal number as it may be written by hand: leading
   * whitespace, an optional sign, leading zeros, the digits, and then any
   * text that does not continue them ("  +07/10" is 7).
   */
  lemma ParseIntWritten(ws: string, sign: string, zeros: string, m: nat, rest: string)
    requires AllSpace(ws)
    requires sign == "" || sign == "+" || sign == "-"
    requires AllZeros(zeros)
    requires rest == [] || DigitValue(rest[0]) >= 10
    requires zeros == [] && m == 0 && rest != [] ==> rest[0] != 'x' && rest[0] != 'X'
    ensures ParseInt(ws + sign + (zeros + NatToDecimal(m) + rest))
            == Some(if sign == "-" then -(m as int) else m)
  {
    ParseUnsignedPadded(zeros, m, rest);
    ParseIntSigned(ws, sign, zeros + NatToDecimal(m) + rest, m);
  }

  /**
   * `parseInt` of a hexadecimal number: leading whitespace, an optional
   * sign, `0x` or `0X`, hexadecimal digits, and then any text that does not
   * continue them ("0x1F" is 31).
   */
  lemma ParseIntHex(ws: string, sign: string, x: char, digits: string, rest: string, n: nat)
    requires AllSpace(ws)
    requires sign == "" || sign == "+" || sign == "-"
    requires x == 'x' || x == 'X'
    requires digits != [] && forall i :: 0 <= i < |digits| ==> DigitValue(digits[i]) < 16
    requires rest == [] || DigitValue(rest[0]) >= 16
    requires n == DigitsValue(digits, 16)
    ensures ParseInt(ws + sign + (['0', x] + digits + rest)) == Some(if sign == "-" then -(n as int) else n)
  {
    ParseUnsignedHex(x, digits, rest);
    ParseIntSigned(ws, sign, ['0', x] + digits + rest, n);
  }

}
