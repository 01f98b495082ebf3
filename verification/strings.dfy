/** The JavaScript string operations the adapter relies on, over `seq<char>`:
    `indexOf`/`lastIndexOf` of one character, `split`/`join` on a one-character
    separator, the `\w` character class, ASCII case folding, and the decimal and
    hexadecimal renderings of `String(n)` and `n.toString(16)`. */
module Strings {

  /** `s.indexOf(c)`: the first position of `c`, or -1. */
  function IndexOf(s: string, c: char): (i: int)
    ensures -1 <= i < |s|
    ensures i == -1 <==> c !in s
    ensures 0 <= i ==> s[i] == c && c !in s[..i]
  {
    if |s| == 0 then -1
    else if s[0] == c then 0
    else
      var j := IndexOf(s[1..], c);
      if j == -1 then -1
      else
        assert s[..j+1] == [s[0]] + s[1..][..j];
        j + 1
  }

  /** The first occurrence of `c` is found right after a `c`-free prefix. */
  lemma {:induction false} IndexOfFirst(a: string, c: char, b: string)
    requires c !in a
    ensures IndexOf(a + [c] + b, c) == |a|
    decreases |a|
  {
    var s := a + [c] + b;
    if |a| == 0 {
      assert s[0] == c;
    } else {
      assert s[0] == a[0];
      assert s[1..] == a[1..] + [c] + b;
      IndexOfFirst(a[1..], c, b);
    }
  }

  /** `s.lastIndexOf(c)`: the last position of `c`, or -1. */
  function LastIndexOf(s: string, c: char): (i: int)
    ensures -1 <= i < |s|
    ensures i == -1 <==> c !in s
    ensures 0 <= i ==> s[i] == c && c !in s[i+1..]
  {
    if |s| == 0 then -1
    else if s[|s|-1] == c then |s| - 1
    else
      var j := LastIndexOf(s[..|s|-1], c);
      LastIndexOfSnoc(s[..|s|-1], s[|s|-1], c, j);
      assert s[..|s|-1] + [s[|s|-1]] == s;
      j
  }

  /** A last occurrence in `p` stays the last one once a different
      character is appended. */
  lemma LastIndexOfSnoc(p: string, d: char, c: char, j: int)
    requires d != c && -1 <= j < |p|
    requires j == -1 <==> c !in p
    requires 0 <= j ==> p[j] == c && c !in p[j+1..]
    ensures j == -1 <==> c !in p + [d]
    ensures 0 <= j ==> (p + [d])[j] == c && c !in (p + [d])[j+1..]
  {
    if 0 <= j {
      assert (p + [d])[j+1..] == p[j+1..] + [d];
    }
  }

  /** A character at `k` with no later occurrence is the last occurrence. */
  lemma LastIndexOfAt(s: string, c: char, k: int)
    requires 0 <= k < |s| && s[k] == c && c !in s[k + 1..]
    ensures LastIndexOf(s, c) == k
  {
    var i := LastIndexOf(s, c);
    forall j | k < j < |s| ensures s[j] != c {
      assert s[k + 1..][j - k - 1] == s[j];
    }
    forall j | i < j < |s| ensures s[j] != c {
      assert s[i + 1..][j - i - 1] == s[j];
    }
  }

  /** `parts.join(sep)`. */
  function Join(parts: seq<string>, sep: string): string
  {
    if |parts| == 0 then ""
    else if |parts| == 1 then parts[0]
    else parts[0] + sep + Join(parts[1..], sep)
  }

  /** A join of two or more pieces ends with the separator and the last piece. */
  lemma {:induction false} JoinLast(parts: seq<string>, sep: string)
    requires |parts| >= 2
    ensures Join(parts, sep) == Join(parts[..|parts| - 1], sep) + sep + parts[|parts| - 1]
    decreases |parts|
  {
    var init := parts[..|parts| - 1];
    if |parts| > 2 {
      JoinLast(parts[1..], sep);
      assert parts[1..][..|parts| - 2] == init[1..];
    } else {
      assert Join(init, sep) == parts[0];
    }
  }

  /** `s.split(d)` for a one-character separator: the maximal `d`-free pieces
      between separators, so an empty string splits into one empty piece. */
  function Split(s: string, d: char): (parts: seq<string>)
    ensures |parts| >= 1
    ensures forall k :: 0 <= k < |parts| ==> d !in parts[k]
    ensures Join(parts, [d]) == s
    decreases |s|
  {
    var i := IndexOf(s, d);
    if i == -1 then [s]
    else
      var rest := Split(s[i+1..], d);
      assert Join([s[..i]] + rest, [d]) == s[..i] + [d] + Join(rest, [d]) by {
        assert ([s[..i]] + rest)[1..] == rest;
      }
      assert s == s[..i] + [d] + s[i+1..];
      [s[..i]] + rest
  }

  /** Splitting undoes joining: the pieces of a `d`-joined list of `d`-free,
      non-empty-list pieces come back unchanged. */
  lemma {:induction false} SplitJoin(parts: seq<string>, d: char)
    requires |parts| >= 1
    requires forall k :: 0 <= k < |parts| ==> d !in parts[k]
    ensures Split(Join(parts, [d]), d) == parts
    decreases |parts|
  {
    if |parts| == 1 {
      assert Join(parts, [d]) == parts[0];
    } else {
      var s := Join(parts, [d]);
      var tail := Join(parts[1..], [d]);
      assert s == parts[0] + [d] + tail;
      assert s[|parts[0]|] == d;
      assert s[..|parts[0]|] == parts[0];
      assert IndexOf(s, d) == |parts[0]|;
      assert s[|parts[0]| + 1..] == tail;
      SplitJoin(parts[1..], d);
      assert [parts[0]] + parts[1..] == parts;
    }
  }

  /** The `\w` class of a regular expression without the `u` flag. */
  predicate IsWordChar(c: char)
  {
    ('a' <= c <= 'z') || ('A' <= c <= 'Z') || ('0' <= c <= '9') || c == '_'
  }

  /** ASCII case folding, as a case-insensitive regular expression applies it
      to ASCII letters. */
  function LowerAscii(c: char): (l: char)
    ensures 'A' <= c <= 'Z' ==> 'a' <= l <= 'z' && l as int == c as int + 32
    ensures !('A' <= c <= 'Z') ==> l == c
  {
    if 'A' <= c <= 'Z' then (c as int + 32) as char else c
  }

  function LowerAsciiString(s: string): (l: string)
    ensures |l| == |s|
    ensures forall k :: 0 <= k < |s| ==> l[k] == LowerAscii(s[k])
  {
    if |s| == 0 then "" else [LowerAscii(s[0])] + LowerAsciiString(s[1..])
  }

  // ---------------------------------------------------------------------
  // Digits in base 10 and base 16

  const DIGITS: string := "0123456789abcdef"

  /** The value of a digit character in any base up to 16 (either case for
      hexadecimal letters), or -1 for a non-digit. */
  function DigitValue(c: char): int
  {
    if '0' <= c <= '9' then c as int - '0' as int
    else if 'a' <= c <= 'f' then c as int - 'a' as int + 10
    else if 'A' <= c <= 'F' then c as int - 'A' as int + 10
    else -1
  }

  predicate IsBaseDigit(c: char, base: nat)
  {
    0 <= DigitValue(c) < base
  }

  predicate AllDigits(s: string, base: nat)
  {
    forall k :: 0 <= k < |s| ==> IsBaseDigit(s[k], base)
  }

  lemma DigitsRoundTrip(n: nat, base: nat)
    requires n < base <= 16
    ensures DigitValue(DIGITS[n]) == n
  {
  }

  /** `n.toString(base)` for a natural number: lowercase digits, no leading
      zero. */
  function ToBase(n: nat, base: nat): (r: string)
    requires 2 <= base <= 16
    ensures |r| >= 1 && AllDigits(r, base)
    ensures n > 0 ==> r[0] != '0'
    ensures |r| > 1 ==> r[0] != '0'
    decreases n
  {
    if n < base then
      DigitsRoundTrip(n, base);
      [DIGITS[n]]
    else
      var q, d := n / base, n % base;
      DivModBounds(n, base);
      var hi := ToBase(q, base);
      DigitsRoundTrip(d, base);
      AppendDigit(hi, DIGITS[d], base);
      hi + [DIGITS[d]]
  }

  /** `toString` writes lowercase digits. */
  lemma {:induction false} ToBaseLower(n: nat, base: nat)
    requires 2 <= base <= 16
    ensures forall k :: 0 <= k < |ToBase(n, base)| ==> ToBase(n, base)[k] in DIGITS
    decreases n
  {
    if n >= base {
      DivModBounds(n, base);
      ToBaseLower(n / base, base);
      var hi := ToBase(n / base, base);
      assert ToBase(n, base) == hi + [DIGITS[n % base]];
    }
  }

  lemma DivModBounds(n: nat, base: nat)
    requires 2 <= base <= n
    ensures 1 <= n / base < n && n % base < base
  {
    DivLess(n, base);
    DivMod(n, base);
  }

  /** A digit appended to a non-empty digit string keeps it a digit string with
      the same first digit. */
  lemma AppendDigit(s: string, d: char, base: nat)
    requires |s| >= 1 && AllDigits(s, base) && IsBaseDigit(d, base)
    ensures AllDigits(s + [d], base) && (s + [d])[0] == s[0]
  {
    forall k | 0 <= k < |s + [d]| ensures IsBaseDigit((s + [d])[k], base) {
      if k < |s| { assert (s + [d])[k] == s[k]; }
    }
  }

  /** The number a string of digits denotes. */
  function ParseBase(s: string, base: nat): nat
    requires AllDigits(s, base)
    decreases |s|
  {
    if |s| == 0 then 0
    else ParseBase(s[..|s|-1], base) * base + DigitValue(s[|s|-1])
  }

  lemma {:induction false} ParseToBase(n: nat, base: nat)
    requires 2 <= base <= 16
    ensures ParseBase(ToBase(n, base), base) == n
    decreases n
  {
    DigitsRoundTrip(n % base, base);
    if n < base {
      DigitsRoundTrip(n, base);
      assert ToBase(n, base)[..0] == "";
    } else {
      var q, r := n / base, n % base;
      var hi := ToBase(q, base);
      var s := hi + [DIGITS[r]];
      assert ToBase(n, base) == s;
      assert s[..|s|-1] == hi;
      assert s[|s|-1] == DIGITS[r];
      DivLess(n, base);
      ParseToBase(q, base);
      assert ParseBase(s, base) == ParseBase(hi, base) * base + DigitValue(DIGITS[r]);
      DivMod(n, base);
    }
  }

  /** A leading zero does not change the value of a digit string. */
  lemma {:induction false} ParseLeadingZero(s: string, base: nat)
    requires 2 <= base <= 16
    requires AllDigits(s, base)
    ensures AllDigits("0" + s, base)
    ensures ParseBase("0" + s, base) == ParseBase(s, base)
    decreases |s|
  {
    if |s| == 0 {
      assert ("0" + s)[..0] == "";
    } else {
      var t := "0" + s;
      assert t[..|t|-1] == "0" + s[..|s|-1];
      ParseLeadingZero(s[..|s|-1], base);
    }
  }

  /** `String(-m)` for a positive `m`: a minus sign followed by the decimal
      digits of `m`, the first of them not `0`. */
  lemma Negative(m: nat)
    requires m > 0
    ensures var r := "-" + ToBase(m, 10);
      && r[0] == '-' && |r| >= 2 && r[1] != '0'
      && AllDigits(r[1..], 10) && ParseBase(r[1..], 10) == m
  {
    var t := ToBase(m, 10);
    ParseToBase(m, 10);
    assert ("-" + t)[1..] == t;
  }

  /** `String(n)` for an integer. */
  function IntToString(n: int): (r: string)
    ensures |r| >= 1
    ensures n >= 0 ==> AllDigits(r, 10) && ParseBase(r, 10) == n
    ensures n < 0 ==> r[0] == '-' && AllDigits(r[1..], 10) && ParseBase(r[1..], 10) == -n
    ensures n >= 0 && |r| > 1 ==> r[0] != '0'
    ensures n < 0 ==> |r| >= 2 && r[1] != '0'
  {
    if n < 0 then
      Negative(-n);
      "-" + ToBase(-n, 10)
    else
      ParseToBase(n, 10);
      ToBase(n, 10)
  }

  function Pow(b: nat, k: nat): nat
  {
    if k == 0 then 1 else b * Pow(b, k - 1)
  }

  /** A number below `base^k` needs at most `k` digits. */
  lemma {:induction false} ToBaseLength(n: nat, base: nat, k: nat)
    requires 2 <= base <= 16
    requires 1 <= k && n < Pow(base, k)
    ensures |ToBase(n, base)| <= k
    decreases k
  {
    if n >= base {
      var p := Pow(base, k - 1);
      assert Pow(base, k) == base * p;
      assert k > 1;
      DivBelow(n, base, p);
      ToBaseLength(n / base, base, k - 1);
    }
  }

  /** A string of `k` digits denotes a number below `base^k`. */
  lemma {:induction false} ParseBaseBound(s: string, base: nat)
    requires 2 <= base <= 16 && AllDigits(s, base)
    ensures ParseBase(s, base) < Pow(base, |s|)
    decreases |s|
  {
    if |s| > 0 {
      var init := s[..|s|-1];
      assert AllDigits(init, base);
      ParseBaseBound(init, base);
      var p, q, d := ParseBase(init, base), Pow(base, |init|), DigitValue(s[|s|-1]);
      assert ParseBase(s, base) == p * base + d;
      MulLeq(p, q - 1, base);
      assert Pow(base, |s|) == base * q;
      MulPred(q, base);
    }
  }

  lemma MulPred(q: int, base: int)
    ensures (q - 1) * base == q * base - base
  {
  }

  lemma MulLeq(a: nat, b: nat, c: nat)
    requires a <= b
    ensures a * c <= b * c
  {
  }

  lemma DivMod(n: nat, base: nat)
    requires base > 0
    ensures (n / base) * base + n % base == n
  {
  }

  lemma DivLess(n: nat, base: nat)
    requires 2 <= base <= n
    ensures n / base < n
  {
    DivMod(n, base);
    MulMono(n / base, base);
  }

  lemma MulMono(q: nat, base: nat)
    requires base >= 2
    ensures q * base >= 2 * q
  {
  }

  lemma DivBelow(n: nat, base: nat, p: nat)
    requires base > 0 && n < base * p
    ensures n / base < p
  {
    DivMod(n, base);
  }
}
