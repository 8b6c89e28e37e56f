/**
 Numbers to text and back: uitoa, strrev and strtoul (src/lib/libc/uitoa.c,
 strrev.c, strtoul.c).  Characters are codes; a string ends at its first 0.
 unsigned and unsigned long have 32 bits.
 */
module Numerals {
  import opened Arith

  const WORD: nat := 0x1_0000_0000

  type Code = c: nat | c < 256

  function DigitChar(d: nat): Code
    requires d < 36
  {
    if d < 10 then 48 + d else 97 + (d - 10)
  }

  /** The numeral of value, most significant digit first. */
  function Numeral(value: nat, radix: nat): seq<Code>
    requires 2 <= radix <= 36
  {
    if value < radix then [DigitChar(value)]
    else QuotientSmaller(value, radix); Numeral(value / radix, radix) + [DigitChar(value % radix)]
  }

  lemma QuotientSmaller(value: nat, radix: nat)
    requires radix >= 2
    ensures value % radix < radix && value == (value / radix) * radix + value % radix
    ensures value < radix ==> value / radix == 0 && value % radix == value
    ensures value >= radix ==> 0 < value / radix < value
  {
    if value < radix { BelowBlock(value, radix); }
    DigitsShrink(value / radix, value % radix, radix, value);
  }

  lemma DigitsShrink(q: nat, r: nat, radix: nat, value: nat)
    requires radix >= 2 && r < radix && value == q * radix + r
    ensures value >= radix ==> 0 < q < value
  {
    if q > 0 { ProductBound(q, radix); }
  }

  lemma {:induction false} ProductBound(q: nat, radix: nat)
    requires radix >= 2
    ensures q * radix >= 2 * q
  {
    if q > 0 {
      ProductBound(q - 1, radix);
      assert q * radix == (q - 1) * radix + radix;
    }
  }

  /** Back to front. */
  function Reversed(s: seq<Code>): seq<Code> {
    seq(|s|, i requires 0 <= i < |s| => s[|s| - 1 - i])
  }

  // ----- strrev ----------------------------------------------------------

  method StrLen(text: array<Code>) returns (n: nat)
    requires 0 in text[..]
    ensures n < text.Length && text[n] == 0 && 0 !in text[..n]
  {
    n := 0;
    while text[n] != 0
      invariant n < text.Length && 0 !in text[..n] && 0 in text[n..]
      decreases text.Length - n
    {
      n := n + 1;
    }
  }

  /** Reverse a string in place. */
  method StrRev(text: array<Code>) returns (n: nat)
    requires 0 in text[..]
    modifies text
    ensures n < text.Length && old(text[n]) == 0 && 0 !in old(text[..n])
    ensures text[..n] == Reversed(old(text[..n])) && text[n..] == old(text[n..])
  {
    n := StrLen(text);
    ghost var was := text[..];
    var left, right := 0, n - 1;
    while left < right
      invariant 0 <= left <= n && right == n - 1 - left && left <= right + 2 && n < text.Length
      invariant forall k :: 0 <= k < left ==> text[k] == was[n - 1 - k] && text[n - 1 - k] == was[k]
      invariant forall k :: left <= k <= right ==> text[k] == was[k]
      invariant text[n..] == was[n..]
    {
      var swap := text[left];
      text[left] := text[right];
      text[right] := swap;
      left, right := left + 1, right - 1;
    }
    assert text[..n] == Reversed(was[..n]);
  }

  // ----- uitoa -----------------------------------------------------------

  /** What remains to be written, and the digits written so far, make up the numeral. */
  ghost predicate Writing(value: nat, radix: nat, rest: nat, digits: seq<Code>, done: bool)
    requires 2 <= radix <= 36
  {
    Numeral(value, radix) == (if done then [] else Numeral(rest, radix)) + Reversed(digits)
  }

  /** Taking the next digit off what remains. */
  lemma WriteDigit(value: nat, radix: nat, rest: nat, digits: seq<Code>, d: nat, q: nat)
    requires 2 <= radix <= 36 && Writing(value, radix, rest, digits, false)
    requires d == rest % radix && q == rest / radix
    ensures d < radix && Writing(value, radix, q, digits + [DigitChar(d)], q == 0) && (q > 0 ==> q < rest)
  {
    QuotientSmaller(rest, radix);
    ReversedAppend(digits, DigitChar(d));
  }

  lemma ReversedAppend(s: seq<Code>, c: Code)
    ensures Reversed(s + [c]) == [c] + Reversed(s)
  {
  }

  lemma {:induction false} NumeralNonzero(value: nat, radix: nat)
    requires 2 <= radix <= 36
    ensures |Numeral(value, radix)| > 0 && 0 !in Numeral(value, radix)
  {
    if value >= radix {
      QuotientSmaller(value, radix);
      NumeralNonzero(value / radix, radix);
    }
  }

  lemma WritingLength(value: nat, radix: nat, rest: nat, digits: seq<Code>, done: bool)
    requires 2 <= radix <= 36 && Writing(value, radix, rest, digits, done)
    ensures if done then |digits| == |Numeral(value, radix)| else |digits| < |Numeral(value, radix)|
  {
    assert |Reversed(digits)| == |digits|;
    NumeralNonzero(rest, radix);
  }

  /** The least significant digit of what remains, and what remains after it. */
  method NextDigit(ghost value: nat, radix: nat, rest: nat, ghost digits: seq<Code>) returns (c: Code, q: nat)
    requires 2 <= radix <= 36 && Writing(value, radix, rest, digits, false)
    ensures (q > 0 ==> q < rest) && Writing(value, radix, q, digits + [c], q == 0)
  {
    var d := rest % radix;
    q := rest / radix;
    WriteDigit(value, radix, rest, digits, d, q);
    c := DigitChar(d);
  }

  /** Generate the digits, least significant first. */
  method WriteDigits(value: nat, text: array<Code>, radix: nat) returns (n: nat)
    requires 2 <= radix <= 36 && |Numeral(value, radix)| < text.Length
    modifies text
    ensures n == |Numeral(value, radix)| && Reversed(text[..n]) == Numeral(value, radix)
    ensures text[n..] == old(text[n..])
  {
    var rest: nat, done := value, false;
    n := 0;
    WritingLength(value, radix, rest, text[..n], done);
    while !done
      invariant n < text.Length && Writing(value, radix, rest, text[..n], done)
      invariant if done then n == |Numeral(value, radix)| else n < |Numeral(value, radix)|
      invariant forall k :: n <= k < text.Length ==> text[k] == old(text[k])
      decreases !done, rest
    {
      ghost var digits := text[..n];
      text[n], rest := NextDigit(value, radix, rest, digits);
      assert text[..n + 1] == digits + [text[n]];
      n := n + 1;
      done := rest == 0;
      WritingLength(value, radix, rest, text[..n], done);
    }
  }

  /** Write the numeral of value, and a terminator, at the start of the buffer. */
  method Uitoa(value: nat, text: array<Code>, radix: nat)
    requires 2 <= radix <= 36 && value < WORD && |Numeral(value, radix)| < text.Length
    modifies text
    ensures var n := |Numeral(value, radix)|;
            text[..n] == Numeral(value, radix) && text[n] == 0 && text[n + 1..] == old(text[n + 1..])
  {
    NumeralNonzero(value, radix);
    var n := WriteDigits(value, text, radix);
    ghost var digits := text[..n];
    text[n] := 0;
    assert text[..n] == digits;
    ZeroFree(digits, Numeral(value, radix));
    assert text[n] in text[..];
    assert text[n + 1..] == old(text[n + 1..]);
    ghost var tail := text[n..];
    var m := StrRev(text);
    assert m == n;
    assert text[n + 1..] == tail[1..];
  }

  /** A reversed sequence has the same members. */
  lemma ZeroFree(s: seq<Code>, r: seq<Code>)
    requires Reversed(s) == r && 0 !in r
    ensures 0 !in s
  {
    forall k | 0 <= k < |s| ensures s[k] != 0 {
      assert r[|s| - 1 - k] == s[k] && r[|s| - 1 - k] in r;
    }
  }

  // ----- strtoul ---------------------------------------------------------

  predicate IsSpace(c: nat) {
    9 <= c <= 13 || c == 32
  }

  /** What a character counts as; 255 if it is neither a digit nor a letter. */
  function DigitValue(c: nat): nat {
    if 48 <= c <= 57 then c - 48
    else if 65 <= c <= 90 then c - 65 + 10
    else if 97 <= c <= 122 then c - 97 + 10
    else 255
  }

  /** The character at i, or the terminator. */
  function At(s: seq<Code>, i: nat): Code {
    if i < |s| then s[i] else 0
  }

  function SkipSpace(s: seq<Code>, i: nat): (j: nat)
    requires i <= |s|
    ensures i <= j <= |s|
    decreases |s| - i
  {
    if i < |s| && IsSpace(s[i]) then SkipSpace(s, i + 1) else i
  }

  /** Where the digits start and which base they are in. */
  function Start(s: seq<Code>, base: nat): (r: (nat, nat))
    ensures r.0 <= |s|
  {
    var i := SkipSpace(s, 0);
    if base != 0 && base != 16 then (i, base)
    else if At(s, i) == 48 then
      if At(s, i + 1) == 120 || At(s, i + 1) == 88 then (i + 2, 16) else (i + 1, if base == 0 then 8 else base)
    else (i, if base == 0 then 10 else base)
  }

  /** The number that digits denote. */
  function ValueOf(digits: seq<Code>, base: nat): nat {
    if digits == [] then 0 else ValueOf(digits[..|digits| - 1], base) * base + DigitValue(digits[|digits| - 1])
  }

  predicate AllDigits(digits: seq<Code>, base: nat) {
    forall k :: 0 <= k < |digits| ==> DigitValue(digits[k]) < base
  }

  /** value is that of the longest run of digits from where the number starts, modulo 2^32, and end is its end. */
  predicate StrtoulOf(s: seq<Code>, base: nat, value: nat, end: nat) {
    var (start, b) := Start(s, base);
    && start <= end <= |s|
    && AllDigits(s[start..end], b) && DigitValue(At(s, end)) >= b
    && value == ValueOf(s[start..end], b) % WORD
  }

  /** Skip white space and a prefix. */
  method FindStart(s: seq<Code>, base: nat) returns (i: nat, b: nat)
    ensures (i, b) == Start(s, base)
  {
    i, b := 0, base;
    while IsSpace(At(s, i))
      invariant i <= |s| && SkipSpace(s, i) == SkipSpace(s, 0)
      decreases |s| - i
    {
      i := i + 1;
    }
    if base == 0 || base == 16 {
      if At(s, i) == 48 {
        i := i + 1;
        if At(s, i) == 120 || At(s, i) == 88 {
          b, i := 16, i + 1;
        } else if base == 0 {
          b := 8;
        }
      } else if base == 0 {
        b := 10;
      }
    }
  }

  lemma ValueStep(s: seq<Code>, start: nat, i: nat, b: nat, value: nat)
    requires start <= i < |s| && value == ValueOf(s[start..i], b) % WORD && AllDigits(s[start..i], b) && DigitValue(s[i]) < b
    ensures (value * b + DigitValue(s[i])) % WORD == ValueOf(s[start..i + 1], b) % WORD
    ensures AllDigits(s[start..i + 1], b)
  {
    assert s[start..i + 1][..i - start] == s[start..i];
    assert s[start..i + 1][i - start] == s[i];
    var v := ValueOf(s[start..i], b);
    assert ValueOf(s[start..i + 1], b) == v * b + DigitValue(s[i]);
    ModStep(v, b, DigitValue(s[i]));
    var run := s[start..i + 1];
    forall k | 0 <= k < |run| ensures DigitValue(run[k]) < b {
      if k < i - start { assert run[k] == s[start..i][k]; }
    }
  }

  lemma ModStep(v: nat, b: nat, d: nat)
    ensures ((v % WORD) * b + d) % WORD == (v * b + d) % WORD
  {
    var q, r := v / WORD, v % WORD;
    assert v == WORD * q + r;
    assert v * b + d == WORD * (q * b) + (r * b + d);
    ModShift(r * b + d, q * b, WORD);
  }

  /** Convert a string to an unsigned number; end is where parsing stopped. */
  method Strtoul(s: seq<Code>, base: nat) returns (value: nat, end: nat)
    requires base == 0 || 2 <= base <= 36
    ensures StrtoulOf(s, base, value, end)
  {
    var b;
    end, b := FindStart(s, base);
    ghost var start := end;
    value := 0;
    while DigitValue(At(s, end)) < b
      invariant start <= end <= |s| && 2 <= b <= 36
      invariant AllDigits(s[start..end], b) && value == ValueOf(s[start..end], b) % WORD
      decreases |s| - end
    {
      ValueStep(s, start, end, b, value);
      value := (value * b + DigitValue(s[end])) % WORD;
      end := end + 1;
    }
  }

  // ----- Round trip ------------------------------------------------------

  lemma DigitRoundTrip(d: nat)
    requires d < 36
    ensures DigitValue(DigitChar(d)) == d && !IsSpace(DigitChar(d)) && (DigitChar(d) == 48 <==> d == 0)
  {
  }

  lemma {:induction false} NumeralMeans(value: nat, radix: nat)
    requires 2 <= radix <= 36
    ensures ValueOf(Numeral(value, radix), radix) == value && AllDigits(Numeral(value, radix), radix)
  {
    var n := Numeral(value, radix);
    QuotientSmaller(value, radix);
    var q, d := value / radix, value % radix;
    DigitRoundTrip(d);
    if value < radix {
      assert n[..0] == [];
    } else {
      NumeralMeans(q, radix);
      AppendDigit(Numeral(q, radix), d, radix, n);
    }
  }

  lemma AppendDigit(s: seq<Code>, d: nat, radix: nat, n: seq<Code>)
    requires 2 <= radix <= 36 && d < radix && n == s + [DigitChar(d)] && AllDigits(s, radix)
    ensures ValueOf(n, radix) == ValueOf(s, radix) * radix + d && AllDigits(n, radix)
  {
    DigitRoundTrip(d);
    assert n[..|n| - 1] == s;
  }

  /** Only zero starts with a zero, and then there is nothing after it for the prefix test to mistake. */
  lemma {:induction false} FirstDigit(value: nat, radix: nat)
    requires 2 <= radix <= 36
    ensures var n := Numeral(value, radix);
            |n| > 0 && !IsSpace(n[0]) && (n[0] == 48 <==> value == 0) && (value == 0 ==> |n| == 1)
  {
    if value < radix {
      DigitRoundTrip(value);
    } else {
      QuotientSmaller(value, radix);
      FirstDigit(value / radix, radix);
    }
  }

  lemma StopsAtEnd(s: seq<Code>, base: nat, end: nat)
    requires AllDigits(s, base) && end <= |s| && DigitValue(At(s, end)) >= base
    ensures end == |s|
  {
  }

  /** A numeral has no white space and no prefix to skip; the one thing skipped is the digit of zero itself. */
  lemma NumeralStart(value: nat, radix: nat)
    requires 2 <= radix <= 36
    ensures var (start, b) := Start(Numeral(value, radix), radix);
            b == radix && (start == 0 || (start == 1 && value == 0 && |Numeral(value, radix)| == 1))
  {
    FirstDigit(value, radix);
  }

  /** strtoul reads back what uitoa wrote, and stops at its terminator. */
  lemma RoundTrip(value: nat, radix: nat, result: nat, end: nat)
    requires 2 <= radix <= 36 && value < WORD
    requires StrtoulOf(Numeral(value, radix), radix, result, end)
    ensures result == value && end == |Numeral(value, radix)|
  {
    var n := Numeral(value, radix);
    NumeralMeans(value, radix);
    NumeralStart(value, radix);
    StopsAtEnd(n, radix, end);
    assert n[0..|n|] == n;
  }

  // ----- White space, prefixes, case and what follows ----------------------

  const DIGITS: string := "0123456789abcdefghijklmnopqrstuvwxyz"
  const UPPER_DIGITS: string := "0123456789ABCDEFGHIJKLMNOPQRSTUVWXYZ"

  /** uitoa writes lower-case letters; strtoul takes both cases, and nothing else is a digit. */
  lemma DigitTable(d: nat)
    requires d < 36
    ensures DigitChar(d) == DIGITS[d] as nat
    ensures forall c: Code :: DigitValue(c) == d <==> c == DIGITS[d] as nat || c == UPPER_DIGITS[d] as nat
  {
    LowerDigits(d);
    UpperDigits(d);
  }

  lemma LowerDigits(d: nat)
    requires d < 36
    ensures DIGITS[d] as nat == if d < 10 then 48 + d else 87 + d
  {
  }

  lemma UpperDigits(d: nat)
    requires d < 36
    ensures UPPER_DIGITS[d] as nat == if d < 10 then 48 + d else 55 + d
  {
  }

  /** n is the numeral of value, with any of its letters in upper case. */
  predicate Spells(n: seq<Code>, value: nat, radix: nat)
    requires 2 <= radix <= 36
  {
    var lower := Numeral(value, radix);
    && |n| == |lower|
    && forall k :: 0 <= k < |n| ==> n[k] == lower[k] || (97 <= lower[k] <= 122 && n[k] == lower[k] - 32)
  }

  predicate IsBlank(w: seq<Code>) {
    forall k :: 0 <= k < |w| ==> w[k] == 32 || 9 <= w[k] <= 13
  }

  /** No digit of the base follows. */
  predicate StopsHere(rest: seq<Code>, base: nat) {
    rest == [] || DigitValue(rest[0]) >= base
  }

  lemma SameValue(n: seq<Code>, m: seq<Code>, base: nat)
    requires |n| == |m| && forall k :: 0 <= k < |n| ==> DigitValue(n[k]) == DigitValue(m[k])
    ensures ValueOf(n, base) == ValueOf(m, base)
    decreases |n|
  {
    if n != [] { SameValue(n[..|n| - 1], m[..|m| - 1], base); }
  }

  lemma SpelledMeans(n: seq<Code>, value: nat, radix: nat)
    requires 2 <= radix <= 36 && Spells(n, value, radix)
    ensures ValueOf(n, radix) == value && AllDigits(n, radix)
    ensures |n| > 0 && !IsSpace(n[0]) && (n[0] == 48 <==> value == 0) && (value == 0 ==> |n| == 1)
  {
    NumeralMeans(value, radix);
    FirstDigit(value, radix);
    SameValue(n, Numeral(value, radix), radix);
  }

  lemma {:induction false} SkipBlank(s: seq<Code>, i: nat, n: nat)
    requires i <= n <= |s| && (forall k :: i <= k < n ==> IsSpace(s[k])) && (n < |s| ==> !IsSpace(s[n]))
    ensures SkipSpace(s, i) == n
    decreases n - i
  {
    if i < n { SkipBlank(s, i + 1, n); }
  }

  /** Once the digits are found to start after w and prefix, in this radix, they are read as such. */
  lemma ReadsDigits(before: seq<Code>, n: seq<Code>, rest: seq<Code>, v: nat, radix: nat, base: nat, value: nat, end: nat)
    requires 2 <= radix <= 36 && Spells(n, v, radix) && StopsHere(rest, radix)
    requires var s := before + n + rest; StrtoulOf(s, base, value, end) && Start(s, base) == (|before|, radix)
    ensures value == v % WORD && end == |before| + |n|
  {
    var s, start := before + n + rest, |before|;
    SpelledMeans(n, v, radix);
    assert forall k :: 0 <= k < |n| ==> s[start + k] == n[k];
    assert rest != [] ==> s[start + |n|] == rest[0];
    assert end == start + |n|;
    assert s[start..end] == n;
  }

  /** In a given radix, after any white space; the letter x after a lone 0 is a prefix in radix 16. */
  lemma ReadsRadix(w: seq<Code>, n: seq<Code>, rest: seq<Code>, v: nat, radix: nat, value: nat, end: nat)
    requires 2 <= radix <= 36 && IsBlank(w) && Spells(n, v, radix) && StopsHere(rest, radix)
    requires radix == 16 ==> v > 0
    requires StrtoulOf(w + n + rest, radix, value, end)
    ensures value == v % WORD && end == |w| + |n|
  {
    var s := w + n + rest;
    SpelledMeans(n, v, radix);
    assert s[|w|] == n[0];
    SkipBlank(s, 0, |w|);
    ReadsDigits(w, n, rest, v, radix, radix, value, end);
  }

  /** Base 0 takes a number without a prefix as decimal. */
  lemma ReadsDecimal(w: seq<Code>, n: seq<Code>, rest: seq<Code>, v: nat, value: nat, end: nat)
    requires IsBlank(w) && Spells(n, v, 10) && v > 0 && StopsHere(rest, 10)
    requires StrtoulOf(w + n + rest, 0, value, end)
    ensures value == v % WORD && end == |w| + |n|
  {
    var s := w + n + rest;
    SpelledMeans(n, v, 10);
    assert s[|w|] == n[0];
    SkipBlank(s, 0, |w|);
    ReadsDigits(w, n, rest, v, 10, 0, value, end);
  }

  /** Base 0 takes a number with a leading 0 as octal. */
  lemma ReadsOctal(w: seq<Code>, n: seq<Code>, rest: seq<Code>, v: nat, value: nat, end: nat)
    requires IsBlank(w) && Spells(n, v, 8) && StopsHere(rest, 8)
    requires StrtoulOf(w + [48] + n + rest, 0, value, end)
    ensures value == v % WORD && end == |w| + 1 + |n|
  {
    var s := w + [48] + n + rest;
    SpelledMeans(n, v, 8);
    assert s[|w|] == 48 && s[|w| + 1] == n[0] && DigitValue(n[0]) < 8;
    SkipBlank(s, 0, |w|);
    ReadsDigits(w + [48], n, rest, v, 8, 0, value, end);
  }

  /** Base 0 and base 16 take a number after 0x or 0X as hexadecimal. */
  lemma ReadsHexadecimal(w: seq<Code>, x: Code, n: seq<Code>, rest: seq<Code>, v: nat, base: nat, value: nat, end: nat)
    requires IsBlank(w) && (x == 120 || x == 88) && (base == 0 || base == 16) && Spells(n, v, 16) && StopsHere(rest, 16)
    requires StrtoulOf(w + [48, x] + n + rest, base, value, end)
    ensures value == v % WORD && end == |w| + 2 + |n|
  {
    var s := w + [48, x] + n + rest;
    assert s[|w|] == 48 && s[|w| + 1] == x;
    SkipBlank(s, 0, |w|);
    ReadsDigits(w + [48, x], n, rest, v, 16, base, value, end);
  }

  /** A lone 0 is zero in every base. */
  lemma ReadsZero(w: seq<Code>, rest: seq<Code>, base: nat, value: nat, end: nat)
    requires IsBlank(w) && (base == 0 || 2 <= base <= 36) && StopsHere(rest, if base == 0 then 8 else base)
    requires rest != [] ==> rest[0] != 120 && rest[0] != 88
    requires StrtoulOf(w + [48] + rest, base, value, end)
    ensures value == 0 && end == |w| + 1
  {
    var s := w + [48] + rest;
    assert s[|w|] == 48 && (rest != [] ==> s[|w| + 1] == rest[0]);
    SkipBlank(s, 0, |w|);
    if base == 0 || base == 16 {
      assert end == |w| + 1;
      assert s[|w| + 1..end] == [];
    } else {
      assert Numeral(0, base) == [48];
      ReadsDigits(w, [48], rest, 0, base, base, value, end);
    }
  }
}
