/** ustrtoul, and what it makes of the text that `number` produces. */
module NumberParse {
  import opened NumberText

  const ULONG_MAX := 0xFFFF_FFFF

  // Strings end with a NUL, which stands for everything from index |s| on.

  function At(s: seq<char>, i: nat): char {
    if i < |s| then s[i] else '\0'
  }

  predicate IsSpace(c: char) {
    c == ' ' || '\t' <= c <= '\r'
  }

  /** The value of a digit or letter; -1 for anything else. */
  function DigitValue(c: char): (d: int)
    ensures -1 <= d < 36
  {
    if '0' <= c <= '9' then c as int - '0' as int
    else if 'A' <= c <= 'Z' then c as int - 'A' as int + 10
    else if 'a' <= c <= 'z' then c as int - 'a' as int + 10
    else -1
  }

  predicate IsDigit(c: char, base: nat) {
    0 <= DigitValue(c) < base
  }

  /** The first index that is not white space. */
  function SkipSpaces(s: seq<char>, i: nat): (j: nat)
    requires i <= |s|
    ensures i <= j <= |s| && !IsSpace(At(s, j)) && forall k :: i <= k < j ==> IsSpace(At(s, k))
    decreases |s| - i
  {
    if IsSpace(At(s, i)) then SkipSpaces(s, i + 1) else i
  }

  /** How many digits follow. */
  function Run(s: seq<char>, i: nat, base: nat): (n: nat)
    requires i <= |s|
    ensures i + n <= |s| && !IsDigit(At(s, i + n), base) && forall k :: i <= k < i + n ==> IsDigit(s[k], base)
    decreases |s| - i
  {
    if IsDigit(At(s, i), base) then 1 + Run(s, i + 1, base) else 0
  }

  /** The number that a string of digits stands for. */
  function Value(ds: seq<char>, base: nat): (v: nat)
    decreases |ds|
  {
    if ds == [] then 0 else Times(Value(ds[..|ds| - 1], base), base) + Max(DigitValue(ds[|ds| - 1]), 0)
  }

  function Times(a: nat, b: nat): (p: nat)
    ensures p == a * b
  {
    a * b
  }

  /** Where the digits start, after white space, sign and prefix. */
  datatype Start = Start(neg: bool, at: nat, base: nat)

  predicate HasPrefix(s: seq<char>, i: nat, base: nat) {
    (base == 0 || base == 16) && At(s, i) == '0' && (At(s, i + 1) == 'x' || At(s, i + 1) == 'X')
  }

  function FindStart(s: seq<char>, base: nat): (st: Start)
    ensures st.at <= |s| && (base != 0 ==> st.base == base)
  {
    var i := SkipSpaces(s, 0);
    var neg := At(s, i) == '-';
    var j := if neg || At(s, i) == '+' then i + 1 else i;
    if HasPrefix(s, j, base) then Start(neg, j + 2, 16)
    else Start(neg, j, if base != 0 then base else if At(s, j) == '0' then 8 else 10)
  }

  /** What the conversion promises: the value of the digits, negated modulo 2^32 behind a minus sign,
      and the end of the digits; ULONG_MAX exactly if the value does not fit, with the end at the
      first digit that is too much; nothing if there is no digit. */
  ghost predicate Converted(s: seq<char>, base: nat, value: ULong, end: nat) {
    var st := FindStart(s, base);
    ConvertedAt(s, st.neg, st.at, st.base, Run(s, st.at, st.base), value, end)
  }

  /** The same for `n` digits at a given place. */
  ghost predicate ConvertedAt(s: seq<char>, neg: bool, at: nat, base: nat, n: nat, value: ULong, end: nat)
    requires at + n <= |s|
  {
    var v := Value(s[at..at + n], base);
    if n == 0 then value == 0 && end == 0
    else if v <= ULONG_MAX then
      value == Signed(neg, v) && end == at + n
    else
      && value == ULONG_MAX && at <= end < at + n
      && Value(s[at..end], base) <= ULONG_MAX < Value(s[at..end + 1], base)
  }

  function Signed(neg: bool, v: nat): ULong {
    Unsigned(if neg then 0 - v as int else v)
  }

  lemma ValueSnoc(s: seq<char>, i: nat, j: nat, base: nat)
    requires i <= j < |s| && DigitValue(s[j]) >= 0
    ensures Value(s[i..j + 1], base) == Value(s[i..j], base) * base + DigitValue(s[j])
  {
    var t := s[i..j + 1];
    assert t[..|t| - 1] == s[i..j];
  }

  /** More digits never make the value smaller. */
  lemma {:induction false} ValueGrows(s: seq<char>, i: nat, j: nat, k: nat, base: nat)
    requires i <= j <= k <= |s| && base >= 1
    requires forall m :: i <= m < k ==> DigitValue(s[m]) >= 0
    ensures Value(s[i..j], base) <= Value(s[i..k], base)
    decreases k - j
  {
    if j >= k {
    } else {
      ValueGrows(s, i, j, k - 1, base);
      ValueSnoc(s, i, k - 1, base);
      TimesGrows(Value(s[i..k - 1], base), base);
    }
  }

  lemma TimesGrows(a: nat, b: nat)
    requires b >= 1
    ensures a * b >= a
  {
  }

  /** The test against cutoff and cutlim decides exactly whether the next value overflows. */
  lemma CutoffIff(acc: nat, c: nat, base: nat)
    requires base >= 1 && c < base
    ensures var cutoff, cutlim := ULONG_MAX / base, ULONG_MAX % base;
      (acc > cutoff || (acc == cutoff && c > cutlim)) <==> acc * base + c > ULONG_MAX
  {
    var cutoff, cutlim := ULONG_MAX / base, ULONG_MAX % base;
    assert ULONG_MAX == cutoff * base + cutlim;
    if acc > cutoff {
      assert acc * base >= (cutoff + 1) * base == cutoff * base + base;
    } else if acc < cutoff {
      assert (acc + 1) * base <= cutoff * base;
      assert (acc + 1) * base == acc * base + base;
    }
  }

  /** ustrtoul */
  method Ustrtoul(nptr: seq<char>, base0: nat) returns (value: ULong, end: nat)
    requires base0 == 0 || 2 <= base0 <= 36
    ensures Converted(nptr, base0, value, end)
  {
    hide Value, FindStart, Run;
    var s, c, neg, base := Open(nptr, base0);
    ghost var at := s - 1;
    assert FindStart(nptr, base0) == Start(neg, at, base);
    var acc, any;
    acc, any, s := Accumulate(nptr, s, c, base);
    value := if neg && any > 0 then Signed(true, acc) else acc;
    end := if any != 0 then s - 1 else 0;
  }

  /** The loop over the digits: `any` is 0 if there was none, -1 on overflow. */
  method Accumulate(nptr: seq<char>, s0: nat, c0: char, base: nat) returns (acc: ULong, any: int, s: nat)
    requires 1 <= s0 <= |nptr| + 1 && c0 == At(nptr, s0 - 1) && 2 <= base <= 36
    ensures -1 <= any <= 1 && s >= s0 && var n := Run(nptr, s0 - 1, base);
      if n == 0 then any == 0 && acc == 0 && s == s0
      else if Value(nptr[s0 - 1..s0 - 1 + n], base) <= ULONG_MAX then
        any == 1 && acc == Value(nptr[s0 - 1..s0 - 1 + n], base) && s - 1 == s0 - 1 + n
      else
        && any == -1 && acc == ULONG_MAX && s - 1 < s0 - 1 + n
        && Value(nptr[s0 - 1..s - 1], base) <= ULONG_MAX < Value(nptr[s0 - 1..s], base)
  {
    hide Value;
    var cutoff, cutlim := ULONG_MAX / base, ULONG_MAX % base;
    ghost var at, n := s0 - 1, Run(nptr, s0 - 1, base);
    var c;
    acc, any, s, c := 0, 0, s0, c0;
    NoValue(nptr, at, base);
    while true
      invariant at <= s - 1 <= at + n && c == At(nptr, s - 1)
      invariant acc == Value(nptr[at..s - 1], base)
      invariant any == if s - 1 == at then 0 else 1
      decreases at + n + 1 - s
    {
      var d := DigitValue(c);
      if d < 0 || d >= base {
        break;
      }
      CutoffIff(acc, d, base);
      ValueSnoc(nptr, at, s - 1, base);
      if acc > cutoff || (acc == cutoff && d > cutlim) {
        ValueGrows(nptr, at, s, at + n, base);
        any := -1;
        acc := ULONG_MAX;
        return;
      }
      any := 1;
      acc := acc * base + d;
      c := At(nptr, s);
      s := s + 1;
    }
  }

  lemma NoValue(s: seq<char>, i: nat, base: nat)
    requires i <= |s|
    ensures Value(s[i..i], base) == 0
  {
  }

  /** White space, sign and prefix: `s` points behind the character `c`. */
  method Open(nptr: seq<char>, base0: nat) returns (s: nat, c: char, neg: bool, base: nat)
    requires base0 == 0 || 2 <= base0 <= 36
    ensures s >= 1 && Start(neg, s - 1, base) == FindStart(nptr, base0) && c == At(nptr, s - 1) && 2 <= base <= 36
  {
    s, c := 1, At(nptr, 0);
    while IsSpace(c)
      invariant 1 <= s <= |nptr| + 1 && c == At(nptr, s - 1)
      invariant SkipSpaces(nptr, 0) == SkipSpaces(nptr, s - 1)
      decreases |nptr| + 1 - s
    {
      c := At(nptr, s);
      s := s + 1;
    }
    if c == '-' {
      neg := true;
      c, s := At(nptr, s), s + 1;
    } else {
      neg := false;
      if c == '+' {
        c, s := At(nptr, s), s + 1;
      }
    }
    base := base0;
    if (base == 0 || base == 16) && c == '0' && (At(nptr, s) == 'x' || At(nptr, s) == 'X') {
      c := At(nptr, s + 1);
      s := s + 2;
      base := 16;
    }
    if base == 0 {
      base := if c == '0' then 8 else 10;
    }
  }

  // ---- where the digits are and in which base they count ----

  /** White space up to `i`, then a sign or none, then the number from `j` on. */
  predicate Opens(s: seq<char>, i: nat, neg: bool, j: nat) {
    && i <= j <= |s| && (forall k :: 0 <= k < i ==> IsSpace(s[k])) && !IsSpace(At(s, i))
    && neg == (At(s, i) == '-')
    && j == if At(s, i) == '-' || At(s, i) == '+' then i + 1 else i
  }

  /** Exactly `n` digits of the base stand at `j`. */
  predicate DigitsAt(s: seq<char>, j: nat, n: nat, base: nat) {
    && j + n <= |s| && (forall k :: j <= k < j + n ==> IsDigit(s[k], base)) && !IsDigit(At(s, j + n), base)
  }

  predicate IsX(c: char) {
    c == 'x' || c == 'X'
  }

  lemma SpacesUpTo(s: seq<char>, i: nat)
    requires i <= |s| && (forall k :: 0 <= k < i ==> IsSpace(s[k])) && !IsSpace(At(s, i))
    ensures SkipSpaces(s, 0) == i
  {
  }

  lemma RunIs(s: seq<char>, j: nat, n: nat, base: nat)
    requires DigitsAt(s, j, n, base)
    ensures Run(s, j, base) == n
  {
  }

  /** Base 0, decimal: a number that does not begin with 0. */
  lemma ReadsDecimal(s: seq<char>, i: nat, neg: bool, j: nat, n: nat, value: ULong, end: nat)
    requires Opens(s, i, neg, j) && DigitsAt(s, j, n, 10) && n > 0 && s[j] != '0'
    ensures Converted(s, 0, value, end) <==> ConvertedAt(s, neg, j, 10, n, value, end)
  {
    hide SkipSpaces, Run, ConvertedAt;
    SpacesUpTo(s, i);
    RunIs(s, j, n, 10);
  }

  /** Base 0, octal: the number begins with 0, and no x follows. */
  lemma ReadsOctal(s: seq<char>, i: nat, neg: bool, j: nat, n: nat, value: ULong, end: nat)
    requires Opens(s, i, neg, j) && DigitsAt(s, j, n, 8) && n > 0 && s[j] == '0' && !IsX(At(s, j + 1))
    ensures Converted(s, 0, value, end) <==> ConvertedAt(s, neg, j, 8, n, value, end)
  {
    hide SkipSpaces, Run, ConvertedAt;
    SpacesUpTo(s, i);
    RunIs(s, j, n, 8);
  }

  /** Base 0 or 16 behind the prefix 0x: hexadecimal. */
  lemma ReadsHex(s: seq<char>, i: nat, neg: bool, j: nat, n: nat, base: nat, value: ULong, end: nat)
    requires Opens(s, i, neg, j) && j + 2 <= |s| && s[j] == '0' && IsX(s[j + 1]) && DigitsAt(s, j + 2, n, 16)
    requires base == 0 || base == 16
    ensures Converted(s, base, value, end) <==> ConvertedAt(s, neg, j + 2, 16, n, value, end)
  {
    hide SkipSpaces, Run, ConvertedAt;
    SpacesUpTo(s, i);
    RunIs(s, j + 2, n, 16);
  }

  /** Without a prefix a number counts in the base that was asked for. */
  lemma ReadsInBase(s: seq<char>, i: nat, neg: bool, j: nat, n: nat, base: nat, value: ULong, end: nat)
    requires Opens(s, i, neg, j) && DigitsAt(s, j, n, base) && 2 <= base <= 36
    requires base == 16 ==> !(At(s, j) == '0' && IsX(At(s, j + 1)))
    ensures Converted(s, base, value, end) <==> ConvertedAt(s, neg, j, base, n, value, end)
  {
    hide SkipSpaces, Run, ConvertedAt;
    SpacesUpTo(s, i);
    RunIs(s, j, n, base);
  }
}
