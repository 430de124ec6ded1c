/** What `number` prints, `ustrtoul` reads back: for every value, base and combination of flags, field
    width and precision. */
module NumberRoundTrip {
  import opened NumberText
  import opened NumberParse

  ghost predicate AllBlank(s: seq<char>) {
    forall i :: 0 <= i < |s| ==> s[i] == ' '
  }

  ghost predicate AllDigits(s: seq<char>, base: nat) {
    forall i :: 0 <= i < |s| ==> IsDigit(s[i], base)
  }

  // ---- values ----

  lemma DigitBack(d: nat, large: bool)
    requires d < 36
    ensures DigitValue(DigitChar(d, large)) == d
  {
  }

  /** The digits of a number stand for that number. */
  lemma {:induction false} DigitsBack(v: nat, base: nat, large: bool)
    requires 2 <= base <= 36
    ensures AllDigits(Digits(v, base, large), base) && Value(Digits(v, base, large), base) == v
    decreases v
  {
    if v < base {
      DigitBack(v, large);
      hide Value;
      OneDigit(DigitChar(v, large), base);
    } else {
      DigitsBack(Higher(v, base), base, large);
      NextDigit(v, base, large);
    }
  }

  lemma NextDigit(v: nat, base: nat, large: bool)
    requires 2 <= base <= 36 && v >= base && AllDigits(Digits(Higher(v, base), base, large), base)
    requires Value(Digits(Higher(v, base), base, large), base) == Higher(v, base)
    ensures AllDigits(Digits(v, base, large), base) && Value(Digits(v, base, large), base) == v
  {
    var q, r := Higher(v, base), Lowest(v, base);
    var ds := Digits(q, base, large);
    assert Digits(v, base, large) == ds + [DigitChar(r, large)];
    hide Digits, Value, DigitChar;
    DigitBack(r, large);
    ValueAppend(ds, DigitChar(r, large), base);
    Quotient(v, base);
  }

  lemma ValueAppend(s: seq<char>, c: char, base: nat)
    requires DigitValue(c) >= 0
    ensures Value(s + [c], base) == Value(s, base) * base + DigitValue(c)
  {
    var t := s + [c];
    assert t[..|t| - 1] == s;
  }

  lemma OneDigit(c: char, base: nat)
    requires DigitValue(c) >= 0
    ensures Value([c], base) == DigitValue(c)
  {
    assert [] + [c] == [c];
    ValueAppend([], c, base);
  }

  /** Leading zeros do not count. */
  lemma {:induction false} LeadingZero(s: seq<char>, base: nat)
    requires AllDigits(s, base)
    ensures Value(['0'] + s, base) == Value(s, base)
    decreases |s|
  {
    if s == [] {
      assert ['0'] + s == ['0'];
      OneDigit('0', base);
    } else {
      var u, c := s[..|s| - 1], s[|s| - 1];
      LeadingZero(u, base);
      assert s == u + [c];
      assert ['0'] + s == (['0'] + u) + [c];
      ValueAppend(u, c, base);
      ValueAppend(['0'] + u, c, base);
    }
  }

  lemma {:induction false} LeadingZeros(k: int, s: seq<char>, base: nat)
    requires AllDigits(s, base) && base >= 2
    ensures Value(Repeat('0', k) + s, base) == Value(s, base) && AllDigits(Repeat('0', k) + s, base)
    decreases k
  {
    if k <= 0 {
      assert Repeat('0', k) + s == s;
    } else {
      LeadingZeros(k - 1, s, base);
      LeadingZero(Repeat('0', k - 1) + s, base);
      assert Repeat('0', k) + s == ['0'] + (Repeat('0', k - 1) + s);
    }
  }

  // ---- places ----

  /** A text of blanks, a sign, a prefix for base 16, digits and blanks. */
  ghost function Laid(lead: seq<char>, a: seq<char>, px: seq<char>, body: seq<char>, tail: seq<char>): seq<char> {
    lead + (a + (px + (body + tail)))
  }

  ghost predicate Regular(lead: seq<char>, a: seq<char>, px: seq<char>, body: seq<char>, tail: seq<char>, base: nat) {
    && 2 <= base <= 36 && AllBlank(lead) && AllBlank(tail) && (a == "" || a == "-" || a == "+" || a == " ")
    && (px == "" || (base == 16 && (px == "0x" || px == "0X")))
    && body != [] && AllDigits(body, base)
  }

  lemma BodyAt(lead: seq<char>, a: seq<char>, px: seq<char>, body: seq<char>, tail: seq<char>)
    ensures var s, at := Laid(lead, a, px, body, tail), |lead| + |a| + |px|;
      && |s| == at + |body| + |tail|
      && s[at..at + |body|] == body
      && (forall k :: 0 <= k < |body| ==> s[at + k] == body[k])
      && (forall k :: 0 <= k < |tail| ==> s[at + |body| + k] == tail[k])
  {
  }

  lemma FrontAt(lead: seq<char>, a: seq<char>, px: seq<char>, body: seq<char>, tail: seq<char>)
    ensures var s := Laid(lead, a, px, body, tail);
      && |lead| + |a| + |px| <= |s|
      && (forall k :: 0 <= k < |lead| ==> s[k] == lead[k])
      && (forall k :: 0 <= k < |a| ==> s[|lead| + k] == a[k])
      && (forall k :: 0 <= k < |px| ==> s[|lead| + |a| + k] == px[k])
  {
  }

  lemma SpacesEnd(s: seq<char>, p: nat)
    requires p <= |s| && !IsSpace(At(s, p)) && forall k :: 0 <= k < p ==> IsSpace(At(s, k))
    ensures SkipSpaces(s, 0) == p
  {
  }

  lemma RunEnds(s: seq<char>, i: nat, n: nat, base: nat)
    requires i + n <= |s| && !IsDigit(At(s, i + n), base) && forall k :: i <= k < i + n ==> IsDigit(s[k], base)
    ensures Run(s, i, base) == n
  {
  }

  /** The digits of a regular text are found where they are. */
  lemma FindsDigits(lead: seq<char>, a: seq<char>, px: seq<char>, body: seq<char>, tail: seq<char>, base: nat)
    requires Regular(lead, a, px, body, tail, base)
    ensures var s, at := Laid(lead, a, px, body, tail), |lead| + |a| + |px|;
      && body != [] && |s| == at + |body| + |tail| && FindStart(s, base) == Start(a == "-", at, base)
      && Run(s, at, base) == |body| && s[at..at + |body|] == body
  {
    hide Laid, Run, SkipSpaces, HasPrefix, IsDigit, AllDigits, AllBlank;
    var s, at := Laid(lead, a, px, body, tail), |lead| + |a| + |px|;
    BodyAt(lead, a, px, body, tail);
    NoPrefix(s, at, body, tail, base);
    StartsAt(lead, a, px, body, tail, base);
    BodyEnds(s, at, body, tail, base);
  }

  /** White space, sign and prefix are skipped. */
  lemma StartsAt(lead: seq<char>, a: seq<char>, px: seq<char>, body: seq<char>, tail: seq<char>, base: nat)
    requires Regular(lead, a, px, body, tail, base)
    requires !HasPrefix(Laid(lead, a, px, body, tail), |lead| + |a| + |px|, base)
    ensures FindStart(Laid(lead, a, px, body, tail), base) == Start(a == "-", |lead| + |a| + |px|, base)
  {
    var s, at := Laid(lead, a, px, body, tail), |lead| + |a| + |px|;
    BodyAt(lead, a, px, body, tail);
    FrontAt(lead, a, px, body, tail);
    hide Laid, SkipSpaces;
    var p := |lead| + if a == " " then 1 else 0;
    assert IsDigit(body[0], base) && s[at + 0] == body[0];
    if a != "" { assert s[|lead| + 0] == a[0]; }
    if px != "" { assert s[|lead| + |a| + 0] == px[0] && s[|lead| + |a| + 1] == px[1]; }
    assert forall k :: 0 <= k < p ==> At(s, k) == ' ';
    SpacesEnd(s, p);
  }

  lemma BodyEnds(s: seq<char>, at: nat, body: seq<char>, tail: seq<char>, base: nat)
    requires AllDigits(body, base) && AllBlank(tail) && |s| == at + |body| + |tail|
    requires forall k :: 0 <= k < |body| ==> s[at + k] == body[k]
    requires forall k :: 0 <= k < |tail| ==> s[at + |body| + k] == tail[k]
    ensures Run(s, at, base) == |body|
  {
    hide Run;
    if tail != "" { assert s[at + |body| + 0] == tail[0]; }
    forall k | at <= k < at + |body| ensures IsDigit(s[k], base) {
      assert s[at + (k - at)] == body[k - at];
    }
    RunEnds(s, at, |body|, base);
  }

  /** Digits of base 16 are not taken for a prefix. */
  lemma NoPrefix(s: seq<char>, at: nat, body: seq<char>, tail: seq<char>, base: nat)
    requires 2 <= base <= 36 && body != [] && AllDigits(body, base) && AllBlank(tail)
    requires |s| == at + |body| + |tail|
    requires forall k :: 0 <= k < |body| ==> s[at + k] == body[k]
    requires forall k :: 0 <= k < |tail| ==> s[at + |body| + k] == tail[k]
    ensures !HasPrefix(s, at, base)
  {
    if |body| > 1 {
      assert IsDigit(body[1], base);
    } else if |tail| > 0 {
      assert s[at + |body| + 0] == tail[0];
    }
  }

  // ---- the round trip ----

  /** The output without a limit, part by part. */
  lemma TextIsLaid(num: Long, base: nat, size: int, precision: int, f: Flags, n: nat)
    requires 2 <= base <= 36 && |Join(Parts(num, base, size, precision, f))| <= n
    ensures var p := Parts(num, base, size, precision, f);
      Text(num, base, size, precision, f, 0, n) ==
        Lead(num, base, size, precision, f) + (p[0] + (p[1] + (p[2] + (p[3] + (p[4] + p[5])))))
  {
    var p := Parts(num, base, size, precision, f);
    hide Parts, Lead;
    JoinSix(p);
    assert n == 0 ==> Join(p) == [];
  }

  lemma JoinSix(p: seq<seq<char>>)
    requires |p| == 6
    ensures Join(p) == p[0] + (p[1] + (p[2] + (p[3] + (p[4] + p[5]))))
  {
    hide Join;
    JoinNext(p, 0); JoinNext(p, 1); JoinNext(p, 2); JoinNext(p, 3); JoinNext(p, 4); JoinNext(p, 5);
    assert p[..6] == p && p[..0] == [];
    JoinNone();
    SixParts(p[0], p[1], p[2], p[3], p[4], p[5]);
  }

  lemma SixParts(a: seq<char>, b: seq<char>, c: seq<char>, d: seq<char>, e: seq<char>, g: seq<char>)
    ensures [] + a + b + c + d + e + g == a + (b + (c + (d + (e + g))))
  {
    var x := e + g;
    assert a + b + c + d + e + g == a + b + c + d + x;
    var y := d + x;
    assert a + b + c + d + x == a + b + c + y;
    var z := c + y;
    assert a + b + c + y == a + b + z;
    assert [] + a == a;
  }

  /** For every number, base, width, precision and set of flags: reading the text in the same base
      gives the number back (modulo 2^32, as unsigned), and stops right behind the digits. */
  lemma RoundTrip(num: Long, base: nat, size: int, precision: int, f: Flags, n: nat, value: ULong, end: nat)
    requires 2 <= base <= 36 && |Join(Parts(num, base, size, precision, f))| <= n
    requires Converted(Text(num, base, size, precision, f, 0, n), base, value, end)
    ensures value == Unsigned(num)
    ensures end == |Text(num, base, size, precision, f, 0, n)| - |Parts(num, base, size, precision, f)[5]|
  {
    hide Parts, Lead, Magnitude, Text, Join, Converted, Laid, Unsigned, Signed, Regular;
    var p := Parts(num, base, size, precision, f);
    var lead := Lead(num, base, size, precision, f);
    var px := if base == 16 then p[1] else "";
    var body := (if base == 16 then "" else p[1]) + (p[2] + (p[3] + p[4]));
    IsRegular(num, base, size, precision, f, px, body);
    TextIsLaid(num, base, size, precision, f, n);
    Regroup(lead, p[0], p[1], p[2], p[3], p[4], p[5], base == 16);
    LaidReads(lead, p[0], px, body, p[5], base, Magnitude(num, f), value, end);
    SignBack(num, f);
  }

  lemma IsRegular(num: Long, base: nat, size: int, precision: int, f: Flags, px: seq<char>, body: seq<char>)
    requires 2 <= base <= 36
    requires var p := Parts(num, base, size, precision, f);
      px == (if base == 16 then p[1] else "") && body == (if base == 16 then "" else p[1]) + (p[2] + (p[3] + p[4]))
    ensures var p := Parts(num, base, size, precision, f);
      && Regular(Lead(num, base, size, precision, f), p[0], px, body, p[5], base)
      && Value(body, base) == Magnitude(num, f)
      && (p[0] == "-" <==> f.sign && num < 0)
  {
    hide Parts, Lead, Magnitude, Value;
    BodyValue(num, base, size, precision, f);
    PartsRegular(num, base, size, precision, f);
  }

  /** Reading a regular text gives the value of its digits. */
  lemma LaidReads(lead: seq<char>, a: seq<char>, px: seq<char>, body: seq<char>, tail: seq<char>, base: nat,
      m: ULong, value: ULong, end: nat)
    requires Regular(lead, a, px, body, tail, base) && Value(body, base) == m
    requires Converted(Laid(lead, a, px, body, tail), base, value, end)
    ensures value == Signed(a == "-", m) && end == |Laid(lead, a, px, body, tail)| - |tail|
  {
    hide Laid, FindStart, Run, Value, Regular, ConvertedAt, Signed;
    var s, at := Laid(lead, a, px, body, tail), |lead| + |a| + |px|;
    FindsDigits(lead, a, px, body, tail, base);
    assert ConvertedAt(s, a == "-", at, base, |body|, value, end);
    ReadsAt(s, a == "-", at, base, body, m, value, end);
  }

  lemma ReadsAt(s: seq<char>, neg: bool, at: nat, base: nat, body: seq<char>, m: ULong, value: ULong, end: nat)
    requires at + |body| <= |s| && body != [] && s[at..at + |body|] == body && Value(body, base) == m
    requires ConvertedAt(s, neg, at, base, |body|, value, end)
    ensures value == Signed(neg, m) && end == at + |body|
  {
    hide Value, Signed;
  }

  lemma Regroup(lead: seq<char>, a: seq<char>, b: seq<char>, c: seq<char>, d: seq<char>, e: seq<char>, g: seq<char>,
      sixteen: bool)
    ensures lead + (a + (b + (c + (d + (e + g))))) ==
      Laid(lead, a, if sixteen then b else "", (if sixteen then "" else b) + (c + (d + e)), g)
  {
    var x := c + (d + e);
    assert c + (d + (e + g)) == x + g;
    assert "" + x == x && "" + (b + x + g) == b + x + g;
    assert b + (x + g) == b + x + g;
  }

  lemma BodyValue(num: Long, base: nat, size: int, precision: int, f: Flags)
    requires 2 <= base <= 36
    ensures var p := Parts(num, base, size, precision, f);
      var body := (if base == 16 then "" else p[1]) + (p[2] + (p[3] + p[4]));
      && body != [] && AllDigits(body, base) && Value(body, base) == Magnitude(num, f)
  {
    var p, m := Parts(num, base, size, precision, f), Magnitude(num, f);
    var k1, k2, k3 := ZeroParts(num, base, size, precision, f);
    DigitsBack(m, base, f.large);
    var e := p[4];
    hide Parts, Digits, Value, Repeat, Magnitude;
    LeadingZeros(k3, e, base);
    LeadingZeros(k2, p[3] + e, base);
    LeadingZeros(k1, p[2] + (p[3] + e), base);
  }

  /** The parts in front of the digits that consist of zeros. */
  lemma ZeroParts(num: Long, base: nat, size: int, precision: int, f: Flags) returns (k1: int, k2: int, k3: int)
    requires 2 <= base <= 36
    ensures var p := Parts(num, base, size, precision, f);
      && p[4] == Digits(Magnitude(num, f), base, f.large)
      && (if base == 16 then "" else p[1]) == Repeat('0', k1) && p[2] == Repeat('0', k2) && p[3] == Repeat('0', k3)
  {
    hide Digits, Padding;
    k1 := if base == 8 && f.special then 1 else 0;
    k2 := if f.zeropad && !f.left then Padding(num, base, size, precision, f) else 0;
    k3 := precision - |Digits(Magnitude(num, f), base, f.large)|;
    assert Repeat('0', 1) == "0" && Repeat('0', 0) == "";
  }

  lemma PartsRegular(num: Long, base: nat, size: int, precision: int, f: Flags)
    requires 2 <= base <= 36
    ensures var p := Parts(num, base, size, precision, f);
      && AllBlank(Lead(num, base, size, precision, f)) && AllBlank(p[5])
      && (p[0] == "" || p[0] == "-" || p[0] == "+" || p[0] == " ")
      && (p[0] == "-" <==> f.sign && num < 0)
      && (base == 16 ==> p[1] == "" || p[1] == "0x" || p[1] == "0X")
  {
    hide Digits;
  }

  /** The sign undoes the change to the magnitude. */
  lemma SignBack(num: Long, f: Flags)
    ensures Signed(f.sign && num < 0, Magnitude(num, f)) == Unsigned(num)
  {
  }

  // ---- the base can be told from the text ----

  /** The first digit of a number is 0 only for 0 itself. */
  lemma {:induction false} FirstDigit(v: nat, base: nat, large: bool)
    requires 2 <= base <= 36
    ensures if v == 0 then Digits(v, base, large) == "0" else Digits(v, base, large)[0] != '0'
    decreases v
  {
    hide Higher, Lowest;
    if v < base {
    } else {
      FirstDigit(Higher(v, base), base, large);
    }
  }

  /** Octal and hexadecimal with their prefixes, and decimal without leading zeros. */
  predicate Tells(num: Long, base: nat, size: int, precision: int, f: Flags)
    requires 2 <= base <= 36
  {
    || ((base == 8 || base == 16) && f.special)
    || (base == 10 && !(f.zeropad && !f.left && Padding(num, base, size, precision, f) > 0)
        && precision <= |Digits(Magnitude(num, f), base, f.large)|)
  }

  predicate BodyTells(px: seq<char>, body: seq<char>, base: nat) {
    || (base == 16 && px != "")
    || (base == 8 && px == "" && |body| >= 2 && body[0] == '0')
    || (base == 10 && px == "" && body != [] && (body[0] != '0' || body == "0"))
  }

  lemma PartsTell(num: Long, base: nat, size: int, precision: int, f: Flags, px: seq<char>, body: seq<char>)
    requires 2 <= base <= 36 && Tells(num, base, size, precision, f)
    requires var p := Parts(num, base, size, precision, f);
      px == (if base == 16 then p[1] else "") && body == (if base == 16 then "" else p[1]) + (p[2] + (p[3] + p[4]))
    ensures BodyTells(px, body, base)
  {
    hide Digits, Padding, Magnitude;
    FirstDigit(Magnitude(num, f), base, f.large);
  }

  /** Asked for base 0, the conversion finds the same digits; a lone 0 counts as octal. */
  lemma AutoStart(lead: seq<char>, a: seq<char>, px: seq<char>, body: seq<char>, tail: seq<char>, base: nat)
    requires Regular(lead, a, px, body, tail, base) && BodyTells(px, body, base)
    ensures FindStart(Laid(lead, a, px, body, tail), 0) ==
      Start(a == "-", |lead| + |a| + |px|, if base == 10 && body == "0" then 8 else base)
  {
    var s, at := Laid(lead, a, px, body, tail), |lead| + |a| + |px|;
    BodyAt(lead, a, px, body, tail);
    FrontAt(lead, a, px, body, tail);
    hide Laid, SkipSpaces;
    var p := |lead| + if a == " " then 1 else 0;
    assert IsDigit(body[0], base) && s[at + 0] == body[0];
    if a != "" { assert s[|lead| + 0] == a[0]; }
    if px != "" { assert s[|lead| + |a| + 0] == px[0] && s[|lead| + |a| + 1] == px[1]; }
    assert forall k :: 0 <= k < p ==> At(s, k) == ' ';
    SpacesEnd(s, p);
    if px == "" { NoPrefixAtAll(s, at, body, tail, base); }
  }

  lemma NoPrefixAtAll(s: seq<char>, at: nat, body: seq<char>, tail: seq<char>, base: nat)
    requires 2 <= base <= 10 && body != [] && AllDigits(body, base) && AllBlank(tail)
    requires |s| == at + |body| + |tail|
    requires forall k :: 0 <= k < |body| ==> s[at + k] == body[k]
    requires forall k :: 0 <= k < |tail| ==> s[at + |body| + k] == tail[k]
    ensures !HasPrefix(s, at, 0)
  {
    if |body| > 1 {
      assert IsDigit(body[1], base) && s[at + 1] == body[1];
    } else if |tail| > 0 {
      assert s[at + |body| + 0] == tail[0];
    }
  }

  lemma LoneZero(s: seq<char>, at: nat, tail: seq<char>, neg: bool, value: ULong, end: nat)
    requires |s| == at + 1 + |tail| && s[at] == '0' && AllBlank(tail)
    requires forall k :: 0 <= k < |tail| ==> s[at + 1 + k] == tail[k]
    requires ConvertedAt(s, neg, at, 8, Run(s, at, 8), value, end)
    ensures Run(s, at, 8) == 1 == Run(s, at, 10) && ConvertedAt(s, neg, at, 10, 1, value, end)
  {
    if tail != "" { assert s[at + 1 + 0] == tail[0]; }
    RunEnds(s, at, 1, 8);
    RunEnds(s, at, 1, 10);
    assert s[at..at + 1] == ['0'];
    OneDigit('0', 8);
    OneDigit('0', 10);
  }

  lemma AutoReads(lead: seq<char>, a: seq<char>, px: seq<char>, body: seq<char>, tail: seq<char>, base: nat,
      value: ULong, end: nat)
    requires Regular(lead, a, px, body, tail, base) && BodyTells(px, body, base)
    requires Converted(Laid(lead, a, px, body, tail), 0, value, end)
    ensures Converted(Laid(lead, a, px, body, tail), base, value, end)
  {
    hide Laid, FindStart, Run, Value, ConvertedAt, Regular, BodyTells;
    AutoStart(lead, a, px, body, tail, base);
    FindsDigits(lead, a, px, body, tail, base);
    if base == 10 && body == "0" { LoneBody(lead, a, px, body, tail, base, value, end); }
  }

  lemma LoneBody(lead: seq<char>, a: seq<char>, px: seq<char>, body: seq<char>, tail: seq<char>, base: nat,
      value: ULong, end: nat)
    requires Regular(lead, a, px, body, tail, base) && base == 10 && body == "0"
    requires var s, at := Laid(lead, a, px, body, tail), |lead| + |a| + |px|;
      at <= |s| && ConvertedAt(s, a == "-", at, 8, Run(s, at, 8), value, end)
    ensures var s, at := Laid(lead, a, px, body, tail), |lead| + |a| + |px|;
      at <= |s| && ConvertedAt(s, a == "-", at, 10, Run(s, at, 10), value, end)
  {
    BodyAt(lead, a, px, body, tail);
    hide Laid, Run, ConvertedAt, Value;
    var s, at := Laid(lead, a, px, body, tail), |lead| + |a| + |px|;
    assert s[at + 0] == body[0];
    LoneZero(s, at, tail, a == "-", value, end);
  }

  /** What `number` prints with a prefix, or in decimal without leading zeros, can be read back without
      naming the base. */
  lemma RoundTripWithoutBase(num: Long, base: nat, size: int, precision: int, f: Flags, n: nat, value: ULong, end: nat)
    requires 2 <= base <= 36 && |Join(Parts(num, base, size, precision, f))| <= n
    requires Tells(num, base, size, precision, f)
    requires Converted(Text(num, base, size, precision, f, 0, n), 0, value, end)
    ensures value == Unsigned(num)
    ensures end == |Text(num, base, size, precision, f, 0, n)| - |Parts(num, base, size, precision, f)[5]|
  {
    hide Parts, Lead, Magnitude, Text, Join, Converted, Laid, Unsigned, Regular, Tells, BodyTells;
    var p := Parts(num, base, size, precision, f);
    var lead := Lead(num, base, size, precision, f);
    var px := if base == 16 then p[1] else "";
    var body := (if base == 16 then "" else p[1]) + (p[2] + (p[3] + p[4]));
    IsRegular(num, base, size, precision, f, px, body);
    PartsTell(num, base, size, precision, f, px, body);
    TextIsLaid(num, base, size, precision, f, n);
    Regroup(lead, p[0], p[1], p[2], p[3], p[4], p[5], base == 16);
    AutoReads(lead, p[0], px, body, p[5], base, value, end);
    RoundTrip(num, base, size, precision, f, n, value, end);
  }

  // ---- the layout of the text ----

  /** What the number takes without padding: sign, prefix, and digits up to the precision. */
  function Natural(num: Long, base: nat, precision: int, f: Flags): nat
    requires 2 <= base <= 36
  {
    |SignText(num, f)| + |Prefix(base, f)| + Max(|Digits(Magnitude(num, f), base, f.large)|, precision)
  }

  ghost predicate AllZero(s: seq<char>) {
    forall i :: 0 <= i < |s| ==> s[i] == '0'
  }

  /** The parts, one behind the other. */
  lemma TextParts(num: Long, base: nat, size: int, precision: int, f: Flags, n: nat)
    requires 2 <= base <= 36 && |Join(Parts(num, base, size, precision, f))| <= n
    ensures var p, lead := Parts(num, base, size, precision, f), Lead(num, base, size, precision, f);
      var text, front := Text(num, base, size, precision, f, 0, n), |lead|;
      && |text| == front + |p[0]| + |p[1]| + |p[2]| + |p[3]| + |p[4]| + |p[5]|
      && text[..front] == lead && text[front..front + |p[0]|] == p[0]
      && text[front + |p[0]|..front + |p[0]| + |p[1]|] == p[1]
      && text[front + |p[0]| + |p[1]|..front + |p[0]| + |p[1]| + |p[2]|] == p[2]
      && text[|text| - |p[5]|..] == p[5]
      && text[|text| - |p[5]| - |p[4]|..|text| - |p[5]|] == p[4]
  {
    hide Parts, Lead, Text, Join;
    TextIsLaid(num, base, size, precision, f, n);
    var p, lead := Parts(num, base, size, precision, f), Lead(num, base, size, precision, f);
    SevenParts(lead, p[0], p[1], p[2], p[3], p[4], p[5]);
  }

  lemma SevenParts(a: seq<char>, b: seq<char>, c: seq<char>, d: seq<char>, e: seq<char>, g: seq<char>, h: seq<char>)
    ensures var t := a + (b + (c + (d + (e + (g + h)))));
      && |t| == |a| + |b| + |c| + |d| + |e| + |g| + |h|
      && t[..|a|] == a && t[|a|..|a| + |b|] == b && t[|a| + |b|..|a| + |b| + |c|] == c
      && t[|a| + |b| + |c|..|a| + |b| + |c| + |d|] == d
      && t[|t| - |h|..] == h && t[|t| - |h| - |g|..|t| - |h|] == g
  {
    var x := g + h;
    var y := d + (e + x);
    var t := a + (b + (c + y));
    assert t[|a|..] == b + (c + y) && t[|a| + |b|..] == c + y && t[|a| + |b| + |c|..] == y;
    assert y[|d| + |e|..] == x;
    assert t[|t| - |x|..] == x;
  }

  /** Without a limit the text is as wide as the field, or wider if the number needs it.  Behind the
      number there are blanks if the flags put it left; in front of it, if they ask for nothing else. */
  lemma TextWidth(num: Long, base: nat, size: int, precision: int, f: Flags, n: nat)
    requires 2 <= base <= 36 && |Join(Parts(num, base, size, precision, f))| <= n
    ensures var text, natural := Text(num, base, size, precision, f, 0, n), Natural(num, base, precision, f);
      var d := Digits(Magnitude(num, f), base, f.large);
      && |text| == Max(size, natural)
      && (if f.left then AllBlank(text[natural..]) && |d| <= natural && text[natural - |d|..natural] == d
          else text[|text| - |d|..] == d)
      && (!f.left && !f.zeropad ==> AllBlank(text[..|text| - natural]))
  {
    hide Digits, Join, Text, Magnitude, SignText, Prefix;
    TextParts(num, base, size, precision, f, n);
  }

  /** The sign is the one asked for and comes first, behind the blanks; padding with zeros comes behind
      sign and prefix. */
  lemma TextFront(num: Long, base: nat, size: int, precision: int, f: Flags, n: nat)
    requires 2 <= base <= 36 && |Join(Parts(num, base, size, precision, f))| <= n
    ensures var text, natural := Text(num, base, size, precision, f, 0, n), Natural(num, base, precision, f);
      var blanks := if f.left || f.zeropad then 0 else Max(size - natural, 0);
      var sign := if !f.sign then ""
        else if num < 0 then "-" else if f.plus then "+" else if f.space then " " else "";
      var z := |sign| + |Prefix(base, f)|;
      && blanks + z <= |text| && text[blanks..blanks + |sign|] == sign
      && text[blanks + |sign|..blanks + z] == Prefix(base, f)
      && (!f.left && f.zeropad && size > natural ==>
           z + size - natural <= |text| && AllZero(text[z..z + size - natural]))
  {
    hide Digits, Join, Text, Magnitude, Prefix;
    TextParts(num, base, size, precision, f, n);
  }

  /** Letters are all capital or all small, as the flag says. */
  lemma {:induction false} DigitsCase(v: nat, base: nat, large: bool)
    requires 2 <= base <= 36
    ensures forall c :: c in Digits(v, base, large) ==>
      '0' <= c <= '9' || (if large then 'A' <= c <= 'Z' else 'a' <= c <= 'z')
    decreases v
  {
    hide Higher, Lowest;
    if v < base {
    } else {
      DigitsCase(Higher(v, base), base, large);
    }
  }
}
