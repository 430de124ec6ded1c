/** The conversion of integers to text that printf uses: function `number`. */
module NumberText {

  const WIDTH_LIMIT := 0x1_0000_0000

  type ULong = u: int | 0 <= u < WIDTH_LIMIT witness 0
  type Long = l: int | -0x8000_0000 <= l < 0x8000_0000 witness 0

  datatype Flags = Flags(zeropad: bool, sign: bool, plus: bool, space: bool, left: bool, special: bool, large: bool)

  /** The value of a number in an unsigned register. */
  function Unsigned(x: int): ULong {
    x % WIDTH_LIMIT
  }

  function DigitChar(d: nat, large: bool): char
    requires d < 36
  {
    if d < 10 then '0' + d as char
    else if large then 'A' + (d - 10) as char
    else 'a' + (d - 10) as char
  }

  /** A number without its last digit. */
  function Higher(v: nat, base: nat): (q: nat)
    requires base >= 2
    ensures v >= base <==> q > 0
    ensures v > 0 ==> q < v
  {
    Quotient(v, base);
    v / base
  }

  /** The last digit. */
  function Lowest(v: nat, base: nat): (r: nat)
    requires base >= 2
    ensures r < base
    ensures v < base ==> r == v
  {
    Quotient(v, base);
    v % base
  }

  lemma Quotient(v: nat, base: nat)
    requires base >= 2
    ensures v == v / base * base + v % base && 0 <= v % base < base
    ensures v >= base ==> v / base > 0
    ensures v < base ==> v / base == 0 && v % base == v
    ensures v > 0 ==> v / base < v
  {
    var q := v / base;
    assert v == q * base + v % base;
    if v > 0 { Shrinks(q, base, v % base); }
  }

  lemma Shrinks(q: nat, base: nat, r: nat)
    requires base >= 2 && q * base + r > 0
    ensures q < q * base + r
  {
    assert q * base >= q * 2;
  }

  /** The digits of a number, the most significant one first. */
  function Digits(v: nat, base: nat, large: bool): (s: seq<char>)
    requires 2 <= base <= 36
    ensures s != []
    decreases v
  {
    if v < base then [DigitChar(v, large)]
    else Digits(Higher(v, base), base, large) + [DigitChar(Lowest(v, base), large)]
  }

  function Repeat(c: char, k: int): (s: seq<char>)
    ensures |s| == (if k <= 0 then 0 else k) && forall i :: 0 <= i < |s| ==> s[i] == c
  {
    if k <= 0 then [] else seq(k, _ => c)
  }

  function SignText(num: Long, f: Flags): seq<char> {
    if !f.sign then ""
    else if num < 0 then "-"
    else if f.plus then "+"
    else if f.space then " "
    else ""
  }

  function Magnitude(num: Long, f: Flags): ULong {
    if f.sign && num < 0 then Unsigned(0 - num as int) else Unsigned(num)
  }

  function Prefix(base: int, f: Flags): seq<char> {
    if f.special && base == 16 then ['0', if f.large then 'X' else 'x']
    else if f.special && base == 8 then "0"
    else ""
  }

  function Max(a: int, b: int): int {
    if a < b then b else a
  }

  /** How many characters of padding the field width asks for. */
  function Padding(num: Long, base: nat, size: int, precision: int, f: Flags): int
    requires 2 <= base <= 36
  {
    size - |SignText(num, f)| - |Prefix(base, f)| - Max(|Digits(Magnitude(num, f), base, f.large)|, precision)
  }

  /** The padding in front, which is not subject to the size limit. */
  function Lead(num: Long, base: nat, size: int, precision: int, f: Flags): seq<char>
    requires 2 <= base <= 36
  {
    if f.zeropad || f.left then "" else Repeat(' ', Padding(num, base, size, precision, f))
  }

  /** The parts behind the leading padding: sign, prefix, padding with zeros, zeros up to the
      precision, digits, padding with blanks. */
  function Parts(num: Long, base: nat, size: int, precision: int, f: Flags): (p: seq<seq<char>>)
    requires 2 <= base <= 36
    ensures |p| == 6
  {
    var pad := Padding(num, base, size, precision, f);
    var d := Digits(Magnitude(num, f), base, f.large);
    [SignText(num, f), Prefix(base, f), if f.zeropad && !f.left then Repeat('0', pad) else "",
     Repeat('0', precision - |d|), d, if f.left then Repeat(' ', pad) else ""]
  }

  function Join(parts: seq<seq<char>>): seq<char> {
    if parts == [] then [] else Join(parts[..|parts| - 1]) + parts[|parts| - 1]
  }

  lemma JoinNext(parts: seq<seq<char>>, k: nat)
    requires k < |parts|
    ensures Join(parts[..k + 1]) == Join(parts[..k]) + parts[k] <= Join(parts)
  {
    assert parts[..k + 1][..k] == parts[..k];
    JoinPrefix(parts, k + 1);
  }

  lemma {:induction false} JoinPrefix(parts: seq<seq<char>>, k: nat)
    requires k <= |parts|
    ensures Join(parts[..k]) <= Join(parts)
    decreases |parts|
  {
    if k == |parts| {
      assert parts[..k] == parts;
    } else {
      assert parts[..|parts| - 1][..k] == parts[..k];
      JoinPrefix(parts[..|parts| - 1], k);
    }
  }

  /** What is left of a text of which `o` characters too many may already be out, for a limit of `n`. */
  function Fit(s: seq<char>, o: nat, n: nat): (t: seq<char>)
    ensures |t| <= |s|
  {
    if o >= n then [] else if n - o >= |s| then s else s[..n - o]
  }

  /** It is cut off where the counter reaches the limit. */
  lemma FitIs(s: seq<char>, o: nat, n: nat)
    ensures Fit(s, o, n) <= s
    ensures Fit(s, o, n) == s || |Fit(s, o, n)| == Max(n - o, 0)
    ensures |Fit(s, o, n)| <= Max(n - o, 0)
  {
  }

  /** The whole output. */
  function Text(num: Long, base: nat, size: int, precision: int, f: Flags, o: nat, n: nat): seq<char>
    requires 2 <= base <= 36
  {
    Lead(num, base, size, precision, f) + Fit(Join(Parts(num, base, size, precision, f)), o, n)
  }

  lemma FitSnoc(s: seq<char>, c: char, o: nat, n: nat)
    ensures Fit(s + [c], o, n) == Fit(s, o, n) + (if o + |s| < n then [c] else [])
  {
  }

  /** The digits of a 32-bit number fit into the temporary buffer. */
  lemma {:induction false} FewDigits(v: nat, base: nat, large: bool, k: nat)
    requires 2 <= base <= 36 && 1 <= k && v < Pow2(k)
    ensures |Digits(v, base, large)| <= k
    decreases k
  {
    if v < base {
    } else {
      HalvesAtLeast(v, base, k);
      hide Higher;
      FewDigits(Higher(v, base), base, large, k - 1);
    }
  }

  function Pow2(k: nat): nat {
    if k == 0 then 1 else 2 * Pow2(k - 1)
  }

  lemma HalvesAtLeast(v: nat, base: nat, k: nat)
    requires 2 <= base && 1 <= k && base <= v < Pow2(k)
    ensures k >= 2 && Higher(v, base) < Pow2(k - 1)
  {
    assert Pow2(0) == 1 && Pow2(1) == 2;
    Quotient(v, base);
    AtMostHalf(v / base, base, v % base);
  }

  lemma AtMostHalf(q: nat, base: nat, r: nat)
    requires base >= 2
    ensures 2 * q <= q * base + r
  {
    assert q * base >= q * 2;
  }

  /** The output pointer, the counter `o` and what has been written since `start`. */
  class Output {
    const buf: array<char>
    var str: nat
    var o: nat
    const n: nat

    constructor (buf: array<char>, str: nat, o: nat, n: nat)
      ensures this.buf == buf && this.str == str && this.o == o && this.n == n
    {
      this.buf, this.str, this.o, this.n := buf, str, o, n;
    }

    /** What has been emitted so far. */
    ghost predicate Wrote(start: nat, before: seq<char>, o0: nat, lead: seq<char>, done: seq<char>)
      reads this, buf
    {
      && start <= str <= buf.Length == |before|
      && buf[start..str] == lead + Fit(done, o0, n)
      && (forall i :: 0 <= i < start ==> buf[i] == before[i])
      && (forall i :: str <= i < buf.Length ==> buf[i] == before[i])
      && o == o0 + |done|
    }

    /** EMIT: the character counts even if there is no room for it. */
    method Emit(c: char, ghost start: nat, ghost before: seq<char>, ghost o0: nat, ghost lead: seq<char>,
        ghost done: seq<char>, ghost all: seq<char>)
      requires Wrote(start, before, o0, lead, done) && done + [c] <= all
      requires start + |lead| + |Fit(all, o0, n)| <= buf.Length
      modifies this`str, this`o, buf
      ensures Wrote(start, before, o0, lead, done + [c])
    {
      FitSnoc(done, c, o0, n);
      FitGrows(done + [c], all, o0, n);
      if o < n {
        buf[str] := c;
        assert buf[start..str + 1] == buf[start..str] + [c];
        str := str + 1;
      }
      o := o + 1;
    }

    /** Leading blanks go out without regard to the limit. */
    method PadFront(count: int, ghost before: seq<char>, ghost o0: nat)
      requires before == buf[..] && o == o0 && str + |Repeat(' ', count)| <= buf.Length
      modifies this`str, buf
      ensures Wrote(old(str), before, o0, Repeat(' ', count), [])
    {
      ghost var start := str;
      var left := count;
      while left > 0
        invariant count <= 0 ==> left == count
        invariant count > 0 ==> 0 <= left <= count
        invariant start <= str == start + |Repeat(' ', count - Max(left, 0))| && |before| == buf.Length
        invariant buf[start..str] == Repeat(' ', count - Max(left, 0))
        invariant forall i :: 0 <= i < start ==> buf[i] == before[i]
        invariant forall i :: str <= i < buf.Length ==> buf[i] == before[i]
      {
        buf[str] := ' ';
        assert buf[start..str + 1] == buf[start..str] + [' '];
        str := str + 1;
        left := left - 1;
      }
      assert Repeat(' ', count) + [] == Repeat(' ', count);
    }

    /** A run of one character. */
    method EmitMany(c: char, count: int, ghost start: nat, ghost before: seq<char>, ghost o0: nat,
        ghost lead: seq<char>, ghost done: seq<char>, ghost all: seq<char>)
      requires Wrote(start, before, o0, lead, done) && done + Repeat(c, count) <= all
      requires start + |lead| + |Fit(all, o0, n)| <= buf.Length
      modifies this`str, this`o, buf
      ensures Wrote(start, before, o0, lead, done + Repeat(c, count))
    {
      hide Fit, Wrote;
      var left := count;
      assert done + [] == done;
      while left > 0
        invariant count <= 0 ==> left == count
        invariant count > 0 ==> 0 <= left <= count
        invariant Wrote(start, before, o0, lead, done + Repeat(c, count - Max(left, 0)))
      {
        RunPrefix(c, count - left, count, done, all);
        Emit(c, start, before, o0, lead, done + Repeat(c, count - left), all);
        left := left - 1;
      }
    }
  }

  lemma FitGrows(s: seq<char>, all: seq<char>, o: nat, n: nat)
    requires s <= all
    ensures |Fit(s, o, n)| <= |Fit(all, o, n)|
  {
  }

  lemma RunPrefix(c: char, i: nat, count: nat, done: seq<char>, all: seq<char>)
    requires i < count && done + Repeat(c, count) <= all
    ensures done + Repeat(c, i) + [c] == done + Repeat(c, i + 1) <= all
  {
    assert Repeat(c, i) + [c] == Repeat(c, i + 1);
    assert Repeat(c, i + 1) <= Repeat(c, count);
  }

  /** The digits, the last one first, in the temporary buffer. */
  method FillBackwards(start: ULong, base: nat, large: bool) returns (tmp: array<char>, i: nat)
    requires 2 <= base <= 36
    ensures fresh(tmp) && tmp.Length == 66 && i == |Digits(start, base, large)| <= 32
    ensures forall j :: 0 <= j < i ==> tmp[j] == Digits(start, base, large)[i - 1 - j]
  {
    DigitsFit(start, base, large);
    tmp := new char[66];
    if start == 0 {
      tmp[0] := '0';
      return tmp, 1;
    }
    i := DivideDown(tmp, start, base, large);
  }

  lemma DigitsFit(start: ULong, base: nat, large: bool)
    requires 2 <= base <= 36
    ensures |Digits(start, base, large)| <= 32
  {
    PowerOf32();
    FewDigits(start, base, large, 32);
  }

  /** The loop with do_div. */
  method DivideDown(tmp: array<char>, start: nat, base: nat, large: bool) returns (i: nat)
    requires 2 <= base <= 36 && start > 0 && |Digits(start, base, large)| <= tmp.Length
    modifies tmp
    ensures i == |Digits(start, base, large)|
    ensures forall j :: 0 <= j < i ==> tmp[j] == Digits(start, base, large)[i - 1 - j]
  {
    hide Digits, DigitChar;
    ghost var d := Digits(start, base, large);
    var num: nat := start;
    i := 0;
    assert d[..|d|] == d;
    while num != 0
      invariant i <= |d| && if num > 0 then i < |d| && d[..|d| - i] == Digits(num, base, large) else i == |d|
      invariant forall j :: 0 <= j < i ==> tmp[j] == d[|d| - 1 - j]
      decreases num
    {
      LastDigit(num, base, large);
      DropLast(d, i);
      tmp[i] := DigitChar(num % base, large);
      num := num / base;
      i := i + 1;
    }
  }

  lemma DropLast(d: seq<char>, i: nat)
    requires i < |d|
    ensures var s := d[..|d| - i]; s[|s| - 1] == d[|d| - 1 - i] && s[..|s| - 1] == d[..|d| - i - 1]
  {
  }

  lemma PowerOf32()
    ensures Pow2(32) == WIDTH_LIMIT
  {
    assert Pow2(8) == 0x100;
    assert Pow2(16) == 0x1_0000;
    assert Pow2(24) == 0x100_0000;
  }

  lemma LastDigit(v: nat, base: nat, large: bool)
    requires 2 <= base <= 36 && v > 0
    ensures var s, q, r := Digits(v, base, large), Higher(v, base), Lowest(v, base);
      && s[|s| - 1] == DigitChar(r, large)
      && (if q == 0 then |s| == 1 else s[..|s| - 1] == Digits(q, base, large))
  {
    hide Higher, Lowest, DigitChar;
  }

  /** The digits, most significant first. */
  method EmitDigits(out: Output, tmp: array<char>, count: nat, ghost d: seq<char>, ghost start: nat,
      ghost before: seq<char>, ghost o0: nat, ghost lead: seq<char>, ghost done: seq<char>, ghost all: seq<char>)
    requires out.Wrote(start, before, o0, lead, done) && done + d <= all && tmp != out.buf
    requires start + |lead| + |Fit(all, o0, out.n)| <= out.buf.Length
    requires count == |d| <= tmp.Length && forall j :: 0 <= j < count ==> tmp[j] == d[count - 1 - j]
    modifies out`str, out`o, out.buf
    ensures out.Wrote(start, before, o0, lead, done + d)
  {
    hide Fit;
    var i := count;
    assert done + d[..0] == done;
    while i > 0
      invariant 0 <= i <= count && out.Wrote(start, before, o0, lead, done + d[..count - i])
      invariant forall j :: 0 <= j < count ==> tmp[j] == d[count - 1 - j]
    {
      i := i - 1;
      assert d[..count - i] == d[..count - i - 1] + [tmp[i]];
      assert done + d[..count - i - 1] + [tmp[i]] == done + d[..count - i];
      assert done + d[..count - i] <= done + d;
      out.Emit(tmp[i], start, before, o0, lead, done + d[..count - i - 1], all);
    }
    assert d[..count] == d;
  }

  /** Everything from the sign on. */
  method EmitRest(out: Output, num: Long, base: nat, size: int, precision: int, f: Flags, width: int, least: int,
      tmp: array<char>, i: nat, ghost start: nat, ghost before: seq<char>)
    requires 2 <= base <= 36 && tmp != out.buf
    requires out.Wrote(start, before, out.o, Lead(num, base, size, precision, f), [])
    requires start + |Text(num, base, size, precision, f, out.o, out.n)| <= out.buf.Length
    requires width == if f.zeropad || f.left then Padding(num, base, size, precision, f) else -1
    requires i == |Digits(Magnitude(num, f), base, f.large)| <= tmp.Length && least == Max(i, precision)
    requires forall j :: 0 <= j < i ==> tmp[j] == Digits(Magnitude(num, f), base, f.large)[i - 1 - j]
    modifies out`str, out`o, out.buf
    ensures out.Wrote(start, before, old(out.o), Lead(num, base, size, precision, f),
                      Join(Parts(num, base, size, precision, f)))
  {
    ghost var parts := Parts(num, base, size, precision, f);
    ghost var lead, o0 := Lead(num, base, size, precision, f), out.o;
    PartsAre(num, base, size, precision, f, width, least);
    hide Digits, Fit, Lead, Magnitude, Parts, Padding, Join, Repeat, out.Wrote;
    EmitFront(out, num, base, f, width, parts, start, before, o0, lead);
    EmitBack(out, f, width, least, tmp, i, parts, start, before, o0, lead);
  }

  /** Zeros up to the precision, the digits, padding with blanks. */
  method EmitBack(out: Output, f: Flags, width: int, least: int, tmp: array<char>, i: nat,
      ghost parts: seq<seq<char>>, ghost start: nat, ghost before: seq<char>, ghost o0: nat, ghost lead: seq<char>)
    requires |parts| == 6 && parts[3] == Repeat('0', least - i)
    requires parts[5] == if f.left then Repeat(' ', width) else ""
    requires i == |parts[4]| <= tmp.Length && tmp != out.buf && forall j :: 0 <= j < i ==> tmp[j] == parts[4][i - 1 - j]
    requires out.Wrote(start, before, o0, lead, Join(parts[..3]))
    requires start + |lead| + |Fit(Join(parts), o0, out.n)| <= out.buf.Length
    modifies out`str, out`o, out.buf
    ensures out.Wrote(start, before, o0, lead, Join(parts))
  {
    hide Fit, Join, Repeat, out.Wrote;
    ghost var all := Join(parts);
    JoinNext(parts, 3);
    out.EmitMany('0', least - i, start, before, o0, lead, Join(parts[..3]), all);
    JoinNext(parts, 4);
    EmitDigits(out, tmp, i, parts[4], start, before, o0, lead, Join(parts[..4]), all);
    JoinNext(parts, 5);
    if f.left {
      out.EmitMany(' ', width, start, before, o0, lead, Join(parts[..5]), all);
    } else {
      assert Join(parts[..5]) + [] == Join(parts[..5]);
    }
    assert parts[..6] == parts;
  }

  /** Sign, prefix, padding. */
  method EmitFront(out: Output, num: Long, base: nat, f: Flags, width: int, ghost parts: seq<seq<char>>,
      ghost start: nat, ghost before: seq<char>, ghost o0: nat, ghost lead: seq<char>)
    requires |parts| == 6 && parts[0] == SignText(num, f) && parts[1] == Prefix(base, f)
    requires parts[2] == if f.left then "" else Repeat(if f.zeropad then '0' else ' ', width)
    requires out.Wrote(start, before, o0, lead, []) && start + |lead| + |Fit(Join(parts), o0, out.n)| <= out.buf.Length
    modifies out`str, out`o, out.buf
    ensures out.Wrote(start, before, o0, lead, Join(parts[..3]))
  {
    hide Fit, Join, Repeat, out.Wrote;
    ghost var all := Join(parts);
    JoinNext(parts, 0);
    assert parts[..0] == [] && Join([]) == [] by { JoinNone(); }
    assert [] + parts[0] == parts[0];
    EmitSign(out, num, f, start, before, o0, lead, all);
    JoinNext(parts, 1);
    EmitPrefix(out, base, f, start, before, o0, lead, Join(parts[..1]), all);
    JoinNext(parts, 2);
    if !f.left {
      out.EmitMany(if f.zeropad then '0' else ' ', width, start, before, o0, lead, Join(parts[..2]), all);
    } else {
      assert Join(parts[..2]) + [] == Join(parts[..2]);
    }
  }

  lemma PartsAre(num: Long, base: nat, size: int, precision: int, f: Flags, width: int, least: int)
    requires 2 <= base <= 36
    requires width == if f.zeropad || f.left then Padding(num, base, size, precision, f) else -1
    requires least == Max(|Digits(Magnitude(num, f), base, f.large)|, precision)
    ensures var p, d := Parts(num, base, size, precision, f), Digits(Magnitude(num, f), base, f.large);
      && p[0] == SignText(num, f) && p[1] == Prefix(base, f) && p[4] == d
      && p[2] == (if f.left then "" else Repeat(if f.zeropad then '0' else ' ', width))
      && p[3] == Repeat('0', least - |d|)
      && p[5] == (if f.left then Repeat(' ', width) else "")
  {
    hide Digits, Padding;
  }

  lemma JoinNone()
    ensures Join([]) == []
  {
  }

  method EmitSign(out: Output, num: Long, f: Flags, ghost start: nat, ghost before: seq<char>, ghost o0: nat,
      ghost lead: seq<char>, ghost all: seq<char>)
    requires out.Wrote(start, before, o0, lead, []) && SignText(num, f) <= all
    requires start + |lead| + |Fit(all, o0, out.n)| <= out.buf.Length
    modifies out`str, out`o, out.buf
    ensures out.Wrote(start, before, o0, lead, SignText(num, f))
  {
    hide Fit;
    if f.sign {
      if num < 0 {
        assert [] + ['-'] == SignText(num, f);
        out.Emit('-', start, before, o0, lead, [], all);
      } else if f.plus {
        assert [] + ['+'] == SignText(num, f);
        out.Emit('+', start, before, o0, lead, [], all);
      } else if f.space {
        assert [] + [' '] == SignText(num, f);
        out.Emit(' ', start, before, o0, lead, [], all);
      }
    }
  }

  method EmitPrefix(out: Output, base: nat, f: Flags, ghost start: nat, ghost before: seq<char>, ghost o0: nat,
      ghost lead: seq<char>, ghost done: seq<char>, ghost all: seq<char>)
    requires out.Wrote(start, before, o0, lead, done) && done + Prefix(base, f) <= all
    requires start + |lead| + |Fit(all, o0, out.n)| <= out.buf.Length
    modifies out`str, out`o, out.buf
    ensures out.Wrote(start, before, o0, lead, done + Prefix(base, f))
  {
    hide Fit;
    assert done + [] == done;
    if f.special {
      if base == 8 {
        out.Emit('0', start, before, o0, lead, done, all);
      } else if base == 16 {
        var x := if f.large then 'X' else 'x';
        assert done + ['0'] + [x] == done + Prefix(base, f);
        assert done + ['0'] <= done + Prefix(base, f);
        out.Emit('0', start, before, o0, lead, done, all);
        out.Emit(x, start, before, o0, lead, done + ['0'], all);
      }
    }
  }

  /** number: returns the end of the text, or -1 for a base it does not know. */
  method Number(buf: array<char>, str: nat, num: Long, base: int, size: int, precision: int, f: Flags, o: nat, n: nat)
    returns (end: int)
    requires str <= buf.Length
    requires 2 <= base <= 36 ==> str + |Text(num, base, size, precision, f, o, n)| <= buf.Length
    modifies buf
    ensures !(2 <= base <= 36) ==> end == -1 && buf[..] == old(buf[..])
    ensures 2 <= base <= 36 ==>
      && end == str + |Text(num, base, size, precision, f, o, n)|
      && buf[str..end] == Text(num, base, size, precision, f, o, n)
      && buf[..str] == old(buf[..str]) && buf[end..] == old(buf[end..])
  {
    if base < 2 || base > 36 {
      return -1;
    }
    ghost var before := buf[..];
    var tmp, i := FillBackwards(Magnitude(num, f), base, f.large);
    var width, least := Widths(num, base, size, precision, f, i);
    var out := new Output(buf, str, o, n);
    hide Digits, Magnitude, Parts, Padding, Fit, Join;
    if !(f.zeropad && !f.left) && !f.left {
      out.PadFront(width, before, o);
      width := -1;
    } else {
      out.PadFront(0, before, o);
    }
    EmitRest(out, num, base, size, precision, f, width, least, tmp, i, str, before);
    end := out.str;
  }

  /** The field width that remains for padding, and the least number of digits. */
  method Widths(num: Long, base: nat, size: int, precision: int, f: Flags, i: nat) returns (width: int, least: int)
    requires 2 <= base <= 36 && i == |Digits(Magnitude(num, f), base, f.large)|
    ensures width == Padding(num, base, size, precision, f) && least == Max(i, precision)
  {
    width := size;
    if f.sign {
      if num < 0 {
        width := width - 1;
      } else if f.plus {
        width := width - 1;
      } else if f.space {
        width := width - 1;
      }
    }
    if f.special {
      if base == 16 {
        width := width - 2;
      } else if base == 8 {
        width := width - 1;
      }
    }
    least := precision;
    if i > least {
      least := i;
    }
    width := width - least;
  }
}
