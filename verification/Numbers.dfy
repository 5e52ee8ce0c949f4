/** Numbers printed and read: `ValueToHex`, `ValueToString`, `xtoi` and `Atoi`. */
module Numbers {
  import opened Words
  import opened Options
  import opened Chars
  import opened Divide

  const UPPER_A: Char16 := 0x41
  const LOWER_A: Char16 := 0x61

  type Digit = d: nat | d < 16
  type Base = b: nat | b == 10 || b == 16 witness 10

  // ----- digits

  function Digits(v: nat, base: Base): (ds: seq<Digit>)
    ensures forall i :: 0 <= i < |ds| ==> ds[i] < base
  {
    if v == 0 then [] else Digits(v / base, base) + [v % base]
  }

  function Value(ds: seq<Digit>, base: Base): nat {
    if ds == [] then 0 else Value(ds[..|ds| - 1], base) * base + ds[|ds| - 1]
  }

  lemma {:induction false} ValueOfDigits(v: nat, base: Base)
    ensures Value(Digits(v, base), base) == v
  {
    if v != 0 {
      ValueOfDigits(v / base, base);
      var ds := Digits(v, base);
      assert ds[..|ds| - 1] == Digits(v / base, base);
    }
  }

  function Power(base: Base, k: nat): nat {
    if k == 0 then 1 else base * Power(base, k - 1)
  }

  lemma {:induction false} DigitsNeeded(v: nat, base: Base, k: nat)
    requires v < Power(base, k)
    ensures |Digits(v, base)| <= k
  {
    if v != 0 {
      DigitsNeeded(v / base, base, k - 1);
    }
  }

  lemma {:induction false} ValueBound(ds: seq<Digit>, base: Base)
    requires forall i :: 0 <= i < |ds| ==> ds[i] < base
    ensures Value(ds, base) < Power(base, |ds|)
  {
    if ds != [] {
      ValueBound(ds[..|ds| - 1], base);
    }
  }

  /** `Hex` */
  function DigitChar(d: Digit): Char16 {
    if d < 10 then ZERO + d else UPPER_A + (d - 10)
  }

  function Text(ds: seq<Digit>): (t: seq<Char16>)
    ensures |t| == |ds|
  {
    seq(|ds|, i requires 0 <= i < |ds| => DigitChar(ds[i]))
  }

  /** A number without leading zeros. */
  function Shown(v: nat, base: Base): seq<Char16> {
    if v == 0 then [ZERO] else Text(Digits(v, base))
  }

  /** Groups of three digits, from the right. */
  function Groups(t: seq<Char16>): seq<Char16> {
    if |t| <= 3 then t else Groups(t[..|t| - 3]) + [COMMA] + t[|t| - 3..]
  }

  function Magnitude(v: int64): nat {
    var i: int := v;
    if i < 0 then -i else i
  }

  /** What `ValueToString` prints. Negating the smallest value is taken to wrap, which
      leaves its magnitude as an unsigned number. */
  function Signed(comma: bool, v: int64): seq<Char16> {
    var t := Shown(Magnitude(v), 10);
    (if v < 0 then [MINUS] else []) + (if comma then Groups(t) else t)
  }

  /** A buffer that starts with a string and its terminator. */
  ghost predicate StartsWith(buffer: seq<Char16>, t: seq<Char16>) {
    |t| < |buffer| && buffer[..|t|] == t && buffer[|t|] == 0
  }

  // ----- printing

  /** Digits left in reverse order, the lowest first. */
  ghost predicate Reversed(str: seq<Char16>, n: nat, t: seq<Char16>) {
    n == |t| <= |str| && forall i :: 0 <= i < n ==> str[i] == t[n - 1 - i]
  }

  lemma OneMoreDigit(v: nat, base: Base, done: seq<Digit>, all: seq<Digit>)
    requires v != 0 && all == Digits(v, base) + done
    ensures all == Digits(v / base, base) + ([v % base] + done)
  {}

  method ValueToHex(buffer: array<Char16>, v: uint64)
    requires |Shown(v, 16)| < buffer.Length
    modifies buffer
    ensures StartsWith(buffer[..], Shown(v, 16))
  {
    if v == 0 {
      buffer[0] := ZERO;
      buffer[1] := 0;
      return;
    }
    HexSize(v);
    var str := new Char16[30];
    var p1: nat := HexDigits(str, v);
    var p2: nat := 0;
    ghost var t := Shown(v, 16);
    while p1 != 0
      invariant p1 + p2 == |t| < buffer.Length && Reversed(str[..], |t|, t)
      invariant buffer[..p2] == t[..p2]
    {
      p1 := p1 - 1;
      buffer[p2] := str[p1];
      assert str[..][p1] == t[p2];
      p2 := p2 + 1;
    }
    buffer[p2] := 0;
  }

  lemma HexSize(v: uint64)
    ensures |Digits(v, 16)| <= 16
  {
    assert Power(16, 4) == 0x1_0000;
    assert Power(16, 8) == 0x1_0000_0000;
    assert Power(16, 12) == 0x1_0000_0000_0000;
    assert Power(16, 16) == TWO_64;
    DigitsNeeded(v, 16, 16);
  }

  method HexDigits(str: array<Char16>, v0: uint64) returns (p1: nat)
    requires |Digits(v0, 16)| <= str.Length
    modifies str
    ensures Reversed(str[..], p1, Text(Digits(v0, 16)))
  {
    var v: nat := v0;
    ghost var all: seq<Digit>, done: seq<Digit> := Digits(v0, 16), [];
    p1 := 0;
    while v != 0
      invariant all == Digits(v, 16) + done && |done| == p1
      invariant Reversed(str[..], p1, Text(done))
    {
      OneMoreDigit(v, 16, done, all);
      str[p1] := DigitChar(v % 16);
      v, p1, done := v / 16, p1 + 1, [v % 16] + done;
    }
    assert all == done;
  }

  method DecimalDigits(str: array<Char16>, v0: uint64) returns (p1: nat)
    requires |Digits(v0, 10)| <= str.Length
    modifies str
    ensures Reversed(str[..], p1, Text(Digits(v0, 10)))
  {
    var v: uint64 := v0;
    ghost var all: seq<Digit>, done: seq<Digit> := Digits(v0, 10), [];
    p1 := 0;
    while v != 0
      invariant all == Digits(v, 10) + done && |done| == p1
      invariant Reversed(str[..], p1, Text(done))
    {
      OneMoreDigit(v, 10, done, all);
      var q, r := DivU64x32(v, 10);
      UniqueQuotient(v, 10, q, r);
      str[p1] := ZERO + r;
      v, p1, done := q, p1 + 1, [v % 10] + done;
    }
    assert all == done;
  }

  lemma DecimalSize(v: nat)
    requires v <= TWO_64 / 2
    ensures |Digits(v, 10)| <= 19
  {
    assert Power(10, 5) == 100000;
    assert Power(10, 10) == 10000000000;
    assert Power(10, 15) == 1000000000000000;
    assert Power(10, 19) == 10000000000000000000;
    DigitsNeeded(v, 10, 19);
  }

  // ----- commas

  /** The first k digits with their commas: one before every group of three, counted
      from the right, but not in front. */
  function Marked(t: seq<Char16>, k: nat): seq<Char16>
    requires k <= |t|
  {
    if k == 0 then []
    else Marked(t, k - 1) + (if k > 1 && (|t| - (k - 1)) % 3 == 0 then [COMMA] else []) + [t[k - 1]]
  }

  lemma {:induction false} MarkedPrefix(t: seq<Char16>, k: nat)
    requires |t| > 3 && k <= |t| - 3
    ensures Marked(t, k) == Marked(t[..|t| - 3], k)
  {
    if k > 0 {
      MarkedPrefix(t, k - 1);
    }
  }

  lemma {:induction false} MarkedIsGroups(t: seq<Char16>)
    ensures Marked(t, |t|) == Groups(t)
  {
    var n := |t|;
    if n > 3 {
      MarkedIsGroups(t[..n - 3]);
      MarkedPrefix(t, n - 3);
      assert Marked(t, n - 2) == Marked(t, n - 3) + [COMMA] + [t[n - 3]];
      assert Marked(t, n - 1) == Marked(t, n - 2) + [] + [t[n - 2]];
      assert Marked(t, n) == Marked(t, n - 1) + [] + [t[n - 1]];
      assert t[n - 3..] == [t[n - 3]] + [t[n - 2]] + [t[n - 1]];
    } else if n == 3 {
      assert Marked(t, 1) == [] + [] + [t[0]];
      assert Marked(t, 2) == Marked(t, 1) + [] + [t[1]];
    } else if n == 2 {
      assert Marked(t, 1) == [] + [] + [t[0]];
    }
  }

  lemma {:induction false} MarkedGrows(t: seq<Char16>, j: nat, k: nat)
    requires j <= k <= |t|
    ensures Marked(t, j) <= Marked(t, k)
  {
    if j < k {
      MarkedGrows(t, j, k - 1);
    }
  }

  function Strip(t: seq<Char16>): seq<Char16> {
    if t == [] then [] else Strip(t[..|t| - 1]) + (if t[|t| - 1] == COMMA then [] else [t[|t| - 1]])
  }

  lemma {:induction false} StripAppend(a: seq<Char16>, b: seq<Char16>)
    ensures Strip(a + b) == Strip(a) + Strip(b)
  {
    if b == [] {
      assert a + b == a;
    } else {
      assert (a + b)[..|a + b| - 1] == a + b[..|b| - 1];
      StripAppend(a, b[..|b| - 1]);
    }
  }

  lemma {:induction false} StripNothing(t: seq<Char16>)
    requires COMMA !in t
    ensures Strip(t) == t
  {
    if t != [] {
      StripNothing(t[..|t| - 1]);
    }
  }

  lemma StripEnd(a: seq<Char16>)
    ensures Strip(a + [COMMA]) == Strip(a)
  {
    var t := a + [COMMA];
    assert t[..|t| - 1] == a && t[|t| - 1] == COMMA;
  }

  lemma StripComma(a: seq<Char16>, b: seq<Char16>)
    requires COMMA !in b
    ensures Strip(a + [COMMA] + b) == Strip(a) + b
  {
    StripEnd(a);
    StripAppend(a + [COMMA], b);
    StripNothing(b);
  }

  /** Without its commas a grouped number is the plain one. */
  lemma {:induction false} StripGroups(t: seq<Char16>)
    requires COMMA !in t
    ensures Strip(Groups(t)) == t
  {
    if |t| <= 3 {
      StripNothing(t);
    } else {
      var n := |t| - 3;
      var front, last := t[..n], t[n..];
      assert t == front + last && COMMA !in last;
      StripGroups(front);
      StripComma(Groups(front), last);
    }
  }

  /** The comma counter before the next of n digits is written, m being left. */
  function Counter(comma: bool, n: nat, m: nat): int
    requires m <= n
  {
    if !comma then 1000 - (n - m)
    else if m == n && m % 3 == 0 then 4
    else m % 3 + 1
  }

  /** The first k digits, as printed. */
  function Printed(comma: bool, t: seq<Char16>, k: nat): seq<Char16>
    requires k <= |t|
  {
    if comma then Marked(t, k) else t[..k]
  }

  lemma PrintedNext(comma: bool, t: seq<Char16>, k: nat)
    requires k < |t| < 100
    ensures Printed(comma, t, k + 1)
         == Printed(comma, t, k) + (if Counter(comma, |t|, |t| - k) == 1 then [COMMA] else []) + [t[k]]
    ensures |Printed(comma, t, k + 1)| <= |Printed(comma, t, |t|)|
  {
    MarkedGrows(t, k + 1, |t|);
    assert t[..k + 1] == t[..k] + [] + [t[k]];
  }

  lemma CounterNext(comma: bool, n: nat, m: nat)
    requires 0 < m <= n < 100
    ensures var c := Counter(comma, n, m);
      Counter(comma, n, m - 1) == if c == 1 then 3 else c - 1
  {}

  /** The next digit, behind a comma if the counter has run down. */
  method PutDigit(buffer: array<Char16>, p: nat, c0: int, digit: Char16) returns (p2: nat, c: int)
    requires p + (if c0 == 1 then 2 else 1) <= buffer.Length
    modifies buffer
    ensures c == if c0 == 1 then 3 else c0 - 1
    ensures p2 == p + (if c0 == 1 then 2 else 1)
    ensures buffer[..p2] == old(buffer[..p]) + (if c0 == 1 then [COMMA] else []) + [digit]
  {
    c, p2 := c0 - 1, p;
    if c == 0 {
      buffer[p2] := COMMA;
      p2 := p2 + 1;
      c := 3;
    }
    buffer[p2] := digit;
    p2 := p2 + 1;
  }

  /** The second half of `ValueToString`: the digits copied out in order. */
  method CopyDigits(buffer: array<Char16>, start: nat, str: array<Char16>, n: nat, comma: bool, ghost t: seq<Char16>)
    returns (p2: nat)
    requires buffer != str && Reversed(str[..], n, t) && n < 100
    requires start + |Printed(comma, t, n)| < buffer.Length
    modifies buffer
    ensures p2 == start + |Printed(comma, t, n)| && buffer[..p2] == old(buffer[..start]) + Printed(comma, t, n)
  {
    var ca := [3, 1, 2];
    var c := (if comma then ca[n % 3] else 999) + 1;
    assert Printed(comma, t, 0) == [];
    p2 := CopyLoop(buffer, start, str, n, c, comma, t);
  }

  method CopyLoop(buffer: array<Char16>, start: nat, str: array<Char16>, n: nat, c0: int, ghost comma: bool, ghost t: seq<Char16>)
    returns (p2: nat)
    requires buffer != str && Reversed(str[..], n, t) && n < 100 && c0 == Counter(comma, n, n)
    requires start + |Printed(comma, t, n)| < buffer.Length
    modifies buffer
    ensures p2 == start + |Printed(comma, t, n)| && buffer[..p2] == old(buffer[..start]) + Printed(comma, t, n)
  {
    var p1: nat, c := n, c0;
    p2 := start;
    ghost var before := buffer[..start];
    ghost var done := Printed(comma, t, 0);
    assert done == [];
    while p1 != 0
      invariant p1 <= n && c == Counter(comma, n, p1) && Reversed(str[..], n, t)
      invariant done == Printed(comma, t, n - p1)
      invariant p2 == start + |done| && p2 <= buffer.Length && buffer[..p2] == before + done
    {
      PrintedNext(comma, t, n - p1);
      CounterNext(comma, n, p1);
      done := Printed(comma, t, n - p1 + 1);
      p1 := p1 - 1;
      assert str[..][p1] == t[n - 1 - p1];
      p2, c := PutDigit(buffer, p2, c, str[p1]);
    }
  }

  lemma SignedParts(comma: bool, v: int64, t: seq<Char16>)
    requires t == Shown(Magnitude(v), 10)
    ensures Signed(comma, v) == (if v < 0 then [MINUS] else []) + Printed(comma, t, |t|)
  {
    MarkedIsGroups(t);
    assert t[..|t|] == t;
  }

  method ValueToString(buffer: array<Char16>, comma: bool, v: int64)
    requires |Signed(comma, v)| < buffer.Length
    modifies buffer
    ensures StartsWith(buffer[..], Signed(comma, v))
  {
    ghost var t := Shown(Magnitude(v), 10);
    SignedParts(comma, v, t);
    if v == 0 {
      buffer[0] := ZERO;
      buffer[1] := 0;
      assert Groups(t) == t == [ZERO];
      return;
    }
    var p2 := 0;
    if v < 0 {
      buffer[0] := MINUS;
      p2 := 1;
    }
    DecimalSize(Magnitude(v));
    assert buffer[..p2] == if v < 0 then [MINUS] else [];
    p2 := PutDecimal(buffer, p2, comma, Magnitude(v));
    buffer[p2] := 0;
  }

  method PutDecimal(buffer: array<Char16>, start: nat, comma: bool, v: uint64) returns (p2: nat)
    requires v != 0 && |Digits(v, 10)| <= 40
    requires start + |Printed(comma, Shown(v, 10), |Shown(v, 10)|)| < buffer.Length
    modifies buffer
    ensures p2 == start + |Printed(comma, Shown(v, 10), |Shown(v, 10)|)|
    ensures buffer[..p2] == old(buffer[..start]) + Printed(comma, Shown(v, 10), |Shown(v, 10)|)
  {
    var str := new Char16[40];
    var n := DecimalDigits(str, v);
    p2 := CopyDigits(buffer, start, str, n, comma, Shown(v, 10));
  }

  // ----- reading

  /** The digit a character stands for; letters of either case in base 16. */
  function DigitOf(c: Char16, base: Base): (d: Option<Digit>)
    ensures d.Some? ==> d.value < base
  {
    if ZERO <= c <= NINE then Some(c - ZERO)
    else if base == 16 && UPPER_A <= c < UPPER_A + 6 then Some(c - UPPER_A + 10)
    else if base == 16 && LOWER_A <= c < LOWER_A + 6 then Some(c - LOWER_A + 10)
    else None
  }

  function LeadingDigits(s: seq<Char16>, base: Base): seq<Digit> {
    if s == [] || DigitOf(s[0], base).None? then []
    else [DigitOf(s[0], base).value] + LeadingDigits(s[1..], base)
  }

  function SkipSpaces(s: seq<Char16>): seq<Char16> {
    if s == [] || s[0] != SPACE then s else SkipSpaces(s[1..])
  }

  /** What the accumulator holds. */
  function Low(ds: seq<Digit>, base: Base): uint64 {
    Value(ds, base) % TWO_64
  }

  /** What a reader makes of a string: spaces, then as many digits as there are, and
      only the low 64 bits of the number. */
  function Read(s: seq<Char16>, base: Base): uint64 {
    Low(LeadingDigits(SkipSpaces(s), base), base)
  }

  method SkipBlanks(str: seq<Char16>) returns (i: nat)
    requires CString(str)
    ensures i < |str| && From(str, i) == SkipSpaces(From(str, 0))
  {
    i := 0;
    while str[i] != 0 && str[i] == SPACE
      invariant i < |str| && SkipSpaces(From(str, i)) == SkipSpaces(From(str, 0))
      decreases |str| - i
    {
      assert From(str, i)[1..] == From(str, i + 1);
      i := i + 1;
    }
  }

  /** Digits so far, and those still ahead. */
  ghost predicate Reading(str: seq<Char16>, i: nat, ds: seq<Digit>, base: Base) {
    i < |str| && ds + LeadingDigits(From(str, i), base) == LeadingDigits(SkipSpaces(From(str, 0)), base)
  }

  lemma ReadDigit(str: seq<Char16>, i: nat, ds: seq<Digit>, base: Base)
    requires CString(str) && Reading(str, i, ds, base)
    ensures str[i] == 0 || DigitOf(str[i], base).None? ==> ds == LeadingDigits(SkipSpaces(From(str, 0)), base)
    ensures str[i] != 0 && DigitOf(str[i], base).Some? ==> Reading(str, i + 1, ds + [DigitOf(str[i], base).value], base)
  {
    if str[i] != 0 && DigitOf(str[i], base).Some? {
      assert From(str, i)[1..] == From(str, i + 1);
      assert ds + LeadingDigits(From(str, i), base)
          == ds + [DigitOf(str[i], base).value] + LeadingDigits(From(str, i + 1), base);
    } else {
      assert LeadingDigits(From(str, i), base) == [];
    }
  }

  lemma NextValue(ds: seq<Digit>, d: Digit, base: Base)
    ensures Value(ds + [d], base) == Value(ds, base) * base + d
  {
    assert (ds + [d])[..|ds|] == ds;
  }

  lemma ModTimes(v: nat, base: Base, d: nat)
    ensures ((v % TWO_64) * base + d) % TWO_64 == (v * base + d) % TWO_64
  {
    var q, u := v / TWO_64, v % TWO_64;
    assert v * base + d == TWO_64 * (q * base) + (u * base + d) by {
      assert base == 10 || base == 16;
    }
    WholeTurns(q * base, u * base + d);
  }

  lemma WholeTurns(k: nat, r: nat)
    ensures (TWO_64 * k + r) % TWO_64 == r % TWO_64
  {
    var q, m := r / TWO_64, r % TWO_64;
    assert TWO_64 * k + r == TWO_64 * (k + q) + m;
  }

  /** After a shift by four the low bits are free for the digit. */
  lemma ShiftInDigit(u: uint64, d: Digit)
    ensures u * 16 % TWO_64 + d == Append(u, 16, d)
  {
    assert u * 16 % TWO_64 % 16 == 0;
  }

  /** `u * base + d` in 64 bits. */
  function Append(u: uint64, base: Base, d: Digit): uint64 {
    (u * base + d) % TWO_64
  }

  lemma AppendLow(ds: seq<Digit>, base: Base, d: Digit)
    ensures Low(ds + [d], base) == Append(Low(ds, base), base, d)
  {
    NextValue(ds, d, base);
    ModTimes(Value(ds, base), base, d);
  }

  /** Shifts a hex digit in. */
  method ShiftIn(u: uint64, d: Digit, ghost ds: seq<Digit>) returns (r: uint64)
    requires u == Low(ds, 16)
    ensures r == Low(ds + [d], 16)
  {
    AppendLow(ds, 16, d);
    ShiftInDigit(u, d);
    r := u * 16 % TWO_64 + d;
  }

  /** Adds a decimal digit. */
  method TimesTen(u: uint64, d: Digit, ghost ds: seq<Digit>) returns (r: uint64)
    requires u == Low(ds, 10)
    ensures r == Low(ds + [d], 10)
  {
    AppendLow(ds, 10, d);
    r := Append(u, 10, d);
  }

  /** The digit at a character, case ignored. */
  method HexDigit(ch: Char16) returns (d: Option<Digit>)
    ensures d == DigitOf(ch, 16)
  {
    var c := ch;
    if LOWER_A <= c <= LOWER_A + 5 {
      c := c - (LOWER_A - UPPER_A);
    }
    if ZERO <= c <= NINE || UPPER_A <= c <= UPPER_A + 5 {
      return Some(c - (if c >= UPPER_A then UPPER_A - 10 else ZERO));
    }
    return None;
  }

  method DecimalDigit(c: Char16) returns (d: Option<Digit>)
    ensures d == DigitOf(c, 10)
  {
    if ZERO <= c <= NINE {
      return Some(c - ZERO);
    }
    return None;
  }

  method Xtoi(str: seq<Char16>) returns (u: uint64)
    requires CString(str)
    ensures u == Read(From(str, 0), 16)
  {
    var i := SkipBlanks(str);
    u := 0;
    ghost var ds: seq<Digit> := [];
    while str[i] != 0
      invariant Reading(str, i, ds, 16) && u == Low(ds, 16)
      decreases |str| - i
    {
      var d := HexDigit(str[i]);
      if d.None? {
        break;
      }
      ReadDigit(str, i, ds, 16);
      u := ShiftIn(u, d.value, ds);
      i, ds := i + 1, ds + [d.value];
    }
    ReadDigit(str, i, ds, 16);
  }

  method Atoi(str: seq<Char16>) returns (u: uint64)
    requires CString(str)
    ensures u == Read(From(str, 0), 10)
  {
    var i := SkipBlanks(str);
    u := 0;
    ghost var ds: seq<Digit> := [];
    while str[i] != 0
      invariant Reading(str, i, ds, 10) && u == Low(ds, 10)
      decreases |str| - i
    {
      var d := DecimalDigit(str[i]);
      if d.None? {
        break;
      }
      ReadDigit(str, i, ds, 10);
      u := TimesTen(u, d.value, ds);
      i, ds := i + 1, ds + [d.value];
    }
    ReadDigit(str, i, ds, 10);
  }

  // ----- what is printed is read back

  lemma {:induction false} LeadingOfText(ds: seq<Digit>, base: Base, more: seq<Char16>)
    requires forall i :: 0 <= i < |ds| ==> ds[i] < base
    requires more == [] || DigitOf(more[0], base).None?
    ensures LeadingDigits(Text(ds) + more, base) == ds
  {
    if ds == [] {
      assert Text(ds) + more == more;
    } else {
      LeadingOfText(ds[1..], base, more);
      assert Text(ds)[1..] == Text(ds[1..]);
      assert (Text(ds) + more)[1..] == Text(ds[1..]) + more;
      assert DigitOf((Text(ds) + more)[0], base) == Some(ds[0]);
    }
  }

  /** The digits behind a printed number. */
  function ShownDigits(v: nat, base: Base): (ds: seq<Digit>)
    ensures ds != [] && Text(ds) == Shown(v, base)
    ensures forall i :: 0 <= i < |ds| ==> ds[i] < base
  {
    if v == 0 then [0] else Digits(v, base)
  }

  lemma ValueOfShown(v: nat, base: Base)
    ensures Value(ShownDigits(v, base), base) == v
  {
    if v == 0 {
      assert [0][..0] == [];
    } else {
      ValueOfDigits(v, base);
    }
  }

  lemma ReadIs(s: seq<Char16>, base: Base, ds: seq<Digit>)
    requires SkipSpaces(s) == s && LeadingDigits(s, base) == ds
    ensures Read(s, base) == Value(ds, base) % TWO_64
  {}

  lemma NoSpaces(ds: seq<Digit>, more: seq<Char16>)
    requires ds != []
    ensures SkipSpaces(Text(ds) + more) == Text(ds) + more
  {
    assert (Text(ds) + more)[0] == DigitChar(ds[0]);
  }

  /** A printed number is read back, modulo 2^64, whatever stops the reader. */
  lemma ReadShown(v: nat, base: Base, more: seq<Char16>)
    requires more == [] || DigitOf(more[0], base).None?
    ensures Read(Shown(v, base) + more, base) == v % TWO_64
  {
    var ds := ShownDigits(v, base);
    ValueOfShown(v, base);
    LeadingOfText(ds, base, more);
    NoSpaces(ds, more);
    ReadIs(Text(ds) + more, base, ds);
  }

  lemma ReadPlain(v: uint64, base: Base)
    ensures Read(Shown(v, base), base) == v
  {
    var t := Shown(v, base);
    assert t + [] == t && v % TWO_64 == v;
    ReadShown(v, base, []);
  }

  /** `xtoi` undoes `ValueToHex` for every 64-bit value. */
  lemma HexRoundTrip(v: uint64)
    ensures Read(Shown(v, 16), 16) == v
  {
    ReadPlain(v, 16);
  }

  lemma {:induction false} LeadingStops(s: seq<Char16>, j: nat, base: Base)
    requires j < |s| && DigitOf(s[j], base).None?
    ensures |LeadingDigits(s, base)| <= j
    ensures forall i :: 0 <= i < |LeadingDigits(s, base)| ==> LeadingDigits(s, base)[i] < base
    decreases j
  {
    if j > 0 && DigitOf(s[0], base).Some? {
      LeadingStops(s[1..], j - 1, base);
    }
  }

  lemma {:induction false} HeadUnmarked(t: seq<Char16>, k: nat, g: nat)
    requires k <= g <= 3 && g <= |t| && |t| % 3 == g % 3
    ensures Marked(t, k) == t[..k]
  {
    if k > 0 {
      HeadUnmarked(t, k - 1, g);
      assert t[..k] == t[..k - 1] + [] + [t[k - 1]];
    }
  }

  lemma CommaBehindHead(t: seq<Char16>, g: nat)
    requires 1 <= g <= 3 && g < |t| && |t| % 3 == g % 3
    ensures |Marked(t, g + 1)| == g + 2 && Marked(t, g + 1)[g] == COMMA && Marked(t, g + 1)[0] == t[0]
  {
    HeadUnmarked(t, g, g);
    assert (|t| - g) % 3 == 0;
    assert Marked(t, g + 1) == t[..g] + [COMMA] + [t[g]];
  }

  function HeadSize(n: nat): nat {
    if n % 3 == 0 then 3 else n % 3
  }

  /** The first comma comes after one to three digits. */
  lemma FirstComma(t: seq<Char16>) returns (g: nat)
    requires |t| > 3
    ensures 1 <= g <= 3 && g < |Groups(t)| && Groups(t)[g] == COMMA && Groups(t)[0] == t[0]
  {
    g := HeadSize(|t|);
    CommaBehindHead(t, g);
    MarkedGrows(t, g + 1, |t|);
    MarkedIsGroups(t);
  }

  lemma FourDigits(v: nat)
    requires v < TWO_64
    ensures v >= 1000 <==> |Shown(v, 10)| > 3
  {
    assert Power(10, 3) == 1000;
    if v < 1000 {
      DigitsNeeded(v, 10, 3);
    } else if |Digits(v, 10)| <= 3 {
      ValueBound(Digits(v, 10), 10);
      ValueOfDigits(v, 10);
      PowerGrows(10, |Digits(v, 10)|, 3);
      assert false;
    }
  }

  lemma {:induction false} PowerGrows(base: Base, j: nat, k: nat)
    requires j <= k
    ensures 0 < Power(base, j) <= Power(base, k)
  {
    if j < k {
      PowerGrows(base, j, k - 1);
    } else if j > 0 {
      PowerGrows(base, j - 1, j - 1);
    }
  }

  /** `Atoi` undoes `ValueToString` exactly for the values that print neither a sign
      nor a comma. */
  lemma DecimalRoundTrip(comma: bool, v: int64)
    ensures Read(Signed(comma, v), 10) == v <==> v >= 0 && (comma ==> v < 1000)
  {
    var t := Shown(Magnitude(v), 10);
    FourDigits(Magnitude(v));
    if v < 0 {
      NothingBeforeSign(Signed(comma, v));
    } else {
      assert Signed(comma, v) == if comma then Groups(t) else t;
      if comma && v >= 1000 {
        ReadsFirstGroup(t, v);
      } else {
        ReadPlain(v, 10);
      }
    }
  }

  lemma NothingBeforeSign(s: seq<Char16>)
    requires s != [] && s[0] == MINUS
    ensures Read(s, 10) == 0
  {
    assert LeadingDigits(s, 10) == [];
  }

  /** Behind the sign of a negative value its magnitude is read back, down to the
      smallest value there is. */
  lemma NegativeReads(v: int64)
    requires v < 0
    ensures Signed(false, v)[0] == MINUS && Read(Signed(false, v)[1..], 10) == Magnitude(v)
  {
    var t := Shown(Magnitude(v), 10);
    assert Signed(false, v)[1..] == t;
    ReadPlain(Magnitude(v), 10);
  }

  lemma ReadsFirstGroup(t: seq<Char16>, v: nat)
    requires v < TWO_64 && t == Shown(v, 10) && |t| > 3
    ensures Read(Groups(t), 10) < 1000
  {
    var g := FirstComma(t);
    var s := Groups(t);
    assert s[0] == DigitChar(ShownDigits(v, 10)[0]) != SPACE;
    LeadingStops(s, g, 10);
    SmallValue(LeadingDigits(s, 10));
    ReadIs(s, 10, LeadingDigits(s, 10));
  }

  lemma SmallValue(ds: seq<Digit>)
    requires |ds| <= 3 && forall i :: 0 <= i < |ds| ==> ds[i] < 10
    ensures Value(ds, 10) < 1000
  {
    ValueBound(ds, 10);
    PowerGrows(10, |ds|, 3);
    assert Power(10, 3) == 1000;
  }

  /** The printed forms are never longer than the buffers that take them. */
  lemma PrintedSizes(v: uint64, w: int64, comma: bool)
    ensures |Shown(v, 16)| <= 16
    ensures |Signed(comma, w)| <= 26
  {
    HexSize(v);
    DecimalSize(Magnitude(w));
    GroupsSize(Shown(Magnitude(w), 10));
  }

  lemma {:induction false} GroupsSize(t: seq<Char16>)
    requires |t| >= 1
    ensures |Groups(t)| == |t| + (|t| - 1) / 3
  {
    if |t| > 3 {
      GroupsSize(t[..|t| - 3]);
    }
  }

  lemma NoCommas(v: nat, base: Base)
    ensures COMMA !in Shown(v, base) && 0 !in Shown(v, base)
  {}

  /** Commas are all that comma mode adds. */
  lemma StripSigned(v: int64)
    ensures Strip(Signed(true, v)) == Signed(false, v)
  {
    var t := Shown(Magnitude(v), 10);
    NoCommas(Magnitude(v), 10);
    StripGroups(t);
    StripSign(if v < 0 then [MINUS] else [], Groups(t));
  }

  lemma StripSign(sign: seq<Char16>, g: seq<Char16>)
    requires sign == [] || sign == [MINUS]
    ensures Strip(sign + g) == sign + Strip(g)
  {
    StripAppend(sign, g);
    StripNothing(sign);
  }

  lemma {:induction false} GroupsText(t: seq<Char16>)
    requires 0 !in t
    ensures 0 !in Groups(t)
  {
    if |t| > 3 {
      GroupsText(t[..|t| - 3]);
    }
  }
}
