/** What each directive of a format prints, in plain terms. Characters are given by their
    codes. */
module FormatLaws {
  import opened Words
  import opened Options
  import opened Chars
  import opened Numbers
  import opened NumberLaws
  import opened PrintFormat

  /** The flags of a directive: `-`, `0`, `,`, a width, a field behind a `.`, and `l`. */
  datatype Flags = Flags(minus: bool, zero: bool, comma: bool, width: nat, field: Option<nat>, long: bool) {
    predicate Valid() {
      width < TWO_64 && (field.Some? ==> 0 < field.value < TWO_64 - 1)
    }

    /** As they are written, in front of a conversion. */
    function Written(c: Char16): seq<Char16> {
      (if minus then [0x2d] else []) + ((if zero then [0x30] else []) + ((if comma then [0x2c] else [])
      + ((if width > 0 then Shown(width, 10) else []) + ((if field.Some? then [0x2e] + Shown(field.value, 10) else [])
      + ((if long then [0x6c] else []) + [c])))))
    }

    function PadChar(): Char16 {
      if zero then 0x30 else 0x20
    }
  }

  const NONE: Flags := Flags(false, false, false, 0, None, false)

  ghost predicate AllAre(s: seq<Char16>, c: Char16) {
    forall i :: 0 <= i < |s| ==> s[i] == c
  }

  /** A text cut to the field, padded to the width, and set at the right end of the field,
      or with `-` at its left end, in blanks. */
  ghost predicate LaysOut(o: Flags, text: seq<Char16>, r: seq<Char16>) {
    var s := if o.field.Some? && o.field.value < |text| then text[..o.field.value] else text;
    var pads := if o.width > |s| then o.width - |s| else 0;
    var blanks := if o.field.Some? && o.field.value > pads + |s| then o.field.value - pads - |s| else 0;
    && |r| == blanks + pads + |s|
    && if o.minus then AllAre(r[..pads], o.PadChar()) && r[pads..pads + |s|] == s && AllAre(r[pads + |s|..], 0x20)
       else AllAre(r[..blanks], 0x20) && AllAre(r[blanks..blanks + pads], o.PadChar()) && r[blanks + pads..] == s
  }

  /** The output of one directive with one argument. */
  ghost predicate Prints(f: seq<Char16>, args: seq<Arg>, r: seq<Char16>) {
    Format(f, args) == Some((r, []))
  }

  // ----- from the flags to the layout

  function LayoutOf(o: Flags): Layout
    requires o.Valid()
  {
    Layout(o.width, if o.field.Some? then o.field.value else NO_FIELD, o.field.Some?, o.PadChar(), !o.minus, o.comma, o.long)
  }

  lemma LaidPlainly(o: Flags, text: seq<Char16>)
    requires o.Valid() && |text| < TWO_64
    ensures LaysOut(o, text, Laid(LayoutOf(o), text))
  {
    var l, r := LayoutOf(o), Laid(LayoutOf(o), text);
    var s := Cut(l, text);
    var pads, blanks := Fill(Max(l.width - |s|, 0), l.pad), Fill(Blanks(l, text), SPACE);
    if o.minus {
      assert r == pads + s + blanks;
      PartsOf(pads, s, blanks);
    } else {
      assert r == blanks + (pads + s) == blanks + pads + s;
      PartsOf(blanks, pads, s);
    }
  }

  lemma PartsOf(a: seq<Char16>, b: seq<Char16>, c: seq<Char16>)
    ensures var all := a + b + c;
      all[..|a|] == a && all[|a|..|a| + |b|] == b && all[|a| + |b|..] == c
  {}

  lemma OneFlag(c: Char16, f: seq<Char16>, l: Layout, l': Layout, a: seq<Arg>)
    requires IsFlag(c) && c != STAR && !(ZERO < c <= NINE)
    requires l' == if c == 0x30 then l.(pad := 0x30) else if c == 0x2d then l.(padBefore := false)
                   else if c == 0x2c then l.(comma := true) else if c == 0x2e then l.(toField := true) else l.(long := true)
    ensures Directive([c] + f, a, l) == Directive(f, a, l')
  {
    assert ([c] + f)[1..] == f && a[0..] == a;
  }

  lemma NumberFlag(n: nat, f: seq<Char16>, l: Layout, a: seq<Arg>)
    requires 0 < n < TWO_64 && f != [] && !(0x30 <= f[0] <= 0x39)
    ensures Directive(Shown(n, 10) + f, a, l) == Directive(f, a, l.WithNumber(n))
  {
    var ds, t := ShownDigits(n, 10), Shown(n, 10);
    ShownPlainly(n, 10);
    ValueOfShown(n, 10);
    LeadingOfText(ds, 10, f);
    assert IsFlag((t + f)[0]) && (t + f)[0] != STAR && ZERO < (t + f)[0] <= NINE;
    assert Flagged(t + f, l, a) == Some((l.WithNumber(n), |t|, 0));
    assert (t + f)[|t|..] == f && a[0..] == a;
  }

  predicate IsConversion(c: Char16) {
    !IsFlag(c)
  }

  lemma WrittenTail(o: Flags, c: Char16, l: Layout, a: seq<Arg>)
    requires IsConversion(c)
    ensures Directive((if o.long then [0x6c] else []) + [c], a, l) == Directive([c], a, if o.long then l.(long := true) else l)
  {
    if o.long {
      OneFlag(0x6c, [c], l, l.(long := true), a);
    } else {
      assert [] + [c] == [c];
    }
  }

  lemma WrittenField(o: Flags, c: Char16, f: seq<Char16>, l: Layout, a: seq<Arg>)
    requires o.Valid() && f != [] && !(0x30 <= f[0] <= 0x39)
    ensures Directive((if o.field.Some? then [0x2e] + Shown(o.field.value, 10) else []) + f, a, l)
         == Directive(f, a, if o.field.Some? then l.(toField := true, field := o.field.value) else l)
  {
    if o.field.Some? {
      var t := Shown(o.field.value, 10);
      assert [0x2e] + t + f == [0x2e] + (t + f);
      OneFlag(0x2e, t + f, l, l.(toField := true), a);
      NumberFlag(o.field.value, f, l.(toField := true), a);
    } else {
      assert [] + f == f;
    }
  }

  lemma WrittenWidth(o: Flags, f: seq<Char16>, l: Layout, a: seq<Arg>)
    requires o.Valid() && f != [] && !(0x30 <= f[0] <= 0x39) && !l.toField
    ensures Directive((if o.width > 0 then Shown(o.width, 10) else []) + f, a, l)
         == Directive(f, a, if o.width > 0 then l.(width := o.width) else l)
  {
    if o.width > 0 {
      NumberFlag(o.width, f, l, a);
    } else {
      assert [] + f == f;
    }
  }

  lemma WrittenFlag(on: bool, c: Char16, f: seq<Char16>, l: Layout, l': Layout, a: seq<Arg>)
    requires c in {0x30, 0x2d, 0x2c}
    requires l' == if !on then l else if c == 0x30 then l.(pad := 0x30) else if c == 0x2d then l.(padBefore := false) else l.(comma := true)
    ensures Directive((if on then [c] else []) + f, a, l) == Directive(f, a, l')
  {
    if on {
      OneFlag(c, f, l, l', a);
    } else {
      assert [] + f == f;
    }
  }

  /** The flags as written come to the layout they stand for. */
  lemma FlagsWritten(o: Flags, c: Char16, a: seq<Arg>)
    requires o.Valid() && IsConversion(c)
    ensures Directive(o.Written(c), a, PLAIN) == Directive([c], a, LayoutOf(o))
  {
    var tail := (if o.long then [0x6c] else []) + [c];
    var field := (if o.field.Some? then [0x2e] + Shown(o.field.value, 10) else []) + tail;
    var width := (if o.width > 0 then Shown(o.width, 10) else []) + field;
    var comma := (if o.comma then [0x2c] else []) + width;
    var zero := (if o.zero then [0x30] else []) + comma;
    var l1 := PLAIN.(padBefore := !o.minus);
    var l2 := l1.(pad := o.PadChar());
    var l3 := l2.(comma := o.comma);
    var l4 := l3.(width := o.width);
    var l5 := if o.field.Some? then l4.(toField := true, field := o.field.value) else l4;
    assert field[0] == 0x2e || field[0] == tail[0];
    WrittenFlag(o.minus, 0x2d, zero, PLAIN, l1, a);
    WrittenFlag(o.zero, 0x30, comma, l1, l2, a);
    WrittenFlag(o.comma, 0x2c, width, l2, l3, a);
    WrittenWidth(o, field, l3, a);
    WrittenField(o, c, tail, l4, a);
    WrittenTail(o, c, l5, a);
  }

  lemma OneConversion(c: Char16, l: Layout, l': Layout, a: seq<Arg>, text: seq<Char16>)
    requires IsConversion(c) && Converted(c, l, a) == Some((text, l', |a|))
    ensures Directive([c], a, l) == Some((Laid(l', text), [], []))
  {
    assert [c][1..] == [] && a[|a|..] == [];
  }

  lemma OneDirective(f: seq<Char16>, a: seq<Arg>, r: seq<Char16>)
    requires Directive(f, a, PLAIN) == Some((r, [], []))
    ensures Prints([0x25] + f, a, r)
  {
    assert ([0x25] + f)[1..] == f && r + [] == r;
  }

  /** A directive with flags prints the text of its conversion, laid out. */
  lemma DirectivePrints(o: Flags, o': Flags, c: Char16, a: seq<Arg>, text: seq<Char16>) returns (r: seq<Char16>)
    requires o.Valid() && o'.Valid() && IsConversion(c) && Converted(c, LayoutOf(o), a) == Some((text, LayoutOf(o'), |a|)) && |text| < TWO_64
    ensures Prints([0x25] + o.Written(c), a, r) && LaysOut(o', text, r)
  {
    r := Laid(LayoutOf(o'), text);
    FlagsWritten(o, c, a);
    OneConversion(c, LayoutOf(o), LayoutOf(o'), a, text);
    OneDirective(o.Written(c), a, r);
    LaidPlainly(o', text);
  }

  // ----- the conversions

  /** The word as a signed number of the given width: in range, and the same modulo its
      power of two. */
  predicate SignedWord(w: uint64, n: int, long: bool) {
    if long then -0x8000_0000_0000_0000 <= n < 0x8000_0000_0000_0000 && (n == w || n == w - 0x1_0000_0000_0000_0000)
    else -0x8000_0000 <= n < 0x8000_0000 && (n - w) % 0x1_0000_0000 == 0
  }

  /** The word as an unsigned one. */
  predicate UnsignedWord(w: uint64, n: nat, long: bool) {
    if long then n == w else n < 0x1_0000_0000 && (n - w) % 0x1_0000_0000 == 0
  }

  lemma LowWord(w: uint64, n: int)
    requires (n - w) % 0x1_0000_0000 == 0
    ensures n % 0x1_0000_0000 == w % 0x1_0000_0000
  {
    var k := (n - w) / 0x1_0000_0000;
    assert n == w + 0x1_0000_0000 * k;
  }

  lemma TextFits(v: nat)
    requires v <= TWO_64
    ensures |Shown(v, 10)| < 40 && |Groups(Shown(v, 10))| < 40
    ensures |Shown(v, 16)| < 40
  {
    assert Power(10, 5) == 100000;
    assert Power(10, 10) == 10000000000;
    assert Power(10, 15) == 1000000000000000;
    assert Power(10, 20) == 100000000000000000000;
    DigitsNeeded(v, 10, 20);
    assert Power(16, 8) == 0x1_0000_0000;
    assert Power(16, 16) == TWO_64;
    assert Power(16, 17) == 16 * TWO_64;
    DigitsNeeded(v, 16, 17);
    GroupsSize(Shown(v, 10));
  }

  /** The digits of a number, in groups with `,`. */
  function Decimal(n: nat, comma: bool): seq<Char16> {
    if comma then Groups(Shown(n, 10)) else Shown(n, 10)
  }

  /** With a sign in front of a negative number. */
  function SignedDecimal(n: int, comma: bool): seq<Char16> {
    if n < 0 then [0x2d] + Decimal(-n, comma) else Decimal(n, comma)
  }

  lemma SignedText(n: int64, comma: bool)
    ensures Signed(comma, n) == SignedDecimal(n, comma) && |SignedDecimal(n, comma)| < TWO_64
  {
    SignedPlainly(n);
    TextFits(Magnitude(n));
  }

  lemma SignedIs(w: uint64, n: int, long: bool)
    requires SignedWord(w, n, long)
    ensures -TWO_64 / 2 <= n < TWO_64 / 2 && AsSigned(w, long) == n
  {
    if !long {
      LowWord(w, n);
    }
  }

  lemma UnsignedIs(w: uint64, n: nat, long: bool)
    requires UnsignedWord(w, n, long)
    ensures n < TWO_64 && Unsigned(w, long) == n
  {
    if !long {
      LowWord(w, n);
    }
  }

  lemma WordConverted(o: Flags, c: Char16, w: uint64)
    requires o.Valid() && c in {0x64, 0x75, 0x78, 0x63}
    ensures Converted(c, LayoutOf(o), [Word(w)]) == Some((OfWord(c, LayoutOf(o), w), LayoutOf(o), 1))
  {}

  /** `%d`: the digits of the number's magnitude, behind a minus sign exactly for a negative
      number. */
  lemma SignedConversion(o: Flags, w: uint64, n: int) returns (r: seq<Char16>)
    requires o.Valid() && SignedWord(w, n, o.long)
    ensures Prints([0x25] + o.Written(0x64), [Word(w)], r) && LaysOut(o, SignedDecimal(n, o.comma), r)
  {
    SignedIs(w, n, o.long);
    SignedText(n, o.comma);
    WordConverted(o, 0x64, w);
    r := DirectivePrints(o, o, 0x64, [Word(w)], SignedDecimal(n, o.comma));
  }

  /** `%u`: the same for a number without sign; but with `l` the word is taken for a signed
      number all the same. */
  lemma UnsignedConversion(o: Flags, w: uint64, n: nat, signed: int) returns (r: seq<Char16>)
    requires o.Valid() && UnsignedWord(w, n, o.long) && SignedWord(w, signed, true)
    ensures Prints([0x25] + o.Written(0x75), [Word(w)], r)
    ensures LaysOut(o, if o.long then SignedDecimal(signed, o.comma) else Decimal(n, o.comma), r)
  {
    UnsignedIs(w, n, o.long);
    SignedIs(w, signed, true);
    var v := if o.long then signed else n;
    SignedText(v, o.comma);
    WordConverted(o, 0x75, w);
    r := DirectivePrints(o, o, 0x75, [Word(w)], SignedDecimal(v, o.comma));
  }

  /** `%x`: its hex digits. */
  lemma HexConversion(o: Flags, w: uint64, n: nat) returns (r: seq<Char16>)
    requires o.Valid() && UnsignedWord(w, n, o.long)
    ensures Prints([0x25] + o.Written(0x78), [Word(w)], r) && LaysOut(o, Shown(n, 16), r)
  {
    UnsignedIs(w, n, o.long);
    TextFits(n);
    WordConverted(o, 0x78, w);
    r := DirectivePrints(o, o, 0x78, [Word(w)], Shown(n, 16));
  }

  /** `%X`: the same, with zeros up to 8 digits, or 16 with `l`. */
  lemma FixedHexConversion(o: Flags, w: uint64, n: nat) returns (r: seq<Char16>)
    requires o.Valid() && UnsignedWord(w, n, o.long)
    ensures Prints([0x25] + o.Written(0x58), [Word(w)], r)
    ensures LaysOut(o.(zero := true, width := if o.long then 16 else 8), Shown(n, 16), r)
  {
    var o' := o.(zero := true, width := if o.long then 16 else 8);
    UnsignedIs(w, n, o.long);
    TextFits(n);
    assert FixedHex(LayoutOf(o)) == LayoutOf(o');
    r := DirectivePrints(o, o', 0x58, [Word(w)], Shown(n, 16));
  }

  /** `%c`: the character in the low 16 bits, or nothing for a NUL. */
  lemma CharacterConversion(o: Flags, w: uint64) returns (r: seq<Char16>)
    requires o.Valid()
    ensures Prints([0x25] + o.Written(0x63), [Word(w)], r)
    ensures LaysOut(o, if w % 0x1_0000 == 0 then [] else [w % 0x1_0000], r)
  {
    WordConverted(o, 0x63, w);
    r := DirectivePrints(o, o, 0x63, [Word(w)], if w % 0x1_0000 == 0 then [] else [w % 0x1_0000]);
  }

  /** `%s`: the string up to its NUL, or `(null)` for NULL. */
  lemma StringConversion(o: Flags, text: seq<Char16>, more: seq<Char16>) returns (r: seq<Char16>)
    requires o.Valid() && 0 !in text && |text| < TWO_64
    ensures Prints([0x25] + o.Written(0x73), [Chars16(Some(text + [0] + more))], r) && LaysOut(o, text, r)
  {
    assert text + [0] + more == text + ([0] + more);
    UptoText(text, [0] + more);
    r := DirectivePrints(o, o, 0x73, [Chars16(Some(text + [0] + more))], text);
  }

  /** `%a`: the same of single bytes. */
  lemma AsciiConversion(o: Flags, text: seq<byte>, more: seq<byte>) returns (r: seq<Char16>)
    requires o.Valid() && 0 !in text && |text| < TWO_64
    ensures Prints([0x25] + o.Written(0x61), [Chars8(Some(text + [0] + more))], r)
    ensures LaysOut(o, seq(|text|, i requires 0 <= i < |text| => text[i]), r)
  {
    var wide: seq<Char16> := seq(|text|, i requires 0 <= i < |text| => text[i]);
    var all := text + [0] + more;
    assert Ascii(all).Chars() == wide + Ascii([0] + more).Chars();
    UptoText(wide, Ascii([0] + more).Chars());
    r := DirectivePrints(o, o, 0x61, [Chars8(Some(all))], wide);
  }

  lemma NullConversion(o: Flags) returns (r: seq<Char16>)
    requires o.Valid()
    ensures Prints([0x25] + o.Written(0x73), [Chars16(None)], r) && Prints([0x25] + o.Written(0x61), [Chars8(None)], r)
    ensures LaysOut(o, [0x28, 0x6e, 0x75, 0x6c, 0x6c, 0x29], r)
  {
    r := DirectivePrints(o, o, 0x73, [Chars16(None)], NULL_TEXT);
    var r' := DirectivePrints(o, o, 0x61, [Chars8(None)], NULL_TEXT);
    OnlyOne(o, NULL_TEXT, r, r');
  }

  lemma AllTheSame(a: seq<Char16>, b: seq<Char16>, c: Char16)
    requires AllAre(a, c) && AllAre(b, c) && |a| == |b|
    ensures a == b
  {}

  lemma ThreeParts(r: seq<Char16>, i: nat, j: nat)
    requires i <= j <= |r|
    ensures r == r[..i] + r[i..j] + r[j..]
  {}

  /** There is just one way to lay a text out. */
  lemma OnlyOne(o: Flags, text: seq<Char16>, r: seq<Char16>, r': seq<Char16>)
    requires LaysOut(o, text, r) && LaysOut(o, text, r')
    ensures r == r'
  {
    var s := if o.field.Some? && o.field.value < |text| then text[..o.field.value] else text;
    var pads := if o.width > |s| then o.width - |s| else 0;
    var blanks := if o.field.Some? && o.field.value > pads + |s| then o.field.value - pads - |s| else 0;
    var i, j := if o.minus then pads else blanks, if o.minus then pads + |s| else blanks + pads;
    ThreeParts(r, i, j);
    ThreeParts(r', i, j);
    if o.minus {
      AllTheSame(r[..pads], r'[..pads], o.PadChar());
      AllTheSame(r[pads + |s|..], r'[pads + |s|..], 0x20);
    } else {
      AllTheSame(r[..blanks], r'[..blanks], 0x20);
      AllTheSame(r[blanks..blanks + pads], r'[blanks..blanks + pads], o.PadChar());
    }
  }

  /** Without a width or a field it is the text itself. */
  lemma NoFlags(o: Flags, text: seq<Char16>, r: seq<Char16>)
    requires LaysOut(o, text, r) && o.width == 0 && o.field.None?
    ensures r == text
  {}

  /** So `%d` and `%ld` alone: a minus sign exactly for a negative number, and what stands
      behind it is read back as its magnitude. */
  lemma SignedReadsBack(w: uint64, n: int, long: bool) returns (r: seq<Char16>)
    requires SignedWord(w, n, long)
    ensures Prints(if long then [0x25, 0x6c, 0x64] else [0x25, 0x64], [Word(w)], r) && r != []
    ensures (r[0] == 0x2d <==> n < 0) && Read(if n < 0 then r[1..] else r, 10) == if n < 0 then -n else n
  {
    var o := NONE.(long := long);
    assert [0x25] + o.Written(0x64) == if long then [0x25, 0x6c, 0x64] else [0x25, 0x64];
    r := SignedConversion(o, w, n);
    var m := if n < 0 then -n else n;
    ReadPlain(m, 10);
    ShownPlainly(m, 10);
    NoFlags(o, SignedDecimal(n, false), r);
    if n < 0 {
      assert r[1..] == Shown(m, 10);
    }
  }

  /** And `%u`, `%x`. */
  lemma UnsignedReadsBack(w: uint64, n: nat) returns (r: seq<Char16>, h: seq<Char16>)
    requires UnsignedWord(w, n, false)
    ensures Prints([0x25, 0x75], [Word(w)], r) && Read(r, 10) == n
    ensures Prints([0x25, 0x78], [Word(w)], h) && Read(h, 16) == n
  {
    assert [0x25] + NONE.Written(0x75) == [0x25, 0x75] && [0x25] + NONE.Written(0x78) == [0x25, 0x78];
    r := UnsignedConversion(NONE, w, n, Signed64(w));
    h := HexConversion(NONE, w, n);
    NoFlags(NONE, Shown(n, 10), r);
    NoFlags(NONE, Shown(n, 16), h);
    ReadPlain(n, 10);
    ReadPlain(n, 16);
  }

  /** A `*` takes its number from the arguments. */
  lemma StarIsNumber(n: nat, f: seq<Char16>, a: seq<Arg>)
    requires 0 < n < TWO_64 && f != [] && !(0x30 <= f[0] <= 0x39)
    ensures Format([0x25, 0x2a] + f, [Word(n)] + a) == Format([0x25] + (Shown(n, 10) + f), a)
  {
    var s, t := [0x2a] + f, Shown(n, 10) + f;
    assert [0x25, 0x2a] + f == [0x25] + s && ([0x25] + s)[1..] == s && ([0x25] + t)[1..] == t;
    assert s[1..] == f && ([Word(n)] + a)[1..] == a;
    assert Flagged(s, PLAIN, [Word(n)] + a) == Some((PLAIN.WithNumber(n), 1, 1));
    NumberFlag(n, f, PLAIN, a);
  }

  /** `%%` prints a percent sign ... */
  lemma PercentConversion()
    ensures Prints([0x25, 0x25], [], [0x25])
  {
    var r := DirectivePrints(NONE, NONE, 0x25, [], [0x25]);
    assert [0x25] + NONE.Written(0x25) == [0x25, 0x25];
    NoFlags(NONE, [0x25], r);
  }

  /** The characters a directive knows: `%`, the flags and digits, `X`, `a`, `c`, `d`, `l`,
      `s`, `u`, `x`, and those that are not modelled. */
  predicate IsKnown(c: Char16) {
    c in {0x25, 0x2a, 0x2c, 0x2d, 0x2e, 0x58, 0x61, 0x63, 0x64, 0x6c, 0x73, 0x75, 0x78} || 0x30 <= c <= 0x39
    || c in NotModelled()
  }

  /** ... and any character it does not know a question mark. */
  lemma UnknownConversion(c: Char16)
    requires !IsKnown(c)
    ensures Prints([0x25, c], [], [0x3f])
  {
    var r := DirectivePrints(NONE, NONE, c, [], [0x3f]);
    assert [0x25] + NONE.Written(c) == [0x25, c];
    NoFlags(NONE, [0x3f], r);
  }

  /** Only a newline is changed on its way out: a carriage return goes before it. */
  lemma NewlinesPlainly(s: seq<Char16>, c: Char16)
    ensures Crlf(s + [c]) == Crlf(s) + if c == 0x0a then [0x0d, 0x0a] else [c]
  {
    assert (s + [c])[..|s|] == s;
  }
}
