/** What a format string and its arguments come to, independently of buffers. */
module PrintFormat {
  import opened Options
  import opened Chars
  import opened Words
  import opened Numbers

  const UPPER_X: Char16 := 0x58
  const LOWER_C: Char16 := 0x63
  const LOWER_D: Char16 := 0x64
  const LOWER_L: Char16 := 0x6c
  const LOWER_S: Char16 := 0x73
  const LOWER_U: Char16 := 0x75
  const LOWER_X: Char16 := 0x78

  /** The largest width means that none was given. */
  const NO_FIELD: uint64 := TWO_64 - 1

  // ----- strings in memory

  /** A string: what stands before the first NUL. */
  function Upto(s: seq<Char16>): seq<Char16> {
    if s == [] || s[0] == 0 then [] else [s[0]] + Upto(s[1..])
  }

  lemma {:induction false} UptoAt(s: seq<Char16>, i: nat)
    requires i <= |Upto(s)|
    ensures |Upto(s)| <= |s|
    ensures i < |Upto(s)| ==> s[i] == Upto(s)[i] != 0
    ensures i == |Upto(s)| ==> At(s, i) == 0
  {
    if s != [] && s[0] != 0 {
      if i > 0 {
        UptoAt(s[1..], i - 1);
      } else {
        UptoAt(s[1..], 0);
      }
    }
  }

  lemma {:induction false} UptoText(t: seq<Char16>, more: seq<Char16>)
    requires 0 !in t && (more == [] || more[0] == 0)
    ensures Upto(t + more) == t
  {
    if t == [] {
      assert t + more == more;
    } else {
      assert (t + more)[1..] == t[1..] + more;
      UptoText(t[1..], more);
    }
  }

  /** A pointer to characters of either width. Past the end of what is given there is
      a NUL. */
  datatype CharPtr = Wide(pw: seq<Char16>) | Ascii(pc: seq<byte>) {
    function Chars(): seq<Char16> {
      if Wide? then pw else seq(|pc|, i requires 0 <= i < |pc| => pc[i])
    }

    /** `PGETC`, before the index moves on. */
    function Get(i: nat): Char16
      requires i <= |Chars()|
    {
      if Wide? then At(pw, i) else if i < |pc| then pc[i] else 0
    }

    function Text(): seq<Char16> {
      Upto(Chars())
    }

    lemma GetText(i: nat)
      requires i <= |Text()|
      ensures |Text()| <= |Chars()| && Get(i) == At(Text(), i)
      ensures Get(i) == 0 <==> i == |Text()|
    {
      UptoAt(Chars(), i);
    }
  }

  // ----- layout of one item

  /** `%w.lF`: where the next number goes, the padding, and the flags. */
  datatype Layout = Layout(width: uint64, field: uint64, toField: bool, pad: Char16, padBefore: bool, comma: bool, long: bool) {
    function WithNumber(n: uint64): Layout {
      if toField then this.(field := n) else this.(width := n)
    }
  }

  const PLAIN: Layout := Layout(0, NO_FIELD, false, SPACE, true, false, false)

  function Fill(n: nat, c: Char16): seq<Char16> {
    seq(n, i => c)
  }

  function Max(a: int, b: int): int {
    if a < b then b else a
  }

  /** The part of a text that fits its field. */
  function Cut(l: Layout, text: seq<Char16>): seq<Char16> {
    if |text| <= l.field then text else text[..l.field]
  }

  /** Blanks needed to fill the field. */
  function Blanks(l: Layout, text: seq<Char16>): nat {
    var width := Max(l.width, |Cut(l, text)|);
    if l.field == NO_FIELD || l.field < width then 0 else l.field - width
  }

  /** A text cut to its field, padded to its width, and set left or right in its field. */
  function Laid(l: Layout, text: seq<Char16>): seq<Char16> {
    var s := Cut(l, text);
    var body := Fill(Max(l.width - |s|, 0), l.pad) + s;
    var blanks := Fill(Blanks(l, text), SPACE);
    if l.padBefore then blanks + body else body + blanks
  }

  /** An item is exactly as long as the widest of field, width and text, and the text
      that survives the cut stands at its end, or in front of the blanks. */
  lemma LaidSize(l: Layout, text: seq<Char16>)
    ensures var s := Cut(l, text);
      && |Laid(l, text)| == Max(Max(if l.field == NO_FIELD then 0 else l.field, l.width), |s|)
      && s <= text
      && (l.padBefore ==> Laid(l, text)[|Laid(l, text)| - |s|..] == s)
      && (!l.padBefore ==> Laid(l, text)[Max(l.width - |s|, 0)..Max(l.width, |s|)] == s)
  {}

  // ----- arguments and conversions

  /** An argument on the stack: a machine word, or a pointer that may be NULL. */
  datatype Arg = Word(bits: uint64) | Chars16(pw: Option<seq<Char16>>) | Chars8(pc: Option<seq<byte>>)

  const NULL_TEXT: seq<Char16> := [0x28, 0x6e, 0x75, 0x6c, 0x6c, 0x29]

  /** `va_arg` of 64 or 32 bits, as an unsigned number. */
  function Unsigned(bits: uint64, long: bool): uint64 {
    if long then bits else bits % TWO_32
  }

  /** The same word as a signed number. */
  function Signed64(bits: uint64): int64 {
    if bits < TWO_64 / 2 then bits else bits - TWO_64
  }

  function AsSigned(bits: uint64, long: bool): int64 {
    if long then Signed64(bits)
    else if bits % TWO_32 < TWO_32 / 2 then bits % TWO_32
    else bits % TWO_32 - TWO_32
  }

  predicate IsWord(args: seq<Arg>) {
    args != [] && args[0].Word?
  }

  /** The text of a conversion, its layout, and how many arguments it takes. None: a
      conversion that is not modelled, or an argument of the wrong kind. */
  function Converted(c: Char16, l: Layout, args: seq<Arg>): Option<(seq<Char16>, Layout, nat)> {
    if c == PERCENT then Some(([PERCENT], l, 0))
    else if c == LOWER_A then
      if args == [] || !args[0].Chars8? then None
      else Some((if args[0].pc.None? then NULL_TEXT else Ascii(args[0].pc.value).Text(), l, 1))
    else if c == LOWER_S then
      if args == [] || !args[0].Chars16? then None
      else Some((if args[0].pw.None? then NULL_TEXT else Wide(args[0].pw.value).Text(), l, 1))
    else if c in {LOWER_C, UPPER_X, LOWER_X, LOWER_U, LOWER_D} then
      if !IsWord(args) then None
      else Some((OfWord(c, l, args[0].bits), if c == UPPER_X then FixedHex(l) else l, 1))
    else if c in NotModelled() then None
    else Some(([QUESTION], l, 0))
  }

  function FixedHex(l: Layout): Layout {
    l.(width := if l.long then 16 else 8, pad := ZERO)
  }

  function OfWord(c: Char16, l: Layout, bits: uint64): seq<Char16> {
    if c == LOWER_C then if bits % 0x1_0000 == 0 then [] else [bits % 0x1_0000]
    else if c == LOWER_U then Signed(l.comma, Signed64(Unsigned(bits, l.long)))
    else if c == LOWER_D then Signed(l.comma, AsSigned(bits, l.long))
    else Shown(Unsigned(bits, l.long), 16)
  }

  /** `D`, `E`, `H`, `N`, `e`, `f`, `g`, `h`, `n`, `r`, `t` */
  function NotModelled(): set<Char16> {
    {0x44, 0x45, 0x48, 0x4e, 0x65, 0x66, 0x67, 0x68, 0x6e, 0x72, 0x74}
  }

  // ----- directives and whole formats

  predicate IsFlag(c: Char16) {
    c in {ZERO, MINUS, COMMA, DOT, LOWER_L, STAR} || ZERO < c <= NINE
  }

  /** What one flag at the start of a directive does: the layout, how many characters
      of the format and how many arguments it takes. */
  function Flagged(f: seq<Char16>, l: Layout, args: seq<Arg>): (r: Option<(Layout, nat, nat)>)
    requires f != [] && IsFlag(f[0])
    ensures r.Some? ==> 0 < r.value.1 <= |f| && r.value.2 <= |args|
  {
    var c := f[0];
    if c == ZERO then Some((l.(pad := ZERO), 1, 0))
    else if c == MINUS then Some((l.(padBefore := false), 1, 0))
    else if c == COMMA then Some((l.(comma := true), 1, 0))
    else if c == DOT then Some((l.(toField := true), 1, 0))
    else if c == LOWER_L then Some((l.(long := true), 1, 0))
    else if c == STAR then
      if IsWord(args) then Some((l.WithNumber(args[0].bits), 1, 1)) else None
    else
      LeadingAtMost(f);
      var ds := LeadingDigits(f, 10);
      Some((l.WithNumber(Low(ds, 10)), |ds|, 0))
  }

  lemma {:induction false} LeadingAtMost(f: seq<Char16>)
    ensures |LeadingDigits(f, 10)| <= |f|
    ensures f != [] && DigitOf(f[0], 10).Some? ==> 0 < |LeadingDigits(f, 10)|
  {
    if f != [] && DigitOf(f[0], 10).Some? {
      LeadingAtMost(f[1..]);
    }
  }

  /** The conversion that ends a directive. */
  function Conversion(f: seq<Char16>, args: seq<Arg>, l: Layout): (r: Option<(seq<Char16>, seq<Char16>, seq<Arg>)>)
    requires f != []
    ensures r.Some? ==> r.value.1 == f[1..]
  {
    var r := Converted(f[0], l, args);
    if r.None? then None else Some((Laid(r.value.1, r.value.0), f[1..], args[r.value.2..]))
  }

  /** A directive behind its `%`: its output, and what is left of format and arguments.
      None: it is not complete, or not modelled, or an argument does not fit. */
  function Directive(f: seq<Char16>, args: seq<Arg>, l: Layout): (r: Option<(seq<Char16>, seq<Char16>, seq<Arg>)>)
    ensures r.Some? ==> |r.value.1| < |f|
    decreases |f|
  {
    if f == [] then None
    else if IsFlag(f[0]) then
      var r := Flagged(f, l, args);
      if r.None? then None else Directive(f[r.value.1..], args[r.value.2..], r.value.0)
    else Conversion(f, args, l)
  }

  /** The output of a format, newlines not yet expanded, and the arguments it leaves. */
  function Format(f: seq<Char16>, args: seq<Arg>): Option<(seq<Char16>, seq<Arg>)>
    decreases |f|
  {
    if f == [] then Some(([], args))
    else if f[0] != PERCENT then Behind([f[0]], Format(f[1..], args))
    else
      var d := Directive(f[1..], args, PLAIN);
      if d.None? then None else Behind(d.value.0, Format(d.value.1, d.value.2))
  }

  function Behind(first: seq<Char16>, rest: Option<(seq<Char16>, seq<Arg>)>): Option<(seq<Char16>, seq<Arg>)> {
    if rest.None? then None else Some((first + rest.value.0, rest.value.1))
  }

  /** Text without directives stands for itself. */
  lemma {:induction false} FormatOfText(f: seq<Char16>, args: seq<Arg>)
    requires PERCENT !in f
    ensures Format(f, args) == Some((f, args))
  {
    if f != [] {
      FormatOfText(f[1..], args);
      assert [f[0]] + f[1..] == f;
    }
  }

  /** A number printed in full in hex is what `xtoi` reads back. */
  lemma HexReadsBack(v: uint64)
    ensures Format([PERCENT, LOWER_L, LOWER_X], [Word(v)]) == Some((Shown(v, 16), []))
    ensures Read(Shown(v, 16), 16) == v
  {
    HexRoundTrip(v);
    var f, t, a := [PERCENT, LOWER_L, LOWER_X], Shown(v, 16), [Word(v)];
    assert f[1..] == [LOWER_L, LOWER_X] && f[1..][1..] == [LOWER_X];
    LongHex(v);
    assert a[0..] == a;
    assert Directive(f[1..], a, PLAIN) == Directive([LOWER_X], a, PLAIN.(long := true));
    assert t + [] == t;
  }

  lemma LongHex(v: uint64)
    ensures Directive([LOWER_X], [Word(v)], PLAIN.(long := true)) == Some((Shown(v, 16), [], []))
  {
    PrintedSizes(v, 0, false);
    var l, a, t := PLAIN.(long := true), [Word(v)], Shown(v, 16);
    assert Laid(l, t) == t;
    assert a[1..] == [] && [LOWER_X][1..] == [];
    assert Converted(LOWER_X, l, a) == Some((t, l, 1));
  }

  /** `%lu` hands its value on as a signed one, and so prints it as it is only up to
      the largest of those, with commas or without. */
  lemma LongUnsigned(l: Layout, bits: uint64)
    requires l.long
    ensures OfWord(LOWER_U, l, bits) == (if l.comma then Groups(Shown(bits, 10)) else Shown(bits, 10)) <==> bits < TWO_64 / 2
  {
    var t := Shown(bits, 10);
    if bits >= TWO_64 / 2 {
      assert OfWord(LOWER_U, l, bits)[0] == MINUS;
      assert t[0] == DigitChar(ShownDigits(bits, 10)[0]) != MINUS;
      if |t| > 3 {
        var g := FirstComma(t);
      }
    } else {
      assert [] + t == t && [] + Groups(t) == Groups(t);
    }
  }

  // ----- one format behind another

  lemma {:induction false} LeadingWithin(f: seq<Char16>, g: seq<Char16>)
    requires |LeadingDigits(f, 10)| < |f|
    ensures LeadingDigits(f + g, 10) == LeadingDigits(f, 10)
  {
    if f != [] && DigitOf(f[0], 10).Some? {
      assert (f + g)[1..] == f[1..] + g;
      LeadingWithin(f[1..], g);
    }
  }

  lemma FlaggedAppend(f: seq<Char16>, g: seq<Char16>, l: Layout, a: seq<Arg>, b: seq<Arg>)
    requires f != [] && IsFlag(f[0])
    requires Flagged(f, l, a).Some? && Flagged(f, l, a).value.1 < |f|
    ensures Flagged(f + g, l, a + b) == Flagged(f, l, a)
  {
    if ZERO < f[0] <= NINE {
      LeadingWithin(f, g);
    }
  }

  lemma ConvertedAppend(c: Char16, l: Layout, a: seq<Arg>, b: seq<Arg>)
    requires Converted(c, l, a).Some?
    ensures Converted(c, l, a + b) == Converted(c, l, a) && Converted(c, l, a).value.2 <= |a|
  {}

  lemma ConversionAppend(f: seq<Char16>, g: seq<Char16>, l: Layout, a: seq<Arg>, b: seq<Arg>)
    requires f != [] && Conversion(f, a, l).Some?
    ensures var d := Conversion(f, a, l).value;
      Conversion(f + g, a + b, l) == Some((d.0, d.1 + g, d.2 + b))
  {
    var r := Converted(f[0], l, a).value;
    ConvertedAppend(f[0], l, a, b);
    assert (f + g)[1..] == f[1..] + g && (a + b)[r.2..] == a[r.2..] + b;
  }

  lemma TailAppend<T>(x: seq<T>, k: nat, y: seq<T>)
    requires k <= |x|
    ensures (x + y)[k..] == x[k..] + y
  {}

  lemma {:induction false} DirectiveAppend(f: seq<Char16>, g: seq<Char16>, l: Layout, a: seq<Arg>, b: seq<Arg>)
    requires Directive(f, a, l).Some?
    ensures var d := Directive(f, a, l).value;
      Directive(f + g, a + b, l) == Some((d.0, d.1 + g, d.2 + b))
    decreases |f|
  {
    if IsFlag(f[0]) {
      var r := Flagged(f, l, a).value;
      assert Directive(f[r.1..], a[r.2..], r.0).Some? && r.1 < |f|;
      DirectiveAppend(f[r.1..], g, r.0, a[r.2..], b);
      FlaggedAppend(f, g, l, a, b);
      TailAppend(f, r.1, g);
      TailAppend(a, r.2, b);
    } else {
      ConversionAppend(f, g, l, a, b);
    }
  }

  /** A format in front of another one prints its own output in front of the other's. */
  lemma {:induction false} FormatAppend(f: seq<Char16>, g: seq<Char16>, a: seq<Arg>, b: seq<Arg>)
    requires Format(f, a).Some?
    ensures Format(f + g, a + b) == Behind(Format(f, a).value.0, Format(g, Format(f, a).value.1 + b))
    decreases |f|
  {
    if f == [] {
      assert f + g == g;
      BehindNothing(Format(g, a + b));
    } else if f[0] != PERCENT {
      assert (f + g)[1..] == f[1..] + g;
      FormatAppend(f[1..], g, a, b);
      BehindBoth([f[0]], Format(f[1..], a).value.0, Format(g, Format(f, a).value.1 + b));
    } else {
      var d := Directive(f[1..], a, PLAIN).value;
      assert (f + g)[1..] == f[1..] + g;
      DirectiveAppend(f[1..], g, PLAIN, a, b);
      FormatAppend(d.1, g, d.2, b);
      BehindBoth(d.0, Format(d.1, d.2).value.0, Format(g, Format(f, a).value.1 + b));
    }
  }

  lemma BehindNothing(rest: Option<(seq<Char16>, seq<Arg>)>)
    ensures Behind([], rest) == rest
  {
    if rest.Some? {
      assert [] + rest.value.0 == rest.value.0;
    }
  }

  lemma BehindBoth(s: seq<Char16>, t: seq<Char16>, rest: Option<(seq<Char16>, seq<Arg>)>)
    ensures Behind(s, Behind(t, rest)) == Behind(s + t, rest)
  {
    if rest.Some? {
      assert s + (t + rest.value.0) == (s + t) + rest.value.0;
    }
  }

  // ----- newlines

  /** Each newline preceded by a carriage return. */
  function Crlf(s: seq<Char16>): seq<Char16> {
    if s == [] then []
    else Crlf(s[..|s| - 1]) + (if s[|s| - 1] == NEWLINE then [RETURN] else []) + [s[|s| - 1]]
  }

  lemma {:induction false} CrlfAppend(a: seq<Char16>, b: seq<Char16>)
    ensures Crlf(a + b) == Crlf(a) + Crlf(b)
  {
    if b == [] {
      assert a + b == a;
    } else {
      assert (a + b)[..|a + b| - 1] == a + b[..|b| - 1];
      CrlfAppend(a, b[..|b| - 1]);
    }
  }
}
