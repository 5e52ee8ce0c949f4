/** `_Print`: the interpreter of formats, and its 200-character output buffer. */
module Printing {
  import opened Options
  import opened Chars
  import opened Words
  import opened Numbers
  import opened PrintFormat

  const PRINT_STRING_LEN: nat := 200
  const PRINT_ITEM_BUFFER_LEN: nat := 100

  /** All chunks, one behind the other. */
  function Flat(chunks: seq<seq<Char16>>): seq<Char16> {
    if chunks == [] then [] else Flat(chunks[..|chunks| - 1]) + chunks[|chunks| - 1]
  }

  /** Chunks a reader that stops at the first NUL gets whole, and that fit the buffer. */
  ghost predicate WholeChunks(chunks: seq<seq<Char16>>) {
    forall i :: 0 <= i < |chunks| ==> |chunks[i]| < PRINT_STRING_LEN && 0 !in chunks[i]
  }

  lemma FlatAppend(chunks: seq<seq<Char16>>, chunk: seq<Char16>)
    ensures Flat(chunks + [chunk]) == Flat(chunks) + chunk
  {
    assert (chunks + [chunk])[..|chunks|] == chunks;
  }

  lemma WholeAppend(chunks: seq<seq<Char16>>, chunk: seq<Char16>)
    requires WholeChunks(chunks) && |chunk| < PRINT_STRING_LEN && 0 !in chunk
    ensures WholeChunks(chunks + [chunk])
  {}

  /** What a 64-bit counter of characters holds. */
  ghost function Count(s: seq<Char16>): uint64 {
    if s == [] then 0 else (Count(s[..|s| - 1]) + 1) % TWO_64
  }

  lemma {:induction false} CountIsLength(s: seq<Char16>)
    ensures Count(s) == |s| % TWO_64
  {
    if s != [] {
      CountIsLength(s[..|s| - 1]);
      NextCount(|s| - 1);
    }
  }

  lemma NextCount(n: nat)
    ensures (n % TWO_64 + 1) % TWO_64 == (n + 1) % TWO_64
  {}

  lemma Behind2(s: seq<Char16>, t: seq<Char16>, u: seq<Char16>, a: seq<Char16>, b: seq<Char16>)
    requires t == s + Crlf(a) && u == t + Crlf(b)
    ensures u == s + Crlf(a + b)
  {
    CrlfAppend(a, b);
  }

  class PrintItem {
    var item: Option<CharPtr>
    var index: nat
    const scratch: array<Char16>
    var width: uint64
    var fieldWidth: uint64
    var toField: bool
    var pad: Char16
    var padBefore: bool
    var comma: bool
    var long: bool

    function Settings(): Layout
      reads this
    {
      Layout(width, fieldWidth, toField, pad, padBefore, comma, long)
    }

    constructor ()
      ensures fresh(scratch) && scratch.Length == PRINT_ITEM_BUFFER_LEN
    {
      scratch := new Char16[PRINT_ITEM_BUFFER_LEN];
    }

    method Reset()
      modifies this
      ensures Settings() == PLAIN && item == None
    {
      fieldWidth, width, toField, pad, padBefore, comma, long := NO_FIELD, 0, false, SPACE, true, false, false;
      item := None;
    }

    /** Sets the width or the field width, whichever comes next in the directive. */
    method SetNumber(n: uint64)
      modifies this
      ensures Settings() == old(Settings()).WithNumber(n) && item == old(item)
    {
      if toField {
        fieldWidth := n;
      } else {
        width := n;
      }
    }

    /** The length of the item, which ends at its NUL or where its field does. */
    method Measure() returns (len: nat)
      requires item.Some?
      modifies this`index
      ensures len == |Cut(Settings(), item.value.Text())|
    {
      index := 0;
      ghost var text := item.value.Text();
      item.value.GetText(0);
      while index < fieldWidth
        invariant index <= |text| && index <= fieldWidth
        decreases |text| - index
      {
        item.value.GetText(index);
        var c := item.value.Get(index);
        index := index + 1;
        if c == 0 {
          index := index - 1;
          break;
        }
      }
      len := index;
    }

    /** The length of the item, and its widths made at least that. */
    method FitWidths() returns (length: nat)
      requires item.Some?
      modifies this
      ensures item == old(item) && pad == old(pad) && padBefore == old(padBefore)
      ensures var l, text := old(Settings()), item.value.Text();
        && length <= |text| && text[..length] == Cut(l, text)
        && Max(width - length, 0) == Max(l.width - length, 0)
        && Max(fieldWidth - width, 0) == Blanks(l, text)
    {
      length := Measure();
      if fieldWidth == NO_FIELD {
        fieldWidth := length;
      }
      if length > width {
        width := length;
      }
    }
  }

  class PrintState {
    const fmt: CharPtr
    var index: nat
    var args: seq<Arg>
    const buffer: array<Char16>
    var pos: nat
    var len: uint64
    var output: seq<seq<Char16>>
    const item: PrintItem

    /** Everything printed: what was handed to the output function, and what is still
        in the buffer. */
    ghost var printed: seq<Char16>

    ghost predicate Held()
      reads this, buffer
    {
      && buffer.Length == PRINT_STRING_LEN && pos < PRINT_STRING_LEN
      && 0 !in buffer[..pos] && WholeChunks(output)
      && printed == Flat(output) + buffer[..pos] && len == Count(printed)
    }

    /** The buffer is within bounds and has room for a character and a NUL. */
    ghost predicate Ready()
      reads this, buffer
    {
      Held() && pos < PRINT_STRING_LEN - 1
    }

    constructor (fmt: CharPtr, args: seq<Arg>)
      ensures this.fmt == fmt && this.args == args && this.index == 0
      ensures Ready() && printed == [] && fresh(buffer) && fresh(item) && fresh(item.scratch)
      ensures buffer != item.scratch && item.scratch.Length == PRINT_ITEM_BUFFER_LEN
    {
      this.fmt, this.args, this.index := fmt, args, 0;
      buffer := new Char16[PRINT_STRING_LEN];
      pos, len, output, printed := 0, 0, [], [];
      item := new PrintItem();
    }

    /** `PFLUSH`: hands the buffer, NUL-terminated, to the output function. */
    method Flush()
      requires Held()
      modifies `pos, `output, buffer
      ensures Ready() && pos == 0 && printed == old(printed)
      ensures output == old(output) + [old(buffer[..pos])]
    {
      ghost var text := buffer[..pos];
      buffer[pos] := 0;
      BufferText(buffer[..], text);
      FlatAppend(output, text);
      WholeAppend(output, text);
      output := output + [Upto(buffer[..])];
      pos := 0;
      assert Flat(output) + buffer[..pos] == Flat(output);
    }

    lemma BufferText(buf: seq<Char16>, text: seq<Char16>)
      requires |text| < |buf| && buf[..|text|] == text && buf[|text|] == 0 && 0 !in text
      ensures Upto(buf) == text
    {
      assert buf == text + buf[|text|..];
      UptoText(text, buf[|text|..]);
    }

    /** `PPUTC` of anything but a newline. */
    method Put(c: Char16)
      requires Ready() && c != 0
      modifies `pos, `len, `output, `printed, buffer
      ensures Ready() && printed == old(printed) + [c]
    {
      buffer[pos] := c;
      pos := pos + 1;
      len := (len + 1) % TWO_64;
      assert buffer[..pos] == old(buffer[..pos]) + [c];
      assert printed + [c] == Flat(output) + buffer[..pos];
      printed := printed + [c];
      assert printed[..|printed| - 1] == old(printed);
      if pos >= PRINT_STRING_LEN - 1 {
        Flush();
      }
    }

    /** `PPUTC`: a newline gets a carriage return in front of it. */
    method PutChar(c: Char16)
      requires Ready() && c != 0
      modifies `pos, `len, `output, `printed, buffer
      ensures Ready() && printed == old(printed) + Crlf([c])
    {
      assert [c][..0] == [];
      if c == NEWLINE {
        Put(RETURN);
      }
      Put(c);
    }

    /** A run of one character, none if the bounds are the wrong way round. */
    method PutMany(from: int, to: int, c: Char16)
      requires Ready() && c != 0
      modifies `pos, `len, `output, `printed, buffer
      ensures Ready() && printed == old(printed) + Crlf(Fill(Max(to - from, 0), c))
    {
      var i := from;
      ghost var done: seq<Char16> := [];
      assert printed + Crlf([]) == printed;
      while i < to
        invariant Ready() && i == from + |done| && (i <= to || i == from)
        invariant done == Fill(|done|, c) && printed == old(printed) + Crlf(done)
      {
        PutChar(c);
        CrlfAppend(done, [c]);
        done := done + [c];
        i := i + 1;
      }
      assert done == Fill(Max(to - from, 0), c);
    }

    /** The characters of the item, up to a length. */
    method PutItem(n: nat)
      requires Ready() && item.item.Some? && n <= |item.item.value.Text()|
      modifies `pos, `len, `output, `printed, buffer, item`index
      ensures Ready() && printed == old(printed) + Crlf(item.item.value.Text()[..n])
    {
      ghost var before := printed;
      item.index := 0;
      assert before + Crlf(item.item.value.Text()[..0]) == before;
      while item.index < n
        invariant Ready() && item.index <= n && item.item == old(item.item)
        invariant printed == before + Crlf(item.item.value.Text()[..item.index])
      {
        PutItemChar(before);
      }
    }

    /** The next character of the item. */
    method PutItemChar(ghost before: seq<Char16>)
      requires Ready() && item.item.Some? && item.index < |item.item.value.Text()|
      requires printed == before + Crlf(item.item.value.Text()[..item.index])
      modifies `pos, `len, `output, `printed, buffer, item`index
      ensures Ready() && item.index == old(item.index) + 1
      ensures printed == before + Crlf(item.item.value.Text()[..item.index])
    {
      ghost var text, i := item.item.value.Text(), item.index;
      item.item.value.GetText(i);
      var c := item.item.value.Get(item.index);
      assert text[..i + 1] == text[..i] + [c];
      Behind2(before, printed, printed + Crlf([c]), text[..i], [c]);
      item.index := item.index + 1;
      PutChar(c);
    }

    /** The item behind its padding. */
    method PutPadded(length: nat, ghost body: seq<Char16>)
      requires Ready() && item.item.Some? && length <= |item.item.value.Text()| && item.pad != 0
      requires body == Fill(Max(item.width - length, 0), item.pad) + item.item.value.Text()[..length]
      modifies `pos, `len, `output, `printed, buffer, item`index
      ensures Ready() && printed == old(printed) + Crlf(body)
    {
      ghost var before := printed;
      PutMany(length, item.width, item.pad);
      ghost var middle := printed;
      PutItem(length);
      Behind2(before, middle, printed, Fill(Max(item.width - length, 0), item.pad), item.item.value.Text()[..length]);
    }

    method PutBlanks(ghost blanks: seq<Char16>)
      requires Ready() && blanks == Fill(Max(item.fieldWidth - item.width, 0), SPACE)
      modifies `pos, `len, `output, `printed, buffer
      ensures Ready() && printed == old(printed) + Crlf(blanks)
    {
      PutMany(item.width, item.fieldWidth, SPACE);
    }

    /** Padding and item, and the blanks that fill the field, in either order. */
    method PutField(length: nat, ghost blanks: seq<Char16>, ghost body: seq<Char16>)
      requires Ready() && item.item.Some? && length <= |item.item.value.Text()| && item.pad != 0
      requires blanks == Fill(Max(item.fieldWidth - item.width, 0), SPACE)
      requires body == Fill(Max(item.width - length, 0), item.pad) + item.item.value.Text()[..length]
      modifies `pos, `len, `output, `printed, buffer, item`index
      ensures Ready() && printed == old(printed) + Crlf(if item.padBefore then blanks + body else body + blanks)
    {
      ghost var before, middle := printed, [];
      if item.padBefore {
        PutBlanks(blanks);
        middle := printed;
        PutPadded(length, body);
        Behind2(before, middle, printed, blanks, body);
      } else {
        PutPadded(length, body);
        middle := printed;
        PutBlanks(blanks);
        Behind2(before, middle, printed, body, blanks);
      }
    }

    /** `PITEM`: the item laid out. */
    method LayOut()
      requires Ready() && item.item.Some? && item.pad != 0
      modifies `pos, `len, `output, `printed, buffer, item
      ensures Ready() && printed == old(printed) + Crlf(Laid(old(item.Settings()), old(item.item.value.Text())))
    {
      ghost var l, text := item.Settings(), item.item.value.Text();
      var length := item.FitWidths();
      ghost var blanks, body := Fill(Blanks(l, text), SPACE), Fill(Max(l.width - length, 0), l.pad) + Cut(l, text);
      LaidParts(l, text, length, blanks, body);
      PutField(length, blanks, body);
    }

    lemma LaidParts(l: Layout, text: seq<Char16>, length: nat, blanks: seq<Char16>, body: seq<Char16>)
      requires length == |Cut(l, text)| && blanks == Fill(Blanks(l, text), SPACE)
      requires body == Fill(Max(l.width - length, 0), l.pad) + Cut(l, text)
      ensures Laid(l, text) == if l.padBefore then blanks + body else body + blanks
    {}

    // ----- the interpreter

    /** What is left of the format. */
    ghost function Rest(): seq<Char16>
      requires index <= |fmt.Text()|
      reads this
    {
      fmt.Text()[index..]
    }

    /** A position in the format, and a buffer of its own for each item. */
    ghost predicate Reading()
      reads this
    {
      index <= |fmt.Text()| && buffer != item.scratch && item.scratch.Length == PRINT_ITEM_BUFFER_LEN
    }

    /** The next character of the format. */
    method GetFormat() returns (c: Char16)
      requires Reading()
      modifies `index
      ensures c == At(old(Rest()), 0)
      ensures index == old(index) + 1 && (c == 0 <==> old(Rest()) == [])
    {
      fmt.GetText(index);
      c := fmt.Get(index);
      index := index + 1;
    }

    /** The digits of a width, the first one read already. */
    method Digits(first: Char16, ghost at: nat) returns (n: uint64)
      requires Reading() && index == at + 1 && fmt.Text()[at] == first && ZERO < first <= NINE
      modifies `index
      ensures var ds := LeadingDigits(fmt.Text()[at..], 10);
        n == Low(ds, 10) && index == at + |ds| && Reading()
    {
      ghost var f := fmt.Text()[at..];
      ghost var ds: seq<Digit> := [];
      var c := first;
      n := 0;
      assert f[0..] == f && InDigits(f, []);
      while true
        invariant Reading() && index == at + |ds| + 1 && n == Low(ds, 10)
        invariant |ds| < |f| && c == f[|ds|] && ZERO <= c <= NINE && InDigits(f, ds)
        decreases |f| - |ds|
      {
        var d: Digit := c - ZERO;
        AppendLow(ds, 10, d);
        NextDigit(f, ds, d);
        n, ds := Append(n, 10, d), ds + [d];
        assert Rest() == f[|ds|..];
        c := GetFormat();
        if !(ZERO <= c <= NINE) {
          break;
        }
      }
      DigitsEnd(f, ds);
      index := index - 1;
    }

    /** Digits read, and digits ahead. */
    ghost predicate InDigits(f: seq<Char16>, ds: seq<Digit>) {
      |ds| <= |f| && ds + LeadingDigits(f[|ds|..], 10) == LeadingDigits(f, 10)
    }

    lemma NextDigit(f: seq<Char16>, ds: seq<Digit>, d: Digit)
      requires InDigits(f, ds) && |ds| < |f| && DigitOf(f[|ds|], 10) == Some(d)
      ensures InDigits(f, ds + [d])
    {
      assert f[|ds|..][1..] == f[|ds| + 1..];
      assert ds + LeadingDigits(f[|ds|..], 10) == (ds + [d]) + LeadingDigits(f[|ds| + 1..], 10);
    }

    lemma DigitsEnd(f: seq<Char16>, ds: seq<Digit>)
      requires InDigits(f, ds) && (|ds| == |f| || DigitOf(f[|ds|], 10).None?)
      ensures ds == LeadingDigits(f, 10)
    {
      assert LeadingDigits(f[|ds|..], 10) == [];
    }

    /** A flag, a number or a `*`. */
    method Flag(c: Char16, ghost at: nat)
      requires Reading() && index == at + 1 && fmt.Text()[at] == c && IsFlag(c)
      requires Flagged(fmt.Text()[at..], item.Settings(), args).Some?
      modifies `index, `args, item
      ensures var r := old(Flagged(fmt.Text()[at..], item.Settings(), args)).value;
        item.Settings() == r.0 && index == at + r.1 && args == old(args)[r.2..]
      ensures Reading() && item.item == old(item.item)
    {
      if c == ZERO {
        item.pad := ZERO;
      } else if c == MINUS {
        item.padBefore := false;
      } else if c == COMMA {
        item.comma := true;
      } else if c == DOT {
        item.toField := true;
      } else if c == LOWER_L {
        item.long := true;
      } else if c == STAR {
        item.SetNumber(args[0].bits);
        args := args[1..];
      } else {
        var n := Digits(c, at);
        item.SetNumber(n);
      }
    }

    /** A scratch buffer after a number was written to it. */
    lemma ScratchText(scratch: seq<Char16>, t: seq<Char16>)
      requires StartsWith(scratch, t) && 0 !in t
      ensures Wide(scratch).Text() == t
    {
      assert scratch == t + scratch[|t|..];
      UptoText(t, scratch[|t|..]);
    }

    lemma NumbersFit(l: Layout, bits: uint64, c: Char16)
      requires c in {LOWER_U, LOWER_D, LOWER_X, UPPER_X}
      ensures |OfWord(c, l, bits)| < PRINT_ITEM_BUFFER_LEN && 0 !in OfWord(c, l, bits)
    {
      var w := if c == LOWER_U then Signed64(Unsigned(bits, l.long)) else AsSigned(bits, l.long);
      PrintedSizes(Unsigned(bits, l.long), w, l.comma);
      NoCommas(Unsigned(bits, l.long), 16);
      NoCommas(Magnitude(w), 10);
      GroupsText(Shown(Magnitude(w), 10));
    }

    /** `%x`, `%X`, `%u` and `%d`. */
    method ConvertNumber(c: Char16, bits: uint64)
      requires Reading() && c in {UPPER_X, LOWER_X, LOWER_U, LOWER_D}
      modifies item, item.scratch
      ensures item.item.Some? && item.item.value.Text() == OfWord(c, old(item.Settings()), bits)
      ensures item.Settings() == if c == UPPER_X then FixedHex(old(item.Settings())) else old(item.Settings())
    {
      NumbersFit(item.Settings(), bits, c);
      ghost var t := OfWord(c, item.Settings(), bits);
      if c == UPPER_X {
        item.width := if item.long then 16 else 8;
        item.pad := ZERO;
      }
      if c == UPPER_X || c == LOWER_X {
        ValueToHex(item.scratch, Unsigned(bits, item.long));
      } else if c == LOWER_U {
        ValueToString(item.scratch, item.comma, Signed64(Unsigned(bits, item.long)));
      } else {
        ValueToString(item.scratch, item.comma, AsSigned(bits, item.long));
      }
      ScratchText(item.scratch[..], t);
      item.item := Some(Wide(item.scratch[..]));
    }

    /** `%c`; a zero character is no character. */
    method ConvertChar(bits: uint64)
      requires Reading()
      modifies item, item.scratch
      ensures item.item.Some? && item.item.value.Text() == OfWord(LOWER_C, old(item.Settings()), bits)
      ensures item.Settings() == old(item.Settings())
    {
      item.scratch[0], item.scratch[1] := bits % 0x1_0000, 0;
      ScratchText(item.scratch[..], OfWord(LOWER_C, item.Settings(), bits));
      item.item := Some(Wide(item.scratch[..]));
    }

    /** The conversions that take a word. */
    method ConvertWord(c: Char16)
      requires Reading() && c in {LOWER_C, UPPER_X, LOWER_X, LOWER_U, LOWER_D} && IsWord(args)
      modifies `args, item, item.scratch
      ensures item.item.Some? && item.item.value.Text() == OfWord(c, old(item.Settings()), old(args)[0].bits)
      ensures item.Settings() == if c == UPPER_X then FixedHex(old(item.Settings())) else old(item.Settings())
      ensures args == old(args)[1..]
    {
      var bits := args[0].bits;
      args := args[1..];
      if c == LOWER_C {
        ConvertChar(bits);
      } else {
        ConvertNumber(c, bits);
      }
    }

    /** The conversion that ends a directive: the item to print. */
    method Convert(c: Char16)
      requires Reading() && Converted(c, item.Settings(), args).Some?
      modifies `args, item, item.scratch
      ensures var r := old(Converted(c, item.Settings(), args)).value;
        item.item.Some? && item.item.value.Text() == r.0 && item.Settings() == r.1 && args == old(args)[r.2..]
    {
      if c in {LOWER_C, UPPER_X, LOWER_X, LOWER_U, LOWER_D} {
        ConvertWord(c);
      } else if c == LOWER_A {
        UptoText(NULL_TEXT, []);
        assert Ascii(NULL_TEXT).Chars() == NULL_TEXT + [];
        item.item := Some(Ascii(if args[0].pc.Some? then args[0].pc.value else NULL_TEXT));
        args := args[1..];
      } else if c == LOWER_S {
        UptoText(NULL_TEXT, []);
        assert NULL_TEXT + [] == NULL_TEXT;
        item.item := Some(Wide(if args[0].pw.Some? then args[0].pw.value else NULL_TEXT));
        args := args[1..];
      } else {
        var sign := if c == PERCENT then PERCENT else QUESTION;
        item.scratch[0], item.scratch[1] := sign, 0;
        ScratchText(item.scratch[..], [sign]);
        item.item := Some(Wide(item.scratch[..]));
        assert args[0..] == args;
      }
    }

    /** What is left of the directive prints the rest of what the whole one does. */
    ghost predicate InDirective(d: (seq<Char16>, seq<Char16>, seq<Arg>))
      reads this, item
    {
      Reading() && item.pad != 0 && Directive(Rest(), args, item.Settings()) == Some(d)
    }

    /** One directive, its `%` already read. */
    method PrintDirective(ghost d: (seq<Char16>, seq<Char16>, seq<Arg>))
      requires Ready() && Reading() && Directive(Rest(), args, PLAIN) == Some(d)
      modifies this, buffer, item, item.scratch
      ensures Ready() && printed == old(printed) + Crlf(d.0)
      ensures Reading() && Rest() == d.1 && args == d.2
    {
      item.Reset();
      var more := true;
      while more
        invariant Ready() && if more then InDirective(d) else Reading() && Rest() == d.1 && args == d.2
        invariant printed == if more then old(printed) else old(printed) + Crlf(d.0)
        decreases more, |fmt.Text()| - index
      {
        more := DirectiveStep(d);
      }
    }

    /** One character of a directive. */
    method DirectiveStep(ghost d: (seq<Char16>, seq<Char16>, seq<Arg>)) returns (more: bool)
      requires Ready() && InDirective(d)
      modifies this, buffer, item, item.scratch
      ensures Ready() && if more then InDirective(d) && old(index) < index else Reading() && Rest() == d.1 && args == d.2
      ensures printed == if more then old(printed) else old(printed) + Crlf(d.0)
    {
      ghost var at, f := index, Rest();
      var c := GetFormat();
      assert f[1..] == Rest();
      more := IsFlag(c);
      if more {
        StepFlag(c, at, d);
      } else {
        StepConvert(c, f, d);
      }
    }

    /** A flag in a directive. */
    method StepFlag(c: Char16, ghost at: nat, ghost d: (seq<Char16>, seq<Char16>, seq<Arg>))
      requires Reading() && index == at + 1 && fmt.Text()[at] == c && IsFlag(c) && item.pad != 0
      requires Directive(fmt.Text()[at..], args, item.Settings()) == Some(d)
      modifies `index, `args, item
      ensures InDirective(d) && at < index
    {
      ghost var f := fmt.Text()[at..];
      ghost var r := Flagged(f, item.Settings(), args).value;
      Flag(c, at);
      assert f[r.1..] == Rest();
    }

    /** The end of a directive. */
    method StepConvert(c: Char16, ghost f: seq<Char16>, ghost d: (seq<Char16>, seq<Char16>, seq<Arg>))
      requires Ready() && Reading() && item.pad != 0
      requires f != [] && c == f[0] && !IsFlag(c) && Rest() == f[1..] && Directive(f, args, item.Settings()) == Some(d)
      modifies this, buffer, item, item.scratch
      ensures Ready() && printed == old(printed) + Crlf(d.0)
      ensures Reading() && index == old(index) && args == d.2
    {
      assert Conversion(f, args, item.Settings()) == Some(d);
      Convert(c);
      assert item.pad != 0;
      LayOut();
    }

    ghost predicate InFormat(done: seq<Char16>, all: (seq<Char16>, seq<Arg>))
      reads this
    {
      Reading() && Behind(done, Format(Rest(), args)) == Some(all)
    }

    /** A character of the format that stands for itself. */
    method PrintLiteral(c: Char16, ghost f: seq<Char16>, ghost done: seq<Char16>, ghost all: (seq<Char16>, seq<Arg>))
      requires Ready() && printed == Crlf(done)
      requires Reading() && f != [] && c == f[0] && c != PERCENT && c != 0 && Rest() == f[1..]
      requires Behind(done, Format(f, args)) == Some(all)
      modifies `pos, `len, `output, `printed, buffer
      ensures Ready() && printed == Crlf(done + [c]) && InFormat(done + [c], all)
    {
      BehindBoth(done, [c], Format(Rest(), args));
      CrlfAppend(done, [c]);
      PutChar(c);
    }

    /** A directive of the format. */
    method PrintNext(ghost f: seq<Char16>, ghost done: seq<Char16>, ghost all: (seq<Char16>, seq<Arg>))
      returns (ghost done': seq<Char16>)
      requires Ready() && printed == Crlf(done)
      requires Reading() && f != [] && f[0] == PERCENT && Rest() == f[1..]
      requires Behind(done, Format(f, args)) == Some(all)
      modifies this, buffer, item, item.scratch
      ensures Ready() && printed == Crlf(done') && InFormat(done', all) && |Rest()| < |f|
    {
      ghost var d := Directive(f[1..], args, PLAIN).value;
      BehindBoth(done, d.0, Format(d.1, d.2));
      CrlfAppend(done, d.0);
      PrintDirective(d);
      done' := done + d.0;
    }

    /** The loop over the format. */
    method Interpret(ghost all: (seq<Char16>, seq<Arg>))
      requires Ready() && Reading() && index == 0 && printed == []
      requires Format(fmt.Text(), args) == Some(all)
      modifies this, buffer, item, item.scratch
      ensures Ready() && printed == Crlf(all.0)
    {
      ghost var done: seq<Char16> := [];
      assert Rest() == fmt.Text();
      BehindNothing(Format(Rest(), args));
      while true
        invariant Ready() && printed == Crlf(done) && InFormat(done, all)
        decreases |Rest()|
      {
        ghost var f := Rest();
        var c := GetFormat();
        if c == 0 {
          assert Format(f, args) == Some(([], args));
          break;
        }
        assert f[1..] == Rest();
        if c != PERCENT {
          PrintLiteral(c, f, done, all);
          done := done + [c];
        } else {
          done := PrintNext(f, done, all);
        }
      }
      assert done + [] == done;
    }

    /** The chunks handed out, put together, are the formatted text with its newlines
        expanded; the count returned is its length. */
    method Print() returns (n: uint64)
      requires Ready() && Reading() && index == 0 && printed == []
      requires Format(fmt.Text(), args).Some?
      modifies this, buffer, item, item.scratch
      ensures var text := Crlf(old(Format(fmt.Text(), args)).value.0);
        Flat(output) == text && WholeChunks(output) && output != [] && n == |text| % TWO_64
    {
      Interpret(Format(fmt.Text(), args).value);
      Flush();
      assert Flat(output) + buffer[..pos] == Flat(output);
      CountIsLength(printed);
      n := len;
    }
  }
}
