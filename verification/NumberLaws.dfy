/** What printed and read numbers look like, in plain terms. Characters are given by their
    codes. */
module NumberLaws {
  import opened Words
  import opened Options
  import opened Chars
  import opened Numbers

  // ----- what is printed

  predicate IsDigit(c: Char16) {
    0x30 <= c <= 0x39
  }

  predicate IsUpperHex(c: Char16) {
    0x41 <= c <= 0x46
  }

  predicate IsLowerHex(c: Char16) {
    0x61 <= c <= 0x66
  }

  /** The value of a digit, or of a letter from A. */
  function CharValue(c: Char16): int {
    if c <= 0x39 then c - 0x30 else c - 0x41 + 10
  }

  function Horner(t: seq<Char16>, base: nat): int {
    if t == [] then 0 else Horner(t[..|t| - 1], base) * base + CharValue(t[|t| - 1])
  }

  lemma {:induction false} HornerIsValue(ds: seq<Digit>, base: Base)
    ensures Horner(Text(ds), base) == Value(ds, base)
  {
    if ds != [] {
      var n := |ds| - 1;
      assert Text(ds)[..n] == Text(ds[..n]);
      HornerIsValue(ds[..n], base);
    }
  }

  lemma {:induction false} NoLeadingZero(v: nat, base: Base)
    requires v > 0
    ensures Digits(v, base) != [] && Digits(v, base)[0] != 0
  {
    if v / base > 0 {
      NoLeadingZero(v / base, base);
    } else {
      assert Digits(v, base) == [] + [v % base];
    }
  }

  /** A number is shown by its digits in the base, from 0 to 9 and A to F, the highest
      first and no zero in front. */
  lemma ShownPlainly(v: nat, base: Base)
    ensures Horner(Shown(v, base), base) == v
    ensures forall i :: 0 <= i < |Shown(v, base)| ==> IsDigit(Shown(v, base)[i]) || (base == 16 && IsUpperHex(Shown(v, base)[i]))
    ensures |Shown(v, base)| >= 1 && (Shown(v, base)[0] == 0x30 ==> Shown(v, base) == [0x30])
  {
    var ds := ShownDigits(v, base);
    HornerIsValue(ds, base);
    ValueOfShown(v, base);
    if v > 0 {
      NoLeadingZero(v, base);
    }
  }

  /** A sign exactly for a negative number. */
  lemma SignedPlainly(v: int64)
    ensures v < 0 ==> Signed(false, v) == [0x2d] + Shown(-(v as int), 10) && Signed(true, v) == [0x2d] + Groups(Shown(-(v as int), 10))
    ensures v >= 0 ==> Signed(false, v) == Shown(v, 10) && Signed(true, v) == Groups(Shown(v, 10))
  {
    if v >= 0 {
      var t := Shown(v, 10);
      assert [] + t == t && [] + Groups(t) == Groups(t);
    }
  }

  /** The place from the right, without commas, of the character at a place with them. */
  function Place(j: nat): nat {
    j - j / 4
  }

  /** Counted from the right, every fourth character is a comma, and the others are those
      of the number. */
  ghost predicate GroupedAt(t: seq<Char16>, g: seq<Char16>, j: nat) {
    j < |g| && if j % 4 == 3 then g[|g| - 1 - j] == 0x2c else Place(j) < |t| && g[|g| - 1 - j] == t[|t| - 1 - Place(j)]
  }

  lemma LastGroup(front: seq<Char16>, last: seq<Char16>, g: seq<Char16>, j: nat)
    requires |last| == 3 && j < 4
    ensures GroupedAt(front + last, g + [COMMA] + last, j)
  {
    assert Place(0) == 0 && Place(1) == 1 && Place(2) == 2;
  }

  lemma PlaceDown(j: nat)
    requires j >= 4
    ensures Place(j) == Place(j - 4) + 3 && j % 4 == (j - 4) % 4
  {}

  lemma EarlierGroup(front: seq<Char16>, last: seq<Char16>, g: seq<Char16>, j: nat)
    requires |last| == 3 && j >= 4 && GroupedAt(front, g, j - 4)
    ensures GroupedAt(front + last, g + [COMMA] + last, j)
  {
    PlaceDown(j);
    var all := g + [COMMA] + last;
    assert all[|all| - 1 - j] == g[|g| - 1 - (j - 4)];
  }

  lemma FirstGroup(t: seq<Char16>, j: nat)
    requires j < |t| <= 3
    ensures GroupedAt(t, t, j)
  {
    assert Place(0) == 0 && Place(1) == 1 && Place(2) == 2;
  }

  /** So it is with a grouped number, all through. */
  lemma {:induction false} GroupsPlainly(t: seq<Char16>, j: nat)
    requires t != [] && j < |t| + (|t| - 1) / 3
    ensures |Groups(t)| == |t| + (|t| - 1) / 3 && GroupedAt(t, Groups(t), j)
  {
    GroupsSize(t);
    if |t| <= 3 {
      FirstGroup(t, j);
    } else {
      var front, last := t[..|t| - 3], t[|t| - 3..];
      assert front + last == t;
      if j < 4 {
        LastGroup(front, last, Groups(front), j);
      } else {
        GroupsPlainly(front, j - 4);
        EarlierGroup(front, last, Groups(front), j);
      }
    }
  }

  // ----- what is read

  /** The same character, or the small letter of a capital from A to F. */
  predicate SameButCase(a: Char16, b: Char16) {
    a == b || (IsUpperHex(a) && b == a + 0x20)
  }

  lemma DigitIgnoresCase(a: Char16, b: Char16)
    requires SameButCase(a, b)
    ensures DigitOf(b, 16) == DigitOf(a, 16)
  {}

  lemma {:induction false} LeadingIgnoresCase(s: seq<Char16>, t: seq<Char16>)
    requires |s| == |t| && forall i :: 0 <= i < |s| ==> SameButCase(s[i], t[i])
    ensures LeadingDigits(t, 16) == LeadingDigits(s, 16)
  {
    if s != [] {
      DigitIgnoresCase(s[0], t[0]);
      LeadingIgnoresCase(s[1..], t[1..]);
    }
  }

  lemma {:induction false} SpacesIgnoreCase(s: seq<Char16>, t: seq<Char16>)
    requires |s| == |t| && forall i :: 0 <= i < |s| ==> SameButCase(s[i], t[i])
    ensures Read(t, 16) == Read(s, 16)
  {
    if s != [] && s[0] == SPACE {
      SpacesIgnoreCase(s[1..], t[1..]);
    } else {
      assert s != [] ==> t[0] != SPACE;
      LeadingIgnoresCase(s, t);
    }
  }

  /** A number in hex is read, modulo 2^64, whatever the case of each of its letters, and
      whatever character that is no hex digit of either case stands behind it. */
  lemma CaseIgnored(v: nat, t: seq<Char16>, more: seq<Char16>)
    requires |t| == |Shown(v, 16)| && forall i :: 0 <= i < |t| ==> SameButCase(Shown(v, 16)[i], t[i])
    requires more == [] || !(IsDigit(more[0]) || IsUpperHex(more[0]) || IsLowerHex(more[0]))
    ensures Read(t + more, 16) == v % TWO_64
  {
    ReadShown(v, 16, more);
    SpacesIgnoreCase(Shown(v, 16) + more, t + more);
  }

  lemma {:induction false} SpacesSkipped(n: nat, s: seq<Char16>)
    ensures SkipSpaces(seq(n, _ => 0x20) + s) == SkipSpaces(s)
  {
    if n == 0 {
      assert seq(n, _ => 0x20) + s == s;
    } else {
      assert (seq(n, _ => 0x20) + s)[1..] == seq(n - 1, _ => 0x20) + s;
      SpacesSkipped(n - 1, s);
    }
  }

  /** A decimal number is read, modulo 2^64, behind any number of spaces, and whatever
      character that is no decimal digit stands behind it; and so is a hex one. */
  lemma ReadBehindSpaces(n: nat, v: nat, base: Base, more: seq<Char16>)
    requires more == [] || !(IsDigit(more[0]) || (base == 16 && (IsUpperHex(more[0]) || IsLowerHex(more[0]))))
    ensures Read(seq(n, _ => 0x20) + (Shown(v, base) + more), base) == v % TWO_64
  {
    SpacesSkipped(n, Shown(v, base) + more);
    ReadShown(v, base, more);
  }

  /** Where neither a digit nor a space stands, nothing is read. */
  lemma NothingRead(s: seq<Char16>, base: Base)
    requires s == [] || !(s[0] == 0x20 || IsDigit(s[0]) || (base == 16 && (IsUpperHex(s[0]) || IsLowerHex(s[0]))))
    ensures Read(s, base) == 0
  {
    assert LeadingDigits(SkipSpaces(s), base) == [];
  }
}
