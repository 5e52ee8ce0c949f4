/** What patterns mean, in plain terms: the language of each kind of element, and of one
    pattern behind another. Characters are given by their codes. */
module Globs {
  import opened Options
  import opened Chars
  import opened MetaMatch

  /** The pattern is complete, and the text is in its language. */
  ghost predicate Denotes(pattern: seq<Char16>, text: seq<Char16>) {
    Parse(pattern).Some? && Matches(Parse(pattern).value, text)
  }

  lemma MatchesFirst(e: Element, text: seq<Char16>)
    ensures Matches([e], text) == match e
      case Many => true
      case AnyOne => |text| == 1
      case OneOf(body) => |text| == 1 && InSet(body, text[0])
      case Literal(c) => text == [c]
  {
    assert [e][1..] == [];
    if e.Many? {
      assert text[|text|..] == [];
    }
  }

  lemma ParseOne(c: Char16)
    requires c != 0x5b
    ensures Parse([c]) == Some([if c == 0x2a then Many else if c == 0x3f then AnyOne else Literal(c)])
  {
    var e := if c == 0x2a then Many else if c == 0x3f then AnyOne else Literal(c);
    assert [c][1..] == [] && [e] + [] == [e];
  }

  /** `*` stands for every text, `?` for every single character, and any other character
      but `[` for itself. */
  lemma OneCharacterPatterns(c: Char16, text: seq<Char16>)
    ensures Denotes([0x2a], text)
    ensures Denotes([0x3f], text) <==> |text| == 1
    ensures c != 0x2a && c != 0x3f && c != 0x5b ==> (Denotes([c], text) <==> text == [c])
  {
    ParseOne(0x2a);
    MatchesFirst(Many, text);
    ParseOne(0x3f);
    MatchesFirst(AnyOne, text);
    if c != 0x5b {
      ParseOne(c);
      MatchesFirst(Literal(c), text);
    }
  }

  // ----- one pattern behind another

  lemma {:induction false} ClosingAppend(p: seq<Char16>, q: seq<Char16>)
    requires Closing(p).Some?
    ensures Closing(p + q) == Closing(p)
  {
    if p[0] != CLOSE {
      assert (p + q)[1..] == p[1..] + q;
      ClosingAppend(p[1..], q);
    }
  }

  lemma {:induction false} ParseAppend(p: seq<Char16>, q: seq<Char16>)
    requires Parse(p).Some?
    ensures Parse(p + q) == if Parse(q).None? then None else Some(Parse(p).value + Parse(q).value)
    decreases |p|
  {
    if p == [] {
      assert p + q == q;
      if Parse(q).Some? {
        assert [] + Parse(q).value == Parse(q).value;
      }
    } else {
      var n := if p[0] == OPEN then Closing(p[1..]).value + 2 else 1;
      HeadAppend(p, q, n);
      ParseAppend(p[n..], q);
      if Parse(q).Some? {
        var e, es, fs := Parse(p).value[0], Parse(p[n..]).value, Parse(q).value;
        assert [e] + (es + fs) == ([e] + es) + fs;
      }
    }
  }

  /** The first element of a pattern is found whatever follows the pattern. */
  lemma HeadAppend(p: seq<Char16>, q: seq<Char16>, n: nat)
    requires p != [] && Parse(p).Some? && n == if p[0] == OPEN then Closing(p[1..]).value + 2 else 1
    ensures n <= |p| && (p + q)[n..] == p[n..] + q && Parse(p[n..]).Some?
    ensures Parse(p).value == [Parse(p).value[0]] + Parse(p[n..]).value
    ensures Parse(p + q) == Prepend(Parse(p).value[0], Parse(p[n..] + q))
  {
    assert (p + q)[1..] == p[1..] + q;
    if p[0] == OPEN {
      ClosingAppend(p[1..], q);
      var k := Closing(p[1..]).value;
      assert (p + q)[1..1 + k] == p[1..1 + k] && (p + q)[k + 2..] == p[k + 2..] + q;
    }
  }

  /** How far the first element may reach into a text. */
  ghost predicate Takes(e: Element, text: seq<Char16>, j: nat) {
    j <= |text| && Matches([e], text[..j])
  }

  lemma HeadTakes(es: seq<Element>, text: seq<Char16>)
    requires es != []
    ensures Matches(es, text) <==> exists j: nat :: Takes(es[0], text, j) && Matches(es[1..], text[j..])
  {
    forall j: nat | j <= |text|
      ensures Takes(es[0], text, j) == match es[0]
        case Many => true
        case AnyOne => j == 1
        case OneOf(body) => j == 1 && InSet(body, text[0])
        case Literal(c) => j == 1 && text[0] == c
    {
      MatchesFirst(es[0], text[..j]);
    }
    if text != [] && Matches(es, text) && !es[0].Many? {
      assert Takes(es[0], text, 1) && Matches(es[1..], text[1..]);
    }
    if es[0].Many? && Matches(es, text) {
      var k :| 0 <= k <= |text| && Matches(es[1..], text[k..]);
      assert Takes(es[0], text, k);
    }
  }

  lemma {:induction false} AppendSplits(es: seq<Element>, fs: seq<Element>, text: seq<Char16>) returns (k: nat)
    requires Matches(es + fs, text)
    ensures k <= |text| && Matches(es, text[..k]) && Matches(fs, text[k..])
    decreases |es|
  {
    if es == [] {
      assert es + fs == fs && text[..0] == [] && text[0..] == text;
      k := 0;
    } else {
      assert (es + fs)[1..] == es[1..] + fs;
      HeadTakes(es + fs, text);
      var j: nat :| Takes(es[0], text, j) && Matches(es[1..] + fs, text[j..]);
      var rest := AppendSplits(es[1..], fs, text[j..]);
      k := j + rest;
      assert text[..k][..j] == text[..j] && text[..k][j..] == text[j..][..rest] && text[j..][rest..] == text[k..];
      assert Takes(es[0], text[..k], j);
      HeadTakes(es, text[..k]);
    }
  }

  lemma {:induction false} AppendJoins(es: seq<Element>, fs: seq<Element>, text: seq<Char16>, k: nat)
    requires k <= |text| && Matches(es, text[..k]) && Matches(fs, text[k..])
    ensures Matches(es + fs, text)
    decreases |es|
  {
    if es == [] {
      assert es + fs == fs && text[..k] == [] && text[k..] == text;
    } else {
      assert (es + fs)[1..] == es[1..] + fs;
      HeadTakes(es, text[..k]);
      var j: nat :| Takes(es[0], text[..k], j) && Matches(es[1..], text[..k][j..]);
      assert text[..k][..j] == text[..j] && text[..k][j..] == text[j..][..k - j] && text[j..][k - j..] == text[k..];
      AppendJoins(es[1..], fs, text[j..], k - j);
      assert Takes(es[0], text, j);
      HeadTakes(es + fs, text);
    }
  }

  /** A pattern behind another denotes what the first denotes with what the second denotes
      behind it. */
  lemma OneBehindAnother(p: seq<Char16>, q: seq<Char16>, text: seq<Char16>)
    requires Parse(p).Some? && Parse(q).Some?
    ensures Denotes(p + q, text) <==> exists k :: 0 <= k <= |text| && Denotes(p, text[..k]) && Denotes(q, text[k..])
  {
    ParseAppend(p, q);
    var es, fs := Parse(p).value, Parse(q).value;
    if Denotes(p + q, text) {
      var k := AppendSplits(es, fs, text);
      assert Denotes(p, text[..k]) && Denotes(q, text[k..]);
    }
    if k :| 0 <= k <= |text| && Denotes(p, text[..k]) && Denotes(q, text[k..]) {
      AppendJoins(es, fs, text, k);
    }
  }

  // ----- sets

  /** A member of a set: a character, or a range of them. */
  datatype Member = Single(c: Char16) | Range(low: Char16, high: Char16) {
    predicate Plain() {
      if Single? then c != 0x2d && c != 0x5d else low != 0x2d && low != 0x5d && high != 0x2d && high != 0x5d
    }

    function Written(): seq<Char16> {
      if Single? then [c] else [low, 0x2d, high]
    }

    predicate Has(x: Char16) {
      if Single? then x == c else low <= x <= high || x == low || x == high
    }
  }

  function Body(members: seq<Member>): seq<Char16> {
    if members == [] then [] else members[0].Written() + Body(members[1..])
  }

  function SetPattern(body: seq<Char16>): seq<Char16> {
    [0x5b] + body + [0x5d]
  }

  lemma {:induction false} ClosingAtEnd(body: seq<Char16>)
    requires 0x5d !in body
    ensures Closing(body + [0x5d]) == Some(|body|)
  {
    if body == [] {
      assert body + [0x5d] == [0x5d];
    } else {
      assert (body + [0x5d])[1..] == body[1..] + [0x5d];
      ClosingAtEnd(body[1..]);
    }
  }

  lemma SetDenotes(body: seq<Char16>, text: seq<Char16>)
    requires 0x5d !in body
    ensures Denotes(SetPattern(body), text) <==> |text| == 1 && InSet(body, text[0])
  {
    var p := SetPattern(body);
    ClosingAtEnd(body);
    assert p[1..] == body + [0x5d] && p[1..1 + |body|] == body && p[|body| + 2..] == [];
    assert [OneOf(body)] + [] == [OneOf(body)];
    assert Parse(p) == Some([OneOf(body)]);
    MatchesFirst(OneOf(body), text);
  }

  /** Positions in a set behind a first member, itself no `-`, admit what they did. */
  lemma AdmitsBehind(first: Member, rest: seq<Char16>, i: nat, x: Char16)
    requires first.Plain() && i < |rest| && rest[0] != 0x2d
    ensures Admits(first.Written() + rest, |first.Written()| + i, x) == Admits(rest, i, x)
  {}

  lemma AdmitsFirst(first: Member, rest: seq<Char16>, x: Char16)
    requires first.Plain() && (rest != [] ==> rest[0] != 0x2d)
    ensures first.Has(x) <==> exists i :: 0 <= i < |first.Written()| && Admits(first.Written() + rest, i, x)
  {
    var body := first.Written() + rest;
    if first.Single? {
      assert Admits(body, 0, x) == (x == first.c);
    } else {
      assert Admits(body, 0, x) == (x == first.low);
      assert Admits(body, 1, x) == (first.low <= x <= first.high || x == first.high);
      assert Admits(body, 2, x) == (x == first.high);
    }
  }

  lemma {:induction false} BodyAdmits(members: seq<Member>, x: Char16)
    requires forall k :: 0 <= k < |members| ==> members[k].Plain()
    ensures 0x5d !in Body(members) && (members != [] ==> Body(members)[0] != 0x2d)
    ensures InSet(Body(members), x) <==> exists k :: 0 <= k < |members| && members[k].Has(x)
  {
    if members != [] {
      var first, rest := members[0], Body(members[1..]);
      BodyAdmits(members[1..], x);
      AdmitsFirst(first, rest, x);
      FirstOrRest(first, rest, x);
      assert forall k :: 0 < k < |members| ==> members[k] == members[1..][k - 1];
    }
  }

  lemma FirstOrRest(first: Member, rest: seq<Char16>, x: Char16)
    requires first.Plain() && (rest != [] ==> rest[0] != 0x2d)
    ensures InSet(first.Written() + rest, x) <==> first.Has(x) || InSet(rest, x)
  {
    AdmitsFirst(first, rest, x);
    var body, n := first.Written() + rest, |first.Written()|;
    forall i: nat | i < |rest|
      ensures Admits(body, n + i, x) == Admits(rest, i, x)
    {
      AdmitsBehind(first, rest, i, x);
    }
    if i :| 0 <= i < |body| && Admits(body, i, x) && i >= n {
      assert Admits(rest, i - n, x);
    }
    if i :| 0 <= i < |rest| && Admits(rest, i, x) {
      assert Admits(body, n + i, x);
    }
  }

  /** A set denotes just the single characters its members have: a character has itself,
      and a range all from the one end to the other, the ends whatever their order. */
  lemma SetLanguage(members: seq<Member>, text: seq<Char16>)
    requires forall k :: 0 <= k < |members| ==> members[k].Plain()
    ensures Denotes(SetPattern(Body(members)), text) <==>
              |text| == 1 && exists k :: 0 <= k < |members| && members[k].Has(text[0])
  {
    var x: Char16 := if text == [] then 0 else text[0];
    BodyAdmits(members, x);
    SetDenotes(Body(members), text);
  }

  /** In particular, `[a-b]` denotes a, b and what lies between. */
  lemma RangeLanguage(a: Char16, b: Char16, x: Char16)
    requires a != 0x2d && a != 0x5d && b != 0x2d && b != 0x5d
    ensures Denotes([0x5b, a, 0x2d, b, 0x5d], [x]) <==> a <= x <= b || x == a || x == b
  {
    var members := [Range(a, b)];
    assert Body(members) == [a, 0x2d, b] by {
      assert Body(members[1..]) == [];
    }
    assert SetPattern(Body(members)) == [0x5b, a, 0x2d, b, 0x5d];
    SetLanguage(members, [x]);
    assert members[0].Has(x) <==> a <= x <= b || x == a || x == b;
  }

  /** Whatever else a set holds, a `-` between two of its characters admits all from the
      one to the other. */
  lemma RangesInSets(before: seq<Char16>, y: Char16, z: Char16, after: seq<Char16>, x: Char16)
    requires 0x5d !in before && y != 0x5d && z != 0x5d && 0x5d !in after && y <= x <= z
    ensures Denotes(SetPattern(before + [y, 0x2d, z] + after), [x])
  {
    var body := before + [y, 0x2d, z] + after;
    SetDenotes(body, [x]);
    assert Admits(body, |before| + 1, x);
  }

  /** A `-` that comes first admits all up to the character behind it. */
  lemma LeadingRange(z: Char16, after: seq<Char16>, x: Char16)
    requires z != 0x5d && 0x5d !in after && x <= z
    ensures Denotes(SetPattern([0x2d, z] + after), [x])
  {
    var body := [0x2d, z] + after;
    SetDenotes(body, [x]);
    assert Admits(body, 0, x);
  }
}
