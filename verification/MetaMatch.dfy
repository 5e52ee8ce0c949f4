/** The backtracking glob matcher, against the language its patterns denote. */
module MetaMatch {
  import opened Options
  import opened Chars

  const OPEN: Char16 := 0x5b
  const CLOSE: Char16 := 0x5d

  datatype Element = Many | AnyOne | OneOf(body: seq<Char16>) | Literal(c: Char16)

  // ----- the language of a pattern

  function Closing(p: seq<Char16>): (k: Option<nat>)
    ensures k.Some? ==> k.value < |p| && p[k.value] == CLOSE && forall i :: 0 <= i < k.value ==> p[i] != CLOSE
    ensures k.None? ==> forall i :: 0 <= i < |p| ==> p[i] != CLOSE
  {
    if p == [] then None
    else if p[0] == CLOSE then Some(0)
    else match Closing(p[1..])
      case None => None
      case Some(k) => Some(k + 1)
  }

  /** Nothing if some `[` is never closed. */
  function Parse(p: seq<Char16>): Option<seq<Element>>
    decreases |p|
  {
    if p == [] then Some([])
    else if p[0] == OPEN then
      match Closing(p[1..])
      case None => None
      case Some(k) => Prepend(OneOf(p[1..1 + k]), Parse(p[k + 2..]))
    else Prepend(if p[0] == STAR then Many else if p[0] == QUESTION then AnyOne else Literal(p[0]), Parse(p[1..]))
  }

  function Prepend(e: Element, rest: Option<seq<Element>>): Option<seq<Element>> {
    match rest
    case None => None
    case Some(es) => Some([e] + es)
  }

  /** Position i of a set admits c: as a literal, or as a `-` between the
      character before it (anything, if it comes first) and the one after it. */
  predicate Admits(body: seq<Char16>, i: nat, c: Char16)
    requires i < |body|
  {
    if body[i] == MINUS then
      i + 1 < |body| && ((if i == 0 then 0 else body[i - 1]) <= c <= body[i + 1] || c == body[i + 1])
    else c == body[i]
  }

  predicate InSet(body: seq<Char16>, c: Char16) {
    exists i :: 0 <= i < |body| && Admits(body, i, c)
  }

  ghost predicate Matches(es: seq<Element>, s: seq<Char16>)
    decreases |es|
  {
    if es == [] then s == []
    else match es[0]
      case Many => exists k :: 0 <= k <= |s| && Matches(es[1..], s[k..])
      case AnyOne => s != [] && Matches(es[1..], s[1..])
      case OneOf(body) => s != [] && InSet(body, s[0]) && Matches(es[1..], s[1..])
      case Literal(c) => s != [] && s[0] == c && Matches(es[1..], s[1..])
  }

  // ----- the matcher

  /** The scan of one set: whether it admits c, and where the pattern goes on. */
  method MatchSet(pattern: seq<Char16>, start: nat, c: Char16) returns (found: bool, next: nat)
    requires CString(pattern) && start < |pattern| && c != 0
    requires Closing(From(pattern, start)).Some?
    ensures var k := Closing(From(pattern, start)).value;
      && found == InSet(From(pattern, start)[..k], c)
      && (found ==> next == start + k + 1)
  {
    ghost var k := Closing(From(pattern, start)).value;
    ghost var body := From(pattern, start)[..k];
    assert pattern[start + k] == From(pattern, start)[k] == CLOSE;
    assert forall i :: 0 <= i < k ==> body[i] == pattern[start + i] && body[i] != CLOSE;
    var l: Char16 := 0;
    next := start;
    var p := pattern[next];
    while true
      invariant start <= next <= start + k
      invariant p == pattern[next]
      invariant forall i :: 0 <= i < next - start ==> !Admits(body, i, c)
      invariant next > start && next < start + k ==>
        l == if body[next - start - 1] == MINUS then body[next - start] else body[next - start - 1]
      invariant next == start ==> l == 0
      decreases start + k - next
    {
      next := next + 1;
      if p == CLOSE {
        assert next - 1 == start + k && !InSet(body, c);
        return false, next;
      }
      if p == MINUS {
        p := pattern[next];
        if p == 0 || p == CLOSE {
          assert next == start + k && !Admits(body, k - 1, c);
          assert !InSet(body, c);
          return false, next;
        }
        if c >= l && c <= p {
          break;
        }
      }
      l := p;
      if c == p {
        break;
      }
      p := pattern[next];
    }
    assert next <= start + k && Admits(body, next - 1 - start, c);
    while p != 0 && p != CLOSE
      invariant start <= next <= start + k + 1
      invariant p != 0 && (next <= start + k || p == CLOSE)
      invariant p == CLOSE ==> next == start + k + 1
      decreases start + k + 1 - next
    {
      p := pattern[next];
      next := next + 1;
    }
    found := true;
  }

  /** What the head of a non-empty pattern does to both strings. */
  lemma HeadOfPattern(str: seq<Char16>, s: nat, pattern: seq<Char16>, pi: nat)
    requires CString(str) && s < |str| && CString(pattern) && pi < |pattern| - 1
    requires Parse(From(pattern, pi)).Some?
    ensures var p, text, es := pattern[pi], From(str, s), Parse(From(pattern, pi)).value;
      && (str[s] == 0 <==> text == [])
      && (str[s] != 0 ==> s + 1 < |str| && text == [str[s]] + From(str, s + 1))
      && if p == OPEN then
           && Closing(From(pattern, pi + 1)).Some?
           && var k := Closing(From(pattern, pi + 1)).value;
              && Parse(From(pattern, pi + k + 2)).Some?
              && es == [OneOf(From(pattern, pi + 1)[..k])] + Parse(From(pattern, pi + k + 2)).value
         else
           && Parse(From(pattern, pi + 1)).Some?
           && es == [if p == STAR then Many else if p == QUESTION then AnyOne else Literal(p)]
                  + Parse(From(pattern, pi + 1)).value
  {
    var rest := From(pattern, pi);
    assert rest[0] == pattern[pi] && rest[1..] == From(pattern, pi + 1);
    if pattern[pi] == OPEN {
      var k := Closing(From(pattern, pi + 1)).value;
      assert rest[1..1 + k] == From(pattern, pi + 1)[..k];
      assert rest[k + 2..] == From(pattern, pi + k + 2);
    }
    if str[s] != 0 {
      assert From(str, s) == [str[s]] + From(str, s + 1);
    }
  }

  ghost predicate Goal(str: seq<Char16>, s: nat, pattern: seq<Char16>, pi: nat)
    requires s < |str| && pi < |pattern|
  {
    Parse(From(pattern, pi)).Some? && Matches(Parse(From(pattern, pi)).value, From(str, s))
  }

  lemma TailOfText(str: seq<Char16>, s: nat)
    requires CString(str) && s < |str| && str[s] != 0
    ensures s + 1 < |str| && From(str, s) != [] && From(str, s)[0] == str[s] && From(str, s)[1..] == From(str, s + 1)
  {}

  lemma EndStep(str: seq<Char16>, s: nat, pattern: seq<Char16>, pi: nat)
    requires CString(str) && s < |str| && CString(pattern) && pi < |pattern| && pattern[pi] == 0
    ensures Goal(str, s, pattern, pi) == (str[s] == 0)
  {
    assert From(pattern, pi) == [];
    if str[s] != 0 {
      TailOfText(str, s);
    } else {
      assert From(str, s) == [];
    }
  }

  /** The same, as steps of the goal, for each kind of element. */
  lemma StarStep(str: seq<Char16>, s: nat, pattern: seq<Char16>, pi: nat)
    requires CString(str) && s < |str| && CString(pattern) && pi < |pattern| - 1
    requires Parse(From(pattern, pi)).Some? && pattern[pi] == STAR
    ensures Parse(From(pattern, pi + 1)).Some?
    ensures Goal(str, s, pattern, pi) == Matches([Many] + Parse(From(pattern, pi + 1)).value, From(str, s))
  {
    HeadOfPattern(str, s, pattern, pi);
  }

  lemma QuestionStep(str: seq<Char16>, s: nat, pattern: seq<Char16>, pi: nat)
    requires CString(str) && s < |str| && CString(pattern) && pi < |pattern| - 1
    requires Parse(From(pattern, pi)).Some? && pattern[pi] == QUESTION
    ensures Parse(From(pattern, pi + 1)).Some?
    ensures Goal(str, s, pattern, pi) == (str[s] != 0 && s + 1 < |str| && Goal(str, s + 1, pattern, pi + 1))
  {
    HeadOfPattern(str, s, pattern, pi);
    var rest := Parse(From(pattern, pi + 1)).value;
    assert ([AnyOne] + rest)[1..] == rest;
    if str[s] != 0 {
      TailOfText(str, s);
    }
  }

  lemma MatchesSet(body: seq<Char16>, rest: seq<Element>, text: seq<Char16>)
    ensures Matches([OneOf(body)] + rest, text) == (text != [] && InSet(body, text[0]) && Matches(rest, text[1..]))
  {
    assert ([OneOf(body)] + rest)[1..] == rest;
  }

  lemma SetStep(str: seq<Char16>, s: nat, pattern: seq<Char16>, pi: nat)
    requires CString(str) && s < |str| && CString(pattern) && pi < |pattern| - 1
    requires Parse(From(pattern, pi)).Some? && pattern[pi] == OPEN
    ensures Closing(From(pattern, pi + 1)).Some?
    ensures var k := Closing(From(pattern, pi + 1)).value;
      && Parse(From(pattern, pi + k + 2)).Some?
      && Goal(str, s, pattern, pi)
         == (str[s] != 0 && s + 1 < |str| && InSet(From(pattern, pi + 1)[..k], str[s]) && Goal(str, s + 1, pattern, pi + k + 2))
  {
    HeadOfPattern(str, s, pattern, pi);
    var k := Closing(From(pattern, pi + 1)).value;
    var rest := Parse(From(pattern, pi + k + 2)).value;
    MatchesSet(From(pattern, pi + 1)[..k], rest, From(str, s));
    if str[s] != 0 {
      TailOfText(str, s);
    }
  }

  lemma LiteralStep(str: seq<Char16>, s: nat, pattern: seq<Char16>, pi: nat)
    requires CString(str) && s < |str| && CString(pattern) && pi < |pattern| - 1
    requires Parse(From(pattern, pi)).Some? && pattern[pi] !in {STAR, QUESTION, OPEN}
    ensures Parse(From(pattern, pi + 1)).Some?
    ensures Goal(str, s, pattern, pi) == (str[s] == pattern[pi] && s + 1 < |str| && Goal(str, s + 1, pattern, pi + 1))
  {
    HeadOfPattern(str, s, pattern, pi);
    var rest := Parse(From(pattern, pi + 1)).value;
    assert ([Literal(pattern[pi])] + rest)[1..] == rest;
    if str[s] != 0 {
      TailOfText(str, s);
    }
  }

  /** `*`: tries the rest of the pattern at every place, the end included. */
  method MatchMany(str: seq<Char16>, s0: nat, pattern: seq<Char16>, pi: nat) returns (r: bool)
    requires CString(str) && s0 < |str| && CString(pattern) && pi < |pattern|
    requires Parse(From(pattern, pi)).Some?
    ensures r == Matches([Many] + Parse(From(pattern, pi)).value, From(str, s0))
    decreases |pattern| - pi, 1
  {
    ghost var es, text := Parse(From(pattern, pi)).value, From(str, s0);
    assert ([Many] + es)[1..] == es;
    var s: nat := s0;
    while str[s] != 0
      invariant s0 <= s < |str|
      invariant forall k :: 0 <= k < s - s0 ==> !Matches(es, text[k..])
      decreases |str| - s
    {
      assert From(str, s) == text[s - s0..];
      var m := MetaMatch(str, s, pattern, pi);
      if m {
        return true;
      }
      s := s + 1;
    }
    assert s == |str| - 1 && From(str, s) == text[s - s0..];
    r := MetaMatch(str, s, pattern, pi);
  }

  method MatchOneOf(str: seq<Char16>, s: nat, pattern: seq<Char16>, pi: nat) returns (ok: bool, s': nat, pi': nat)
    requires CString(str) && s < |str| && CString(pattern) && pi < |pattern| - 1
    requires Parse(From(pattern, pi)).Some? && pattern[pi] == OPEN
    ensures ok ==> s' < |str| && pi < pi' < |pattern| && Parse(From(pattern, pi')).Some?
    ensures Goal(str, s, pattern, pi) == (ok && Goal(str, s', pattern, pi'))
  {
    s', pi' := s + 1, pi + 1;
    SetStep(str, s, pattern, pi);
    var c := str[s];
    if c == 0 {
      return false, s', pi';
    }
    ok, pi' := MatchSet(pattern, pi', c);
  }

  /** One element that takes one character: `?`, a set or a literal. */
  method MatchOne(str: seq<Char16>, s: nat, pattern: seq<Char16>, pi: nat) returns (ok: bool, s': nat, pi': nat)
    requires CString(str) && s < |str| && CString(pattern) && pi < |pattern| - 1
    requires Parse(From(pattern, pi)).Some? && pattern[pi] != STAR
    ensures ok ==> s' < |str| && pi < pi' < |pattern| && Parse(From(pattern, pi')).Some?
    ensures Goal(str, s, pattern, pi) == (ok && Goal(str, s', pattern, pi'))
  {
    var p := pattern[pi];
    s', pi' := s + 1, pi + 1;
    if p == QUESTION {
      QuestionStep(str, s, pattern, pi);
      return str[s] != 0, s', pi';
    }
    if p == OPEN {
      ok, s', pi' := MatchOneOf(str, s, pattern, pi);
    } else {
      LiteralStep(str, s, pattern, pi);
      ok := str[s] == p;
    }
  }

  /** TRUE exactly when the string is in the language of the pattern. */
  method MetaMatch(str: seq<Char16>, s0: nat, pattern: seq<Char16>, p0: nat) returns (r: bool)
    requires CString(str) && s0 < |str| && CString(pattern) && p0 < |pattern|
    requires Parse(From(pattern, p0)).Some?
    ensures r == Matches(Parse(From(pattern, p0)).value, From(str, s0))
    decreases |pattern| - p0, 0
  {
    var s: nat, pi: nat := s0, p0;
    ghost var goal := Goal(str, s0, pattern, p0);
    while true
      invariant s < |str| && p0 <= pi < |pattern|
      invariant Parse(From(pattern, pi)).Some?
      invariant goal == Goal(str, s, pattern, pi)
      decreases |pattern| - pi
    {
      if pattern[pi] == 0 {
        EndStep(str, s, pattern, pi);
        return str[s] == 0;
      }
      if pattern[pi] == STAR {
        StarStep(str, s, pattern, pi);
        r := MatchMany(str, s, pattern, pi + 1);
        return;
      }
      var ok;
      ok, s, pi := MatchOne(str, s, pattern, pi);
      if !ok {
        return false;
      }
    }
  }
}
