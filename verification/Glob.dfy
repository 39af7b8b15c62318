/** The recursive pattern matcher, against the language of patterns it is meant to decide. */
module Glob {

  type Char16 = c: nat | c < 0x1_0000
  type Text = seq<Char16>

  const STAR: Char16 := '*' as int
  const QUESTION: Char16 := '?' as int
  const OPEN: Char16 := '[' as int
  const CLOSE: Char16 := ']' as int
  const DASH: Char16 := '-' as int

  /** No character is the terminator. */
  predicate IsCString(s: Text) {
    forall i :: 0 <= i < |s| ==> s[i] != 0
  }

  // ---------------------------------------------------------------------------
  // The language
  // ---------------------------------------------------------------------------

  datatype Token = Literal(c: Char16) | AnyChar | AnyText | OneOf(body: Text)

  /** The `j`-th character of a set lets `c` in: as itself, or as a dash between two others. */
  predicate Hits(body: Text, j: nat, c: Char16)
    requires j < |body|
  {
    if body[j] != DASH then c == body[j]
    else j + 1 < |body| && (c == body[j + 1] || (if j == 0 then 0 else body[j - 1]) <= c <= body[j + 1])
  }

  predicate InSet(body: Text, c: Char16) {
    exists j :: 0 <= j < |body| && Hits(body, j, c)
  }

  /** The texts a token stands for. */
  predicate Accepts(t: Token, s: Text) {
    match t
    case Literal(c) => s == [c]
    case AnyChar => |s| == 1
    case AnyText => true
    case OneOf(body) => |s| == 1 && InSet(body, s[0])
  }

  /** The `i`-th piece is one that the token accepts. */
  ghost predicate Piece(tokens: seq<Token>, s: Text, cuts: seq<nat>, i: nat)
    requires i < |tokens| == |cuts| - 1
  {
    cuts[i] <= cuts[i + 1] <= |s| && Accepts(tokens[i], s[cuts[i]..cuts[i + 1]])
  }

  /** `cuts` divides `s` into one piece for each token, which the token accepts. */
  ghost predicate Divides(tokens: seq<Token>, s: Text, cuts: seq<nat>) {
    && |cuts| == |tokens| + 1 && cuts[0] == 0 && cuts[|tokens|] == |s|
    && forall i :: 0 <= i < |tokens| ==> Piece(tokens, s, cuts, i)
  }

  ghost predicate Matches(tokens: seq<Token>, s: Text) {
    exists cuts :: Divides(tokens, s, cuts)
  }

  // ---------------------------------------------------------------------------
  // Patterns
  // ---------------------------------------------------------------------------

  /** What comes before the first closing bracket. */
  function Body(p: Text): (body: Text)
    requires CLOSE in p
    ensures CLOSE !in body && |body| < |p| && p[|body|] == CLOSE && p == body + [CLOSE] + p[|body| + 1..]
  {
    if p[0] == CLOSE then [] else [p[0]] + Body(p[1..])
  }

  /** Every set is closed. */
  predicate Closed(p: Text) {
    if p == [] then true
    else if p[0] == OPEN then CLOSE in p[1..] && Closed(p[1..][|Body(p[1..])| + 1..])
    else Closed(p[1..])
  }

  function Tokens(p: Text): seq<Token>
    requires Closed(p)
  {
    if p == [] then []
    else if p[0] == OPEN then
      var body := Body(p[1..]);
      [OneOf(body)] + Tokens(p[1..][|body| + 1..])
    else
      var t := if p[0] == STAR then AnyText else if p[0] == QUESTION then AnyChar else Literal(p[0]);
      [t] + Tokens(p[1..])
  }

  // ---------------------------------------------------------------------------
  // One token at a time
  // ---------------------------------------------------------------------------

  lemma {:induction false} NothingMatchesNothing(s: Text)
    ensures Matches([], s) <==> s == []
  {
    assert Divides([], [], [0]);
  }

  lemma {:induction false} FirstPiece(t: Token, rest: seq<Token>, s: Text, k: nat)
    requires k <= |s| && Accepts(t, s[..k]) && Matches(rest, s[k..])
    ensures Matches([t] + rest, s)
  {
    hide Accepts;
    var tail :| Divides(rest, s[k..], tail);
    var tokens, cuts := [t] + rest, [0] + seq(|tail|, i requires 0 <= i < |tail| => tail[i] + k);
    forall i | 0 <= i < |tokens| ensures Piece(tokens, s, cuts, i) {
      if i > 0 {
        assert Piece(rest, s[k..], tail, i - 1);
        assert s[cuts[i]..cuts[i + 1]] == s[k..][tail[i - 1]..tail[i]];
      } else {
        assert cuts[1] == k;
      }
    }
    assert Divides(tokens, s, cuts);
  }

  lemma {:induction false} Cut(t: Token, rest: seq<Token>, s: Text) returns (k: nat)
    requires Matches([t] + rest, s)
    ensures k <= |s| && Accepts(t, s[..k]) && Matches(rest, s[k..])
  {
    hide Accepts;
    var tokens := [t] + rest;
    var cuts :| Divides(tokens, s, cuts);
    k := cuts[1];
    assert Piece(tokens, s, cuts, 0);
    Increasing(tokens, s, cuts);
    var tail := seq(|rest| + 1, i requires 0 <= i < |rest| + 1 => if cuts[i + 1] >= k then cuts[i + 1] - k else 0);
    forall i | 0 <= i < |rest| ensures Piece(rest, s[k..], tail, i) {
      assert Piece(tokens, s, cuts, i + 1) && cuts[1] <= cuts[i + 1];
      SamePiece(t, rest, s, cuts, tail, i);
    }
    assert Divides(rest, s[k..], tail);
  }

  /** A piece of the whole is the same piece of what comes after the first. */
  lemma {:induction false} SamePiece(t: Token, rest: seq<Token>, s: Text, cuts: seq<nat>, tail: seq<nat>, i: nat)
    requires |cuts| == |rest| + 2 && |tail| == |rest| + 1 && i < |rest| && Piece([t] + rest, s, cuts, i + 1)
    requires cuts[1] <= cuts[i + 1] && tail[i] == cuts[i + 1] - cuts[1] && tail[i + 1] == cuts[i + 2] - cuts[1]
    ensures cuts[1] <= |s| && Piece(rest, s[cuts[1]..], tail, i)
  {
    hide Accepts;
    assert s[cuts[i + 1]..cuts[i + 2]] == s[cuts[1]..][tail[i]..tail[i + 1]];
    assert ([t] + rest)[i + 1] == rest[i];
  }

  lemma {:induction false} Increasing(tokens: seq<Token>, s: Text, cuts: seq<nat>)
    requires Divides(tokens, s, cuts) && tokens != []
    ensures forall i :: 1 <= i < |cuts| ==> cuts[1] <= cuts[i]
  {
    var i := 1;
    while i < |tokens|
      invariant 1 <= i <= |tokens|
      invariant forall j :: 1 <= j <= i ==> cuts[1] <= cuts[j]
    {
      assert Piece(tokens, s, cuts, i);
      i := i + 1;
    }
  }

  /** A token that takes one character. */
  lemma {:induction false} OneCharacter(t: Token, rest: seq<Token>, s: Text)
    requires !t.AnyText?
    ensures Matches([t] + rest, s) <==> s != [] && Accepts(t, s[..1]) && Matches(rest, s[1..])
  {
    if Matches([t] + rest, s) {
      var k := Cut(t, rest, s);
      assert k == 1;
    }
    if s != [] && Accepts(t, s[..1]) && Matches(rest, s[1..]) {
      FirstPiece(t, rest, s, 1);
    }
  }

  /** Any text, then the rest. */
  lemma {:induction false} SomeSuffix(rest: seq<Token>, s: Text)
    ensures Matches([AnyText] + rest, s) <==> exists k :: 0 <= k <= |s| && Matches(rest, s[k..])
  {
    if Matches([AnyText] + rest, s) {
      var k := Cut(AnyText, rest, s);
    }
    if k :| 0 <= k <= |s| && Matches(rest, s[k..]) {
      FirstPiece(AnyText, rest, s, k);
    }
  }

  // ---------------------------------------------------------------------------
  // The matcher
  // ---------------------------------------------------------------------------

  /** The character at a pointer. */
  function Deref(s: Text): Char16 {
    if s == [] then 0 else s[0]
  }

  /** The case of a set, from after its opening bracket to after its closing one. */
  method MatchSet(afterOpen: Text, c: Char16) returns (matched: bool, pattern: Text)
    requires IsCString(afterOpen) && CLOSE in afterOpen && c != 0
    ensures matched <==> InSet(Body(afterOpen), c)
    ensures matched ==> pattern == afterOpen[|Body(afterOpen)| + 1..]
  {
    hide Body;
    ghost var body := Body(afterOpen);
    pattern := afterOpen;
    var l: Char16, p: Char16 := 0, 0;
    ghost var k := 0;
    while true
      invariant 0 <= k <= |body| && pattern == afterOpen[k..]
      invariant forall j :: 0 <= j < k ==> !Hits(body, j, c)
      invariant k == 0 ==> l == 0
      invariant 0 < k && body[k - 1] != DASH ==> l == body[k - 1]
      invariant 0 < k && body[k - 1] == DASH ==> k < |body| && l == body[k]
      decreases |body| - k
    {
      p := Deref(pattern);
      pattern := pattern[1..];
      if p == CLOSE {
        return false, pattern;
      }
      assert p == body[k];
      if p == DASH {
        p := Deref(pattern);
        if p == 0 || p == CLOSE {
          return false, pattern;
        }
        assert p == body[k + 1];
        if l <= c <= p {
          assert Hits(body, k, c);
          break;
        }
      }
      l := p;
      if c == p {
        assert Hits(body, k, c);
        break;
      }
      k := k + 1;
    }
    pattern := SkipSet(pattern, p, afterOpen, k + 1);
    matched := true;
  }

  /** Past the end of the set; `k` characters of it have been read, `p` being the last or the one after it. */
  method SkipSet(from: Text, p: Char16, ghost afterOpen: Text, ghost k: nat) returns (pattern: Text)
    requires IsCString(afterOpen) && CLOSE in afterOpen && k <= |Body(afterOpen)| && from == afterOpen[k..]
    requires p != 0 && p != CLOSE
    ensures pattern == afterOpen[|Body(afterOpen)| + 1..]
  {
    hide Body;
    ghost var body := Body(afterOpen);
    var c := p;
    ghost var at := k;
    pattern := from;
    while c != 0 && c != CLOSE
      invariant 0 <= at <= |afterOpen| && pattern == afterOpen[at..]
      invariant c == CLOSE ==> at == |body| + 1
      invariant c != CLOSE ==> at <= |body| && c != 0
      decreases |afterOpen| - at, c != CLOSE
    {
      c := Deref(pattern);
      pattern := pattern[1..];
      at := at + 1;
    }
  }

  // What the first character of a pattern says about the text.

  lemma {:induction false} StarFirst(p: Text, s: Text)
    requires p != [] && Closed(p) && p[0] == '*' as int
    ensures Closed(p[1..])
    ensures Matches(Tokens(p), s) <==> exists k :: 0 <= k <= |s| && Matches(Tokens(p[1..]), s[k..])
  {
    hide Matches;
    SomeSuffix(Tokens(p[1..]), s);
  }

  lemma {:induction false} QuestionFirst(p: Text, s: Text)
    requires p != [] && Closed(p) && p[0] == '?' as int
    ensures Closed(p[1..])
    ensures Matches(Tokens(p), s) <==> s != [] && Matches(Tokens(p[1..]), s[1..])
  {
    hide Matches;
    OneCharacter(AnyChar, Tokens(p[1..]), s);
  }

  lemma {:induction false} OpenFirst(p: Text, s: Text)
    requires p != [] && Closed(p) && p[0] == '[' as int
    ensures CLOSE in p[1..] && Closed(p[1..][|Body(p[1..])| + 1..])
    ensures Matches(Tokens(p), s) <==>
              s != [] && InSet(Body(p[1..]), s[0]) && Matches(Tokens(p[1..][|Body(p[1..])| + 1..]), s[1..])
  {
    hide Matches;
    OneCharacter(OneOf(Body(p[1..])), Tokens(p[1..][|Body(p[1..])| + 1..]), s);
  }

  lemma {:induction false} LiteralFirst(p: Text, s: Text)
    requires p != [] && Closed(p) && p[0] != '*' as int && p[0] != '?' as int && p[0] != '[' as int
    ensures Closed(p[1..])
    ensures Matches(Tokens(p), s) <==> s != [] && s[0] == p[0] && Matches(Tokens(p[1..]), s[1..])
  {
    hide Matches;
    OneCharacter(Literal(p[0]), Tokens(p[1..]), s);
    if s != [] { assert s[..1] == [s[0]]; }
  }

  // Which characters a set lets in, told from its text.

  /** What a set is usually made of: single characters, and ranges. */
  datatype Part = Single(c: Char16) | Range(lo: Char16, hi: Char16) {
    predicate Plain() {
      if Single? then c != DASH && c != CLOSE else lo != DASH && lo != CLOSE && hi != DASH && hi != CLOSE
    }

    function Spelled(): Text {
      if Single? then [c] else [lo, DASH, hi]
    }

    /** The ends of a range are let in even where they are the wrong way round. */
    predicate LetsIn(x: Char16) {
      if Single? then x == c else lo <= x <= hi || x == lo || x == hi
    }
  }

  function Spelling(parts: seq<Part>): Text {
    if parts == [] then [] else Spelling(parts[..|parts| - 1]) + parts[|parts| - 1].Spelled()
  }

  lemma {:induction false} SpellingIsPlain(parts: seq<Part>)
    requires forall i :: 0 <= i < |parts| ==> parts[i].Plain()
    ensures CLOSE !in Spelling(parts)
    ensures Spelling(parts) != [] ==> Spelling(parts)[|Spelling(parts)| - 1] != DASH
  {
    if parts != [] { SpellingIsPlain(parts[..|parts| - 1]); }
  }

  /** What is written after the last character of a set that is no dash does not matter to it. */
  lemma {:induction false} HitsBefore(body: Text, more: Text, j: nat, c: Char16)
    requires j < |body| && body[|body| - 1] != DASH
    ensures Hits(body + more, j, c) <==> Hits(body, j, c)
  {
  }

  lemma {:induction false} OnePartMore(body: Text, part: Part, c: Char16)
    requires part.Plain() && (body != [] ==> body[|body| - 1] != DASH)
    ensures InSet(body + part.Spelled(), c) <==> InSet(body, c) || part.LetsIn(c)
  {
    var n, all := |body|, body + part.Spelled();
    forall j | 0 <= j < n ensures Hits(all, j, c) <==> Hits(body, j, c) { HitsBefore(body, part.Spelled(), j, c); }
    if part.Single? {
      assert Hits(all, n, c) <==> part.LetsIn(c);
    } else {
      assert all[n] == part.lo && all[n + 1] == DASH && all[n + 2] == part.hi;
      assert part.LetsIn(c) <==> Hits(all, n, c) || Hits(all, n + 1, c) || Hits(all, n + 2, c);
    }
  }

  /** A set made of characters and ranges lets in exactly what one of them lets in. */
  lemma {:induction false} SetOfParts(parts: seq<Part>, c: Char16)
    requires forall i :: 0 <= i < |parts| ==> parts[i].Plain()
    ensures InSet(Spelling(parts), c) <==> exists i :: 0 <= i < |parts| && parts[i].LetsIn(c)
  {
    if parts != [] {
      var k := |parts| - 1;
      SetOfParts(parts[..k], c);
      SpellingIsPlain(parts[..k]);
      OnePartMore(Spelling(parts[..k]), parts[k], c);
      if i :| 0 <= i < |parts| && parts[i].LetsIn(c) { assert i < k ==> parts[..k][i].LetsIn(c); }
    }
  }

  lemma {:induction false} BodyIs(body: Text, rest: Text)
    requires CLOSE !in body
    ensures Body(body + [CLOSE] + rest) == body
  {
    var p := body + [CLOSE] + rest;
    if body != [] {
      assert p[1..] == body[1..] + [CLOSE] + rest;
      BodyIs(body[1..], rest);
    }
  }

  /** A pattern that begins with such a set: what it says of the first character, and the rest of the rest. */
  lemma {:induction false} SetFirst(parts: seq<Part>, rest: Text, s: Text)
    requires (forall i :: 0 <= i < |parts| ==> parts[i].Plain()) && Closed(rest)
    ensures Closed([OPEN] + Spelling(parts) + [CLOSE] + rest)
    ensures Matches(Tokens([OPEN] + Spelling(parts) + [CLOSE] + rest), s) <==>
              && s != [] && (exists i :: 0 <= i < |parts| && parts[i].LetsIn(s[0]))
              && Matches(Tokens(rest), s[1..])
  {
    hide Matches, InSet, Tokens, Spelling;
    SpellingIsPlain(parts);
    OpenedSet(Spelling(parts), rest);
    OpenFirst([OPEN] + Spelling(parts) + [CLOSE] + rest, s);
    if s != [] { SetOfParts(parts, s[0]); }
  }

  lemma {:induction false} OpenedSet(body: Text, rest: Text)
    requires CLOSE !in body && Closed(rest)
    ensures var p := [OPEN] + body + [CLOSE] + rest;
            && CLOSE in p[1..] && Body(p[1..]) == body && p[1..][|body| + 1..] == rest && Closed(p)
  {
    hide Body;
    var p := [OPEN] + body + [CLOSE] + rest;
    BodyIs(body, rest);
    assert p[1..] == body + [CLOSE] + rest;
    assert p[1..][|body|] == CLOSE;
    assert p[1..][|body| + 1..] == rest;
  }

  /** Without a dash a set lets in exactly the characters written in it. */
  lemma {:induction false} CharactersOnly(x: Text, s: Text)
    requires DASH !in x && CLOSE !in x
    ensures Closed([OPEN] + x + [CLOSE])
    ensures Matches(Tokens([OPEN] + x + [CLOSE]), s) <==> |s| == 1 && s[0] in x
  {
    var p := [OPEN] + x + [CLOSE];
    assert p[1..] == x + [CLOSE] + [];
    BodyIs(x, []);
    assert p[1..][|x| + 1..] == [];
    OpenFirst(p, s);
    if s != [] {
      NothingMatchesNothing(s[1..]);
      assert InSet(x, s[0]) <==> s[0] in x by {
        forall j | 0 <= j < |x| ensures Hits(x, j, s[0]) <==> x[j] == s[0] {}
      }
    }
  }

  /** `[lo-hi]`. */
  lemma {:induction false} OneRange(lo: Char16, hi: Char16, s: Text)
    requires lo != DASH && lo != CLOSE && hi != DASH && hi != CLOSE
    ensures Closed(['[' as int, lo, '-' as int, hi, ']' as int])
    ensures Matches(Tokens(['[' as int, lo, '-' as int, hi, ']' as int]), s) <==>
              |s| == 1 && (lo <= s[0] <= hi || s[0] == lo || s[0] == hi)
  {
    hide Matches;
    var parts := [Range(lo, hi)];
    assert Spelling(parts) == [lo, DASH, hi] by { assert Spelling(parts[..0]) == []; }
    assert [OPEN] + Spelling(parts) + [CLOSE] + [] == [OPEN, lo, DASH, hi, CLOSE];
    SetFirst(parts, [], s);
    if s != [] {
      NothingMatchesNothing(s[1..]);
      assert parts[0].LetsIn(s[0]) <==> exists i :: 0 <= i < |parts| && parts[i].LetsIn(s[0]);
    }
  }

  lemma {:induction false} NoPattern(s: Text)
    ensures Matches(Tokens([]), s) <==> s == []
  {
    NothingMatchesNothing(s);
  }

  /** MetaMatch. */
  method MetaMatch(text: Text, globPattern: Text) returns (r: bool)
    requires IsCString(text) && IsCString(globPattern) && Closed(globPattern)
    ensures r <==> Matches(Tokens(globPattern), text)
    decreases |globPattern|, 0
  {
    hide Matches, Tokens, Closed, Body, InSet;
    var str, pattern := text, globPattern;
    while true
      invariant IsCString(str) && IsCString(pattern) && Closed(pattern) && |pattern| <= |globPattern|
      invariant Matches(Tokens(globPattern), text) <==> Matches(Tokens(pattern), str)
      decreases |pattern|
    {
      var p := Deref(pattern);
      if p == 0 {
        NoPattern(str);
        return str == [];
      }
      ghost var at := pattern;
      pattern := pattern[1..];
      if p == STAR {
        StarFirst(at, str);
        r := MatchRest(str, pattern);
        return;
      } else if p == QUESTION {
        QuestionFirst(at, str);
        if Deref(str) == 0 {
          return false;
        }
        str := str[1..];
      } else if p == OPEN {
        OpenFirst(at, str);
        var c := Deref(str);
        if c == 0 {
          return false;
        }
        var matched, next := MatchSet(pattern, c);
        if !matched {
          return false;
        }
        pattern := next;
        str := str[1..];
      } else {
        LiteralFirst(at, str);
        var c := Deref(str);
        if c != p {
          return false;
        }
        str := str[1..];
      }
    }
  }

  /** The case of a star: whether the pattern after it matches what is left of the text, from any character on. */
  method MatchRest(text: Text, pattern: Text) returns (r: bool)
    requires IsCString(text) && IsCString(pattern) && Closed(pattern)
    ensures r <==> exists k :: 0 <= k <= |text| && Matches(Tokens(pattern), text[k..])
    decreases |pattern|, 1
  {
    hide Matches, Tokens, Closed;
    var str := text;
    ghost var k := 0;
    while Deref(str) != 0
      invariant 0 <= k <= |text| && str == text[k..]
      invariant forall j :: 0 <= j < k ==> !Matches(Tokens(pattern), text[j..])
      decreases |str|
    {
      var found := MetaMatch(str, pattern);
      if found {
        return true;
      }
      str := str[1..];
      k := k + 1;
    }
    r := MetaMatch(str, pattern);
  }
}
