/** Ruleset ref patterns: how they are compiled to regular expressions, what the expressions
    mean, and which rulesets apply (src/researchctl/adapters/github_governance.py). */
module GlobCompiler {
  import opened Wrappers

  // ----- The compiler -----

  /** Characters that `re.escape` puts a backslash before. */
  predicate Special(c: char) {
    c in {'(', ')', '[', ']', '{', '}', '?', '*', '+', '-', '|', '^', '$', '\\', '.', '&', '~', '#', ' ',
          '\t', '\n', '\r', 11 as char, 12 as char}
  }

  function Escape(c: char): string {
    if Special(c) then ['\\', c] else [c]
  }

  /** How many characters of a pattern are translated together, and into what. */
  function Translate(p: string): (string, nat)
    requires p != ""
  {
    if p[0] == '*' then
      if "**/" <= p then ("(?:.*/)?", 3)
      else if "**" <= p then (".*", 2)
      else ("[^/]*", 1)
    else if p[0] == '?' then ("[^/]", 1)
    else (Escape(p[0]), 1)
  }

  /** The expression between its anchors; None for the brackets that are not supported. */
  function Body(p: string): Option<string>
    decreases |p|
  {
    if p == "" then Some("")
    else if p[0] == '[' then None
    else
      var (piece, width) := Translate(p);
      match Body(p[width..])
      case None => None
      case Some(rest) => Some(piece + rest)
  }

  method Compile(pattern: string) returns (expression: Option<string>)
    ensures expression == if Body(pattern).None? then None else Some("^" + Body(pattern).value + "$")
  {
    hide Body;
    var pieces := "^";
    var index := 0;
    assert pattern[0..] == pattern;
    while index < |pattern|
      invariant index <= |pattern|
      invariant Body(pattern).Some? == Body(pattern[index..]).Some?
      invariant Body(pattern).Some? ==> "^" + Body(pattern).value == pieces + Body(pattern[index..]).value
    {
      var character := pattern[index];
      BodyStep(pattern, index, pieces);
      if character == '*' {
        if index + 3 <= |pattern| && pattern[index..index + 3] == "**/" {
          pieces := pieces + "(?:.*/)?";
          index := index + 3;
          continue;
        }
        if index + 2 <= |pattern| && pattern[index..index + 2] == "**" {
          pieces := pieces + ".*";
          index := index + 2;
          continue;
        }
        pieces := pieces + "[^/]*";
      } else if character == '?' {
        pieces := pieces + "[^/]";
      } else if character == '[' {
        return None;
      } else {
        pieces := pieces + Escape(character);
      }
      index := index + 1;
    }
    BodyOfNothing(pattern[index..], pieces);
    return Some(pieces + "$");
  }

  lemma BodyOfNothing(p: string, pieces: string)
    requires p == ""
    ensures Body(p) == Some("") && pieces + Body(p).value == pieces
  {
  }

  lemma BodyStep(pattern: string, index: nat, pieces: string)
    requires index < |pattern|
    ensures pattern[index] == '[' ==> Body(pattern[index..]).None?
    ensures pattern[index] != '[' ==>
      var (piece, width) := Translate(pattern[index..]);
      && index + width <= |pattern|
      && Body(pattern[index..]).Some? == Body(pattern[index + width..]).Some?
      && (Body(pattern[index..]).Some? ==>
          pieces + Body(pattern[index..]).value == pieces + piece + Body(pattern[index + width..]).value)
  {
    var p := pattern[index..];
    BodyUnfolds(p);
    if p[0] != '[' {
      var (piece, width) := Translate(p);
      hide *;
      Dropped(pattern, index, width);
      if Body(p).Some? {
        JoinedBehind(pieces, piece, Body(p[width..]).value);
      }
    }
  }

  lemma BodyUnfolds(p: string)
    requires p != ""
    ensures Translate(p).1 <= |p|
    ensures Body(p) ==
      if p[0] == '[' then None
      else match Body(p[Translate(p).1..]) case None => None case Some(rest) => Some(Translate(p).0 + rest)
  {
    WidthFits(p);
    hide Translate;
  }

  lemma WidthFits(p: string)
    requires p != ""
    ensures 0 < Translate(p).1 <= |p|
  {
  }

  lemma Dropped(s: string, i: nat, w: nat)
    requires i + w <= |s|
    ensures s[i..][w..] == s[i + w..]
  {
  }

  lemma JoinedBehind(a: string, b: string, c: string)
    ensures a + (b + c) == a + b + c
  {
  }

  // ----- The expressions and what they match -----

  datatype Class = Exactly(c: char) | Except(c: char) | Dot {
    predicate Has(x: char) {
      match this
      case Exactly(c) => x == c
      case Except(c) => x != c
      case Dot => x != '\n'
    }
  }

  datatype Element = One(cls: Class) | Many(cls: Class) | Optional(group: seq<Element>) | Start | Finish

  /** One character class at the start of an expression, and how long it is. */
  function ReadClass(e: string): Option<(Class, nat)> {
    if e == "" then None
    else if e[0] == '\\' then (if |e| >= 2 && Special(e[1]) then Some((Exactly(e[1]), 2)) else None)
    else if e[0] == '[' then
      (if |e| >= 4 && e[1] == '^' && !Special(e[2]) && e[3] == ']' then Some((Except(e[2]), 4)) else None)
    else if e[0] == '.' then Some((Dot, 1))
    else if e[0] in {'(', ')', ']', '{', '}', '?', '*', '+', '|', '^', '$'} then None
    else Some((Exactly(e[0]), 1))
  }

  predicate Repeats(c: char) {
    c in {'*', '?', '+', '{'}
  }

  /** One class, repeated or not. */
  function ReadItem(e: string): (r: Option<(Element, nat)>)
    ensures r.Some? ==> 0 < r.value.1 <= |e|
  {
    match ReadClass(e)
    case None => None
    case Some((cls, n)) =>
      if n < |e| && e[n] == '*' then Some((Many(cls), n + 1))
      else if n < |e| && Repeats(e[n]) then None
      else Some((One(cls), n))
  }

  /** The inside of an optional group, with the end of the group. */
  function ReadGroup(e: string): (r: Option<(seq<Element>, nat)>)
    ensures r.Some? ==> 0 < r.value.1 <= |e|
    decreases |e|
  {
    if ")?" <= e then Some(([], 2))
    else
      match ReadItem(e)
      case None => None
      case Some((item, n)) =>
        match ReadGroup(e[n..])
        case None => None
        case Some((items, m)) => Some(([item] + items, n + m))
  }

  function Read(e: string): Option<seq<Element>>
    decreases |e|
  {
    if e == "" then Some([])
    else
      var first: Option<(Element, nat)> :=
        if e[0] == '^' then Some((Start, 1))
        else if e[0] == '$' then Some((Finish, 1))
        else if "(?:" <= e then
          (match ReadGroup(e[3..])
           case None => None
           case Some((items, n)) => Some((Optional(items), n + 3)))
        else ReadItem(e);
      match first
      case None => None
      case Some((element, n)) =>
        match Read(e[n..])
        case None => None
        case Some(rest) => Some([element] + rest)
  }

  /** The elements match s from i up to j. */
  predicate MatchesFrom(es: seq<Element>, s: string, i: nat, j: nat)
    requires i <= j <= |s|
    decreases es
  {
    if es == [] then i == j
    else
      match es[0]
      case One(cls) => i < j && cls.Has(s[i]) && MatchesFrom(es[1..], s, i + 1, j)
      case Many(cls) => exists k :: i <= k <= j && All(cls, s, i, k) && MatchesFrom(es[1..], s, k, j)
      case Optional(group) =>
        || MatchesFrom(es[1..], s, i, j)
        || exists k :: i <= k <= j && MatchesFrom(group, s, i, k) && MatchesFrom(es[1..], s, k, j)
      case Start => i == 0 && MatchesFrom(es[1..], s, i, j)
      case Finish => (i == |s| || (i == |s| - 1 && s[i] == '\n')) && MatchesFrom(es[1..], s, i, j)
  }

  predicate All(cls: Class, s: string, i: nat, k: nat)
    requires i <= k <= |s|
  {
    forall m :: i <= m < k ==> cls.Has(s[m])
  }

  predicate FullMatch(expression: string, s: string) {
    Read(expression).Some? && MatchesFrom(Read(expression).value, s, 0, |s|)
  }

  // ----- Patterns and what they mean -----

  ghost predicate Glob(p: string, s: string)
    decreases |p|
  {
    if p == "" then s == ""
    else if "**/" <= p then
      Glob(p[3..], s) || exists k :: 0 <= k < |s| && s[k] == '/' && Glob(p[3..], s[k + 1..])
    else if "**" <= p then exists k :: 0 <= k <= |s| && Glob(p[2..], s[k..])
    else if p[0] == '*' then exists k :: 0 <= k <= |s| && '/' !in s[..k] && Glob(p[1..], s[k..])
    else if p[0] == '?' then s != "" && s[0] != '/' && Glob(p[1..], s[1..])
    else s != "" && s[0] == p[0] && Glob(p[1..], s[1..])
  }

  // ----- Reading what was written -----

  function ElementOf(p: string): Element
    requires p != ""
  {
    if "**/" <= p then Optional([Many(Dot), One(Exactly('/'))])
    else if "**" <= p then Many(Dot)
    else if p[0] == '*' then Many(Except('/'))
    else if p[0] == '?' then One(Except('/'))
    else One(Exactly(p[0]))
  }

  function Elements(p: string): seq<Element>
    decreases |p|
  {
    if p == "" then [] else [ElementOf(p)] + Elements(p[Translate(p).1..])
  }

  /** No expression for a pattern starts with a repetition. */
  lemma NoRepetitionFirst(p: string)
    requires Body(p).Some?
    ensures !Repeats((Body(p).value + "$")[0])
  {
  }

  lemma ReadsAfterItem(e: string, item: Element, n: nat)
    requires ReadItem(e) == Some((item, n))
    ensures Read(e) == match Read(e[n..]) case None => None case Some(tail) => Some([item] + tail)
  {
  }

  lemma ReadsPiece(p: string, rest: string)
    requires p != "" && p[0] != '[' && rest != "" && !Repeats(rest[0])
    ensures Read(Translate(p).0 + rest) ==
      match Read(rest) case None => None case Some(tail) => Some([ElementOf(p)] + tail)
  {
    hide Read;
    var piece := Translate(p).0;
    var e := piece + rest;
    assert e[|piece|..] == rest;
    if "**/" <= p {
      ReadsDirectories(rest);
    } else {
      assert e[..|piece|] == piece;
      ReadsAfterItem(e, ElementOf(p), |piece|);
    }
  }

  lemma ReadsDirectories(rest: string)
    ensures Read("(?:.*/)?" + rest) ==
      match Read(rest) case None => None case Some(tail) => Some([Optional([Many(Dot), One(Exactly('/'))])] + tail)
  {
    var e := ".*/)?" + rest;
    var all := "(?:.*/)?" + rest;
    assert all[3..] == e && all[8..] == rest;
    ReadsGroup(e, rest);
  }

  lemma ReadsGroup(e: string, rest: string)
    requires e == ".*/)?" + rest
    ensures ReadGroup(e) == Some(([Many(Dot), One(Exactly('/'))], 5))
  {
    assert e[2..] == "/)?" + rest && e[3..] == ")?" + rest && e[2..][1..] == e[3..];
    assert ReadItem(e) == Some((Many(Dot), 2));
    assert ReadItem(e[2..]) == Some((One(Exactly('/')), 1));
    assert ReadGroup(e[3..]) == Some(([], 2));
    assert ReadGroup(e[2..]) == Some(([One(Exactly('/'))], 3)) by {
      assert [One(Exactly('/'))] + [] == [One(Exactly('/'))];
    }
    assert [Many(Dot)] + [One(Exactly('/'))] == [Many(Dot), One(Exactly('/'))];
  }

  lemma ReadsAnchors(e: string)
    ensures Read("$") == Some([Finish])
    ensures Read("^" + e) == match Read(e) case None => None case Some(tail) => Some([Start] + tail)
  {
    assert "$"[1..] == "" && ("^" + e)[1..] == e;
    assert Read("") == Some([]) && [Finish] + [] == [Finish];
  }

  lemma {:induction false} ReadsBody(p: string)
    requires Body(p).Some?
    ensures Read(Body(p).value + "$") == Some(Elements(p) + [Finish])
    decreases |p|
  {
    hide Read;
    if p == "" {
      ReadsAnchors("");
      assert "" + "$" == "$" && Elements("") + [Finish] == [Finish];
    } else {
      var (piece, width) := Translate(p);
      var rest := Body(p[width..]).value + "$";
      assert Body(p).value + "$" == piece + rest;
      NoRepetitionFirst(p[width..]);
      ReadsPiece(p, rest);
      ReadsBody(p[width..]);
      assert [ElementOf(p)] + (Elements(p[width..]) + [Finish]) == Elements(p) + [Finish];
    }
  }

  // ----- The expression means what the pattern means -----

  /** The rest of the pattern means the same from wherever the text goes on. */
  ghost predicate Agree(tail: seq<Element>, rest: string, s: string, i: nat)
    requires i <= |s|
  {
    forall k :: i <= k <= |s| ==> (MatchesFrom(tail, s, k, |s|) <==> Glob(rest, s[k..]))
  }

  /** A text starts with some characters of a class and goes on as the rest says. */
  ghost predicate RunThen(cls: Class, rest: string, s: string) {
    exists k :: 0 <= k <= |s| && All(cls, s, 0, k) && Glob(rest, s[k..])
  }

  lemma ManyMeans(cls: Class, tail: seq<Element>, rest: string, s: string, i: nat)
    requires i <= |s| && Agree(tail, rest, s, i)
    ensures MatchesFrom([Many(cls)] + tail, s, i, |s|) <==> RunThen(cls, rest, s[i..])
  {
    assert ([Many(cls)] + tail)[1..] == tail;
    forall k | i <= k <= |s|
      ensures s[i..][k - i..] == s[k..] && (All(cls, s, i, k) <==> All(cls, s[i..], 0, k - i))
    {
      if All(cls, s[i..], 0, k - i) {
        assert forall m :: i <= m < k ==> s[m] == s[i..][m - i];
      }
    }
    if RunThen(cls, rest, s[i..]) {
      var k :| 0 <= k <= |s[i..]| && All(cls, s[i..], 0, k) && Glob(rest, s[i..][k..]);
      assert All(cls, s, i, k + i) && MatchesFrom(tail, s, k + i, |s|);
    }
    if MatchesFrom([Many(cls)] + tail, s, i, |s|) {
      var k :| i <= k <= |s| && All(cls, s, i, k) && MatchesFrom(tail, s, k, |s|);
      assert All(cls, s[i..], 0, k - i) && Glob(rest, s[i..][k - i..]);
    }
  }

  const DIRECTORIES := [Many(Dot), One(Exactly('/'))]

  lemma DirectoriesMatch(s: string, i: nat, k: nat)
    requires i <= k <= |s| && '\n' !in s
    ensures MatchesFrom(DIRECTORIES, s, i, k) <==> i < k && s[k - 1] == '/'
  {
    var slash := [One(Exactly('/'))];
    assert DIRECTORIES[1..] == slash && slash[1..] == [];
    if i < k && s[k - 1] == '/' {
      assert All(Dot, s, i, k - 1) && MatchesFrom(slash, s, k - 1, k);
    }
  }

  /** Some directories come first, and the rest of the pattern matches behind them. */
  ghost predicate BehindSlash(rest: string, s: string) {
    exists k :: 0 <= k < |s| && s[k] == '/' && Glob(rest, s[k + 1..])
  }

  ghost predicate DirectoriesThen(tail: seq<Element>, s: string, i: nat)
    requires i <= |s|
  {
    exists k :: i <= k <= |s| && MatchesFrom(DIRECTORIES, s, i, k) && MatchesFrom(tail, s, k, |s|)
  }

  lemma BehindSlashMeans(tail: seq<Element>, rest: string, s: string, i: nat)
    requires i <= |s| && '\n' !in s && Agree(tail, rest, s, i)
    ensures BehindSlash(rest, s[i..]) <==> DirectoriesThen(tail, s, i)
  {
    hide Glob, MatchesFrom;
    if k :| i <= k <= |s| && MatchesFrom(DIRECTORIES, s, i, k) && MatchesFrom(tail, s, k, |s|) {
      DirectoriesMatch(s, i, k);
      assert s[i..][k - 1 - i] == '/' && s[i..][k - 1 - i + 1..] == s[k..];
    }
    if k :| 0 <= k < |s[i..]| && s[i..][k] == '/' && Glob(rest, s[i..][k + 1..]) {
      DirectoriesMatch(s, i, i + k + 1);
      assert s[i..][k + 1..] == s[i + k + 1..];
      assert MatchesFrom(tail, s, i + k + 1, |s|);
    }
  }

  lemma OptionalMeans(tail: seq<Element>, rest: string, s: string, i: nat)
    requires i <= |s| && '\n' !in s && Agree(tail, rest, s, i)
    ensures MatchesFrom([Optional(DIRECTORIES)] + tail, s, i, |s|) <==> Glob(rest, s[i..]) || BehindSlash(rest, s[i..])
  {
    hide Glob, BehindSlash;
    var es := [Optional(DIRECTORIES)] + tail;
    assert es[1..] == tail && es[0] == Optional(DIRECTORIES);
    assert MatchesFrom(tail, s, i, |s|) <==> Glob(rest, s[i..]);
    BehindSlashMeans(tail, rest, s, i);
    OptionalUnfolds(es, tail, s, i);
  }

  lemma OptionalUnfolds(es: seq<Element>, tail: seq<Element>, s: string, i: nat)
    requires i <= |s| && es != [] && es[0] == Optional(DIRECTORIES) && es[1..] == tail
    ensures MatchesFrom(es, s, i, |s|) <==> MatchesFrom(tail, s, i, |s|) || DirectoriesThen(tail, s, i)
  {
  }

  lemma {:induction false} ElementsMean(p: string, s: string, i: nat)
    requires i <= |s| && '\n' !in s
    ensures MatchesFrom(Elements(p) + [Finish], s, i, |s|) <==> Glob(p, s[i..])
    decreases |p|
  {
    var es := Elements(p) + [Finish];
    if p == "" {
      assert es[1..] == [];
    } else {
      var rest := p[Translate(p).1..];
      var tail := Elements(rest) + [Finish];
      assert es == [ElementOf(p)] + tail && es[1..] == tail;
      forall k | i <= k <= |s| ensures MatchesFrom(tail, s, k, |s|) <==> Glob(rest, s[k..]) {
        ElementsMean(rest, s, k);
      }
      if "**/" <= p {
        OptionalMeans(tail, rest, s, i);
      } else if p[0] == '*' {
        var cls := ElementOf(p).cls;
        ManyMeans(cls, tail, rest, s, i);
        StarMeans(p, s[i..]);
      } else if i < |s| {
        assert s[i..][1..] == s[i + 1..];
      }
    }
  }

  lemma StarMeans(p: string, s: string)
    requires p != "" && p[0] == '*' && !("**/" <= p) && '\n' !in s
    ensures Glob(p, s) <==> RunThen(ElementOf(p).cls, p[Translate(p).1..], s)
  {
    var cls, rest := ElementOf(p).cls, p[Translate(p).1..];
    forall k | 0 <= k <= |s| ensures All(cls, s, 0, k) <==> cls.Dot? || '/' !in s[..k] {
      if cls.Except? && '/' !in s[..k] {
        assert forall m :: 0 <= m < k ==> s[m] == s[..k][m];
      }
    }
    if Glob(p, s) {
      var k :| 0 <= k <= |s| && (cls.Dot? || '/' !in s[..k]) && Glob(rest, s[k..]);
      assert All(cls, s, 0, k);
    }
  }

  /** MAIN: for every pattern without brackets and every text without line ends, the compiled
      expression matches the text exactly when the pattern, read directly, does. */
  lemma CompiledMeans(p: string, s: string)
    requires '\n' !in s
    ensures Body(p).Some? <==> '[' !in p
    ensures Body(p).Some? ==> (FullMatch("^" + Body(p).value + "$", s) <==> Glob(p, s))
  {
    hide Read, Glob, Body;
    BodyIffNoBracket(p);
    if Body(p).Some? {
      var e := Body(p).value + "$";
      assert "^" + Body(p).value + "$" == "^" + e;
      ReadsAnchors(e);
      ReadsBody(p);
      ElementsMean(p, s, 0);
      assert s[0..] == s;
      assert ([Start] + (Elements(p) + [Finish]))[1..] == Elements(p) + [Finish];
    }
  }

  lemma {:induction false} BodyIffNoBracket(p: string)
    ensures Body(p).Some? <==> '[' !in p
    decreases |p|
  {
    if p != "" && p[0] != '[' {
      var w := Translate(p).1;
      BodyIffNoBracket(p[w..]);
      assert p == p[..w] + p[w..];
      assert '[' !in p[..w] by {
        assert forall i :: 0 <= i < w ==> p[..w][i] == p[i];
      }
    }
  }

  // ----- Laws of patterns -----

  predicate Wildcard(c: char) {
    c == '*' || c == '?'
  }

  /** MAIN: a pattern without wildcards matches itself and nothing else. */
  lemma {:induction false} LiteralMatchesItself(p: string, s: string)
    requires forall c <- p :: !Wildcard(c)
    ensures Glob(p, s) <==> s == p
    decreases |p|
  {
    if p != "" {
      assert p == [p[0]] + p[1..] && !Wildcard(p[0]);
      assert !("*" <= p);
      if s != "" {
        LiteralMatchesItself(p[1..], s[1..]);
        assert s == [s[0]] + s[1..];
      }
    }
  }

  predicate EndsInStar(p: string) {
    p != "" && p[|p| - 1] == '*'
  }

  /** MAIN: widening an isolated `*` to `**` never loses a match, even where it makes a `**`
      that is followed by a slash. */
  lemma {:induction false} WideningKeepsMatches(before: string, after: string, s: string)
    requires !EndsInStar(before) && (after == "" || after[0] != '*')
    requires Glob(before + ("*" + after), s)
    ensures Glob(before + ("**" + after), s)
    decreases |before|
  {
    hide *;
    if before == "" {
      assert before + ("*" + after) == "*" + after && before + ("**" + after) == "**" + after;
      WidenedStar(after, s);
    } else {
      var w := FirstToken(before, "*" + after, "**" + after);
      forall k | 0 <= k <= |s|
        ensures Glob(before[w..] + ("*" + after), s[k..]) ==> Glob(before[w..] + ("**" + after), s[k..])
      {
        if Glob(before[w..] + ("*" + after), s[k..]) {
          WideningKeepsMatches(before[w..], after, s[k..]);
        }
      }
      SameTokenWider(before + ("*" + after), before + ("**" + after), s);
    }
  }

  /** The first token is the same whatever follows the text. */
  lemma FirstToken(before: string, a: string, b: string) returns (w: nat)
    requires before != "" && !EndsInStar(before)
    ensures 0 < w <= |before| && !EndsInStar(before[w..])
    ensures Translate(before + a).1 == w == Translate(before + b).1 && (before + a)[0] == (before + b)[0]
    ensures (before + a)[w..] == before[w..] + a && (before + b)[w..] == before[w..] + b
    ensures "**/" <= before + a <==> "**/" <= before + b
    ensures "**" <= before + a <==> "**" <= before + b
  {
    TokensStayApart(before, a);
    TokensStayApart(before, b);
    w := Translate(before).1;
    assert w > 0;
    hide *;
    BehindToken(before, a, w);
    BehindToken(before, b, w);
  }

  lemma BehindToken(before: string, after: string, w: nat)
    requires 0 < w <= |before| && !EndsInStar(before)
    ensures (before + after)[w..] == before[w..] + after && (before + after)[0] == before[0]
    ensures !EndsInStar(before[w..])
  {
  }

  /** Both patterns start with the same token, and what follows in the second matches more. */
  lemma SameTokenWider(narrow: string, wide: string, s: string)
    requires narrow != "" && wide != "" && narrow[0] == wide[0] && Translate(narrow).1 == Translate(wide).1
    requires "**/" <= narrow <==> "**/" <= wide
    requires "**" <= narrow <==> "**" <= wide
    requires var w := Translate(narrow).1;
      forall k :: 0 <= k <= |s| && Glob(narrow[w..], s[k..]) ==> Glob(wide[w..], s[k..])
    requires Glob(narrow, s)
    ensures Glob(wide, s)
  {
    assert s[0..] == s;
  }

  /** A token that starts in text not ending in a star ends in it. */
  lemma TokensStayApart(before: string, after: string)
    requires before != "" && !EndsInStar(before)
    ensures Translate(before + after).1 == Translate(before).1 <= |before|
    ensures "**/" <= before + after <==> "**/" <= before
    ensures "**" <= before + after <==> "**" <= before
  {
    var all := before + after;
    if "**" <= all {
      assert all[0] == '*' && all[1] == '*' && before[0] == '*';
      assert |before| >= 2 && before[1] == '*' && |before| >= 3;
      assert all[..2] == before[..2] && all[..3] == before[..3];
    }
  }

  lemma WidenedStar(after: string, s: string)
    requires (after == "" || after[0] != '*') && Glob("*" + after, s)
    ensures Glob("**" + after, s)
  {
    var p := "*" + after;
    assert p[1..] == after && !("**" <= p);
    var k :| 0 <= k <= |s| && '/' !in s[..k] && Glob(after, s[k..]);
    var wide := "**" + after;
    assert wide[2..] == after;
    if "**/" <= wide {
      assert after[0] == wide[2] == '/' && wide[3..] == after[1..];
      assert s[k..][1..] == s[k + 1..];
    }
  }

  // ----- Which rulesets apply -----

  predicate Supported(pattern: string) {
    '[' !in pattern
  }

  ghost predicate Selects(pattern: string, branch: string, defaultBranch: string) {
    if pattern == "~ALL" then true
    else if pattern == "~DEFAULT_BRANCH" then branch == defaultBranch
    else Supported(pattern) && Glob(pattern, "refs/heads/" + branch)
  }

  /** None is the error for patterns that are not supported. */
  method RefPatternMatches(pattern: string, branch: string, defaultBranch: string) returns (o: Option<bool>)
    requires '\n' !in branch
    ensures o == if Supported(pattern) then Some(Selects(pattern, branch, defaultBranch)) else None
  {
    if pattern == "~ALL" {
      return Some(true);
    }
    if pattern == "~DEFAULT_BRANCH" {
      return Some(branch == defaultBranch);
    }
    var expression := Compile(pattern);
    CompiledMeans(pattern, "refs/heads/" + branch);
    if expression.None? {
      return None;
    }
    return Some(FullMatch(expression.value, "refs/heads/" + branch));
  }

  /** An unsupported pattern is reached: nothing before it selects the branch. */
  ghost predicate Trips(patterns: seq<string>, branch: string, defaultBranch: string) {
    exists i :: 0 <= i < |patterns| && !Supported(patterns[i]) && !AnySelects(patterns[..i], branch, defaultBranch)
  }

  ghost predicate AnySelects(patterns: seq<string>, branch: string, defaultBranch: string) {
    exists i :: 0 <= i < |patterns| && Selects(patterns[i], branch, defaultBranch)
  }

  /** `any(...)` stops at the first pattern that selects the branch. */
  method AnyMatches(patterns: seq<string>, branch: string, defaultBranch: string) returns (o: Option<bool>)
    requires '\n' !in branch
    ensures o ==
      if Trips(patterns, branch, defaultBranch) then None else Some(AnySelects(patterns, branch, defaultBranch))
  {
    hide Glob;
    var i := 0;
    while i < |patterns|
      invariant 0 <= i <= |patterns|
      invariant forall k :: 0 <= k < i ==> Supported(patterns[k]) && !Selects(patterns[k], branch, defaultBranch)
    {
      var selected := RefPatternMatches(patterns[i], branch, defaultBranch);
      if selected.None? {
        assert !AnySelects(patterns[..i], branch, defaultBranch);
        return None;
      }
      if selected.value {
        assert AnySelects(patterns, branch, defaultBranch);
        forall k | 0 <= k < |patterns| && !Supported(patterns[k])
          ensures AnySelects(patterns[..k], branch, defaultBranch)
        {
          assert patterns[..k][i] == patterns[i];
        }
        return Some(true);
      }
      i := i + 1;
    }
    return Some(false);
  }

  /** The ref conditions of a ruleset; entries that are no strings are None. */
  datatype Conditions = Conditions(includes: seq<Option<string>>, excludes: seq<Option<string>>)

  predicate WellTyped(entries: seq<Option<string>>) {
    forall e <- entries :: e.Some? && e.value != ""
  }

  lemma WellTypedIff(entries: seq<Option<string>>)
    ensures WellTyped(entries) <==> None !in entries && Some("") !in entries
  {
  }

  function Texts(entries: seq<Option<string>>): (texts: seq<string>)
    requires WellTyped(entries)
    ensures |texts| == |entries|
  {
    seq(|entries|, i requires 0 <= i < |entries| => entries[i].value)
  }

  /** MAIN: a ruleset applies when an include selects the branch, or there are none, and no
      exclude does; it is an error when an entry is malformed or an unsupported pattern comes
      before every pattern that selects the branch. */
  method RulesetApplies(conditions: Option<Conditions>, branch: string, defaultBranch: string) returns (o: Option<bool>)
    requires '\n' !in branch
    ensures conditions.None? ==> o == Some(true)
    ensures conditions.Some? ==>
      var c := conditions.value;
      if None in c.includes + c.excludes || Some("") in c.includes + c.excludes
        || Trips(Texts(c.includes), branch, defaultBranch) || Trips(Texts(c.excludes), branch, defaultBranch)
      then o == None
      else o == Some((c.includes == [] || AnySelects(Texts(c.includes), branch, defaultBranch))
                     && !AnySelects(Texts(c.excludes), branch, defaultBranch))
  {
    if conditions.None? {
      return Some(true);
    }
    var includes, excludes := conditions.value.includes, conditions.value.excludes;
    WellTypedIff(includes);
    WellTypedIff(excludes);
    if !WellTyped(includes) || !WellTyped(excludes) {
      return None;
    }
    var included := AnyMatches(Texts(includes), branch, defaultBranch);
    if included.None? {
      return None;
    }
    var excluded := AnyMatches(Texts(excludes), branch, defaultBranch);
    if excluded.None? {
      return None;
    }
    return Some((includes == [] || included.value) && !excluded.value);
  }

  /** Whether the patterns are an error hangs on their order. */
  ghost predicate OrderDecides(patterns: seq<string>, branch: string, defaultBranch: string) {
    exists x: seq<string>, y: seq<string> ::
      && multiset(x) == multiset(patterns) && Trips(x, branch, defaultBranch)
      && multiset(y) == multiset(patterns) && !Trips(y, branch, defaultBranch)
  }

  /** MAIN: the order of patterns decides whether they are an error exactly when some pattern is
      unsupported and some pattern selects the branch; it never decides what they select. */
  lemma OrderDecidesIff(patterns: seq<string>, branch: string, defaultBranch: string)
    ensures OrderDecides(patterns, branch, defaultBranch) <==>
      && (exists p <- patterns :: !Supported(p))
      && (exists p <- patterns :: Selects(p, branch, defaultBranch))
    ensures forall x: seq<string> :: multiset(x) == multiset(patterns) ==>
      AnySelects(x, branch, defaultBranch) == AnySelects(patterns, branch, defaultBranch)
  {
    hide Glob, Selects, Supported;
    forall x: seq<string> | multiset(x) == multiset(patterns)
      ensures AnySelects(x, branch, defaultBranch) == AnySelects(patterns, branch, defaultBranch)
    {
      if AnySelects(x, branch, defaultBranch) {
        SelectsInAnyOrder(x, patterns, branch, defaultBranch);
      }
      if AnySelects(patterns, branch, defaultBranch) {
        SelectsInAnyOrder(patterns, x, branch, defaultBranch);
      }
    }
    if OrderDecides(patterns, branch, defaultBranch) {
      var x, y :| && multiset(x) == multiset(patterns) && Trips(x, branch, defaultBranch)
                  && multiset(y) == multiset(patterns) && !Trips(y, branch, defaultBranch);
      var p := TripsMeans(x, y, branch, defaultBranch);
      SameMembers(x, patterns);
      SameMembers(y, patterns);
    }
    if p, q :| p in patterns && !Supported(p) && q in patterns && Selects(q, branch, defaultBranch) {
      var x := InFront(patterns, p);
      var y := InFront(patterns, q);
      UnsupportedInFront(x, branch, defaultBranch);
      SelectingInFront(y, branch, defaultBranch);
    }
  }

  lemma SameMembers(x: seq<string>, y: seq<string>)
    requires multiset(x) == multiset(y)
    ensures forall p :: p in x <==> p in y
  {
    forall p ensures p in x <==> p in y {
      assert p in x <==> p in multiset(x);
      assert p in y <==> p in multiset(y);
    }
  }

  lemma SelectsInAnyOrder(x: seq<string>, y: seq<string>, branch: string, defaultBranch: string)
    requires multiset(x) == multiset(y) && AnySelects(x, branch, defaultBranch)
    ensures AnySelects(y, branch, defaultBranch)
  {
    hide Selects;
    SameMembers(x, y);
    var i :| 0 <= i < |x| && Selects(x[i], branch, defaultBranch);
    assert x[i] in y;
  }

  /** Where one order is an error and another is not, the pattern that trips the one comes behind
      one that selects the branch in the other. */
  lemma TripsMeans(x: seq<string>, y: seq<string>, branch: string, defaultBranch: string) returns (p: string)
    requires multiset(x) == multiset(y) && Trips(x, branch, defaultBranch) && !Trips(y, branch, defaultBranch)
    ensures p in x && !Supported(p) && exists q <- y :: Selects(q, branch, defaultBranch)
  {
    hide Selects, Supported;
    var i :| 0 <= i < |x| && !Supported(x[i]) && !AnySelects(x[..i], branch, defaultBranch);
    p := x[i];
    SameMembers(x, y);
    assert p in y;
    var k :| 0 <= k < |y| && y[k] == p;
    assert AnySelects(y[..k], branch, defaultBranch);
    var j :| 0 <= j < |y[..k]| && Selects(y[..k][j], branch, defaultBranch);
    assert y[j] in y;
  }

  /** The patterns with one of them first. */
  lemma InFront(patterns: seq<string>, p: string) returns (order: seq<string>)
    requires p in patterns
    ensures multiset(order) == multiset(patterns) && order != [] && order[0] == p
  {
    var i :| 0 <= i < |patterns| && patterns[i] == p;
    order := [p] + patterns[..i] + patterns[i + 1..];
    assert patterns == patterns[..i] + [p] + patterns[i + 1..];
  }

  lemma UnsupportedInFront(patterns: seq<string>, branch: string, defaultBranch: string)
    requires patterns != [] && !Supported(patterns[0])
    ensures Trips(patterns, branch, defaultBranch)
  {
    hide Selects, Supported;
    assert !AnySelects(patterns[..0], branch, defaultBranch);
  }

  lemma SelectingInFront(patterns: seq<string>, branch: string, defaultBranch: string)
    requires patterns != [] && Selects(patterns[0], branch, defaultBranch)
    ensures !Trips(patterns, branch, defaultBranch)
  {
    assert Supported(patterns[0]);
    hide Selects, Supported;
    forall i | 0 < i < |patterns| ensures AnySelects(patterns[..i], branch, defaultBranch) {
      assert patterns[..i][0] == patterns[0];
    }
  }

  /** A concrete case. */
  lemma OrderDecidesErrors(branch: string, defaultBranch: string)
    ensures Trips(["[", "~ALL"], branch, defaultBranch) && !Trips(["~ALL", "["], branch, defaultBranch)
  {
    assert !Supported(["[", "~ALL"][0]) && !AnySelects(["[", "~ALL"][..0], branch, defaultBranch);
    assert Supported("~ALL");
    assert ["~ALL", "["][..1][0] == "~ALL";
    assert Selects(["~ALL", "["][..1][0], branch, defaultBranch);
  }
}
