/** The managed agent-guide block: how it is rewritten in a project's file
    (src/researchctl/document_cli.py) and how the linter recognises it
    (src/researchctl/services/agent_guides.py). */
module AgentGuide {
  import opened Wrappers
  import opened Text

  datatype Format = Claude | Agents

  function Identity(format: Format): string {
    "project-document-agent-guide." + if format.Claude? then "claude" else "agents"
  }

  /** What every marker of the block starts with; all else is stated for any such prefix. */
  function MarkerPrefix(format: Format): string {
    "<!-- researchctl-agent-guide:" + Identity(format)
  }

  function Begin(prefix: string): string {
    prefix + ":begin -->"
  }

  function End(prefix: string): string {
    prefix + ":end -->"
  }

  // ----- The linter -----

  predicate BlockMatches(observed: string, expected: string, prefix: string)
    requires |prefix| > 0
  {
    var b, e := Find(observed, Begin(prefix), 0), Find(observed, End(prefix), 0);
    && b.Some? && e.Some? && b.value <= e.value
    && Count(observed, Begin(prefix)) == 1
    && Count(observed, End(prefix)) == 1
    && Count(observed, prefix) == 2
    && observed[b.value..e.value + |End(prefix)|] + "\n" == expected
  }

  // ----- Finding blocks and markers -----

  function DigitsEnd(s: string, i: nat): (j: nat)
    requires i <= |s|
    ensures i <= j <= |s|
    decreases |s| - i
  {
    if i < |s| && '0' <= s[i] <= '9' then DigitsEnd(s, i + 1) else i
  }

  /** The optional line end after a block. */
  function AfterLineEnd(s: string, i: nat): (j: nat)
    requires i <= |s|
    ensures i <= j <= |s| && j <= i + 2
  {
    if i < |s| && s[i] == '\n' then i + 1
    else if i + 1 < |s| && s[i] == '\r' && s[i + 1] == '\n' then i + 2
    else i
  }

  /** Which of the two block patterns: the current markers, or markers with a version. */
  datatype Pattern = Current | Legacy

  /** The end of the shortest block that starts at i, its line end included. */
  function BlockAt(pattern: Pattern, s: string, prefix: string, i: nat): (j: Option<nat>)
    requires i <= |s| && |prefix| > 0
    ensures j.Some? ==> OccursAt(s, prefix, i) && i < j.value <= |s|
  {
    if !OccursAt(s, prefix, i) then None
    else
      match pattern
      case Current =>
        if !OccursAt(s, Begin(prefix), i) then None
        else
          (match Find(s, End(prefix), i + |Begin(prefix)|)
           case None => None
           case Some(e) => Some(AfterLineEnd(s, e + |End(prefix)|)))
      case Legacy =>
        if !OccursAt(s, ".v", i + |prefix|) then None
        else
          var v := i + |prefix| + 2;
          var d := DigitsEnd(s, v);
          if d == v || !OccursAt(s, ":begin -->", d) then None
          else
            var end := End(prefix + ".v" + s[v..d]);
            match Find(s, end, d + |":begin -->"|)
            case None => None
            case Some(e) => Some(AfterLineEnd(s, e + |end|))
  }

  datatype Block = Block(start: nat, end: nat)

  /** `pattern.finditer(s)`, from i on. */
  function FindBlocks(pattern: Pattern, s: string, prefix: string, i: nat): (blocks: seq<Block>)
    requires i <= |s| && |prefix| > 0
    ensures forall k :: 0 <= k < |blocks| ==> i <= blocks[k].start < blocks[k].end <= |s|
    decreases |s| - i
  {
    match BlockAt(pattern, s, prefix, i)
    case Some(j) => [Block(i, j)] + FindBlocks(pattern, s, prefix, j)
    case None => if i == |s| then [] else FindBlocks(pattern, s, prefix, i + 1)
  }

  /** Both lists are in order already; sorting their union by start merges them. */
  function Merge(a: seq<Block>, b: seq<Block>): (c: seq<Block>)
    ensures forall x :: x in c <==> x in a || x in b
    ensures |c| == |a| + |b|
    decreases |a| + |b|
  {
    if a == [] then b
    else if b == [] then a
    else if a[0].start <= b[0].start then [a[0]] + Merge(a[1..], b)
    else [b[0]] + Merge(a, b[1..])
  }

  predicate BlocksOf(blocks: seq<Block>, s: string) {
    forall i :: 0 <= i < |blocks| ==> blocks[i].start < blocks[i].end <= |s|
  }

  function Blocks(s: string, prefix: string): (blocks: seq<Block>)
    requires |prefix| > 0
    ensures BlocksOf(blocks, s)
  {
    var blocks := Merge(FindBlocks(Current, s, prefix, 0), FindBlocks(Legacy, s, prefix, 0));
    assert forall i :: 0 <= i < |blocks| ==> blocks[i] in blocks;
    blocks
  }

  predicate Overlap(blocks: seq<Block>) {
    exists k :: 0 <= k < |blocks| - 1 && blocks[k].end > blocks[k + 1].start
  }

  /** The end of a begin or end marker at i, with or without a version. */
  function MarkerAt(s: string, prefix: string, i: nat): (j: Option<nat>)
    requires i <= |s| && |prefix| > 0
    ensures j.Some? ==> OccursAt(s, prefix, i) && i < j.value <= |s|
  {
    if !OccursAt(s, prefix, i) then None
    else
      var p := i + |prefix|;
      var v := if OccursAt(s, ".v", p) && DigitsEnd(s, p + 2) > p + 2 then DigitsEnd(s, p + 2) else p;
      if OccursAt(s, ":begin -->", v) then Some(v + |":begin -->"|)
      else if OccursAt(s, ":end -->", v) then Some(v + |":end -->"|)
      else None
  }

  function CountMarkers(s: string, prefix: string, i: nat): nat
    requires i <= |s| && |prefix| > 0
    decreases |s| - i
  {
    match MarkerAt(s, prefix, i)
    case Some(j) => 1 + CountMarkers(s, prefix, j)
    case None => if i == |s| then 0 else CountMarkers(s, prefix, i + 1)
  }

  // ----- The rewriter -----

  predicate IsSpace(c: char) {
    var u := c as int;
    || 0x09 <= u <= 0x0d || 0x1c <= u <= 0x20 || u == 0x85 || u == 0xa0 || u == 0x1680
    || 0x2000 <= u <= 0x200a || u == 0x2028 || u == 0x2029 || u == 0x202f || u == 0x205f || u == 0x3000
  }

  predicate Blank(s: string) {
    forall c :: c in s ==> IsSpace(c)
  }

  function KeepUnlessBlank(s: string): string {
    if Blank(s) then "" else s
  }

  /** The pieces of s kept behind blocks[k] and later blocks. */
  function KeptBehind(s: string, blocks: seq<Block>, k: nat): string
    requires k < |blocks| && !Overlap(blocks) && BlocksOf(blocks, s)
    decreases |blocks| - k
  {
    if k == |blocks| - 1 then KeepUnlessBlank(s[blocks[k].end..])
    else
      assert blocks[k].end <= blocks[k + 1].start;
      KeepUnlessBlank(s[blocks[k].end..blocks[k + 1].start]) + KeptBehind(s, blocks, k + 1)
  }

  /** A file that is to be rewritten: the text the new block goes between, or None when the
      markers it has are incomplete or overlap. */
  datatype Surroundings = Surroundings(before: string, after: string)

  function Surround(observed: Option<string>, prefix: string): Option<Surroundings>
    requires |prefix| > 0
  {
    match observed
    case None => Some(Surroundings("", ""))
    case Some(s) =>
      var blocks := Blocks(s, prefix);
      if CountMarkers(s, prefix, 0) != 2 * |blocks| || Overlap(blocks) then None
      else if blocks == [] then
        Some(Surroundings(s + (if s == "" then "" else if s[|s| - 1] == '\n' then "\n" else "\n\n"), ""))
      else Some(Surroundings(s[..blocks[0].start], KeptBehind(s, blocks, 0)))
  }

  /** Put the new text where the first block is and drop the other blocks. */
  method Rewrite(s: string, blocks: seq<Block>, rendered: string) returns (updated: string)
    requires |blocks| > 0 && !Overlap(blocks) && BlocksOf(blocks, s)
    ensures updated == s[..blocks[0].start] + rendered + KeptBehind(s, blocks, 0)
  {
    hide Join;
    var pieces := [s[..blocks[0].start], rendered];
    var cursor := blocks[0].end;
    JoinTwo(s[..blocks[0].start], rendered);
    var k := 1;
    while k < |blocks|
      invariant 1 <= k <= |blocks| && cursor == blocks[k - 1].end
      invariant Join(pieces) + KeptBehind(s, blocks, k - 1) ==
        s[..blocks[0].start] + rendered + KeptBehind(s, blocks, 0)
    {
      assert blocks[k - 1].end <= blocks[k].start;
      var between := s[cursor..blocks[k].start];
      JoinUnlessBlank(pieces, between, KeptBehind(s, blocks, k));
      if !Blank(between) {
        pieces := pieces + [between];
      }
      cursor := blocks[k].end;
      k := k + 1;
    }
    var suffix := s[cursor..];
    JoinUnlessBlank(pieces, suffix, "");
    if !Blank(suffix) {
      pieces := pieces + [suffix];
    }
    updated := Join(pieces);
    assert KeptBehind(s, blocks, |blocks| - 1) == KeepUnlessBlank(suffix) == KeepUnlessBlank(suffix) + "";
    assert updated + "" == updated;
  }

  lemma JoinUnlessBlank(pieces: seq<string>, piece: string, rest: string)
    ensures Join(if Blank(piece) then pieces else pieces + [piece]) + rest
         == Join(pieces) + (KeepUnlessBlank(piece) + rest)
  {
    JoinAppend(pieces, piece);
    assert Join(pieces) + (piece + rest) == (Join(pieces) + piece) + rest;
    assert "" + rest == rest;
  }

  function Join(pieces: seq<string>): string {
    if pieces == [] then "" else pieces[0] + Join(pieces[1..])
  }

  lemma JoinTwo(a: string, b: string)
    ensures Join([a, b]) == a + b
  {
    assert [a, b][1..] == [b] && [b][1..] == [];
    assert Join([b]) == b + Join([]);
  }

  lemma {:induction false} JoinAppend(pieces: seq<string>, piece: string)
    ensures Join(pieces + [piece]) == Join(pieces) + piece
  {
    if pieces == [] {
      assert [] + [piece] == [piece] && Join([piece][1..]) == "";
    } else {
      assert (pieces + [piece])[1..] == pieces[1..] + [piece];
      JoinAppend(pieces[1..], piece);
    }
  }

  /** `_upsert_agent_guide` on the contents of the file; None is its marker error. */
  method Upsert(observed: Option<string>, rendered: string, prefix: string) returns (updated: Option<string>)
    requires |prefix| > 0
    ensures updated == Updated(observed, rendered, prefix)
  {
    if observed.None? {
      assert "" + rendered + "" == rendered;
      return Some(rendered);
    }
    var s := observed.value;
    var blocks := Blocks(s, prefix);
    if CountMarkers(s, prefix, 0) != 2 * |blocks| || Overlap(blocks) {
      return None;
    }
    if |blocks| == 0 {
      var separator := if s == "" then "" else if s[|s| - 1] == '\n' then "\n" else "\n\n";
      assert s + separator + rendered == s + separator + rendered + "";
      return Some(s + separator + rendered);
    }
    var text := Rewrite(s, blocks, rendered);
    return Some(text);
  }

  function Updated(observed: Option<string>, rendered: string, prefix: string): Option<string>
    requires |prefix| > 0
  {
    match Surround(observed, prefix)
    case None => None
    case Some(around) => Some(around.before + rendered + around.after)
  }

  // ----- What holds of the rewritten file -----

  /** Markers open with the only '<' of the prefix, and neither prefix nor marker spans lines. */
  ghost predicate Proper(prefix: string) {
    && |prefix| > 0 && prefix[0] == '<'
    && (forall i :: 0 < i < |prefix| ==> prefix[i] != '<')
    && (forall i :: 0 <= i < |prefix| ==> prefix[i] != '\n' && prefix[i] != '\r' && prefix[i] != '>')
  }

  /** Nothing lies across a seam whose right side opens with '<', or whose left side ends a line. */
  lemma SeamIsClean(a: string, b: string, w: string)
    requires |w| > 0 && (forall i :: 0 < i < |w| ==> w[i] != '<') && (forall i :: 0 <= i < |w| ==> w[i] != '\n')
    requires a == "" || b == "" || b[0] == '<' || a[|a| - 1] == '\n' || b[0] == '\n'
    ensures NoCross(a, b, w)
  {
    forall i | i < |a| < i + |w| ensures !OccursAt(a + b, w, i) {
      if 0 <= i && i + |w| <= |a + b| {
        var across := (a + b)[i..i + |w|];
        assert across[|a| - i] == b[0] && across[|a| - 1 - i] == a[|a| - 1];
      }
    }
  }

  lemma OccursBehind(a: string, b: string, w: string, i: int)
    requires |w| > 0 && NoCross(a, b, w) && Count(a, w) == 0
    ensures OccursAt(a + b, w, i) <==> i >= |a| && OccursAt(b, w, i - |a|)
  {
    hide Count;
    CountZero(a, w);
    if i + |w| <= |a| {
      OccursWithin(a, b, w, i);
    } else if i >= |a| {
      OccursShift(a, b, w, i);
    }
  }

  lemma FindBehind(a: string, b: string, w: string)
    requires |w| > 0 && NoCross(a, b, w) && Count(a, w) == 0
    ensures Find(a + b, w, 0) == match Find(b, w, 0) case None => None case Some(i) => Some(|a| + i)
  {
    hide *;
    forall i ensures OccursAt(a + b, w, i) <==> i >= |a| && OccursAt(b, w, i - |a|) {
      OccursBehind(a, b, w, i);
    }
    if Find(b, w, 0).Some? {
      assert OccursAt(a + b, w, Find(b, w, 0).value + |a|);
    }
    if Find(a + b, w, 0).Some? {
      assert OccursAt(b, w, Find(a + b, w, 0).value - |a|);
    }
  }

  lemma FindAhead(a: string, b: string, w: string)
    requires |w| > 0 && Find(a, w, 0).Some?
    ensures Find(a + b, w, 0) == Find(a, w, 0)
  {
    var i := Find(a, w, 0).value;
    OccursWithin(a, b, w, i);
    forall j | j < i ensures !OccursAt(a + b, w, j) {
      OccursWithin(a, b, w, j);
    }
  }

  /** The marker texts inherit what is proper about their prefix. */
  ghost predicate ProperWord(w: string) {
    |w| > 0 && (forall i :: 0 < i < |w| ==> w[i] != '<') && (forall i :: 0 <= i < |w| ==> w[i] != '\n')
  }

  lemma MarkersAreProper(prefix: string)
    requires Proper(prefix)
    ensures ProperWord(prefix) && ProperWord(Begin(prefix)) && ProperWord(End(prefix))
  {
  }

  /** A text has no more of the longer marker than of its prefix. */
  lemma NoPrefixNoMarker(s: string, prefix: string, rest: string)
    requires |prefix| > 0 && Count(s, prefix) == 0
    ensures Count(s, prefix + rest) == 0
  {
    CountZero(s, prefix);
    CountZero(s, prefix + rest);
    forall i ensures !OccursAt(s, prefix + rest, i) {
      if 0 <= i && i + |prefix + rest| <= |s| {
        assert s[i..i + |prefix + rest|][..|prefix|] == s[i..i + |prefix|];
        assert (prefix + rest)[..|prefix|] == prefix;
        assert !OccursAt(s, prefix, i);
      }
    }
  }

  /** A rendering is what the linter accepts as a file of its own. */
  ghost predicate Rendering(rendered: string, prefix: string) {
    Proper(prefix) && BlockMatches(rendered, rendered, prefix)
  }

  lemma RenderingShape(rendered: string, prefix: string)
    requires Rendering(rendered, prefix)
    ensures |prefix| > 0 && |rendered| > 0 && rendered[0] == '<' && rendered[|rendered| - 1] == '\n'
    ensures Find(rendered, Begin(prefix), 0) == Some(0)
    ensures Find(rendered, End(prefix), 0) == Some(|rendered| - 1 - |End(prefix)|)
  {
    hide *;
    var b, e := MatchFacts(rendered, prefix);
    BeginStarts(prefix);
    ShiftedByAtMostOne(rendered, Begin(prefix), b, e + |End(prefix)|);
  }

  lemma MatchFacts(rendered: string, prefix: string) returns (b: nat, e: nat)
    requires Rendering(rendered, prefix)
    ensures Proper(prefix) && Find(rendered, Begin(prefix), 0) == Some(b) && Find(rendered, End(prefix), 0) == Some(e)
    ensures b <= e && e + |End(prefix)| <= |rendered| && OccursAt(rendered, Begin(prefix), b)
    ensures rendered[b..e + |End(prefix)|] + "\n" == rendered
  {
    hide Count, Find, Begin, End, Proper;
    b, e := Find(rendered, Begin(prefix), 0).value, Find(rendered, End(prefix), 0).value;
  }

  lemma BeginStarts(prefix: string)
    requires Proper(prefix)
    ensures |prefix| > 0 && |End(prefix)| > 1 && |Begin(prefix)| > 1 && Begin(prefix)[0] == '<'
    ensures Begin(prefix)[1] != '<' && Begin(prefix)[1] != '\n'
  {
    if |prefix| == 1 {
      assert Begin(prefix)[1] == ":begin -->"[0];
    } else {
      assert Begin(prefix)[1] == prefix[1];
    }
  }

  /** A text that is one of its own slices and a line end is the slice from its start. */
  lemma ShiftedByAtMostOne(s: string, w: string, b: nat, e: nat)
    requires b < e <= |s| && s[b..e] + "\n" == s && OccursAt(s, w, b)
    requires |w| > 1 && w[0] == '<' && w[1] != '<' && w[0] != '\n' && w[1] != '\n'
    ensures b == 0 && e == |s| - 1 && s[0] == '<' && s[e] == '\n'
  {
    assert |s| == e - b + 1;
    assert s[b..b + |w|][0] == s[b] && s[b..b + |w|][1] == s[b + 1];
    assert s[b..e][0] == s[0] && (b + 1 < e ==> s[b..e][1] == s[1]);
  }

  lemma SurroundedCount(before: string, rendered: string, after: string, w: string)
    requires ProperWord(w) && |rendered| > 0 && rendered[0] == '<' && rendered[|rendered| - 1] == '\n'
    ensures NoCross(before, rendered + after, w)
    ensures Count(before + rendered + after, w) == Count(before, w) + Count(rendered, w) + Count(after, w)
  {
    assert before + rendered + after == before + (rendered + after);
    SeamIsClean(before, rendered + after, w);
    SeamIsClean(rendered, after, w);
    CountJoins(before, rendered + after, w);
    CountJoins(rendered, after, w);
  }

  /** MAIN: the linter accepts a rewritten file exactly when the marker prefix occurs neither
      in the text kept before the block nor in the text kept behind it. */
  lemma AcceptedIffNoStrayPrefix(observed: Option<string>, rendered: string, prefix: string)
    requires Rendering(rendered, prefix) && Surround(observed, prefix).Some?
    ensures var around := Surround(observed, prefix).value;
      BlockMatches(Updated(observed, rendered, prefix).value, rendered, prefix) <==>
        Count(around.before, prefix) == 0 && Count(around.after, prefix) == 0
  {
    var around := Surround(observed, prefix).value;
    SurroundedMatches(around.before, rendered, around.after, prefix);
  }

  lemma SurroundedFinds(before: string, rendered: string, after: string, prefix: string)
    requires Rendering(rendered, prefix) && Count(before, prefix) == 0
    ensures Find(before + rendered + after, Begin(prefix), 0) == Some(|before|)
    ensures Find(before + rendered + after, End(prefix), 0) == Some(|before| + |rendered| - 1 - |End(prefix)|)
  {
    hide BlockMatches, Count, Find;
    var begin, end := Begin(prefix), End(prefix);
    RenderingShape(rendered, prefix);
    MarkersAreProper(prefix);
    SurroundedCount(before, rendered, after, begin);
    SurroundedCount(before, rendered, after, end);
    NoPrefixNoMarker(before, prefix, ":begin -->");
    NoPrefixNoMarker(before, prefix, ":end -->");
    assert before + rendered + after == before + (rendered + after);
    FindAhead(rendered, after, begin);
    FindAhead(rendered, after, end);
    FindBehind(before, rendered + after, begin);
    FindBehind(before, rendered + after, end);
  }

  lemma SurroundedMatches(before: string, rendered: string, after: string, prefix: string)
    requires Rendering(rendered, prefix)
    ensures BlockMatches(before + rendered + after, rendered, prefix) <==>
      Count(before, prefix) == 0 && Count(after, prefix) == 0
  {
    hide Count, Find, Proper;
    RenderingShape(rendered, prefix);
    MarkersAreProper(prefix);
    SurroundedCount(before, rendered, after, prefix);
    if Count(before, prefix) == 0 && Count(after, prefix) == 0 {
      CleanSurroundingsMatch(before, rendered, after, prefix);
    }
  }

  lemma CleanSurroundingsMatch(before: string, rendered: string, after: string, prefix: string)
    requires Rendering(rendered, prefix) && Count(before, prefix) == 0 && Count(after, prefix) == 0
    ensures BlockMatches(before + rendered + after, rendered, prefix)
  {
    hide Count, Find, Proper;
    RenderingShape(rendered, prefix);
    MarkersAreProper(prefix);
    NoPrefixNoMarker(before, prefix, ":begin -->");
    NoPrefixNoMarker(before, prefix, ":end -->");
    NoPrefixNoMarker(after, prefix, ":begin -->");
    NoPrefixNoMarker(after, prefix, ":end -->");
    SurroundedCount(before, rendered, after, prefix);
    SurroundedCount(before, rendered, after, Begin(prefix));
    SurroundedCount(before, rendered, after, End(prefix));
    SurroundedFinds(before, rendered, after, prefix);
    hide ProperWord, NoCross;
    SliceInside(before, rendered, after);
  }

  lemma SliceInside(before: string, rendered: string, after: string)
    requires |rendered| > 0 && rendered[|rendered| - 1] == '\n'
    ensures (before + rendered + after)[|before|..|before| + |rendered| - 1] + "\n" == rendered
  {
    assert (before + rendered + after)[|before|..|before| + |rendered| - 1] == rendered[..|rendered| - 1];
  }

  // ----- Rewriting twice -----

  /** A rendering is two marker prefixes with other text between and behind them. */
  lemma RenderingParts(rendered: string, prefix: string) returns (mid: string, tail: string)
    requires Rendering(rendered, prefix)
    ensures |Begin(prefix)| <= |prefix + mid| == |rendered| - 1 - |End(prefix)|
    ensures rendered == prefix + (mid + (prefix + tail))
    ensures Count(mid, prefix) == 0 && Count(tail, prefix) == 0
  {
    hide Count, Find, OccursAt;
    RenderingShape(rendered, prefix);
    var e := |rendered| - 1 - |End(prefix)|;
    MarkersDoNotOverlap(rendered, prefix, e);
    PrefixOfMarker(rendered, prefix, ":begin -->", 0);
    PrefixOfMarker(rendered, prefix, ":end -->", e);
    assert Count(rendered, prefix) == 2 && |prefix| > 0;
    hide BlockMatches, Proper;
    mid, tail := rendered[|prefix|..e], rendered[e + |prefix|..];
    assert rendered == prefix + (mid + (prefix + tail));
    MarkedCountIs(mid, tail, prefix);
  }

  lemma MarkedCountIs(mid: string, tail: string, prefix: string)
    requires Proper(prefix)
    ensures Count(prefix + (mid + (prefix + tail)), prefix) == 2 + Count(mid, prefix) + Count(tail, prefix)
  {
    hide Count;
    PrefixThen(mid + (prefix + tail), prefix);
    PrefixThen(tail, prefix);
    SeamIsClean(mid, prefix + tail, prefix);
    CountJoins(mid, prefix + tail, prefix);
  }

  lemma PrefixOfMarker(s: string, prefix: string, word: string, i: nat)
    requires OccursAt(s, prefix + word, i)
    ensures OccursAt(s, prefix, i) && s[i..i + |prefix|] == prefix
  {
    assert s[i..i + |prefix + word|][..|prefix|] == s[i..i + |prefix|];
    assert (prefix + word)[..|prefix|] == prefix;
  }

  /** A rendering holds the prefix at its two markers and nowhere else. */
  lemma RenderingOccurrences(rendered: string, prefix: string, i: int)
    requires Rendering(rendered, prefix)
    ensures |Begin(prefix)| <= |rendered| - 1 - |End(prefix)|
    ensures OccursAt(rendered, prefix, i) <==> i == 0 || i == |rendered| - 1 - |End(prefix)|
  {
    hide Count, Find, BlockMatches;
    var mid, tail := RenderingParts(rendered, prefix);
    MarkedOccurrences(mid, tail, prefix, i);
  }

  lemma MarkersDoNotOverlap(s: string, prefix: string, e: int)
    requires Proper(prefix) && 0 <= e && OccursAt(s, Begin(prefix), 0) && OccursAt(s, End(prefix), e)
    ensures |Begin(prefix)| <= e
  {
    assert s[e] == s[e..e + |End(prefix)|][0] == '<';
    assert s[e + |prefix| + 1] == s[e..e + |End(prefix)|][|prefix| + 1] == 'e';
    assert s[0..|Begin(prefix)|] == Begin(prefix);
    assert forall k :: 0 <= k < |Begin(prefix)| ==> s[k] == Begin(prefix)[k];
    assert forall k :: |prefix| <= k < |Begin(prefix)| ==> Begin(prefix)[k] == ":begin -->"[k - |prefix|] != '<';
  }

  lemma OccursAfterPrefix(s: string, prefix: string, i: int)
    requires Proper(prefix)
    ensures OccursAt(prefix + s, prefix, i) <==> i == 0 || OccursAt(s, prefix, i - |prefix|)
  {
    if i >= |prefix| {
      OccursShift(prefix, s, prefix, i);
    } else if 0 < i && i + |prefix| <= |prefix + s| {
      assert (prefix + s)[i..i + |prefix|][0] == prefix[i];
    } else if i == 0 {
      assert (prefix + s)[0..|prefix|] == prefix;
    }
  }

  lemma PrefixThen(s: string, prefix: string)
    requires Proper(prefix)
    ensures Count(prefix + s, prefix) == 1 + Count(s, prefix)
  {
    assert prefix <= prefix + s && (prefix + s)[|prefix|..] == s;
  }

  /** Scans pass over text that does not hold the prefix. */
  lemma {:induction false} ScansSkip(pattern: Pattern, s: string, prefix: string, i: nat, j: nat)
    requires |prefix| > 0 && i <= j <= |s| && forall k :: i <= k < j ==> !OccursAt(s, prefix, k)
    ensures FindBlocks(pattern, s, prefix, i) == FindBlocks(pattern, s, prefix, j)
    ensures CountMarkers(s, prefix, i) == CountMarkers(s, prefix, j)
    decreases j - i
  {
    if i < j {
      assert !OccursAt(s, prefix, i);
      ScansSkip(pattern, s, prefix, i + 1, j);
    }
  }

  lemma {:induction false} ScansEnd(pattern: Pattern, s: string, prefix: string, i: nat)
    requires |prefix| > 0 && i <= |s| && forall k :: i <= k <= |s| ==> !OccursAt(s, prefix, k)
    ensures FindBlocks(pattern, s, prefix, i) == [] && CountMarkers(s, prefix, i) == 0
  {
    ScansSkip(pattern, s, prefix, i, |s|);
    assert !OccursAt(s, prefix, |s|);
  }

  /** What stands at i and behind the prefix, where a marker without a version starts. */
  lemma MarkerText(s: string, prefix: string, i: nat, word: string)
    requires (word == ":begin -->" || word == ":end -->") && OccursAt(s, prefix + word, i)
    ensures OccursAt(s, prefix, i) && OccursAt(s, word, i + |prefix|) && !OccursAt(s, ".v", i + |prefix|)
  {
    var p := i + |prefix|;
    OccursInParts(s, prefix, word, i);
    OccursChars(s, word, p);
    if OccursAt(s, ".v", p) {
      OccursChars(s, ".v", p);
    }
    hide OccursAt;
    assert word[0] == ':' && ".v"[0] == '.';
  }

  /** A marker without a version at i is no legacy block and counts as one marker. */
  lemma PlainMarkerAt(s: string, prefix: string, i: nat, word: string)
    requires |prefix| > 0 && (word == ":begin -->" || word == ":end -->") && OccursAt(s, prefix + word, i)
    ensures OccursAt(s, prefix, i) && BlockAt(Legacy, s, prefix, i) == None
    ensures MarkerAt(s, prefix, i) == Some(i + |prefix + word|)
  {
    MarkerText(s, prefix, i, word);
    if word == ":end -->" {
      NotBoth(s, i + |prefix|);
    }
    hide OccursAt, DigitsEnd, Find;
  }

  lemma NotBoth(s: string, p: nat)
    requires OccursAt(s, ":end -->", p)
    ensures !OccursAt(s, ":begin -->", p)
  {
    if p + 10 <= |s| {
      assert s[p..p + 10][1] == s[p + 1] == s[p..p + 8][1] == 'e';
    }
  }

  lemma OccurrencesInside(before: string, rendered: string, after: string, prefix: string, i: int)
    requires Rendering(rendered, prefix) && Count(before, prefix) == 0 && Count(after, prefix) == 0
    ensures OccursAt(before + rendered + after, prefix, i) <==>
      i == |before| || i == |before| + |rendered| - 1 - |End(prefix)|
  {
    hide Count, Find;
    RenderingShape(rendered, prefix);
    RenderingOccurrences(rendered, prefix, i - |before|);
    hide BlockMatches;
    CountZero(before, prefix);
    CountZero(after, prefix);
    SeamIsClean(before, rendered + after, prefix);
    SeamIsClean(rendered, after, prefix);
    assert before + rendered + after == before + (rendered + after);
    if i + |prefix| <= |before| {
      OccursWithin(before, rendered + after, prefix, i);
    } else if i >= |before| {
      OccursShift(before, rendered + after, prefix, i);
      if i - |before| + |prefix| <= |rendered| {
        OccursWithin(rendered, after, prefix, i - |before|);
      } else if i - |before| >= |rendered| {
        OccursShift(rendered, after, prefix, i - |before|);
      }
    }
  }

  /** What the scans find in a text with one rendered block and no other prefix. */
  lemma ScansFindTheBlock(before: string, rendered: string, after: string, prefix: string)
    requires Rendering(rendered, prefix) && Count(before, prefix) == 0 && Count(after, prefix) == 0
    ensures var s := before + rendered + after;
      && FindBlocks(Current, s, prefix, 0) == [Block(|before|, |before| + |rendered|)]
      && FindBlocks(Legacy, s, prefix, 0) == []
      && CountMarkers(s, prefix, 0) == 2
  {
    hide *;
    var s := before + rendered + after;
    var b, e := |before|, |before| + |rendered| - 1 - |End(prefix)|;
    RenderingShape(rendered, prefix);
    RenderingOccurrences(rendered, prefix, 0);
    SurroundedFinds(before, rendered, after, prefix);
    CharInside(before, rendered, after, |rendered| - 1);
    forall i ensures OccursAt(s, prefix, i) <==> i == b || i == e {
      OccurrencesInside(before, rendered, after, prefix, i);
    }
    ScansOfMarkers(s, prefix, b, e);
  }

  lemma CharInside(before: string, text: string, after: string, i: nat)
    requires i < |text|
    ensures (before + text + after)[|before| + i] == text[i]
  {
  }

  lemma ScansOfMarkers(s: string, prefix: string, b: nat, e: nat)
    requires |prefix| > 0 && Find(s, Begin(prefix), 0) == Some(b) && Find(s, End(prefix), 0) == Some(e)
    requires b + |Begin(prefix)| <= e && e + |End(prefix)| < |s| && s[e + |End(prefix)|] == '\n'
    requires forall i :: OccursAt(s, prefix, i) <==> i == b || i == e
    ensures FindBlocks(Current, s, prefix, 0) == [Block(b, e + |End(prefix)| + 1)]
    ensures FindBlocks(Legacy, s, prefix, 0) == []
    ensures CountMarkers(s, prefix, 0) == 2
  {
    hide *;
    BlockAtTheMarkers(s, prefix, b, e);
    ScansAround(s, prefix, b, e);
  }

  /** Both markers in place: the current block between them, no legacy block, two markers. */
  lemma BlockAtTheMarkers(s: string, prefix: string, b: nat, e: nat)
    requires |prefix| > 0 && Find(s, Begin(prefix), 0) == Some(b) && Find(s, End(prefix), 0) == Some(e)
    requires b + |Begin(prefix)| <= e && e + |End(prefix)| < |s| && s[e + |End(prefix)|] == '\n'
    ensures BlockAt(Current, s, prefix, b) == Some(e + |End(prefix)| + 1)
    ensures BlockAt(Legacy, s, prefix, b) == None && BlockAt(Legacy, s, prefix, e) == None
    ensures MarkerAt(s, prefix, b) == Some(b + |Begin(prefix)|) && MarkerAt(s, prefix, e) == Some(e + |End(prefix)|)
  {
    hide Find, OccursAt, MarkerAt, BlockAt;
    PlainMarkerAt(s, prefix, b, ":begin -->");
    PlainMarkerAt(s, prefix, e, ":end -->");
    FindLater(s, End(prefix), b + |Begin(prefix)|);
    CurrentBlockAt(s, prefix, b, e);
  }

  lemma CurrentBlockAt(s: string, prefix: string, b: nat, e: nat)
    requires |prefix| > 0 && OccursAt(s, prefix, b) && OccursAt(s, Begin(prefix), b)
    requires Find(s, End(prefix), b + |Begin(prefix)|) == Some(e)
    requires e + |End(prefix)| < |s| && s[e + |End(prefix)|] == '\n'
    ensures BlockAt(Current, s, prefix, b) == Some(e + |End(prefix)| + 1)
  {
    hide Find, OccursAt, Begin, End, DigitsEnd;
  }

  lemma FindLater(s: string, w: string, from: nat)
    requires Find(s, w, 0).Some? && from <= Find(s, w, 0).value
    ensures Find(s, w, from) == Find(s, w, 0)
  {
    hide OccursAt;
  }

  lemma ScansAround(s: string, prefix: string, b: nat, e: nat)
    requires |prefix| > 0 && b + |Begin(prefix)| <= e && e + |End(prefix)| < |s|
    requires forall i :: OccursAt(s, prefix, i) <==> i == b || i == e
    requires BlockAt(Current, s, prefix, b) == Some(e + |End(prefix)| + 1)
    requires BlockAt(Legacy, s, prefix, b) == None && BlockAt(Legacy, s, prefix, e) == None
    requires MarkerAt(s, prefix, b) == Some(b + |Begin(prefix)|) && MarkerAt(s, prefix, e) == Some(e + |End(prefix)|)
    ensures FindBlocks(Current, s, prefix, 0) == [Block(b, e + |End(prefix)| + 1)]
    ensures FindBlocks(Legacy, s, prefix, 0) == []
    ensures CountMarkers(s, prefix, 0) == 2
  {
    hide BlockAt, MarkerAt, OccursAt;
    ScansSkip(Current, s, prefix, 0, b);
    ScansEnd(Current, s, prefix, e + |End(prefix)| + 1);
    ScansSkip(Legacy, s, prefix, 0, b);
    ScansSkip(Legacy, s, prefix, b + 1, e);
    ScansEnd(Legacy, s, prefix, e + 1);
    ScansSkip(Legacy, s, prefix, b + |Begin(prefix)|, e);
    ScansEnd(Legacy, s, prefix, e + |End(prefix)|);
  }

  /** Text behind the block survives as a whole or not at all. */
  lemma {:induction false} KeptIsTextOrNothing(s: string, blocks: seq<Block>, k: nat)
    requires k < |blocks| && !Overlap(blocks) && BlocksOf(blocks, s)
    ensures KeepUnlessBlank(KeptBehind(s, blocks, k)) == KeptBehind(s, blocks, k)
    decreases |blocks| - k
  {
    if k < |blocks| - 1 {
      assert blocks[k].end <= blocks[k + 1].start;
      KeptIsTextOrNothing(s, blocks, k + 1);
      var gap, rest := KeepUnlessBlank(s[blocks[k].end..blocks[k + 1].start]), KeptBehind(s, blocks, k + 1);
      assert KeptBehind(s, blocks, k) == gap + rest;
      if c :| c in gap && !IsSpace(c) {
        assert c in gap + rest;
      } else {
        assert gap == "";
      }
    }
  }

  /** MAIN: rewriting an accepted result with the same rendering changes nothing. */
  lemma RewritingTwiceIsRewritingOnce(observed: Option<string>, rendered: string, prefix: string)
    requires Rendering(rendered, prefix) && Surround(observed, prefix).Some?
    requires BlockMatches(Updated(observed, rendered, prefix).value, rendered, prefix)
    ensures Updated(Updated(observed, rendered, prefix), rendered, prefix) == Updated(observed, rendered, prefix)
  {
    hide *;
    RenderingIsProper(rendered, prefix);
    var around := Surround(observed, prefix).value;
    UpdatedIs(observed, rendered, prefix);
    AcceptedIffNoStrayPrefix(observed, rendered, prefix);
    AfterIsTextOrNothing(observed, prefix);
    ScansFindTheBlock(around.before, rendered, around.after, prefix);
    OneBlockAgain(around.before, rendered, around.after, prefix);
  }

  lemma UpdatedIs(observed: Option<string>, rendered: string, prefix: string)
    requires |prefix| > 0 && Surround(observed, prefix).Some?
    ensures var around := Surround(observed, prefix).value;
      Updated(observed, rendered, prefix) == Some(around.before + rendered + around.after)
  {
    hide Surround;
  }

  lemma AfterIsTextOrNothing(observed: Option<string>, prefix: string)
    requires |prefix| > 0 && Surround(observed, prefix).Some?
    ensures var after := Surround(observed, prefix).value.after; KeepUnlessBlank(after) == after
  {
    hide Blocks, CountMarkers, KeptBehind, Blank;
    if observed.Some? && Blocks(observed.value, prefix) != [] {
      KeptIsTextOrNothing(observed.value, Blocks(observed.value, prefix), 0);
    }
  }

  /** With one block found, the rendering replaces what is there by itself. */
  lemma OneBlockAgain(before: string, rendered: string, after: string, prefix: string)
    requires |prefix| > 0 && |rendered| > 0 && KeepUnlessBlank(after) == after
    requires var s := before + rendered + after;
      && FindBlocks(Current, s, prefix, 0) == [Block(|before|, |before| + |rendered|)]
      && FindBlocks(Legacy, s, prefix, 0) == [] && CountMarkers(s, prefix, 0) == 2
    ensures var s := before + rendered + after; Updated(Some(s), rendered, prefix) == Some(s)
  {
    hide FindBlocks, CountMarkers, KeepUnlessBlank;
    var s, block := before + rendered + after, Block(|before|, |before| + |rendered|);
    assert Blocks(s, prefix) == [block];
    assert s[..block.start] == before && s[block.end..] == after;
    assert KeptBehind(s, [block], 0) == after;
  }

  // ----- Text outside the blocks -----

  function Squeeze(s: string): string {
    if s == "" then "" else (if IsSpace(s[0]) then "" else [s[0]]) + Squeeze(s[1..])
  }

  /** The pieces of text behind blocks[k]: up to the next block, and so on to the end. */
  function PiecesBehind(s: string, blocks: seq<Block>, k: nat): seq<string>
    requires k < |blocks| && !Overlap(blocks) && BlocksOf(blocks, s)
    decreases |blocks| - k
  {
    if k == |blocks| - 1 then [s[blocks[k].end..]]
    else
      assert blocks[k].end <= blocks[k + 1].start;
      [s[blocks[k].end..blocks[k + 1].start]] + PiecesBehind(s, blocks, k + 1)
  }

  function NonBlank(pieces: seq<string>): seq<string> {
    if pieces == [] then [] else (if Blank(pieces[0]) then [] else [pieces[0]]) + NonBlank(pieces[1..])
  }

  /** What is kept behind a block is its pieces that are not blank, whole and in order. */
  lemma {:induction false} KeptPieces(s: string, blocks: seq<Block>, k: nat)
    requires k < |blocks| && !Overlap(blocks) && BlocksOf(blocks, s)
    ensures KeptBehind(s, blocks, k) == Join(NonBlank(PiecesBehind(s, blocks, k)))
    decreases |blocks| - k
  {
    var pieces := PiecesBehind(s, blocks, k);
    if k < |blocks| - 1 {
      assert blocks[k].end <= blocks[k + 1].start;
      KeptPieces(s, blocks, k + 1);
      assert pieces[1..] == PiecesBehind(s, blocks, k + 1);
    } else {
      assert pieces[1..] == [];
    }
    hide Blank;
    var kept := NonBlank(pieces[1..]);
    assert ([pieces[0]] + kept)[1..] == kept && [] + kept == kept;
  }

  /** All text outside blocks[k] and later blocks that lies behind blocks[k]. */
  function OutsideBehind(s: string, blocks: seq<Block>, k: nat): string
    requires k < |blocks| && !Overlap(blocks) && BlocksOf(blocks, s)
    decreases |blocks| - k
  {
    if k == |blocks| - 1 then s[blocks[k].end..]
    else
      assert blocks[k].end <= blocks[k + 1].start;
      s[blocks[k].end..blocks[k + 1].start] + OutsideBehind(s, blocks, k + 1)
  }

  /** The text of a rewritable file that belongs to no block. */
  function Outside(observed: Option<string>, prefix: string): string
    requires |prefix| > 0 && Surround(observed, prefix).Some?
  {
    match observed
    case None => ""
    case Some(s) =>
      var blocks := Blocks(s, prefix);
      if blocks == [] then s else s[..blocks[0].start] + OutsideBehind(s, blocks, 0)
  }

  lemma {:induction false} SqueezeJoins(a: string, b: string)
    ensures Squeeze(a + b) == Squeeze(a) + Squeeze(b)
  {
    if a == "" {
      assert a + b == b;
    } else {
      assert (a + b)[1..] == a[1..] + b;
      SqueezeJoins(a[1..], b);
    }
  }

  lemma {:induction false} SqueezeBlank(s: string)
    ensures Squeeze(s) == "" <==> Blank(s)
  {
    if s != "" {
      SqueezeBlank(s[1..]);
      assert s == [s[0]] + s[1..];
    }
  }

  lemma {:induction false} KeptSqueezes(s: string, blocks: seq<Block>, k: nat)
    requires k < |blocks| && !Overlap(blocks) && BlocksOf(blocks, s)
    ensures Squeeze(KeptBehind(s, blocks, k)) == Squeeze(OutsideBehind(s, blocks, k))
    decreases |blocks| - k
  {
    if k < |blocks| - 1 {
      assert blocks[k].end <= blocks[k + 1].start;
      var gap := s[blocks[k].end..blocks[k + 1].start];
      KeptSqueezes(s, blocks, k + 1);
      SqueezeJoins(KeepUnlessBlank(gap), KeptBehind(s, blocks, k + 1));
      SqueezeJoins(gap, OutsideBehind(s, blocks, k + 1));
      SqueezeBlank(gap);
    } else {
      SqueezeBlank(s[blocks[k].end..]);
    }
  }

  /** MAIN: every character outside the blocks that is not white space survives, in order, around
      the one rendering; text before the first block survives to the letter, and so does every
      piece behind it that is not blank. */
  lemma OutsideTextSurvives(observed: Option<string>, rendered: string, prefix: string)
    requires |prefix| > 0 && Surround(observed, prefix).Some?
    ensures var around := Surround(observed, prefix).value;
      && Updated(observed, rendered, prefix) == Some(around.before + rendered + around.after)
      && Squeeze(around.before + around.after) == Squeeze(Outside(observed, prefix))
      && (observed.Some? ==>
          around.before[..Head(observed.value, prefix)] == observed.value[..Head(observed.value, prefix)])
      && (observed.Some? && Blocks(observed.value, prefix) != [] ==>
          around.after == Join(NonBlank(PiecesBehind(observed.value, Blocks(observed.value, prefix), 0))))
  {
    hide Squeeze, Blocks, CountMarkers, NonBlank, PiecesBehind, Join;
    var around := Surround(observed, prefix).value;
    SqueezeJoins(around.before, around.after);
    assert "" + "" == "";
    if observed.Some? {
      var s, blocks := observed.value, Blocks(observed.value, prefix);
      if blocks == [] {
        var separator := around.before[|s|..];
        assert around.before == s + separator && Blank(separator);
        SqueezeJoins(s, separator);
        SqueezeBlank(separator);
        SqueezeBlank("");
      } else {
        KeptSqueezes(s, blocks, 0);
        KeptPieces(s, blocks, 0);
        SqueezeJoins(s[..blocks[0].start], OutsideBehind(s, blocks, 0));
      }
    }
  }

  /** How much of the file comes before any block. */
  function Head(s: string, prefix: string): (n: nat)
    requires |prefix| > 0
    ensures n <= |s|
  {
    if Blocks(s, prefix) == [] then |s| else Blocks(s, prefix)[0].start
  }

  /** A block that is added to a file without one starts a paragraph of its own. */
  lemma AddedBlockStartsParagraph(s: string, prefix: string)
    requires |prefix| > 0 && Surround(Some(s), prefix).Some? && Blocks(s, prefix) == []
    ensures var around := Surround(Some(s), prefix).value;
      && around.after == "" && s <= around.before <= s + "\n\n"
      && (s == "" ==> around.before == "")
      && (s != "" ==> around.before[|around.before| - 2..] == "\n\n")
  {
    hide Blocks, CountMarkers;
  }

  // ----- When the linter accepts -----

  /** No text between or behind blocks, from blocks[k] on, holds the prefix. */
  ghost predicate CleanBehind(s: string, blocks: seq<Block>, k: nat, prefix: string)
    requires |prefix| > 0 && k < |blocks| && !Overlap(blocks) && BlocksOf(blocks, s)
    decreases |blocks| - k
  {
    if k == |blocks| - 1 then Count(s[blocks[k].end..], prefix) == 0
    else
      assert blocks[k].end <= blocks[k + 1].start;
      && Count(s[blocks[k].end..blocks[k + 1].start], prefix) == 0
      && CleanBehind(s, blocks, k + 1, prefix)
  }

  /** Dropping blocks joins no text that stood before one with text from behind it to a prefix. */
  ghost predicate Unspliced(s: string, blocks: seq<Block>, k: nat, prefix: string)
    requires k < |blocks| && !Overlap(blocks) && BlocksOf(blocks, s)
    decreases |blocks| - k
  {
    k == |blocks| - 1
    || (assert blocks[k].end <= blocks[k + 1].start;
        && NoCross(KeepUnlessBlank(s[blocks[k].end..blocks[k + 1].start]), KeptBehind(s, blocks, k + 1), prefix)
        && Unspliced(s, blocks, k + 1, prefix))
  }

  /** All blocks but the first start lines. */
  ghost predicate StartLines(s: string, blocks: seq<Block>)
    requires BlocksOf(blocks, s)
  {
    forall k :: 0 < k < |blocks| && blocks[k].start > 0 ==> s[blocks[k].start - 1] == '\n'
  }

  lemma CountsNothing(a: string, b: string, w: string)
    requires |w| > 0
    ensures Count(a + b, w) == 0 <==> Count(a, w) == 0 && Count(b, w) == 0 && NoCross(a, b, w)
  {
    hide Count, OccursAt;
    if NoCross(a, b, w) {
      CountJoins(a, b, w);
    } else {
      CountZero(a + b, w);
    }
  }

  lemma BlankHoldsNoPrefix(s: string, prefix: string)
    requires Proper(prefix)
    ensures (Count(KeepUnlessBlank(s), prefix) == 0) == (Count(s, prefix) == 0)
  {
    hide Count;
    CountZero("", prefix);
    if Blank(s) {
      NothingCountsWithout(s, prefix);
    }
  }

  lemma {:induction false} KeptIsCleanIff(s: string, blocks: seq<Block>, k: nat, prefix: string)
    requires Proper(prefix) && k < |blocks| && !Overlap(blocks) && BlocksOf(blocks, s)
    ensures Count(KeptBehind(s, blocks, k), prefix) == 0 <==>
      CleanBehind(s, blocks, k, prefix) && Unspliced(s, blocks, k, prefix)
    decreases |blocks| - k
  {
    hide Count, KeepUnlessBlank, NoCross;
    assert |prefix| > 0;
    if k == |blocks| - 1 {
      BlankHoldsNoPrefix(s[blocks[k].end..], prefix);
    } else {
      assert blocks[k].end <= blocks[k + 1].start;
      var gap := s[blocks[k].end..blocks[k + 1].start];
      BlankHoldsNoPrefix(gap, prefix);
      KeptIsCleanIff(s, blocks, k + 1, prefix);
      CountsNothing(KeepUnlessBlank(gap), KeptBehind(s, blocks, k + 1), prefix);
    }
  }

  lemma {:induction false} LinesAreUnspliced(s: string, blocks: seq<Block>, k: nat, prefix: string)
    requires Proper(prefix) && k < |blocks| && !Overlap(blocks) && BlocksOf(blocks, s) && StartLines(s, blocks)
    ensures Unspliced(s, blocks, k, prefix)
    decreases |blocks| - k
  {
    hide KeptBehind, Blank, NoCross, Overlap;
    if k < |blocks| - 1 {
      InOrder(s, blocks, k);
      LinesAreUnspliced(s, blocks, k + 1, prefix);
      var gap := s[blocks[k].end..blocks[k + 1].start];
      GapEndsLine(s, blocks, k);
      hide StartLines;
      SeamIsClean(KeepUnlessBlank(gap), KeptBehind(s, blocks, k + 1), prefix);
    }
  }

  lemma InOrder(s: string, blocks: seq<Block>, k: nat)
    requires !Overlap(blocks) && BlocksOf(blocks, s) && k < |blocks| - 1
    ensures blocks[k].end <= blocks[k + 1].start <= |s|
  {
  }

  lemma GapEndsLine(s: string, blocks: seq<Block>, k: nat)
    requires !Overlap(blocks) && BlocksOf(blocks, s) && k < |blocks| - 1 && StartLines(s, blocks)
    requires blocks[k].end <= blocks[k + 1].start <= |s|
    ensures var gap := s[blocks[k].end..blocks[k + 1].start]; gap == "" || gap[|gap| - 1] == '\n'
  {
    hide Overlap;
  }

  /** Outside its blocks, piece by piece, the file does not hold the prefix. */
  ghost predicate CleanFile(observed: Option<string>, prefix: string)
    requires |prefix| > 0 && Surround(observed, prefix).Some?
  {
    match observed
    case None => true
    case Some(s) =>
      && Count(s[..Head(s, prefix)], prefix) == 0
      && (Blocks(s, prefix) != [] ==> CleanBehind(s, Blocks(s, prefix), 0, prefix))
  }

  ghost predicate UnsplicedFile(observed: Option<string>, prefix: string)
    requires |prefix| > 0 && Surround(observed, prefix).Some?
  {
    observed.Some? && Blocks(observed.value, prefix) != [] ==>
      Unspliced(observed.value, Blocks(observed.value, prefix), 0, prefix)
  }

  /** MAIN: the linter accepts the rewritten file exactly when the file given does not hold the
      prefix outside its blocks and no block that is dropped stands inside a prefix. */
  lemma AcceptedIffCleanFile(observed: Option<string>, rendered: string, prefix: string)
    requires Rendering(rendered, prefix) && Surround(observed, prefix).Some?
    ensures BlockMatches(Updated(observed, rendered, prefix).value, rendered, prefix) <==>
      CleanFile(observed, prefix) && UnsplicedFile(observed, prefix)
  {
    hide Count, BlockMatches, Blocks, CountMarkers;
    var around := Surround(observed, prefix).value;
    AcceptedIffNoStrayPrefix(observed, rendered, prefix);
    CountZero("", prefix);
    if observed.Some? {
      var s, blocks := observed.value, Blocks(observed.value, prefix);
      if blocks == [] {
        var separator := around.before[|s|..];
        assert s == s[..Head(s, prefix)] && around.before == s + separator;
        SeamIsClean(s, separator, prefix);
        CountJoins(s, separator, prefix);
        NothingCountsWithout(separator, prefix);
      } else {
        KeptIsCleanIff(s, blocks, 0, prefix);
      }
    }
  }

  /** MAIN: so where all blocks but the first start lines, the linter accepts the rewritten file
      exactly when the file given does not hold the prefix outside its blocks. */
  lemma AcceptedIffCleanLines(observed: Option<string>, rendered: string, prefix: string)
    requires Rendering(rendered, prefix) && Surround(observed, prefix).Some?
    requires observed.Some? ==> StartLines(observed.value, Blocks(observed.value, prefix))
    ensures BlockMatches(Updated(observed, rendered, prefix).value, rendered, prefix) <==> CleanFile(observed, prefix)
  {
    hide BlockMatches, CleanFile, Blocks, CountMarkers, Updated;
    AcceptedIffCleanFile(observed, rendered, prefix);
    if observed.Some? && Blocks(observed.value, prefix) != [] {
      LinesAreUnspliced(observed.value, Blocks(observed.value, prefix), 0, prefix);
    }
  }

  /** And such a file is rewritten once and for all. */
  lemma CleanFilesAreAccepted(observed: Option<string>, rendered: string, prefix: string)
    requires Rendering(rendered, prefix) && Surround(observed, prefix).Some?
    requires observed.Some? ==> StartLines(observed.value, Blocks(observed.value, prefix))
    requires CleanFile(observed, prefix)
    ensures BlockMatches(Updated(observed, rendered, prefix).value, rendered, prefix)
    ensures Updated(Updated(observed, rendered, prefix), rendered, prefix) == Updated(observed, rendered, prefix)
  {
    hide BlockMatches, CleanFile, StartLines, Updated;
    AcceptedIffCleanLines(observed, rendered, prefix);
    RewritingTwiceIsRewritingOnce(observed, rendered, prefix);
  }

  lemma {:induction false} KeptEndsWith(s: string, blocks: seq<Block>, k: nat) returns (head: string)
    requires k < |blocks| && !Overlap(blocks) && BlocksOf(blocks, s)
    ensures KeptBehind(s, blocks, 0) == head + KeptBehind(s, blocks, k)
  {
    hide KeepUnlessBlank, Blank;
    if k == 0 {
      head := "";
    } else {
      var before := KeptEndsWith(s, blocks, k - 1);
      assert blocks[k - 1].end <= blocks[k].start;
      var gap, rest := KeepUnlessBlank(s[blocks[k - 1].end..blocks[k].start]), KeptBehind(s, blocks, k);
      assert KeptBehind(s, blocks, k - 1) == gap + rest;
      head := before + gap;
      Regroup(before, gap, rest);
    }
  }

  lemma Regroup(a: string, b: string, c: string)
    ensures a + (b + c) == a + b + c
  {
  }

  /** Halves of the prefix that dropping a block joins make the linter refuse the result. */
  lemma SplicedHalvesAreRefused(observed: string, rendered: string, prefix: string, k: nat, x: string, y: string)
    requires Rendering(rendered, prefix) && Surround(Some(observed), prefix).Some?
    requires var blocks := Blocks(observed, prefix);
      && k + 2 < |blocks|
      && blocks[k].end <= blocks[k + 1].start && blocks[k + 1].end <= blocks[k + 2].start
      && x != "" && y != "" && x + y == prefix && !Blank(x) && !Blank(y)
      && observed[blocks[k].end..blocks[k + 1].start] == x
      && observed[blocks[k + 1].end..blocks[k + 2].start] == y
    ensures !BlockMatches(Updated(Some(observed), rendered, prefix).value, rendered, prefix)
  {
    hide Count, BlockMatches, CountMarkers, Proper, Blocks;
    var blocks := Blocks(observed, prefix);
    AcceptedIffNoStrayPrefix(Some(observed), rendered, prefix);
    HalvesMeet(observed, blocks, k, x, y, prefix);
  }

  lemma HalvesMeet(observed: string, blocks: seq<Block>, k: nat, x: string, y: string, prefix: string)
    requires |prefix| > 0 && !Overlap(blocks) && BlocksOf(blocks, observed) && k + 2 < |blocks|
    requires blocks[k].end <= blocks[k + 1].start && blocks[k + 1].end <= blocks[k + 2].start
    requires !Blank(x) && !Blank(y) && x + y == prefix
    requires observed[blocks[k].end..blocks[k + 1].start] == x
    requires observed[blocks[k + 1].end..blocks[k + 2].start] == y
    ensures Count(KeptBehind(observed, blocks, 0), prefix) > 0
  {
    hide Count, Blank, KeptBehind, Overlap;
    KeptStep(observed, blocks, k);
    KeptStep(observed, blocks, k + 1);
    var rest := KeptBehind(observed, blocks, k + 2);
    var head := KeptEndsWith(observed, blocks, k);
    assert KeptBehind(observed, blocks, 0) == head + (x + (y + rest));
    hide *;
    WordInside(head, x, y, rest);
    CountZero(head + (x + (y + rest)), x + y);
  }

  lemma KeptStep(s: string, blocks: seq<Block>, k: nat)
    requires !Overlap(blocks) && BlocksOf(blocks, s) && k < |blocks| - 1
    ensures blocks[k].end <= blocks[k + 1].start
    ensures KeptBehind(s, blocks, k) ==
      KeepUnlessBlank(s[blocks[k].end..blocks[k + 1].start]) + KeptBehind(s, blocks, k + 1)
  {
    InOrder(s, blocks, k);
    hide Blank, Overlap;
  }

  lemma WordInside(head: string, x: string, y: string, rest: string)
    ensures OccursAt(head + (x + (y + rest)), x + y, |head|)
  {
    var all := head + (x + (y + rest));
    assert all == head + (x + y) + rest;
    assert all[|head|..|head| + |x + y|] == x + y;
  }

  // ----- A file whose dropped block stands inside a prefix -----

  /** An empty block with the current markers. */
  function EmptyBlock(prefix: string): string {
    Begin(prefix) + End(prefix)
  }

  /** What the scans do at an empty block that no line end follows. */
  lemma ScansPassBlock(s: string, prefix: string, i: nat)
    requires Proper(prefix) && OccursAt(s, EmptyBlock(prefix), i)
    requires var j := i + |EmptyBlock(prefix)|; j < |s| ==> s[j] != '\n' && s[j] != '\r'
    ensures var j := i + |EmptyBlock(prefix)|;
      && FindBlocks(Current, s, prefix, i) == [Block(i, j)] + FindBlocks(Current, s, prefix, j)
      && FindBlocks(Legacy, s, prefix, i) == FindBlocks(Legacy, s, prefix, j)
      && CountMarkers(s, prefix, i) == 2 + CountMarkers(s, prefix, j)
  {
    hide FindBlocks, CountMarkers, Find, DigitsEnd, BlockAt, MarkerAt;
    var e, j := i + |Begin(prefix)|, i + |EmptyBlock(prefix)|;
    EmptyBlockMarkers(s, prefix, i);
    PlainMarkerAt(s, prefix, i, ":begin -->");
    PlainMarkerAt(s, prefix, e, ":end -->");
    EmptyBlockAt(s, prefix, i);
    hide OccursAt, Proper;
    BlockTaken(s, prefix, i, j);
    NoBlock(s, prefix, i);
    NoBlock(s, prefix, e);
    ScansSkip(Legacy, s, prefix, i + 1, e);
    ScansSkip(Legacy, s, prefix, e + 1, j);
    MarkerTaken(s, prefix, i);
    MarkerTaken(s, prefix, e);
  }

  lemma BlockTaken(s: string, prefix: string, i: nat, j: nat)
    requires |prefix| > 0 && i <= |s| && BlockAt(Current, s, prefix, i) == Some(j)
    ensures FindBlocks(Current, s, prefix, i) == [Block(i, j)] + FindBlocks(Current, s, prefix, j)
  {
    hide BlockAt;
  }

  lemma NoBlock(s: string, prefix: string, i: nat)
    requires |prefix| > 0 && i < |s| && BlockAt(Legacy, s, prefix, i) == None
    ensures FindBlocks(Legacy, s, prefix, i) == FindBlocks(Legacy, s, prefix, i + 1)
  {
    hide BlockAt;
  }

  lemma MarkerTaken(s: string, prefix: string, i: nat)
    requires |prefix| > 0 && i <= |s| && MarkerAt(s, prefix, i).Some?
    ensures CountMarkers(s, prefix, i) == 1 + CountMarkers(s, prefix, MarkerAt(s, prefix, i).value)
  {
    hide MarkerAt;
  }

  lemma EmptyBlockMarkers(s: string, prefix: string, i: nat)
    requires Proper(prefix) && OccursAt(s, EmptyBlock(prefix), i)
    ensures var e := i + |Begin(prefix)|;
      && OccursAt(s, Begin(prefix), i) && OccursAt(s, End(prefix), e)
      && (forall k :: i < k < e ==> !OccursAt(s, prefix, k))
      && (forall k :: e < k < i + |EmptyBlock(prefix)| ==> !OccursAt(s, prefix, k))
  {
    MarkersAreProper(prefix);
    OccursInParts(s, Begin(prefix), End(prefix), i);
    hide OccursAt, Begin, End;
    NoPrefixInside(s, prefix, Begin(prefix), i);
    NoPrefixInside(s, prefix, End(prefix), i + |Begin(prefix)|);
  }

  /** No prefix starts inside a marker. */
  lemma NoPrefixInside(s: string, prefix: string, w: string, i: nat)
    requires Proper(prefix) && ProperWord(w) && OccursAt(s, w, i)
    ensures forall k :: i < k < i + |w| ==> !OccursAt(s, prefix, k)
  {
    OccursChars(s, w, i);
    forall k | i < k < i + |w| ensures !OccursAt(s, prefix, k) {
      assert s[i + (k - i)] == w[k - i];
      OccursStarts(s, prefix, k);
    }
  }

  lemma EmptyBlockAt(s: string, prefix: string, i: nat)
    requires |prefix| > 0 && OccursAt(s, prefix, i)
    requires OccursAt(s, Begin(prefix), i) && OccursAt(s, End(prefix), i + |Begin(prefix)|)
    requires var j := i + |EmptyBlock(prefix)|; j < |s| ==> s[j] != '\n' && s[j] != '\r'
    ensures BlockAt(Current, s, prefix, i) == Some(i + |EmptyBlock(prefix)|)
  {
    hide OccursAt, DigitsEnd;
  }

  /** A prefix cut in two by an empty block, between two others. */
  function CutPrefix(prefix: string): string
    requires |prefix| > 0
  {
    EmptyBlock(prefix) + prefix[..1] + EmptyBlock(prefix) + prefix[1..] + EmptyBlock(prefix)
  }

  lemma CutPrefixBlocks(prefix: string)
    requires Proper(prefix) && |prefix| > 1
    ensures var n, s := |EmptyBlock(prefix)|, CutPrefix(prefix);
      && |s| == 3 * n + |prefix| && n > 0
      && Blocks(s, prefix) == [Block(0, n), Block(n + 1, 2 * n + 1), Block(2 * n + |prefix|, 3 * n + |prefix|)]
      && CountMarkers(s, prefix, 0) == 6
      && s[n..n + 1] == prefix[..1] && s[2 * n + 1..2 * n + |prefix|] == prefix[1..]
  {
    hide *;
    var n, s := |EmptyBlock(prefix)|, CutPrefix(prefix);
    CutPrefixText(prefix);
    ScansOfThree(s, prefix, n);
    MergeNothing(FindBlocks(Current, s, prefix, 0));
    BlocksMerged(s, prefix);
  }

  lemma MergeNothing(blocks: seq<Block>)
    ensures Merge(blocks, []) == blocks
  {
  }

  lemma BlocksMerged(s: string, prefix: string)
    requires |prefix| > 0
    ensures Blocks(s, prefix) == Merge(FindBlocks(Current, s, prefix, 0), FindBlocks(Legacy, s, prefix, 0))
  {
    hide FindBlocks, Merge;
  }

  lemma ScansOfThree(s: string, prefix: string, n: nat)
    requires Proper(prefix) && |prefix| > 1 && n == |EmptyBlock(prefix)| && n > 0 && |s| == 3 * n + |prefix|
    requires OccursAt(s, EmptyBlock(prefix), 0) && OccursAt(s, EmptyBlock(prefix), n + 1)
    requires OccursAt(s, EmptyBlock(prefix), 2 * n + |prefix|)
    requires !OccursAt(s, prefix, n) && forall k :: 2 * n + 1 <= k < 2 * n + |prefix| ==> !OccursAt(s, prefix, k)
    requires s[n] != '\n' && s[n] != '\r' && s[2 * n + 1] != '\n' && s[2 * n + 1] != '\r'
    ensures FindBlocks(Current, s, prefix, 0) ==
      [Block(0, n), Block(n + 1, 2 * n + 1), Block(2 * n + |prefix|, 3 * n + |prefix|)]
    ensures FindBlocks(Legacy, s, prefix, 0) == [] && CountMarkers(s, prefix, 0) == 6
  {
    hide *;
    ScansOfTwo(s, prefix, n);
    ScansPassBlock(s, prefix, 0);
    ScansSkip(Current, s, prefix, n, n + 1);
    ScansSkip(Legacy, s, prefix, n, n + 1);
  }

  lemma ScansOfTwo(s: string, prefix: string, n: nat)
    requires Proper(prefix) && |prefix| > 1 && n == |EmptyBlock(prefix)| && n > 0 && |s| == 3 * n + |prefix|
    requires OccursAt(s, EmptyBlock(prefix), n + 1) && OccursAt(s, EmptyBlock(prefix), 2 * n + |prefix|)
    requires forall k :: 2 * n + 1 <= k < 2 * n + |prefix| ==> !OccursAt(s, prefix, k)
    requires s[2 * n + 1] != '\n' && s[2 * n + 1] != '\r'
    ensures FindBlocks(Current, s, prefix, n + 1) ==
      [Block(n + 1, 2 * n + 1), Block(2 * n + |prefix|, 3 * n + |prefix|)]
    ensures FindBlocks(Legacy, s, prefix, n + 1) == [] && CountMarkers(s, prefix, n + 1) == 4
  {
    hide *;
    ScansOfOne(s, prefix, n);
    ScansPassBlock(s, prefix, n + 1);
    ScansSkip(Current, s, prefix, 2 * n + 1, 2 * n + |prefix|);
    ScansSkip(Legacy, s, prefix, 2 * n + 1, 2 * n + |prefix|);
  }

  lemma ScansOfOne(s: string, prefix: string, n: nat)
    requires Proper(prefix) && |prefix| > 1 && n == |EmptyBlock(prefix)| && n > 0 && |s| == 3 * n + |prefix|
    requires OccursAt(s, EmptyBlock(prefix), 2 * n + |prefix|)
    ensures FindBlocks(Current, s, prefix, 2 * n + |prefix|) == [Block(2 * n + |prefix|, 3 * n + |prefix|)]
    ensures FindBlocks(Legacy, s, prefix, 2 * n + |prefix|) == [] && CountMarkers(s, prefix, 2 * n + |prefix|) == 2
  {
    hide *;
    NothingAtEnd(s, prefix);
    ScansPassBlock(s, prefix, 2 * n + |prefix|);
    ScansEnd(Current, s, prefix, |s|);
    ScansEnd(Legacy, s, prefix, |s|);
  }

  lemma NothingAtEnd(s: string, prefix: string)
    requires |prefix| > 0
    ensures !OccursAt(s, prefix, |s|)
  {
  }

  lemma CutPrefixText(prefix: string)
    requires Proper(prefix) && |prefix| > 1
    ensures var n, s := |EmptyBlock(prefix)|, CutPrefix(prefix);
      && n > 0 && |s| == 3 * n + |prefix|
      && OccursAt(s, EmptyBlock(prefix), 0) && OccursAt(s, EmptyBlock(prefix), n + 1)
      && OccursAt(s, EmptyBlock(prefix), 2 * n + |prefix|)
      && s[n..n + 1] == prefix[..1] && s[2 * n + 1..2 * n + |prefix|] == prefix[1..]
      && !OccursAt(s, prefix, n)
      && (forall k :: 2 * n + 1 <= k < 2 * n + |prefix| ==> !OccursAt(s, prefix, k))
      && s[n] != '\n' && s[n] != '\r' && s[2 * n + 1] != '\n' && s[2 * n + 1] != '\r'
  {
    hide Proper, EmptyBlock;
    EmptyBlockOpens(prefix);
    FivePieces(EmptyBlock(prefix), prefix[..1], prefix[1..]);
    hide CutPrefix;
    NoPrefixInHalves(CutPrefix(prefix), EmptyBlock(prefix), prefix);
  }

  lemma EmptyBlockOpens(prefix: string)
    requires Proper(prefix)
    ensures |EmptyBlock(prefix)| > 0 && EmptyBlock(prefix)[0] == '<'
  {
  }

  /** Neither half of a cut prefix starts one. */
  lemma NoPrefixInHalves(s: string, block: string, prefix: string)
    requires Proper(prefix) && |prefix| > 1 && block != "" && block[0] == '<' && |s| == 3 * |block| + |prefix|
    requires var n := |block|;
      s[n..n + 1] == prefix[..1] && s[n + 1..2 * n + 1] == block && s[2 * n + 1..2 * n + |prefix|] == prefix[1..]
    ensures !OccursAt(s, prefix, |block|)
    ensures forall k :: 2 * |block| + 1 <= k < 2 * |block| + |prefix| ==> !OccursAt(s, prefix, k)
    ensures s[|block|] == '<' && s[2 * |block| + 1] != '\n' && s[2 * |block| + 1] != '\r'
  {
    var n := |block|;
    assert s[n] == s[n..n + 1][0] && s[n + 1] == s[n + 1..2 * n + 1][0];
    if n + |prefix| <= |s| {
      assert s[n..n + |prefix|][1] == s[n + 1];
    }
    assert s[2 * n + 1] == s[2 * n + 1..2 * n + |prefix|][0] == prefix[1];
    forall k | 2 * n + 1 <= k < 2 * n + |prefix| ensures !OccursAt(s, prefix, k) {
      assert s[k] == s[2 * n + 1..2 * n + |prefix|][k - 2 * n - 1] == prefix[k - 2 * n];
      if k + |prefix| <= |s| {
        assert s[k..k + |prefix|][0] == s[k];
      }
    }
  }

  lemma FivePieces(b: string, x: string, y: string)
    ensures var s, n, m := b + x + b + y + b, |b| + |x|, 2 * |b| + |x| + |y|;
      && |s| == m + |b| && OccursAt(s, b, 0) && OccursAt(s, b, n) && OccursAt(s, b, m)
      && s[|b|..n] == x && s[n..n + |b|] == b && s[n + |b|..m] == y
  {
  }

  /** Such a file is rewritten, and the linter refuses the result. */
  lemma CutPrefixIsRefused(rendered: string, prefix: string)
    requires Rendering(rendered, prefix) && |prefix| > 1 && !IsSpace(prefix[1])
    ensures Surround(Some(CutPrefix(prefix)), prefix).Some?
    ensures !BlockMatches(Updated(Some(CutPrefix(prefix)), rendered, prefix).value, rendered, prefix)
  {
    hide *;
    var n, s := |EmptyBlock(prefix)|, CutPrefix(prefix);
    RenderingIsProper(rendered, prefix);
    CutPrefixBlocks(prefix);
    ThreeSurround(s, prefix, n);
    Halves(prefix);
    SplicedHalvesAreRefused(s, rendered, prefix, 0, prefix[..1], prefix[1..]);
  }

  lemma RenderingIsProper(rendered: string, prefix: string)
    requires Rendering(rendered, prefix)
    ensures Proper(prefix) && |prefix| > 0 && |rendered| > 0
  {
    RenderingShape(rendered, prefix);
    hide BlockMatches;
  }

  lemma Halves(prefix: string)
    requires Proper(prefix) && |prefix| > 1 && !IsSpace(prefix[1])
    ensures !Blank(prefix[..1]) && !Blank(prefix[1..]) && prefix[..1] + prefix[1..] == prefix
  {
    assert prefix[..1][0] == prefix[0] == '<' && prefix[1..][0] == prefix[1];
    NotBlank(prefix[..1], prefix[0]);
    NotBlank(prefix[1..], prefix[1]);
  }

  lemma NotBlank(s: string, c: char)
    requires c in s && !IsSpace(c)
    ensures !Blank(s)
  {
  }

  lemma ThreeSurround(s: string, prefix: string, n: nat)
    requires |prefix| > 0 && n > 0 && CountMarkers(s, prefix, 0) == 6
    requires Blocks(s, prefix) ==
      [Block(0, n), Block(n + 1, 2 * n + 1), Block(2 * n + |prefix|, 3 * n + |prefix|)]
    ensures Surround(Some(s), prefix).Some?
  {
    hide Blocks, CountMarkers, KeptBehind;
  }

  /** The tool's own prefixes can be cut like that. */
  lemma OwnPrefixesCanBeCut(format: Format)
    ensures Proper(MarkerPrefix(format)) && |MarkerPrefix(format)| > 1 && !IsSpace(MarkerPrefix(format)[1])
  {
    PrefixesAreProper(format);
    hide Proper, Identity;
  }

  predicate Plain(s: string) {
    forall i :: 0 <= i < |s| ==> s[i] != '<' && s[i] != '>' && s[i] != '\n' && s[i] != '\r'
  }

  lemma MarkerStartIsPlain()
    ensures Plain("!-- researchctl-agent-guide:") &&
      "<" + "!-- researchctl-agent-guide:" == "<!-- researchctl-agent-guide:"
  {
  }

  lemma IdentityIsPlain(format: Format)
    ensures Plain(Identity(format))
  {
    assert Plain("project-document-agent-guide.") && Plain("claude") && Plain("agents");
  }

  /** The prefixes the tool uses are proper ones. */
  lemma PrefixesAreProper(format: Format)
    ensures Proper(MarkerPrefix(format))
  {
    hide Identity;
    MarkerStartIsPlain();
    IdentityIsPlain(format);
    var rest := "!-- researchctl-agent-guide:" + Identity(format);
    assert Plain(rest) && Proper("<" + rest);
    assert "<" + rest == ("<" + "!-- researchctl-agent-guide:") + Identity(format);
  }

  lemma NothingCountsWithout(s: string, w: string)
    requires |w| > 0 && w[0] !in s
    ensures Count(s, w) == 0
  {
    hide Count;
    CountZero(s, w);
    forall i ensures !OccursAt(s, w, i) {
      if 0 <= i && i + |w| <= |s| {
        assert s[i] == s[i..i + |w|][0] && s[i] in s;
      }
    }
  }

  lemma CountOne(s: string, w: string, k: nat)
    requires |w| > 0 && OccursAt(s, w, k) && forall i :: OccursAt(s, w, i) ==> i == k
    ensures Count(s, w) == 1 && Find(s, w, 0) == Some(k)
  {
    hide Find;
    var a, b, c := s[..k], s[k..], s[k + |w|..];
    assert w <= b && b[|w|..] == c && Count(b, w) == 1 + Count(c, w);
    hide Count;
    forall i ensures !OccursAt(a, w, i) && !OccursAt(c, w, i) && (i < |a| ==> !OccursAt(a + b, w, i)) {
      NowhereElse(s, w, k, i);
    }
    assert s == a + b;
    hide OccursAt;
    CountZero(a, w);
    CountZero(c, w);
    CountJoins(a, b, w);
  }

  lemma NowhereElse(s: string, w: string, k: nat, i: int)
    requires |w| > 0 && OccursAt(s, w, k) && forall j :: OccursAt(s, w, j) ==> j == k
    ensures !OccursAt(s[..k], w, i) && !OccursAt(s[k + |w|..], w, i)
    ensures i < k ==> !OccursAt(s[..k] + s[k..], w, i)
  {
    assert s == s[..k] + s[k..] && s == s[..k + |w|] + s[k + |w|..];
    if i + |w| <= k {
      OccursWithin(s[..k], s[k..], w, i);
    }
    if 0 <= i {
      OccursShift(s[..k + |w|], s[k + |w|..], w, i + k + |w|);
    }
  }

  /** Where the prefix occurs between two markers put around text without it. */
  lemma MarkedOccurrences(mid: string, tail: string, prefix: string, i: int)
    requires Proper(prefix) && Count(mid, prefix) == 0 && Count(tail, prefix) == 0
    ensures OccursAt(prefix + (mid + (prefix + tail)), prefix, i) <==> i == 0 || i == |prefix + mid|
  {
    hide Count;
    var k := i - |prefix|;
    OccursAfterPrefix(mid + (prefix + tail), prefix, i);
    OccursAfterPrefix(tail, prefix, k - |mid|);
    SeamIsClean(mid, prefix + tail, prefix);
    CountZero(mid, prefix);
    CountZero(tail, prefix);
    hide Proper;
    if k + |prefix| <= |mid| {
      OccursWithin(mid, prefix + tail, prefix, k);
    } else if |mid| <= k {
      OccursShift(mid, prefix + tail, prefix, k);
    }
  }

  /** Where a marker occurs, when its prefix occurs at the other marker as well. */
  lemma OneMarker(s: string, prefix: string, word: string, other: string, k: nat, j: nat)
    requires |prefix| > 0 && OccursAt(s, prefix + word, k) && OccursAt(s, prefix + other, j)
    requires |word| > 1 && |other| > 1 && word[1] != other[1]
    requires forall i :: OccursAt(s, prefix, i) ==> i == k || i == j
    ensures Count(s, prefix + word) == 1 && Find(s, prefix + word, 0) == Some(k)
  {
    hide Count, Find;
    forall i ensures OccursAt(s, prefix + word, i) ==> i == k {
      if OccursAt(s, prefix + word, i) {
        PrefixOfMarker(s, prefix, word, i);
        assert s[i + |prefix| + 1] == s[i..i + |prefix + word|][|prefix| + 1] == word[1];
        assert s[j + |prefix| + 1] == s[j..j + |prefix + other|][|prefix| + 1] == other[1];
      }
    }
    CountOne(s, prefix + word, k);
  }

  /** Any text without the prefix, put between the two markers, is a rendering. */
  lemma MarkedTextIsARendering(body: string, prefix: string)
    requires Proper(prefix) && Count(body, prefix) == 0
    ensures Rendering(Begin(prefix) + body + End(prefix) + "\n", prefix)
  {
    hide Count, Find, BlockMatches;
    var mid, tail, e := ":begin -->" + body, ":end -->\n", |Begin(prefix) + body|;
    var s := prefix + (mid + (prefix + tail));
    assert Begin(prefix) + body + End(prefix) + "\n" == s;
    NothingCountsWithout(":begin -->", prefix);
    NothingCountsWithout(tail, prefix);
    assert NoCross(":begin -->", body, prefix) by {
      forall i | i < 10 < i + |prefix| ensures !OccursAt(":begin -->" + body, prefix, i) {
        if 0 <= i && i + |prefix| <= |mid| {
          assert mid[i..i + |prefix|][9 - i] == mid[9] == '>';
        }
      }
    }
    CountJoins(":begin -->", body, prefix);
    MarkedCountIs(mid, tail, prefix);
    forall i ensures OccursAt(s, prefix, i) <==> i == 0 || i == |prefix + mid| {
      MarkedOccurrences(mid, tail, prefix, i);
    }
    MarkersInPlace(s, body, prefix);
  }

  lemma MarkersInPlace(s: string, body: string, prefix: string)
    requires Proper(prefix) && s == Begin(prefix) + body + End(prefix) + "\n" && Count(s, prefix) == 2
    requires forall i :: OccursAt(s, prefix, i) <==> i == 0 || i == |Begin(prefix) + body|
    ensures BlockMatches(s, s, prefix)
  {
    assert |prefix| > 0;
    hide Count, Find, Proper;
    var e := |Begin(prefix) + body|;
    assert s[0..|Begin(prefix)|] == Begin(prefix) && s[e..e + |End(prefix)|] == End(prefix);
    assert OccursAt(s, prefix + ":begin -->", 0) && OccursAt(s, prefix + ":end -->", e);
    OneMarker(s, prefix, ":begin -->", ":end -->", 0, e);
    OneMarker(s, prefix, ":end -->", ":begin -->", e, 0);
    assert s[0..e + |End(prefix)|] + "\n" == s;
  }
}
