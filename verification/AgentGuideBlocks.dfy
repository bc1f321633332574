/** Which files the rewriter of agent guides takes, and what it makes of them, told on the text of
    the file (src/researchctl/document_cli.py). */
module AgentGuideBlocks {
  import opened Wrappers
  import opened Text
  import opened AgentGuide

  // ----- Markers -----

  const BEGIN := ":begin -->"
  const END := ":end -->"

  /** Nothing, or `.v` and digits. */
  predicate IsVersion(v: string) {
    v == "" || (|v| > 2 && v[0] == '.' && v[1] == 'v' && forall i :: 2 <= i < |v| ==> '0' <= v[i] <= '9')
  }

  function Marker(prefix: string, v: string, word: string): string {
    prefix + v + word
  }

  /** A marker of this version and kind stands at i. */
  ghost predicate MarkerOn(s: string, prefix: string, v: string, word: string, i: int) {
    IsVersion(v) && (word == BEGIN || word == END) && OccursAt(s, Marker(prefix, v, word), i)
  }

  ghost predicate Marks(s: string, prefix: string, i: int) {
    exists v, word :: MarkerOn(s, prefix, v, word, i)
  }

  ghost predicate NoMarker(s: string, prefix: string) {
    forall i :: !Marks(s, prefix, i)
  }

  // ----- Files as the rewriter takes them -----

  /** A block with the text before it: a begin marker, text, and an end marker of its version. */
  datatype Segment = Segment(before: string, version: string, body: string)

  function TextOf(prefix: string, segments: seq<Segment>, tail: string): string {
    if segments == [] then tail
    else
      segments[0].before + Marker(prefix, segments[0].version, BEGIN) + segments[0].body
      + Marker(prefix, segments[0].version, END) + TextOf(prefix, segments[1..], tail)
  }

  /** The texts before, inside and behind the blocks hold no marker. */
  ghost predicate WellFormed(prefix: string, segments: seq<Segment>, tail: string) {
    && NoMarker(tail, prefix)
    && forall x <- segments :: IsVersion(x.version) && NoMarker(x.before, prefix) && NoMarker(x.body, prefix)
  }

  /** Without the line feed, or the carriage return and line feed, that it starts with. */
  function DropLineEnd(s: string): string {
    if "\n" <= s then s[1..] else if "\r\n" <= s then s[2..] else s
  }

  /** What is kept behind a block: the texts up to the next blocks and to the end, without the line
      end they start with, unless they are blank. */
  function KeptText(segments: seq<Segment>, tail: string): string {
    if segments == [] then KeepUnlessBlank(DropLineEnd(tail))
    else KeepUnlessBlank(DropLineEnd(segments[0].before)) + KeptText(segments[1..], tail)
  }

  // ----- What the scans see of a marker -----

  lemma {:induction false} DigitsEndIs(s: string, i: nat, n: nat)
    requires i + n <= |s| && forall k :: i <= k < i + n ==> '0' <= s[k] <= '9'
    requires i + n < |s| ==> !('0' <= s[i + n] <= '9')
    ensures DigitsEnd(s, i) == i + n
    decreases n
  {
    if n > 0 {
      DigitsEndIs(s, i + 1, n - 1);
    }
  }

  lemma {:induction false} DigitsEndMeans(s: string, i: nat)
    requires i <= |s|
    ensures forall k :: i <= k < DigitsEnd(s, i) ==> '0' <= s[k] <= '9'
    decreases |s| - i
  {
    if i < |s| && '0' <= s[i] <= '9' {
      DigitsEndMeans(s, i + 1);
    }
  }

  lemma MarkerParts(s: string, prefix: string, v: string, word: string, i: int)
    requires MarkerOn(s, prefix, v, word, i)
    ensures 0 <= i && i + |prefix| + |v| + |word| <= |s|
    ensures OccursAt(s, prefix, i) && OccursAt(s, v, i + |prefix|) && OccursAt(s, word, i + |prefix| + |v|)
  {
    OccursInParts(s, prefix + v, word, i);
    OccursInParts(s, prefix, v, i);
  }

  /** The version of a marker is read back. */
  lemma VersionReads(s: string, v: string, word: string, p: nat)
    requires IsVersion(v) && (word == BEGIN || word == END)
    requires OccursAt(s, v, p) && OccursAt(s, word, p + |v|)
    ensures OccursAt(s, ".v", p) <==> v != ""
    ensures v != "" ==> DigitsEnd(s, p + 2) == p + |v| > p + 2
    ensures OccursAt(s, BEGIN, p + |v|) <==> word == BEGIN
  {
    OccursChars(s, v, p);
    OccursChars(s, word, p + |v|);
    assert s[p + |v| + 0] == word[0] == ':';
    if word == END {
      NotBoth(s, p + |v|);
    }
    OccursStarts(s, ".v", p);
    if v != "" {
      assert s[p..p + 2] == ".v" by {
        assert s[p + 0] == '.' && s[p + 1] == 'v';
      }
      forall k | p + 2 <= k < p + |v| ensures '0' <= s[k] <= '9' {
        assert s[p + (k - p)] == v[k - p];
      }
      DigitsEndIs(s, p + 2, |v| - 2);
    }
  }

  /** Where a marker stands, the scan for markers finds it whole. */
  lemma MarkerFound(s: string, prefix: string, v: string, word: string, i: nat)
    requires |prefix| > 0 && MarkerOn(s, prefix, v, word, i)
    ensures i <= |s| && MarkerAt(s, prefix, i) == Some(i + |Marker(prefix, v, word)|)
    ensures OccursAt(s, ".v", i + |prefix|) <==> v != ""
  {
    hide *;
    MarkerParts(s, prefix, v, word, i);
    MarkerVersion(s, prefix, v, word, i);
    MarkerLength(prefix, v, word);
    VersionReads(s, v, word, i + |prefix|);
    MarkerAtIs(s, prefix, i);
    VersionEndIs(s, i + |prefix|, v);
    WordAtIs(s, i + |prefix| + |v|, word);
  }

  /** How the scan takes a marker apart: where its version ends, and what it is then. */
  function VersionEnd(s: string, p: nat): (d: nat)
    ensures p <= |s| ==> p <= d <= |s|
  {
    if OccursAt(s, ".v", p) && DigitsEnd(s, p + 2) > p + 2 then DigitsEnd(s, p + 2) else p
  }

  lemma MarkerAtIs(s: string, prefix: string, i: nat)
    requires |prefix| > 0 && i + |prefix| <= |s| && OccursAt(s, prefix, i)
    ensures MarkerAt(s, prefix, i) == WordAt(s, VersionEnd(s, i + |prefix|))
  {
    hide OccursAt, DigitsEnd;
  }

  function WordAt(s: string, d: nat): Option<nat> {
    if OccursAt(s, ":begin -->", d) then Some(d + |":begin -->"|)
    else if OccursAt(s, ":end -->", d) then Some(d + |":end -->"|) else None
  }

  lemma VersionEndIs(s: string, p: nat, v: string)
    requires p + |v| <= |s| && (OccursAt(s, ".v", p) <==> v != "")
    requires v != "" ==> p + |v| > p + 2 && DigitsEnd(s, p + 2) == p + |v|
    ensures VersionEnd(s, p) == p + |v|
  {
    hide OccursAt, DigitsEnd;
  }

  lemma WordAtIs(s: string, d: nat, word: string)
    requires word == BEGIN || word == END
    requires OccursAt(s, word, d) && (OccursAt(s, BEGIN, d) <==> word == BEGIN)
    ensures WordAt(s, d) == Some(d + |word|)
  {
    hide OccursAt;
  }

  /** And what it finds is a marker. */
  lemma FoundIsMarker(s: string, prefix: string, i: nat) returns (v: string, word: string)
    requires |prefix| > 0 && i <= |s| && MarkerAt(s, prefix, i).Some?
    ensures MarkerOn(s, prefix, v, word, i) && MarkerAt(s, prefix, i) == Some(i + |Marker(prefix, v, word)|)
  {
    hide *;
    var p := i + |prefix|;
    OccursInside(s, prefix, i);
    MarkerAtIs(s, prefix, i);
    var d := VersionEnd(s, p);
    v := s[p..d];
    word := WordFound(s, d);
    VersionEndVersion(s, p);
    SliceOccurs(s, p, d);
    PartsOccur(s, prefix, v, word, i);
    MarkerOnIs(s, prefix, v, word, i);
    MarkerLength(prefix, v, word);
  }

  lemma WordFound(s: string, d: nat) returns (word: string)
    requires WordAt(s, d).Some?
    ensures (word == BEGIN || word == END) && OccursAt(s, word, d) && WordAt(s, d) == Some(d + |word|)
  {
    word := if OccursAt(s, BEGIN, d) then BEGIN else END;
    hide OccursAt;
  }

  lemma VersionEndVersion(s: string, p: nat)
    requires p <= |s|
    ensures IsVersion(s[p..VersionEnd(s, p)])
  {
    OccursSpan(s, ".v", p);
    hide OccursAt, IsVersion, DigitsEnd;
    VersionAt(s, p, VersionEnd(s, p));
  }

  lemma OccursSpan(s: string, w: string, i: nat)
    ensures OccursAt(s, w, i) ==> i + |w| <= |s|
  {
  }

  lemma VersionAt(s: string, p: nat, d: nat)
    requires p <= |s|
    requires d == if OccursAt(s, ".v", p) && DigitsEnd(s, p + 2) > p + 2 then DigitsEnd(s, p + 2) else p
    ensures p <= d <= |s| && IsVersion(s[p..d])
  {
    if d > p {
      DigitsEndMeans(s, p + 2);
      OccursChars(s, ".v", p);
      assert s[p + 0] == '.' && s[p + 1] == 'v';
    }
  }

  lemma PartsOccur(s: string, prefix: string, v: string, word: string, i: nat)
    requires OccursAt(s, prefix, i) && OccursAt(s, v, i + |prefix|) && OccursAt(s, word, i + |prefix| + |v|)
    ensures OccursAt(s, Marker(prefix, v, word), i)
  {
    var n := |prefix| + |v| + |word|;
    assert s[i..i + n] == s[i..i + |prefix|] + s[i + |prefix|..i + |prefix| + |v|] + s[i + |prefix| + |v|..i + n];
  }

  lemma MarksIff(s: string, prefix: string, i: nat)
    requires |prefix| > 0 && i <= |s|
    ensures Marks(s, prefix, i) <==> MarkerAt(s, prefix, i).Some?
  {
    hide MarkerOn, MarkerAt;
    if v, word :| MarkerOn(s, prefix, v, word, i) {
      MarkerFound(s, prefix, v, word, i);
    }
    if MarkerAt(s, prefix, i).Some? {
      var v, word := FoundIsMarker(s, prefix, i);
    }
  }

  /** Which of the two block patterns a version belongs to. */
  function PatternOf(v: string): Pattern {
    if v == "" then Current else Legacy
  }

  /** A block starts only where a begin marker of its pattern stands, and ends behind an end marker
      of the same version. */
  lemma BlockMeans(pattern: Pattern, s: string, prefix: string, i: nat) returns (v: string, e: nat)
    requires |prefix| > 0 && i <= |s| && BlockAt(pattern, s, prefix, i).Some?
    ensures MarkerOn(s, prefix, v, BEGIN, i) && PatternOf(v) == pattern
    ensures i + |Marker(prefix, v, BEGIN)| <= e && MarkerOn(s, prefix, v, END, e)
    ensures BlockAt(pattern, s, prefix, i) == Some(AfterLineEnd(s, e + |Marker(prefix, v, END)|))
    ensures e + |Marker(prefix, v, END)| <= |s|
  {
    match pattern
    case Current =>
      v := "";
      e := CurrentMeans(s, prefix, i);
    case Legacy => v, e := LegacyMeans(s, prefix, i);
  }

  lemma CurrentMeans(s: string, prefix: string, i: nat) returns (e: nat)
    requires |prefix| > 0 && i <= |s| && BlockAt(Current, s, prefix, i).Some?
    ensures MarkerOn(s, prefix, "", BEGIN, i) && i + |Marker(prefix, "", BEGIN)| <= e && MarkerOn(s, prefix, "", END, e)
    ensures BlockAt(Current, s, prefix, i) == Some(AfterLineEnd(s, e + |Marker(prefix, "", END)|))
    ensures e + |Marker(prefix, "", END)| <= |s|
  {
    hide Find, OccursAt, DigitsEnd;
    e := Find(s, End(prefix), i + |Begin(prefix)|).value;
    OccursInside(s, End(prefix), e);
    assert Marker(prefix, "", BEGIN) == Begin(prefix) && Marker(prefix, "", END) == End(prefix);
  }

  lemma OccursInside(s: string, w: string, i: nat)
    requires OccursAt(s, w, i)
    ensures i + |w| <= |s|
  {
  }

  lemma LegacyMeans(s: string, prefix: string, i: nat) returns (v: string, e: nat)
    requires |prefix| > 0 && i <= |s| && BlockAt(Legacy, s, prefix, i).Some?
    ensures MarkerOn(s, prefix, v, BEGIN, i) && v != ""
    ensures i + |Marker(prefix, v, BEGIN)| <= e && MarkerOn(s, prefix, v, END, e)
    ensures BlockAt(Legacy, s, prefix, i) == Some(AfterLineEnd(s, e + |Marker(prefix, v, END)|))
    ensures e + |Marker(prefix, v, END)| <= |s|
  {
    hide *;
    var p := i + |prefix|;
    var d := LegacyDigits(s, prefix, i);
    v := s[p..d];
    VersionAt(s, p, d);
    SliceOccurs(s, p, d);
    PartsOccur(s, prefix, v, BEGIN, i);
    LegacyEnd(s, prefix, v, p);
    MarkerLength(prefix, v, BEGIN);
    var end := Marker(prefix, v, END);
    e := Find(s, end, d + |BEGIN|).value;
    OccursInside(s, end, e);
    MarkerOnIs(s, prefix, v, BEGIN, i);
    MarkerOnIs(s, prefix, v, END, e);
  }

  lemma SliceOccurs(s: string, p: nat, d: nat)
    requires p <= d <= |s|
    ensures OccursAt(s, s[p..d], p)
  {
  }

  lemma MarkerOnIs(s: string, prefix: string, v: string, word: string, i: int)
    ensures MarkerOn(s, prefix, v, word, i) <==>
      IsVersion(v) && (word == BEGIN || word == END) && OccursAt(s, Marker(prefix, v, word), i)
  {
    hide IsVersion, OccursAt, Marker;
  }

  lemma LegacyDigits(s: string, prefix: string, i: nat) returns (d: nat)
    requires |prefix| > 0 && i <= |s| && BlockAt(Legacy, s, prefix, i).Some?
    ensures var p := i + |prefix|;
      && p + 2 < d <= |s| && d == DigitsEnd(s, p + 2)
      && OccursAt(s, prefix, i) && OccursAt(s, ".v", p) && OccursAt(s, BEGIN, d)
      && Find(s, End(prefix + ".v" + s[p + 2..d]), d + |BEGIN|).Some?
      && BlockAt(Legacy, s, prefix, i) ==
         Some(AfterLineEnd(s, Find(s, End(prefix + ".v" + s[p + 2..d]), d + |BEGIN|).value
                              + |End(prefix + ".v" + s[p + 2..d])|))
  {
    hide Find, DigitsEnd;
    d := DigitsEnd(s, i + |prefix| + 2);
  }

  lemma LegacyVersion(s: string, p: nat, d: nat)
    requires OccursAt(s, ".v", p) && p + 2 <= d <= |s|
    ensures ".v" + s[p + 2..d] == s[p..d]
    ensures forall prefix: string :: prefix + ".v" + s[p + 2..d] == prefix + s[p..d]
  {
    assert s[p..p + 2] + s[p + 2..d] == s[p..d];
    forall prefix: string ensures prefix + ".v" + s[p + 2..d] == prefix + s[p..d] {
      assert prefix + ".v" + s[p + 2..d] == prefix + (".v" + s[p + 2..d]);
    }
  }

  /** Only one marker stands at a place. */
  lemma SameMarker(s: string, prefix: string, v: string, word: string, w: string, other: string, i: nat)
    requires |prefix| > 0 && MarkerOn(s, prefix, v, word, i) && MarkerOn(s, prefix, w, other, i)
    ensures v == w && word == other
  {
    hide *;
    MarkerParts(s, prefix, v, word, i);
    MarkerParts(s, prefix, w, other, i);
    MarkerVersion(s, prefix, v, word, i);
    MarkerVersion(s, prefix, w, other, i);
    var p := i + |prefix|;
    VersionReads(s, v, word, p);
    VersionReads(s, w, other, p);
    SameOccurs(s, v, w, p);
  }

  lemma SameOccurs(s: string, v: string, w: string, p: int)
    requires OccursAt(s, v, p) && OccursAt(s, w, p) && |v| == |w|
    ensures v == w
  {
  }

  /** No block starts at an end marker, or with the other pattern's marker. */
  lemma NoBlockAt(pattern: Pattern, s: string, prefix: string, v: string, word: string, i: nat)
    requires |prefix| > 0 && i <= |s| && MarkerOn(s, prefix, v, word, i) && (word == END || pattern != PatternOf(v))
    ensures BlockAt(pattern, s, prefix, i) == None
  {
    hide MarkerOn, BlockAt;
    if BlockAt(pattern, s, prefix, i).Some? {
      var w, e := BlockMeans(pattern, s, prefix, i);
      SameMarker(s, prefix, v, word, w, BEGIN, i);
    }
  }

  /** No block starts where no marker stands. */
  lemma NoBlockUnmarked(pattern: Pattern, s: string, prefix: string, i: nat)
    requires |prefix| > 0 && i <= |s| && !Marks(s, prefix, i)
    ensures BlockAt(pattern, s, prefix, i) == None && MarkerAt(s, prefix, i) == None
  {
    hide MarkerOn, BlockAt;
    MarksIff(s, prefix, i);
    if BlockAt(pattern, s, prefix, i).Some? {
      var w, e := BlockMeans(pattern, s, prefix, i);
    }
  }

  /** A begin marker with a first end marker of its version behind it starts a block. */
  lemma BlockFound(s: string, prefix: string, v: string, i: nat, e: nat)
    requires |prefix| > 0 && MarkerOn(s, prefix, v, BEGIN, i)
    requires Find(s, Marker(prefix, v, END), i + |Marker(prefix, v, BEGIN)|) == Some(e)
    ensures i <= |s| && e + |Marker(prefix, v, END)| <= |s|
    ensures BlockAt(PatternOf(v), s, prefix, i) == Some(AfterLineEnd(s, e + |Marker(prefix, v, END)|))
  {
    hide *;
    MarkerParts(s, prefix, v, BEGIN, i);
    MarkerVersion(s, prefix, v, BEGIN, i);
    VersionReads(s, v, BEGIN, i + |prefix|);
    OccursInside(s, Marker(prefix, v, END), e);
    if v == "" {
      CurrentMarkers(s, prefix, i);
      CurrentFound(s, prefix, i, e);
    } else {
      MarkerLength(prefix, v, BEGIN);
      LegacyFound(s, prefix, v, i, e);
    }
    PatternIs(v);
  }

  lemma PatternIs(v: string)
    ensures PatternOf(v) == if v == "" then Current else Legacy
  {
  }

  lemma MarkerLength(prefix: string, v: string, word: string)
    ensures |Marker(prefix, v, word)| == |prefix| + |v| + |word|
  {
  }

  lemma MarkerVersion(s: string, prefix: string, v: string, word: string, i: int)
    requires MarkerOn(s, prefix, v, word, i)
    ensures IsVersion(v) && (word == BEGIN || word == END)
  {
  }

  lemma CurrentMarkers(s: string, prefix: string, i: int)
    ensures Marker(prefix, "", BEGIN) == Begin(prefix) && Marker(prefix, "", END) == End(prefix)
    ensures MarkerOn(s, prefix, "", BEGIN, i) ==> OccursAt(s, Begin(prefix), i)
  {
    assert prefix + "" == prefix;
  }

  lemma CurrentFound(s: string, prefix: string, i: nat, e: nat)
    requires |prefix| > 0 && OccursAt(s, prefix, i) && OccursAt(s, Begin(prefix), i)
    requires Find(s, End(prefix), i + |Begin(prefix)|) == Some(e) && e + |End(prefix)| <= |s|
    ensures i <= |s| && BlockAt(Current, s, prefix, i) == Some(AfterLineEnd(s, e + |End(prefix)|))
  {
    OccursInside(s, prefix, i);
    hide Find, OccursAt, DigitsEnd, Begin, End;
  }

  lemma LegacyFound(s: string, prefix: string, v: string, i: nat, e: nat)
    requires |prefix| > 0 && v != "" && OccursAt(s, prefix, i) && OccursAt(s, ".v", i + |prefix|)
    requires OccursAt(s, v, i + |prefix|) && DigitsEnd(s, i + |prefix| + 2) == i + |prefix| + |v| > i + |prefix| + 2
    requires OccursAt(s, BEGIN, i + |prefix| + |v|)
    requires Find(s, Marker(prefix, v, END), i + |Marker(prefix, v, BEGIN)|) == Some(e)
    requires e + |Marker(prefix, v, END)| <= |s|
    ensures i <= |s| && BlockAt(Legacy, s, prefix, i) == Some(AfterLineEnd(s, e + |Marker(prefix, v, END)|))
  {
    hide Find, OccursAt, DigitsEnd, End, Marker, AfterLineEnd;
    LegacyEnd(s, prefix, v, i + |prefix|);
    MarkerLength(prefix, v, BEGIN);
    OccursInside(s, v, i + |prefix|);
  }

  /** The end marker looked for carries the version of the begin marker. */
  lemma LegacyEnd(s: string, prefix: string, v: string, p: nat)
    requires OccursAt(s, ".v", p) && OccursAt(s, v, p) && |v| > 2
    ensures p + |v| <= |s| && End(prefix + ".v" + s[p + 2..p + |v|]) == Marker(prefix, v, END)
  {
    LegacyVersion(s, p, p + |v|);
    assert s[p..p + |v|] == v;
  }

  // ----- Places without a marker -----

  lemma MarkerIsProper(prefix: string, v: string, word: string)
    requires Proper(prefix) && IsVersion(v) && (word == BEGIN || word == END)
    ensures ProperWord(Marker(prefix, v, word)) && Marker(prefix, v, word)[0] == '<'
  {
    assert forall i :: 0 <= i < |v| ==> v[i] != '<' && v[i] != '\n';
    assert forall i :: 0 <= i < |BEGIN| ==> BEGIN[i] != '<' && BEGIN[i] != '\n';
    assert forall i :: 0 <= i < |END| ==> END[i] != '<' && END[i] != '\n';
  }

  /** A marker opens with '<'. */
  lemma MarksOpens(s: string, prefix: string, i: nat)
    requires Proper(prefix) && Marks(s, prefix, i)
    ensures i < |s| && s[i] == '<'
  {
    var v, word :| MarkerOn(s, prefix, v, word, i);
    MarkerParts(s, prefix, v, word, i);
    OccursStarts(s, prefix, i);
  }

  /** Inside a marker no other one starts. */
  lemma NoMarksInside(s: string, prefix: string, v: string, word: string, i: nat)
    requires Proper(prefix) && MarkerOn(s, prefix, v, word, i)
    ensures forall k :: i < k < i + |Marker(prefix, v, word)| ==> !Marks(s, prefix, k)
  {
    var w := Marker(prefix, v, word);
    MarkerIsProper(prefix, v, word);
    OccursChars(s, w, i);
    forall k | i < k < i + |w| ensures !Marks(s, prefix, k) {
      assert s[i + (k - i)] == w[k - i];
      if Marks(s, prefix, k) {
        MarksOpens(s, prefix, k);
      }
    }
  }

  /** Nor in the line end behind a block. */
  lemma NoMarksInLineEnd(s: string, prefix: string, i: nat)
    requires Proper(prefix) && i <= |s|
    ensures forall k :: i <= k < AfterLineEnd(s, i) ==> !Marks(s, prefix, k)
  {
    forall k | i <= k < AfterLineEnd(s, i) ensures !Marks(s, prefix, k) {
      if Marks(s, prefix, k) {
        MarksOpens(s, prefix, k);
      }
    }
  }

  /** A text without markers has none either where it stands before nothing or a '<'. */
  lemma NoMarksInPiece(a: string, x: string, b: string, prefix: string)
    requires Proper(prefix) && NoMarker(x, prefix) && (b == "" || b[0] == '<')
    ensures forall k :: |a| <= k < |a| + |x| ==> !Marks(a + x + b, prefix, k)
  {
    var s := a + x + b;
    forall k | |a| <= k < |a| + |x| ensures !Marks(s, prefix, k) {
      forall v, word ensures !MarkerOn(s, prefix, v, word, k) {
        if MarkerOn(s, prefix, v, word, k) {
          NoMarkerInPiece(a, x, b, prefix, v, word, k);
        }
      }
    }
  }

  lemma NoMarkerInPiece(a: string, x: string, b: string, prefix: string, v: string, word: string, k: nat)
    requires Proper(prefix) && MarkerOn(a + x + b, prefix, v, word, k) && |a| <= k < |a| + |x|
    requires b == "" || b[0] == '<'
    ensures Marks(x, prefix, k - |a|)
  {
    hide Proper, IsVersion;
    var s, w := a + x + b, Marker(prefix, v, word);
    MarkerIsProper(prefix, v, word);
    hide Marker;
    WordFits(a, x, b, w, k);
    assert s[k..k + |w|] == x[k - |a|..k - |a| + |w|];
    assert MarkerOn(x, prefix, v, word, k - |a|);
  }

  lemma WordFits(a: string, x: string, b: string, w: string, k: nat)
    requires ProperWord(w) && OccursAt(a + x + b, w, k) && |a| <= k < |a| + |x|
    requires b == "" || b[0] == '<'
    ensures k + |w| <= |a| + |x|
  {
    var s, off := a + x + b, |a| + |x| - k;
    OccursCharAt(s, w, k, off);
    assert b != "" ==> s[k + off] == b[0];
  }

  lemma OccursCharAt(s: string, w: string, i: nat, k: nat)
    requires OccursAt(s, w, i)
    ensures i + |w| <= |s| && (k < |w| ==> s[i + k] == w[k])
  {
    OccursChars(s, w, i);
  }

  /** What has no marker as a part of a text has none by itself. */
  lemma PieceHasNoMarker(s: string, prefix: string, i: nat, j: nat)
    requires Proper(prefix) && i <= j <= |s| && forall k :: i <= k < j ==> !Marks(s, prefix, k)
    ensures NoMarker(s[i..j], prefix)
  {
    hide MarkerOn, Proper;
    forall k, v, word ensures !MarkerOn(s[i..j], prefix, v, word, k) {
      if MarkerOn(s[i..j], prefix, v, word, k) {
        MarkInSlice(s, prefix, i, j, v, word, k);
      }
    }
  }

  lemma MarkInSlice(s: string, prefix: string, i: nat, j: nat, v: string, word: string, k: int)
    requires Proper(prefix) && i <= j <= |s| && MarkerOn(s[i..j], prefix, v, word, k)
    ensures 0 <= k < j - i && Marks(s, prefix, i + k)
  {
    hide OccursAt, IsVersion, Marker;
    MarkerLength(prefix, v, word);
    OccursInSlice(s, i, j, Marker(prefix, v, word), k);
    assert MarkerOn(s, prefix, v, word, i + k);
  }

  lemma ProperHasLength(prefix: string)
    requires Proper(prefix)
    ensures |prefix| > 0
  {
  }

  lemma OccursInSlice(s: string, i: nat, j: nat, w: string, k: int)
    requires i <= j <= |s| && OccursAt(s[i..j], w, k)
    ensures 0 <= k && k + |w| <= j - i && OccursAt(s, w, i + k)
  {
    OccursShift(s[..i], s[i..j], w, i + k);
    OccursWithin(s[..i] + s[i..j], s[j..], w, i + k);
    assert s[..i] + s[i..j] + s[j..] == s;
  }

  // ----- Scanning -----

  lemma {:induction false} Skip(pattern: Pattern, s: string, prefix: string, i: nat, j: nat)
    requires |prefix| > 0 && i <= j <= |s| && forall k :: i <= k < j ==> !Marks(s, prefix, k)
    ensures FindBlocks(pattern, s, prefix, i) == FindBlocks(pattern, s, prefix, j)
    ensures CountMarkers(s, prefix, i) == CountMarkers(s, prefix, j)
    decreases j - i
  {
    hide Marks, BlockAt, MarkerAt;
    if i < j {
      NoBlockUnmarked(pattern, s, prefix, i);
      Skip(pattern, s, prefix, i + 1, j);
    }
  }

  /** What the scans make of a marker at which no block of a pattern starts. */
  lemma PassMarker(pattern: Pattern, s: string, prefix: string, v: string, word: string, i: nat)
    requires Proper(prefix) && |prefix| > 0 && MarkerOn(s, prefix, v, word, i)
    ensures i < i + |Marker(prefix, v, word)| <= |s|
    ensures BlockAt(pattern, s, prefix, i) == None ==>
      FindBlocks(pattern, s, prefix, i) == FindBlocks(pattern, s, prefix, i + |Marker(prefix, v, word)|)
    ensures CountMarkers(s, prefix, i) == 1 + CountMarkers(s, prefix, i + |Marker(prefix, v, word)|)
  {
    hide *;
    var n := |Marker(prefix, v, word)|;
    MarkerLength(prefix, v, word);
    MarkerParts(s, prefix, v, word, i);
    MarkerVersion(s, prefix, v, word, i);
    MarkerFound(s, prefix, v, word, i);
    NoMarksInside(s, prefix, v, word, i);
    StepScans(pattern, s, prefix, i);
    Skip(pattern, s, prefix, i + 1, i + n);
  }

  lemma StepScans(pattern: Pattern, s: string, prefix: string, i: nat)
    requires |prefix| > 0 && i < |s|
    ensures BlockAt(pattern, s, prefix, i) == None ==>
      FindBlocks(pattern, s, prefix, i) == FindBlocks(pattern, s, prefix, i + 1)
    ensures BlockAt(pattern, s, prefix, i).Some? ==>
      var j := BlockAt(pattern, s, prefix, i).value;
      FindBlocks(pattern, s, prefix, i) == [Block(i, j)] + FindBlocks(pattern, s, prefix, j)
    ensures MarkerAt(s, prefix, i).Some? ==>
      CountMarkers(s, prefix, i) == 1 + CountMarkers(s, prefix, MarkerAt(s, prefix, i).value)
  {
    hide BlockAt, MarkerAt;
  }

  // ----- What the scans find in such a file -----

  /** The blocks both patterns find from a place on, in order. */
  function BlocksFrom(s: string, prefix: string, i: nat): seq<Block>
    requires i <= |s| && |prefix| > 0
  {
    Merge(FindBlocks(Current, s, prefix, i), FindBlocks(Legacy, s, prefix, i))
  }

  function Other(pattern: Pattern): Pattern {
    if pattern.Current? then Legacy else Current
  }

  /** One segment as the scans see it: from `from` to its begin marker at m, its end marker at e,
      and behind that. */
  lemma SegmentScans(s: string, prefix: string, v: string, from: nat, m: nat, e: nat)
    requires Proper(prefix) && |prefix| > 0 && from <= m
    requires MarkerOn(s, prefix, v, BEGIN, m) && MarkerOn(s, prefix, v, END, e)
    requires m + |Marker(prefix, v, BEGIN)| <= e && e + |Marker(prefix, v, END)| <= |s|
    requires forall k :: from <= k < m ==> !Marks(s, prefix, k)
    requires forall k :: m + |Marker(prefix, v, BEGIN)| <= k < e ==> !Marks(s, prefix, k)
    ensures var c, to := PatternOf(v), e + |Marker(prefix, v, END)|;
      && FindBlocks(c, s, prefix, from) == [Block(m, AfterLineEnd(s, to))] + FindBlocks(c, s, prefix, to)
      && FindBlocks(Other(c), s, prefix, from) == FindBlocks(Other(c), s, prefix, to)
      && CountMarkers(s, prefix, from) == 2 + CountMarkers(s, prefix, to)
  {
    hide *;
    var c, o, to := PatternOf(v), m + |Marker(prefix, v, BEGIN)|, e + |Marker(prefix, v, END)|;
    OtherIs(c);
    Skip(c, s, prefix, from, m);
    Skip(Other(c), s, prefix, from, m);
    NoBlockAt(Other(c), s, prefix, v, BEGIN, m);
    PassMarker(Other(c), s, prefix, v, BEGIN, m);
    Skip(Other(c), s, prefix, o, e);
    NoBlockAt(Other(c), s, prefix, v, END, e);
    PassMarker(Other(c), s, prefix, v, END, e);
    FirstEnd(s, prefix, v, o, e);
    BlockFound(s, prefix, v, m, e);
    StepScans(c, s, prefix, m);
    NoMarksInLineEnd(s, prefix, to);
    Skip(c, s, prefix, to, AfterLineEnd(s, to));
  }

  lemma OtherIs(c: Pattern)
    ensures Other(c) != c
  {
  }

  /** The end marker that comes first. */
  lemma FirstEnd(s: string, prefix: string, v: string, o: nat, e: nat)
    requires MarkerOn(s, prefix, v, END, e) && o <= e && forall k :: o <= k < e ==> !Marks(s, prefix, k)
    ensures Find(s, Marker(prefix, v, END), o) == Some(e)
  {
    hide OccursAt, IsVersion, Marker, Find, Marks;
    forall k | o <= k < e ensures !OccursAt(s, Marker(prefix, v, END), k) {
      NoEndThere(s, prefix, v, k);
    }
  }

  lemma NoEndThere(s: string, prefix: string, v: string, k: int)
    requires IsVersion(v) && !Marks(s, prefix, k)
    ensures !OccursAt(s, Marker(prefix, v, END), k)
  {
    hide OccursAt, IsVersion, Marker;
    assert !MarkerOn(s, prefix, v, END, k);
  }

  /** A block that comes before all others comes first. */
  lemma MergeFirst(x: Block, a: seq<Block>, b: seq<Block>)
    requires forall y <- a :: x.start < y.start
    requires forall y <- b :: x.start < y.start
    ensures Merge([x] + a, b) == [x] + Merge(a, b) && Merge(a, [x] + b) == [x] + Merge(a, b)
  {
    assert ([x] + a)[1..] == a && ([x] + b)[1..] == b;
    if a == [] {
      assert Merge(a, b) == b;
    } else {
      assert a[0] in a;
    }
    if b == [] {
      assert Merge(a, b) == a;
    } else {
      assert b[0] in b;
    }
  }

  /** So the block of a segment comes first of those from there on. */
  lemma SegmentBlocks(s: string, prefix: string, v: string, from: nat, m: nat, e: nat)
    requires Proper(prefix) && |prefix| > 0 && from <= m
    requires MarkerOn(s, prefix, v, BEGIN, m) && MarkerOn(s, prefix, v, END, e)
    requires m + |Marker(prefix, v, BEGIN)| <= e && e + |Marker(prefix, v, END)| <= |s|
    requires forall k :: from <= k < m ==> !Marks(s, prefix, k)
    requires forall k :: m + |Marker(prefix, v, BEGIN)| <= k < e ==> !Marks(s, prefix, k)
    ensures var to := e + |Marker(prefix, v, END)|;
      && BlocksFrom(s, prefix, from) == [Block(m, AfterLineEnd(s, to))] + BlocksFrom(s, prefix, to)
      && CountMarkers(s, prefix, from) == 2 + CountMarkers(s, prefix, to)
  {
    var to := e + |Marker(prefix, v, END)|;
    MarkerLength(prefix, v, BEGIN);
    SegmentScans(s, prefix, v, from, m, e);
    hide MarkerOn, Marks, Marker, FindBlocks, CountMarkers, Proper, IsVersion, AfterLineEnd, Merge;
    var a, b := FindBlocks(Current, s, prefix, to), FindBlocks(Legacy, s, prefix, to);
    StartsLater(Current, s, prefix, to, m);
    StartsLater(Legacy, s, prefix, to, m);
    MergeFirst(Block(m, AfterLineEnd(s, to)), a, b);
  }

  lemma StartsLater(pattern: Pattern, s: string, prefix: string, i: nat, m: nat)
    requires |prefix| > 0 && m < i <= |s|
    ensures forall y <- FindBlocks(pattern, s, prefix, i) :: m < y.start
  {
    hide FindBlocks;
  }

  /** The blocks of a file that is spelled out, from an offset on. */
  function BlocksOfText(prefix: string, offset: nat, segments: seq<Segment>, tail: string): (blocks: seq<Block>)
    ensures |blocks| == |segments|
    decreases |segments|
  {
    if segments == [] then []
    else
      var x, rest := segments[0], TextOf(prefix, segments[1..], tail);
      var start := offset + |x.before|;
      var to := start + |Marker(prefix, x.version, BEGIN)| + |x.body| + |Marker(prefix, x.version, END)|;
      [Block(start, to + AfterLineEnd(rest, 0))] + BlocksOfText(prefix, to, segments[1..], tail)
  }

  lemma AfterLineEndShifts(a: string, b: string)
    ensures AfterLineEnd(a + b, |a|) == |a| + AfterLineEnd(b, 0)
  {
  }

  /** Where the parts of the first segment stand. */
  lemma FirstSegment(prefix: string, a: string, x: Segment, rest: string)
    requires Proper(prefix) && IsVersion(x.version) && NoMarker(x.before, prefix) && NoMarker(x.body, prefix)
    ensures var begin, end := Marker(prefix, x.version, BEGIN), Marker(prefix, x.version, END);
      var s, m := a + (x.before + begin + x.body + end + rest), |a| + |x.before|;
      var e := m + |begin| + |x.body|;
      && MarkerOn(s, prefix, x.version, BEGIN, m) && MarkerOn(s, prefix, x.version, END, e)
      && e + |end| <= |s| && s[..e + |end|] == a + (x.before + begin + x.body + end) && s[e + |end|..] == rest
      && (forall k :: |a| <= k < m ==> !Marks(s, prefix, k))
      && forall k :: m + |begin| <= k < e ==> !Marks(s, prefix, k)
  {
    hide *;
    var begin, end := Marker(prefix, x.version, BEGIN), Marker(prefix, x.version, END);
    MarkerOpens(prefix, x.version, BEGIN);
    MarkerOpens(prefix, x.version, END);
    var s := a + (x.before + begin + x.body + end + rest);
    PiecesRegrouped(a, x.before, begin, x.body, end, rest);
    NoMarksInPiece(a, x.before, begin + x.body + end + rest, prefix);
    NoMarksInPiece(a + x.before + begin, x.body, end + rest, prefix);
    OccursBetween(a + x.before, begin, x.body + end + rest);
    OccursBetween(a + x.before + begin + x.body, end, rest);
    MarkerOnIs(s, prefix, x.version, BEGIN, |a| + |x.before|);
    MarkerOnIs(s, prefix, x.version, END, |a| + |x.before| + |begin| + |x.body|);
  }

  lemma MarkerOpens(prefix: string, v: string, word: string)
    requires Proper(prefix) && IsVersion(v) && (word == BEGIN || word == END)
    ensures |Marker(prefix, v, word)| > 0 && Marker(prefix, v, word)[0] == '<'
  {
    hide IsVersion;
  }

  lemma PiecesRegrouped(a: string, x: string, begin: string, body: string, end: string, rest: string)
    ensures var s := a + (x + begin + body + end + rest);
      && s == a + x + (begin + body + end + rest)
      && s == (a + x + begin) + body + (end + rest)
      && s == (a + x) + begin + (body + end + rest)
      && s == (a + x + begin + body) + end + rest
      && s[..|a| + |x| + |begin| + |body| + |end|] == a + (x + begin + body + end)
      && s[|a| + |x| + |begin| + |body| + |end|..] == rest
  {
  }

  lemma OccursBetween(a: string, w: string, b: string)
    ensures OccursAt(a + w + b, w, |a|)
  {
    assert (a + w + b)[|a|..|a| + |w|] == w;
  }

  /** MAIN: in a file that is spelled out like this, the blocks found are its own, and the markers
      are theirs. */
  lemma {:induction false} TextScans(prefix: string, a: string, segments: seq<Segment>, tail: string)
    requires Proper(prefix) && |prefix| > 0 && WellFormed(prefix, segments, tail)
    ensures var s := a + TextOf(prefix, segments, tail);
      && BlocksFrom(s, prefix, |a|) == BlocksOfText(prefix, |a|, segments, tail)
      && CountMarkers(s, prefix, |a|) == 2 * |segments|
    decreases |segments|
  {
    hide *;
    if segments == [] {
      TextOfNothing(prefix, |a|, tail);
      TailScans(prefix, a, tail);
    } else {
      var done, rest := Through(prefix, a, segments[0]), TextOf(prefix, segments[1..], tail);
      WellFormedRest(prefix, segments, tail);
      FirstScans(prefix, a, segments, tail);
      TextScans(prefix, done, segments[1..], tail);
      BlocksOfTextStep(prefix, |a|, segments, tail);
      ThroughLength(prefix, a, segments[0]);
      AfterLineEndShifts(done, rest);
    }
  }

  /** The text up to the end of a segment. */
  function Through(prefix: string, a: string, x: Segment): string {
    a + (x.before + Marker(prefix, x.version, BEGIN) + x.body + Marker(prefix, x.version, END))
  }

  lemma ThroughLength(prefix: string, a: string, x: Segment)
    ensures |Through(prefix, a, x)| ==
      |a| + |x.before| + |Marker(prefix, x.version, BEGIN)| + |x.body| + |Marker(prefix, x.version, END)|
  {
    hide Marker;
  }

  lemma TextOfNothing(prefix: string, offset: nat, tail: string)
    ensures TextOf(prefix, [], tail) == tail && BlocksOfText(prefix, offset, [], tail) == []
    ensures forall segments :: WellFormed(prefix, segments, tail) ==> NoMarker(tail, prefix)
  {
    hide NoMarker;
  }

  lemma WellFormedRest(prefix: string, segments: seq<Segment>, tail: string)
    requires WellFormed(prefix, segments, tail) && segments != []
    ensures var x := segments[0]; IsVersion(x.version) && NoMarker(x.before, prefix) && NoMarker(x.body, prefix)
    ensures WellFormed(prefix, segments[1..], tail)
  {
    hide NoMarker, IsVersion;
    assert segments[0] in segments && forall y <- segments[1..] :: y in segments;
  }

  lemma BlocksOfTextStep(prefix: string, offset: nat, segments: seq<Segment>, tail: string)
    requires segments != []
    ensures var x, rest := segments[0], TextOf(prefix, segments[1..], tail);
      var start := offset + |x.before|;
      var to := start + |Marker(prefix, x.version, BEGIN)| + |x.body| + |Marker(prefix, x.version, END)|;
      BlocksOfText(prefix, offset, segments, tail) ==
        [Block(start, to + AfterLineEnd(rest, 0))] + BlocksOfText(prefix, to, segments[1..], tail)
  {
    hide Marker, AfterLineEnd;
  }

  lemma FirstScans(prefix: string, a: string, segments: seq<Segment>, tail: string)
    requires Proper(prefix) && |prefix| > 0 && WellFormed(prefix, segments, tail) && segments != []
    ensures var s, done := a + TextOf(prefix, segments, tail), Through(prefix, a, segments[0]);
      && s == done + TextOf(prefix, segments[1..], tail)
      && BlocksFrom(s, prefix, |a|) ==
         [Block(|a| + |segments[0].before|, AfterLineEnd(s, |done|))] + BlocksFrom(s, prefix, |done|)
      && CountMarkers(s, prefix, |a|) == 2 + CountMarkers(s, prefix, |done|)
  {
    hide *;
    var x, rest := segments[0], TextOf(prefix, segments[1..], tail);
    var begin, end := Marker(prefix, x.version, BEGIN), Marker(prefix, x.version, END);
    var m := |a| + |x.before|;
    WellFormedRest(prefix, segments, tail);
    TextOfStep(prefix, a, segments, tail);
    FirstSegment(prefix, a, x, rest);
    ThroughLength(prefix, a, x);
    SegmentBlocks(a + (x.before + begin + x.body + end + rest), prefix, x.version, |a|, m, m + |begin| + |x.body|);
  }

  lemma TextOfStep(prefix: string, a: string, segments: seq<Segment>, tail: string)
    requires segments != []
    ensures var x, rest := segments[0], TextOf(prefix, segments[1..], tail);
      var begin, end := Marker(prefix, x.version, BEGIN), Marker(prefix, x.version, END);
      && a + TextOf(prefix, segments, tail) == a + (x.before + begin + x.body + end + rest)
      && a + TextOf(prefix, segments, tail) == Through(prefix, a, x) + rest
  {
    hide Marker;
    var x, rest := segments[0], TextOf(prefix, segments[1..], tail);
    Regroup(a, x.before + Marker(prefix, x.version, BEGIN) + x.body + Marker(prefix, x.version, END), rest);
  }

  lemma TailScans(prefix: string, a: string, tail: string)
    requires Proper(prefix) && |prefix| > 0 && NoMarker(tail, prefix)
    ensures BlocksFrom(a + tail, prefix, |a|) == [] && CountMarkers(a + tail, prefix, |a|) == 0
  {
    var s := a + tail;
    assert a + tail + "" == s;
    NoMarksInPiece(a, tail, "", prefix);
    NoMarksAtEnd(s, prefix);
    hide Marks, Proper;
    Skip(Current, s, prefix, |a|, |s|);
    Skip(Legacy, s, prefix, |a|, |s|);
    NoBlockUnmarked(Current, s, prefix, |s|);
    NoBlockUnmarked(Legacy, s, prefix, |s|);
  }

  lemma NoMarksAtEnd(s: string, prefix: string)
    requires |prefix| > 0
    ensures !Marks(s, prefix, |s|)
  {
    forall v, word ensures !MarkerOn(s, prefix, v, word, |s|) {
      MarkerLength(prefix, v, word);
    }
  }

  // ----- Such a file is rewritten -----

  ghost predicate Spelled(s: string, prefix: string, segments: seq<Segment>, tail: string) {
    WellFormed(prefix, segments, tail) && s == TextOf(prefix, segments, tail)
  }

  /** The line end behind a block belongs to the text before the next marker. */
  lemma LineEndBefore(before: string, t: string)
    requires t != "" && t[0] == '<'
    ensures AfterLineEnd(before + t, 0) == AfterLineEnd(before, 0) <= |before|
  {
    assert (before + t)[|before|] == '<';
  }

  lemma TextStarts(prefix: string, segments: seq<Segment>, tail: string)
    requires Proper(prefix) && WellFormed(prefix, segments, tail) && segments != []
    ensures AfterLineEnd(TextOf(prefix, segments, tail), 0) == AfterLineEnd(segments[0].before, 0)
    ensures AfterLineEnd(segments[0].before, 0) <= |segments[0].before|
    ensures |segments[0].before| <= |TextOf(prefix, segments, tail)|
    ensures TextOf(prefix, segments, tail)[..|segments[0].before|] == segments[0].before
  {
    hide Proper, WellFormed, AfterLineEnd, Marker, TextOf;
    var x, rest := segments[0], TextOf(prefix, segments[1..], tail);
    WellFormedRest(prefix, segments, tail);
    MarkerIsProper(prefix, x.version, BEGIN);
    TextSplits(prefix, segments, tail);
    var t := Marker(prefix, x.version, BEGIN) + x.body + Marker(prefix, x.version, END) + rest;
    assert t[0] == Marker(prefix, x.version, BEGIN)[0];
    LineEndBefore(x.before, t);
  }

  lemma TextSplits(prefix: string, segments: seq<Segment>, tail: string)
    requires segments != []
    ensures var x, rest := segments[0], TextOf(prefix, segments[1..], tail);
      TextOf(prefix, segments, tail) ==
      x.before + (Marker(prefix, x.version, BEGIN) + x.body + Marker(prefix, x.version, END) + rest)
  {
    hide Marker;
  }

  lemma {:induction false} BlocksApart(prefix: string, offset: nat, segments: seq<Segment>, tail: string)
    requires Proper(prefix) && WellFormed(prefix, segments, tail)
    ensures !Overlap(BlocksOfText(prefix, offset, segments, tail))
    decreases |segments|
  {
    hide *;
    if |segments| < 2 {
      FewApart(BlocksOfText(prefix, offset, segments, tail));
    } else {
      var x := segments[0];
      var to := offset + |x.before| + |Marker(prefix, x.version, BEGIN)| + |x.body| + |Marker(prefix, x.version, END)|;
      WellFormedRest(prefix, segments, tail);
      BlocksApart(prefix, to, segments[1..], tail);
      BlocksOfTextStep(prefix, offset, segments, tail);
      BlocksOfTextStep(prefix, to, segments[1..], tail);
      TextStarts(prefix, segments[1..], tail);
      StaysApart(BlocksOfText(prefix, offset, segments, tail)[0], BlocksOfText(prefix, to, segments[1..], tail));
    }
  }

  lemma FewApart(blocks: seq<Block>)
    requires |blocks| < 2
    ensures !Overlap(blocks)
  {
  }

  lemma StaysApart(x: Block, blocks: seq<Block>)
    requires blocks != [] && x.end <= blocks[0].start
    ensures Overlap([x] + blocks) <==> Overlap(blocks)
  {
    var all := [x] + blocks;
    assert forall k :: 0 <= k < |blocks| ==> all[k + 1] == blocks[k];
    if Overlap(blocks) {
      var k :| 0 <= k < |blocks| - 1 && blocks[k].end > blocks[k + 1].start;
      assert all[k + 1].end > all[k + 2].start;
    }
    if Overlap(all) {
      var k :| 0 <= k < |all| - 1 && all[k].end > all[k + 1].start;
      assert k > 0 && blocks[k - 1].end > blocks[k].start;
    }
  }

  /** What is kept behind the blocks of such a file. */
  lemma {:induction false} KeptIs(prefix: string, a: string, segments: seq<Segment>, tail: string,
                                  blocks: seq<Block>, k: nat)
    requires Proper(prefix) && WellFormed(prefix, segments, tail) && segments != [] && k < |blocks|
    requires blocks[k..] == BlocksOfText(prefix, |a|, segments, tail) && !Overlap(blocks)
    requires BlocksOf(blocks, a + TextOf(prefix, segments, tail))
    ensures KeptBehind(a + TextOf(prefix, segments, tail), blocks, k) == KeptText(segments[1..], tail)
    decreases |segments|
  {
    hide *;
    var s, x, more := a + TextOf(prefix, segments, tail), segments[0], segments[1..];
    var done := Through(prefix, a, x);
    WellFormedRest(prefix, segments, tail);
    TextOfStep(prefix, a, segments, tail);
    BlocksOfTextStep(prefix, |a|, segments, tail);
    ThroughLength(prefix, a, x);
    assert blocks[k] == blocks[k..][0] && blocks[k..][1..] == blocks[k + 1..];
    if more == [] {
      TextOfNothing(prefix, |done|, tail);
      assert |blocks| == k + 1;
      KeptLast(s, blocks, k);
      AfterLineEndShifts(done, tail);
      DropBehind(done, tail);
      KeptTextIs(more, tail);
    } else {
      BlocksOfTextStep(prefix, |done|, more, tail);
      assert blocks[k + 1] == blocks[k + 1..][0];
      KeptStep(s, blocks, k);
      KeptIs(prefix, done, more, tail, blocks, k + 1);
      TextStarts(prefix, more, tail);
      AfterLineEndShifts(done, TextOf(prefix, more, tail));
      DropBetween(done, TextOf(prefix, more, tail), |more[0].before|);
      KeptTextIs(more, tail);
    }
  }

  lemma KeptLast(s: string, blocks: seq<Block>, k: nat)
    requires !Overlap(blocks) && BlocksOf(blocks, s) && k == |blocks| - 1
    ensures blocks[k].end <= |s| && KeptBehind(s, blocks, k) == KeepUnlessBlank(s[blocks[k].end..])
  {
    hide KeepUnlessBlank, Overlap;
  }

  lemma KeptTextIs(segments: seq<Segment>, tail: string)
    ensures KeptText(segments, tail) ==
      if segments == [] then KeepUnlessBlank(DropLineEnd(tail))
      else KeepUnlessBlank(DropLineEnd(segments[0].before)) + KeptText(segments[1..], tail)
  {
    hide KeepUnlessBlank, DropLineEnd;
  }

  lemma DropLineEndIs(s: string)
    ensures DropLineEnd(s) == s[AfterLineEnd(s, 0)..]
  {
    if |s| > 1 {
      assert s[..2] == [s[0], s[1]];
    }
  }

  lemma DropBehind(a: string, b: string)
    ensures (a + b)[|a| + AfterLineEnd(b, 0)..] == DropLineEnd(b)
  {
    DropLineEndIs(b);
    hide AfterLineEnd, DropLineEnd;
  }

  lemma DropBetween(a: string, b: string, n: nat)
    requires n <= |b| && AfterLineEnd(b, 0) == AfterLineEnd(b[..n], 0) <= n
    ensures (a + b)[|a| + AfterLineEnd(b, 0)..|a| + n] == DropLineEnd(b[..n])
  {
    DropLineEndIs(b[..n]);
    hide AfterLineEnd, DropLineEnd;
  }

  lemma BlocksAreFrom(s: string, prefix: string)
    requires |prefix| > 0
    ensures Blocks(s, prefix) == BlocksFrom(s, prefix, 0) && BlocksOf(Blocks(s, prefix), s)
  {
    hide FindBlocks, Merge;
  }

  /** MAIN: a file that is spelled out like this is rewritten: the rendering stands where the first
      block was, after the text before it, and before what is not blank of the texts behind the
      blocks. Without a block it is added at the end. */
  lemma SpelledIsRewritten(s: string, prefix: string, segments: seq<Segment>, tail: string, rendered: string)
    requires Proper(prefix) && |prefix| > 0 && Spelled(s, prefix, segments, tail)
    ensures Updated(Some(s), rendered, prefix) == Some(
      if segments == [] then
        s + (if s == "" then "" else if s[|s| - 1] == '\n' then "\n" else "\n\n") + rendered
      else segments[0].before + rendered + KeptText(segments[1..], tail))
  {
    hide *;
    SpelledIs(s, prefix, segments, tail);
    TextScans(prefix, "", segments, tail);
    assert "" + TextOf(prefix, segments, tail) == s;
    BlocksAreFrom(s, prefix);
    BlocksApart(prefix, 0, segments, tail);
    if segments == [] {
      TextOfNothing(prefix, 0, tail);
      NoBlocksUpdated(s, prefix, rendered);
    } else {
      var blocks := Blocks(s, prefix);
      KeptIs(prefix, "", segments, tail, blocks, 0);
      BlocksOfTextStep(prefix, 0, segments, tail);
      TextStarts(prefix, segments, tail);
      BlocksUpdated(s, prefix, rendered);
    }
  }

  lemma SpelledIs(s: string, prefix: string, segments: seq<Segment>, tail: string)
    ensures Spelled(s, prefix, segments, tail) <==>
      WellFormed(prefix, segments, tail) && s == TextOf(prefix, segments, tail)
  {
    hide WellFormed, TextOf;
  }

  lemma NoBlocksUpdated(s: string, prefix: string, rendered: string)
    requires |prefix| > 0 && CountMarkers(s, prefix, 0) == 0 && Blocks(s, prefix) == []
    ensures Updated(Some(s), rendered, prefix) ==
      Some(s + (if s == "" then "" else if s[|s| - 1] == '\n' then "\n" else "\n\n") + rendered)
  {
    hide Blocks, CountMarkers;
    FewApart([]);
    var around := Surround(Some(s), prefix).value;
    assert around.before + rendered + "" == around.before + rendered;
  }

  lemma BlocksUpdated(s: string, prefix: string, rendered: string)
    requires |prefix| > 0 && Blocks(s, prefix) != [] && CountMarkers(s, prefix, 0) == 2 * |Blocks(s, prefix)|
    requires !Overlap(Blocks(s, prefix))
    ensures BlocksOf(Blocks(s, prefix), s) && Blocks(s, prefix)[0].start <= |s|
    ensures Updated(Some(s), rendered, prefix) ==
      Some(s[..Blocks(s, prefix)[0].start] + rendered + KeptBehind(s, Blocks(s, prefix), 0))
  {
    hide CountMarkers, KeptBehind, Overlap;
  }

  // ----- And no other -----

  /** From one place to a later one that is not inside a marker the count only falls, and by nothing
      where no marker stands between. */
  lemma {:induction false} CountFalls(s: string, prefix: string, i: nat, j: nat)
    requires Proper(prefix) && |prefix| > 0 && i <= j <= |s|
    requires forall v, word, k: nat :: k < j && MarkerOn(s, prefix, v, word, k) ==> k + |Marker(prefix, v, word)| <= j
    ensures CountMarkers(s, prefix, i) >= CountMarkers(s, prefix, j)
    ensures CountMarkers(s, prefix, i) == CountMarkers(s, prefix, j) ==> forall k :: i <= k < j ==> !Marks(s, prefix, k)
    decreases j - i
  {
    hide MarkerOn, Marker, Proper, Marks, MarkerAt;
    if i < j {
      MarksIff(s, prefix, i);
      if MarkerAt(s, prefix, i).Some? {
        var v, word := FoundIsMarker(s, prefix, i);
        CountFalls(s, prefix, i + |Marker(prefix, v, word)|, j);
      } else {
        CountFalls(s, prefix, i + 1, j);
      }
    }
  }

  /** The count falls from before a marker to where it starts. */
  lemma CountToMarker(s: string, prefix: string, v: string, word: string, i: nat, j: nat)
    requires Proper(prefix) && |prefix| > 0 && i <= j <= |s| && MarkerOn(s, prefix, v, word, j)
    ensures CountMarkers(s, prefix, i) >= CountMarkers(s, prefix, j)
    ensures CountMarkers(s, prefix, i) == CountMarkers(s, prefix, j) ==> forall k :: i <= k < j ==> !Marks(s, prefix, k)
  {
    hide *;
    forall w, other, k: nat | k < j && MarkerOn(s, prefix, w, other, k) ensures k + |Marker(prefix, w, other)| <= j {
      MarkersApart(s, prefix, v, word, j, w, other, k);
    }
    CountFalls(s, prefix, i, j);
  }

  lemma MarkersApart(s: string, prefix: string, v: string, word: string, j: nat, w: string, other: string, k: nat)
    requires Proper(prefix) && MarkerOn(s, prefix, v, word, j) && MarkerOn(s, prefix, w, other, k) && k < j
    ensures k + |Marker(prefix, w, other)| <= j
  {
    hide MarkerOn, Marker, Proper;
    NoMarksInside(s, prefix, w, other, k);
    assert Marks(s, prefix, j);
  }

  /** The count falls to nothing at the end. */
  lemma CountToEnd(s: string, prefix: string, i: nat)
    requires Proper(prefix) && |prefix| > 0 && i <= |s|
    ensures CountMarkers(s, prefix, i) == 0 ==> NoMarker(s[i..], prefix)
  {
    hide *;
    forall w, other, k: nat | k < |s| && MarkerOn(s, prefix, w, other, k)
      ensures k + |Marker(prefix, w, other)| <= |s|
    {
      MarkerParts(s, prefix, w, other, k);
      MarkerLength(prefix, w, other);
    }
    CountFalls(s, prefix, i, |s|);
    CountAtEnd(s, prefix);
    if CountMarkers(s, prefix, i) == 0 {
      PieceHasNoMarker(s, prefix, i, |s|);
      assert s[i..|s|] == s[i..];
    }
  }

  lemma CountAtEnd(s: string, prefix: string)
    requires |prefix| > 0
    ensures CountMarkers(s, prefix, |s|) == 0
  {
    NoMarksAtEnd(s, prefix);
    NoBlockUnmarked(Current, s, prefix, |s|);
    hide MarkerAt, Marks;
  }

  /** The first block of a pattern, and what is found behind it. */
  lemma {:induction false} FirstFound(pattern: Pattern, s: string, prefix: string, i: nat)
    requires |prefix| > 0 && i <= |s| && FindBlocks(pattern, s, prefix, i) != []
    ensures var blocks := FindBlocks(pattern, s, prefix, i);
      var x := blocks[0];
      && i <= x.start < x.end <= |s| && BlockAt(pattern, s, prefix, x.start) == Some(x.end)
      && blocks == [x] + FindBlocks(pattern, s, prefix, x.end)
    decreases |s| - i
  {
    hide BlockAt;
    if BlockAt(pattern, s, prefix, i).None? {
      FirstFound(pattern, s, prefix, i + 1);
    }
  }

  /** Where a later place is not behind the first block, the same blocks are found from there. */
  lemma {:induction false} FoundLater(pattern: Pattern, s: string, prefix: string, i: nat, j: nat)
    requires |prefix| > 0 && i <= j <= |s|
    requires var blocks := FindBlocks(pattern, s, prefix, i); blocks == [] || blocks[0].start >= j
    ensures FindBlocks(pattern, s, prefix, i) == FindBlocks(pattern, s, prefix, j)
    decreases j - i
  {
    hide BlockAt;
    if i < j {
      FoundLater(pattern, s, prefix, i + 1, j);
    }
  }

  /** Which list the first of two merged lists comes from, and that the other starts no earlier than
      the next. */
  lemma MergeHead(a: seq<Block>, b: seq<Block>) returns (first: bool)
    requires Merge(a, b) != []
    ensures first ==> a != [] && Merge(a, b) == [a[0]] + Merge(a[1..], b)
    ensures !first ==> b != [] && Merge(a, b) == [b[0]] + Merge(a, b[1..])
    ensures var other, rest := if first then b else a, Merge(a, b)[1..];
      other != [] ==> rest != [] && rest[0].start <= other[0].start
  {
    first := a != [] && (b == [] || a[0].start <= b[0].start);
    if first {
      assert a == [a[0]] + a[1..];
      MergeStarts(a[1..], b);
    } else {
      assert b == [b[0]] + b[1..];
      MergeStarts(a, b[1..]);
    }
  }

  lemma MergeStarts(a: seq<Block>, b: seq<Block>)
    ensures var c := Merge(a, b);
      && (a != [] ==> c != [] && c[0].start <= a[0].start)
      && (b != [] ==> c != [] && c[0].start <= b[0].start)
  {
  }

  lemma OverlapTail(blocks: seq<Block>)
    requires blocks != [] && !Overlap(blocks)
    ensures !Overlap(blocks[1..])
    ensures |blocks| > 1 ==> blocks[0].end <= blocks[1].start
  {
    forall k | 0 <= k < |blocks[1..]| - 1 ensures blocks[1..][k].end <= blocks[1..][k + 1].start {
      assert blocks[1..][k] == blocks[k + 1] && blocks[1..][k + 1] == blocks[k + 2];
    }
  }

  /** Where no blocks overlap, the first is one of a pattern, and the others are those found behind it. */
  lemma FirstOfBoth(s: string, prefix: string, i: nat) returns (c: Pattern)
    requires |prefix| > 0 && i <= |s| && BlocksFrom(s, prefix, i) != [] && !Overlap(BlocksFrom(s, prefix, i))
    ensures var x := BlocksFrom(s, prefix, i)[0];
      && i <= x.start < x.end <= |s| && BlockAt(c, s, prefix, x.start) == Some(x.end)
      && BlocksFrom(s, prefix, i) == [x] + BlocksFrom(s, prefix, x.end)
      && !Overlap(BlocksFrom(s, prefix, x.end))
  {
    hide FindBlocks, Merge, BlockAt, Overlap;
    var a, b := FindBlocks(Current, s, prefix, i), FindBlocks(Legacy, s, prefix, i);
    var blocks := Merge(a, b);
    var first := MergeHead(a, b);
    c := if first then Current else Legacy;
    OverlapTail(blocks);
    FirstFound(c, s, prefix, i);
    FoundLater(if first then Legacy else Current, s, prefix, i, blocks[0].end);
    assert blocks[1..] == BlocksFrom(s, prefix, blocks[0].end);
  }

  /** A file whose blocks do not overlap has two markers for each of them at least, and is spelled out
      like this if it has no more. */
  lemma {:induction false} Decompose(s: string, prefix: string, i: nat) returns (segments: seq<Segment>, tail: string)
    requires Proper(prefix) && |prefix| > 0 && i <= |s| && !Overlap(BlocksFrom(s, prefix, i))
    ensures CountMarkers(s, prefix, i) >= 2 * |BlocksFrom(s, prefix, i)|
    ensures CountMarkers(s, prefix, i) == 2 * |BlocksFrom(s, prefix, i)| ==> Spelled(s[i..], prefix, segments, tail)
    decreases |s| - i
  {
    hide *;
    if BlocksFrom(s, prefix, i) == [] {
      segments, tail := [], s[i..];
      CountToEnd(s, prefix, i);
      SpelledNothing(s[i..], prefix);
    } else {
      var c := FirstOfBoth(s, prefix, i);
      var m := BlocksFrom(s, prefix, i)[0].start;
      var v, e := BlockMeans(c, s, prefix, m);
      var o, to := m + |Marker(prefix, v, BEGIN)|, e + |Marker(prefix, v, END)|;
      MarkerLength(prefix, v, BEGIN);
      MarkerLength(prefix, v, END);
      LineEndScans(s, prefix, to);
      segments, tail := Decompose(s, prefix, to);
      CountToMarker(s, prefix, v, BEGIN, i, m);
      PassMarker(c, s, prefix, v, BEGIN, m);
      CountToMarker(s, prefix, v, END, o, e);
      PassMarker(c, s, prefix, v, END, e);
      if CountMarkers(s, prefix, i) == 2 * |BlocksFrom(s, prefix, i)| {
        PieceHasNoMarker(s, prefix, i, m);
        PieceHasNoMarker(s, prefix, o, e);
        SpelledStep(s, prefix, v, i, m, e, segments, tail);
      }
      segments := [Segment(s[i..m], v, s[o..e])] + segments;
    }
  }

  lemma LineEndScans(s: string, prefix: string, to: nat)
    requires Proper(prefix) && |prefix| > 0 && to <= |s|
    ensures BlocksFrom(s, prefix, AfterLineEnd(s, to)) == BlocksFrom(s, prefix, to)
  {
    NoMarksInLineEnd(s, prefix, to);
    Skip(Current, s, prefix, to, AfterLineEnd(s, to));
    Skip(Legacy, s, prefix, to, AfterLineEnd(s, to));
    hide AfterLineEnd, FindBlocks, Merge;
  }

  lemma SpelledNothing(tail: string, prefix: string)
    ensures NoMarker(tail, prefix) ==> Spelled(tail, prefix, [], tail)
  {
    hide NoMarker;
  }

  lemma SpelledStep(s: string, prefix: string, v: string, i: nat, m: nat, e: nat,
                    segments: seq<Segment>, tail: string)
    requires i <= m && MarkerOn(s, prefix, v, BEGIN, m) && MarkerOn(s, prefix, v, END, e)
    requires m + |Marker(prefix, v, BEGIN)| <= e && e + |Marker(prefix, v, END)| <= |s|
    requires NoMarker(s[i..m], prefix) && NoMarker(s[m + |Marker(prefix, v, BEGIN)|..e], prefix)
    requires Spelled(s[e + |Marker(prefix, v, END)|..], prefix, segments, tail)
    ensures Spelled(s[i..], prefix,
                    [Segment(s[i..m], v, s[m + |Marker(prefix, v, BEGIN)|..e])] + segments, tail)
  {
    hide *;
    var begin, end := Marker(prefix, v, BEGIN), Marker(prefix, v, END);
    var x := Segment(s[i..m], v, s[m + |begin|..e]);
    MarkerVersion(s, prefix, v, BEGIN, m);
    MarkerIs(s, prefix, v, BEGIN, m);
    MarkerIs(s, prefix, v, END, e);
    SpelledIs(s[e + |end|..], prefix, segments, tail);
    SpelledIs(s[i..], prefix, [x] + segments, tail);
    assert ([x] + segments)[1..] == segments;
    TextSplits(prefix, [x] + segments, tail);
    FiveSlices(s, i, m, m + |begin|, e, e + |end|);
    WellFormedMore(prefix, x, segments, tail);
  }

  lemma MarkerIs(s: string, prefix: string, v: string, word: string, i: int)
    requires MarkerOn(s, prefix, v, word, i)
    ensures 0 <= i && i + |Marker(prefix, v, word)| <= |s|
    ensures s[i..i + |Marker(prefix, v, word)|] == Marker(prefix, v, word)
  {
    hide Marker, IsVersion;
  }

  lemma FiveSlices(s: string, i: nat, m: nat, o: nat, e: nat, to: nat)
    requires i <= m <= o <= e <= to <= |s|
    ensures s[i..] == s[i..m] + (s[m..o] + s[o..e] + s[e..to] + s[to..])
  {
    assert s[m..o] + s[o..e] == s[m..e];
    assert s[m..e] + s[e..to] == s[m..to];
    assert s[m..to] + s[to..] == s[m..];
    assert s[i..m] + s[m..] == s[i..];
  }

  lemma WellFormedMore(prefix: string, x: Segment, segments: seq<Segment>, tail: string)
    requires IsVersion(x.version) && NoMarker(x.before, prefix) && NoMarker(x.body, prefix)
    requires WellFormed(prefix, segments, tail)
    ensures WellFormed(prefix, [x] + segments, tail)
  {
    hide NoMarker, IsVersion;
  }

  /** MAIN: a file is rewritten exactly if it is spelled out like this: if its markers come in pairs of
      a begin and an end of one version, with no marker inside or outside of the pairs. */
  lemma RewritableIff(s: string, rendered: string, prefix: string)
    requires Proper(prefix) && |prefix| > 0
    ensures Updated(Some(s), rendered, prefix).Some? <==>
      exists segments, tail :: Spelled(s, prefix, segments, tail)
  {
    hide *;
    if segments, tail :| Spelled(s, prefix, segments, tail) {
      SpelledIsRewritten(s, prefix, segments, tail, rendered);
    }
    if Updated(Some(s), rendered, prefix).Some? {
      UpdatedMeans(s, rendered, prefix);
      BlocksAreFrom(s, prefix);
      var segments, tail := Decompose(s, prefix, 0);
      assert s[0..] == s;
      assert Spelled(s, prefix, segments, tail);
    }
  }

  lemma UpdatedMeans(s: string, rendered: string, prefix: string)
    requires |prefix| > 0 && Updated(Some(s), rendered, prefix).Some?
    ensures !Overlap(Blocks(s, prefix)) && CountMarkers(s, prefix, 0) == 2 * |Blocks(s, prefix)|
  {
    hide Overlap, Blocks, CountMarkers, KeptBehind;
  }

  // ----- Pairs of markers -----

  /** The marker at i has its partner: behind a begin marker, or before an end marker, the next one is
      of the other kind and the same version. */
  ghost predicate HasPartner(s: string, prefix: string, v: string, word: string, i: nat) {
    if word == BEGIN then exists e :: Pair(s, prefix, v, i, e) else exists b :: Pair(s, prefix, v, b, i)
  }

  ghost predicate Pair(s: string, prefix: string, v: string, b: int, e: int) {
    && MarkerOn(s, prefix, v, BEGIN, b) && MarkerOn(s, prefix, v, END, e) && b < e
    && forall k :: b < k < e ==> !Marks(s, prefix, k)
  }

  lemma {:induction false} MarkersHavePartners(prefix: string, a: string, segments: seq<Segment>, tail: string,
                                               v: string, word: string, i: nat)
    requires Proper(prefix) && |prefix| > 0 && WellFormed(prefix, segments, tail) && i >= |a|
    requires MarkerOn(a + TextOf(prefix, segments, tail), prefix, v, word, i)
    ensures HasPartner(a + TextOf(prefix, segments, tail), prefix, v, word, i)
    decreases |segments|
  {
    hide *;
    var s := a + TextOf(prefix, segments, tail);
    if segments == [] {
      TextOfNothing(prefix, 0, tail);
      NoMarkerInTail(a, tail, prefix, v, word, i);
    } else {
      var x, done := segments[0], Through(prefix, a, segments[0]);
      WellFormedRest(prefix, segments, tail);
      TextOfStep(prefix, a, segments, tail);
      if i >= |done| {
        MarkersHavePartners(prefix, done, segments[1..], tail, v, word, i);
      } else {
        FirstSegment(prefix, a, x, TextOf(prefix, segments[1..], tail));
        ThroughLength(prefix, a, x);
        var m := |a| + |x.before|;
        PartnerInPair(s, prefix, x.version, |a|, m, m + |Marker(prefix, x.version, BEGIN)| + |x.body|, v, word, i);
      }
    }
  }

  lemma NoMarkerInTail(a: string, tail: string, prefix: string, v: string, word: string, i: nat)
    requires Proper(prefix) && NoMarker(tail, prefix) && i >= |a|
    ensures !MarkerOn(a + tail, prefix, v, word, i)
  {
    hide *;
    NoMarksInPiece(a, tail, "", prefix);
    assert a + tail + "" == a + tail;
    MarkerLength(prefix, v, word);
    ProperHasLength(prefix);
    NoMarkThere(a + tail, prefix, v, word, i);
  }

  lemma NoMarkThere(s: string, prefix: string, v: string, word: string, i: nat)
    requires |prefix| > 0 && (i < |s| ==> !Marks(s, prefix, i))
    ensures !MarkerOn(s, prefix, v, word, i)
  {
    hide Marker, IsVersion;
    MarkerLength(prefix, v, word);
    assert MarkerOn(s, prefix, v, word, i) ==> Marks(s, prefix, i);
  }

  /** Of the text up to the end of a segment, only its two markers can be the marker at i. */
  lemma PartnerInPair(s: string, prefix: string, x: string, from: nat, m: nat, e: nat,
                      v: string, word: string, i: nat)
    requires Proper(prefix) && |prefix| > 0 && from <= m && from <= i < e + |Marker(prefix, x, END)|
    requires MarkerOn(s, prefix, x, BEGIN, m) && MarkerOn(s, prefix, x, END, e) && m + |Marker(prefix, x, BEGIN)| <= e
    requires forall k :: from <= k < m ==> !Marks(s, prefix, k)
    requires forall k :: m + |Marker(prefix, x, BEGIN)| <= k < e ==> !Marks(s, prefix, k)
    requires MarkerOn(s, prefix, v, word, i)
    ensures HasPartner(s, prefix, v, word, i)
  {
    hide MarkerOn, Marker, Proper, Marks;
    NoMarksInside(s, prefix, x, BEGIN, m);
    NoMarksInside(s, prefix, x, END, e);
    MarkerLength(prefix, x, BEGIN);
    assert Pair(s, prefix, x, m, e);
    MarkIsThere(s, prefix, v, word, i);
    assert i == m || i == e;
    SameMarker(s, prefix, v, word, x, if i == m then BEGIN else END, i);
  }

  lemma MarkIsThere(s: string, prefix: string, v: string, word: string, i: nat)
    requires MarkerOn(s, prefix, v, word, i)
    ensures Marks(s, prefix, i)
  {
    hide MarkerOn;
  }

  /** From a place on, the markers have their partners there. */
  ghost predicate PairedFrom(s: string, prefix: string, from: nat) {
    forall v, word, i: nat :: from <= i && MarkerOn(s, prefix, v, word, i) ==> PartnerFrom(s, prefix, v, word, i, from)
  }

  ghost predicate PartnerFrom(s: string, prefix: string, v: string, word: string, i: nat, from: nat) {
    if word == BEGIN then exists e :: Pair(s, prefix, v, i, e) else exists b :: from <= b && Pair(s, prefix, v, b, i)
  }

  lemma {:induction false} FirstMark(s: string, prefix: string, i: nat) returns (m: nat)
    requires i <= |s|
    ensures i <= m <= |s| && (m < |s| ==> Marks(s, prefix, m)) && forall k :: i <= k < m ==> !Marks(s, prefix, k)
    decreases |s| - i
  {
    hide Marks;
    if i == |s| || Marks(s, prefix, i) {
      m := i;
    } else {
      m := FirstMark(s, prefix, i + 1);
    }
  }

  /** The first marker begins a pair, and behind that pair all markers are still paired. */
  lemma FirstPair(s: string, prefix: string, from: nat, m: nat) returns (v: string, e: nat)
    requires Proper(prefix) && PairedFrom(s, prefix, from) && from <= m && Marks(s, prefix, m)
    requires forall k :: from <= k < m ==> !Marks(s, prefix, k)
    ensures Pair(s, prefix, v, m, e)
    ensures PairedFrom(s, prefix, e + |Marker(prefix, v, END)|)
  {
    var word;
    v, word :| MarkerOn(s, prefix, v, word, m);
    MarkerVersion(s, prefix, v, word, m);
    hide MarkerOn, Marker, Proper;
    NoEarlierBegin(s, prefix, v, from, m);
    assert word == BEGIN;
    var end: int :| Pair(s, prefix, v, m, end);
    e := end;
    MarkerLength(prefix, v, END);
    forall w, other, i: nat | e + |Marker(prefix, v, END)| <= i && MarkerOn(s, prefix, w, other, i)
      ensures PartnerFrom(s, prefix, w, other, i, e + |Marker(prefix, v, END)|)
    {
      MarkerVersion(s, prefix, w, other, i);
      PartnerBehind(s, prefix, v, from, m, e, w, other, i);
    }
  }

  /** An end marker before which no marker stands has no partner there. */
  lemma NoEarlierBegin(s: string, prefix: string, v: string, from: nat, m: nat)
    requires forall k :: from <= k < m ==> !Marks(s, prefix, k)
    ensures !PartnerFrom(s, prefix, v, END, m, from)
  {
    hide MarkerOn;
    forall b | from <= b ensures !Pair(s, prefix, v, b, m) {
      assert Pair(s, prefix, v, b, m) ==> Marks(s, prefix, b);
    }
  }

  lemma PartnerBehind(s: string, prefix: string, v: string, from: nat, m: nat, e: nat,
                      w: string, word: string, i: nat)
    requires Proper(prefix) && PairedFrom(s, prefix, from) && from <= m && Pair(s, prefix, v, m, e)
    requires forall k :: from <= k < m ==> !Marks(s, prefix, k)
    requires e + |Marker(prefix, v, END)| <= i && MarkerOn(s, prefix, w, word, i)
    ensures PartnerFrom(s, prefix, w, word, i, e + |Marker(prefix, v, END)|)
  {
    hide MarkerOn, Marker, Proper;
    MarkerLength(prefix, v, END);
    assert PartnerFrom(s, prefix, w, word, i, from);
    if word != BEGIN {
      var b :| from <= b && Pair(s, prefix, w, b, i);
      BeginsBehind(s, prefix, v, from, m, e, w, b, i);
    }
  }

  /** A later pair starts behind this one. */
  lemma BeginsBehind(s: string, prefix: string, v: string, from: nat, m: nat, e: nat, w: string, b: nat, i: nat)
    requires Proper(prefix) && from <= m && Pair(s, prefix, v, m, e)
    requires forall k :: from <= k < m ==> !Marks(s, prefix, k)
    requires e < i && from <= b && Pair(s, prefix, w, b, i)
    ensures e + |Marker(prefix, v, END)| <= b
  {
    hide MarkerOn, Marker, Proper;
    ProperHasLength(prefix);
    NoMarksInside(s, prefix, v, END, e);
    assert Marks(s, prefix, b) && Marks(s, prefix, e);
    NotBothWords(s, prefix, v, w, e);
  }

  lemma NotBothWords(s: string, prefix: string, v: string, w: string, e: nat)
    requires |prefix| > 0 && MarkerOn(s, prefix, v, END, e)
    ensures !MarkerOn(s, prefix, w, BEGIN, e)
  {
    hide MarkerOn;
    if MarkerOn(s, prefix, w, BEGIN, e) {
      SameMarker(s, prefix, v, END, w, BEGIN, e);
    }
  }

  /** A file whose markers are paired is spelled out like this. */
  lemma {:induction false} PairedIsSpelled(s: string, prefix: string, i: nat)
    returns (segments: seq<Segment>, tail: string)
    requires Proper(prefix) && |prefix| > 0 && i <= |s| && PairedFrom(s, prefix, i)
    ensures Spelled(s[i..], prefix, segments, tail)
    decreases |s| - i
  {
    hide *;
    var m := FirstMark(s, prefix, i);
    PieceHasNoMarker(s, prefix, i, m);
    if m == |s| {
      segments, tail := [], s[i..];
      assert s[i..m] == s[i..];
      SpelledNothing(s[i..], prefix);
    } else {
      var v, e := FirstPair(s, prefix, i, m);
      var o, to := m + |Marker(prefix, v, BEGIN)|, e + |Marker(prefix, v, END)|;
      PairIs(s, prefix, v, m, e);
      PieceHasNoMarker(s, prefix, o, e);
      segments, tail := PairedIsSpelled(s, prefix, to);
      SpelledStep(s, prefix, v, i, m, e, segments, tail);
      segments := [Segment(s[i..m], v, s[o..e])] + segments;
    }
  }

  lemma PairIs(s: string, prefix: string, v: string, m: nat, e: nat)
    requires Proper(prefix) && Pair(s, prefix, v, m, e)
    ensures MarkerOn(s, prefix, v, BEGIN, m) && MarkerOn(s, prefix, v, END, e)
    ensures m < m + |Marker(prefix, v, BEGIN)| <= e < e + |Marker(prefix, v, END)| <= |s|
    ensures forall k :: m < k < e ==> !Marks(s, prefix, k)
  {
    hide MarkerOn, Marker, Proper;
    ProperHasLength(prefix);
    MarkerLength(prefix, v, BEGIN);
    MarkerLength(prefix, v, END);
    MarkersApart(s, prefix, v, END, e, v, BEGIN, m);
    MarkerParts(s, prefix, v, END, e);
  }

  /** Each marker has its partner. */
  ghost predicate Paired(s: string, prefix: string) {
    forall v, word, i: nat :: MarkerOn(s, prefix, v, word, i) ==> HasPartner(s, prefix, v, word, i)
  }

  lemma PairedThroughout(s: string, prefix: string)
    requires Paired(s, prefix)
    ensures PairedFrom(s, prefix, 0)
  {
    hide Marker, OccursAt, Marks;
    forall v, word, i: nat | MarkerOn(s, prefix, v, word, i) ensures PartnerFrom(s, prefix, v, word, i, 0) {
      assert HasPartner(s, prefix, v, word, i);
      if word != BEGIN {
        var b :| Pair(s, prefix, v, b, i);
        MarkerParts(s, prefix, v, BEGIN, b);
      }
    }
  }

  /** MAIN: a file is rewritten exactly if each of its markers has its partner. */
  lemma RewrittenIffPaired(s: string, rendered: string, prefix: string)
    requires Proper(prefix) && |prefix| > 0
    ensures Updated(Some(s), rendered, prefix).Some? <==> Paired(s, prefix)
  {
    hide *;
    RewritableIff(s, rendered, prefix);
    if segments, tail :| Spelled(s, prefix, segments, tail) {
      SpelledIsPaired(s, prefix, segments, tail);
    }
    if Paired(s, prefix) {
      PairedThroughout(s, prefix);
      var segments, tail := PairedIsSpelled(s, prefix, 0);
      assert s[0..] == s;
      assert Spelled(s, prefix, segments, tail);
    }
  }

  lemma SpelledIsPaired(s: string, prefix: string, segments: seq<Segment>, tail: string)
    requires Proper(prefix) && |prefix| > 0 && Spelled(s, prefix, segments, tail)
    ensures Paired(s, prefix)
  {
    hide MarkerOn, HasPartner, Proper, WellFormed, TextOf;
    assert "" + TextOf(prefix, segments, tail) == s;
    forall v, word, i: nat | MarkerOn(s, prefix, v, word, i) ensures HasPartner(s, prefix, v, word, i) {
      MarkersHavePartners(prefix, "", segments, tail, v, word, i);
    }
  }

  // ----- The two formats -----

  /** MAIN: no marker of one format is a marker of the other, so that neither is taken for it. */
  lemma FormatsAreApart(s: string, i: nat)
    ensures !(Marks(s, MarkerPrefix(Claude), i) && Marks(s, MarkerPrefix(Agents), i))
  {
    if Marks(s, MarkerPrefix(Claude), i) {
      FormatMarks(s, Claude, "claude", i);
    }
    if Marks(s, MarkerPrefix(Agents), i) {
      FormatMarks(s, Agents, "agents", i);
    }
  }

  /** The format's name stands in its markers. */
  lemma FormatMarks(s: string, format: Format, name: string, i: nat)
    requires name == (if format.Claude? then "claude" else "agents")
    requires Marks(s, MarkerPrefix(format), i)
    ensures var k := i + |"<!-- researchctl-agent-guide:project-document-agent-guide."|; k < |s| && s[k] == name[0]
  {
    var v, word :| MarkerOn(s, MarkerPrefix(format), v, word, i);
    MarkerParts(s, MarkerPrefix(format), v, word, i);
    hide *;
    PrefixEndsInName(format, name);
    OccursInParts(s, "<!-- researchctl-agent-guide:project-document-agent-guide.", name, i);
    OccursStarts(s, name, i + |"<!-- researchctl-agent-guide:project-document-agent-guide."|);
  }

  lemma PrefixEndsInName(format: Format, name: string)
    requires name == (if format.Claude? then "claude" else "agents")
    ensures MarkerPrefix(format) == "<!-- researchctl-agent-guide:project-document-agent-guide." + name
  {
  }
}
