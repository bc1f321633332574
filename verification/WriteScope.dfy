/** Reading the raw diff of two trees (src/researchctl/adapters/git_ci.py) and keeping it inside a
    Task's write scope (src/researchctl/adapters/git_scope.py). */
module WriteScope {
  import opened Wrappers
  import opened GitModel
  import opened Ordering
  import opened Text

  datatype Change = Change(
    path: string, oldMode: string, newMode: string, oldObject: string, newObject: string, status: string)

  function PathOf(c: Change): string {
    c.path
  }

  // ----- What Git prints -----

  predicate IsHex(s: string) {
    forall i :: 0 <= i < |s| ==> '0' <= s[i] <= '9' || 'a' <= s[i] <= 'f'
  }

  predicate IsObjectId(s: string) {
    (|s| == 40 || |s| == 64) && IsHex(s)
  }

  predicate IsMode(s: string) {
    |s| == 6 && forall i :: 0 <= i < 6 ==> '0' <= s[i] <= '7'
  }

  const ABSENT := "000000"
  const NULL_ID := seq(40, _ => '0')

  function ModeText(f: Option<File>): string {
    if f.None? then ABSENT
    else match f.value.mode
      case Regular => "100644"
      case Executable => "100755"
      case Symlink => "120000"
      case Gitlink => "160000"
  }

  /** `hash` names an object by its content. */
  function ObjectText(hash: File -> string, f: Option<File>): string {
    if f.None? then NULL_ID else hash(f.value)
  }

  function Kind(m: Mode): int {
    match m
    case Regular | Executable => 0
    case Symlink => 1
    case Gitlink => 2
  }

  function StatusText(a: Option<File>, b: Option<File>): string {
    if a.None? then "A" else if b.None? then "D"
    else if Kind(a.value.mode) != Kind(b.value.mode) then "T" else "M"
  }

  function ChangeAt(hash: File -> string, a: Tree, b: Tree, p: Path): Change {
    Change(p, ModeText(Get(a, p)), ModeText(Get(b, p)), ObjectText(hash, Get(a, p)), ObjectText(hash, Get(b, p)),
           StatusText(Get(a, p), Get(b, p)))
  }

  function Header(c: Change): string {
    ":" + c.oldMode + " " + c.newMode + " " + c.oldObject + " " + c.newObject + " " + c.status
  }

  function Chunks(changes: seq<Change>): seq<string> {
    if changes == [] then [] else [Header(changes[0]), changes[0].path] + Chunks(changes[1..])
  }

  /** `git diff-tree --raw -r -z` lists the changes at the given paths. */
  function RawDiff(changes: seq<Change>): string {
    Terminated(Chunks(changes), '\0')
  }

  // ----- Parsing it -----

  function ParseChange(metadata: string, path: string): Option<Change> {
    var fields := Split(metadata, ' ');
    if |fields| != 5
      || !(":" <= fields[0]) || !IsMode(fields[0][1..]) || !IsMode(fields[1])
      || !IsObjectId(fields[2]) || !IsObjectId(fields[3])
      || fields[4] !in {"A", "D", "M", "T", "U"}
      || path == ""
    then None
    else Some(Change(path, fields[0][1..], fields[1], fields[2], fields[3], fields[4]))
  }

  function ParsePairs(chunks: seq<string>): Option<seq<Change>>
    requires |chunks| % 2 == 0
  {
    if chunks == [] then Some([])
    else
      var first, rest := ParseChange(chunks[0], chunks[1]), ParsePairs(chunks[2..]);
      if first.None? || rest.None? then None else Some([first.value] + rest.value)
  }

  function WithoutLastEmpty(chunks: seq<string>): seq<string> {
    if chunks != [] && chunks[|chunks| - 1] == "" then chunks[..|chunks| - 1] else chunks
  }

  function Parse(output: string): Option<seq<Change>> {
    var chunks := WithoutLastEmpty(Split(output, '\0'));
    if |chunks| % 2 != 0 then None
    else
      match ParsePairs(chunks)
      case None => None
      case Some(changes) => if DistinctBy(PathOf, changes) then Some(SortBy(PathOf, changes)) else None
  }

  /** `changes`. */
  method Changes(output: string) returns (o: Option<seq<Change>>)
    ensures o == Parse(output)
  {
    hide ParseChange, Split, SortBy, DistinctBy, ParsePairs;
    var chunks := Split(output, '\0');
    if chunks != [] && chunks[|chunks| - 1] == "" {
      chunks := chunks[..|chunks| - 1];
    }
    if |chunks| % 2 != 0 {
      return None;
    }
    var changes: seq<Change> := [];
    var index := 0;
    assert chunks[0..] == chunks;
    PairsStart(chunks);
    while index < |chunks|
      invariant 0 <= index <= |chunks| && index % 2 == 0
      invariant ParsePairs(chunks) == Before(changes, ParsePairs(chunks[index..]))
    {
      PairsStep(chunks[index..], changes);
      assert chunks[index..][2..] == chunks[index + 2..];
      var change := ParseChange(chunks[index], chunks[index + 1]);
      if change.None? {
        return None;
      }
      changes := changes + [change.value];
      index := index + 2;
    }
    PairsEnd(chunks[index..], changes);
    if !DistinctBy(PathOf, changes) {
      return None;
    }
    return Some(SortBy(PathOf, changes));
  }

  function Before(changes: seq<Change>, rest: Option<seq<Change>>): Option<seq<Change>> {
    if rest.None? then None else Some(changes + rest.value)
  }

  lemma PairsStart(chunks: seq<string>)
    requires |chunks| % 2 == 0
    ensures ParsePairs(chunks) == Before([], ParsePairs(chunks))
  {
    if ParsePairs(chunks).Some? {
      assert [] + ParsePairs(chunks).value == ParsePairs(chunks).value;
    }
  }

  lemma PairsStep(chunks: seq<string>, changes: seq<Change>)
    requires |chunks| % 2 == 0 && chunks != []
    ensures var first := ParseChange(chunks[0], chunks[1]);
      Before(changes, ParsePairs(chunks)) ==
        if first.None? then None else Before(changes + [first.value], ParsePairs(chunks[2..]))
  {
    hide ParseChange;
    var first, rest := ParseChange(chunks[0], chunks[1]), ParsePairs(chunks[2..]);
    assert ParsePairs(chunks) == if first.None? || rest.None? then None else Some([first.value] + rest.value);
    hide ParsePairs;
    if first.Some? && rest.Some? {
      assert changes + ([first.value] + rest.value) == changes + [first.value] + rest.value;
    }
  }

  lemma PairsEnd(chunks: seq<string>, changes: seq<Change>)
    requires chunks == []
    ensures Before(changes, ParsePairs(chunks)) == Some(changes)
  {
    assert changes + [] == changes;
  }

  // ----- Round trip -----

  /** A change as Git can print it. */
  ghost predicate Printable(c: Change) {
    && c.path != "" && '\0' !in c.path
    && IsMode(c.oldMode) && IsMode(c.newMode) && IsObjectId(c.oldObject) && IsObjectId(c.newObject)
    && c.status in {"A", "D", "M", "T", "U"}
  }

  lemma NoSpaces(s: string)
    requires IsMode(s) || IsObjectId(s) || s in {"A", "D", "M", "T", "U"}
    ensures ' ' !in s && '\0' !in s
  {
  }

  lemma HeaderSplits(c: Change)
    requires Printable(c)
    ensures Split(Header(c), ' ') == [":" + c.oldMode, c.newMode, c.oldObject, c.newObject, c.status]
    ensures '\0' !in Header(c)
  {
    hide Split, IsMode, IsObjectId;
    NoSpaces(c.oldMode);
    NoSpaces(c.newMode);
    NoSpaces(c.oldObject);
    NoSpaces(c.newObject);
    NoSpaces(c.status);
    var r3 := c.newObject + " " + c.status;
    var r2 := c.oldObject + " " + r3;
    var r1 := c.newMode + " " + r2;
    assert Header(c) == (":" + c.oldMode) + " " + r1;
    SplitOfPart(":" + c.oldMode, r1, ' ');
    SplitOfPart(c.newMode, r2, ' ');
    SplitOfPart(c.oldObject, r3, ' ');
    SplitOfPart(c.newObject, c.status, ' ');
    SplitOfLast(c.status, ' ');
  }

  lemma ParsesHeader(c: Change)
    requires Printable(c)
    ensures ParseChange(Header(c), c.path) == Some(c)
  {
    hide Split, Header, IsMode, IsObjectId;
    HeaderSplits(c);
    assert (":" + c.oldMode)[1..] == c.oldMode;
  }

  lemma PairsOfOneMore(header: string, path: string, rest: seq<string>)
    requires |rest| % 2 == 0
    ensures |[header, path] + rest| % 2 == 0
    ensures var first, more := ParseChange(header, path), ParsePairs(rest);
      ParsePairs([header, path] + rest) == if first.None? || more.None? then None else Some([first.value] + more.value)
  {
    hide ParseChange;
    assert ([header, path] + rest)[2..] == rest;
  }

  lemma {:induction false} ParsesChunks(changes: seq<Change>)
    requires forall c <- changes :: Printable(c)
    ensures |Chunks(changes)| % 2 == 0 && ParsePairs(Chunks(changes)) == Some(changes)
  {
    hide ParseChange, Header, Printable;
    if changes != [] {
      hide ParsePairs;
      assert changes[0] in changes && forall c <- changes[1..] :: c in changes;
      ParsesChunks(changes[1..]);
      ParsesHeader(changes[0]);
      PairsOfOneMore(Header(changes[0]), changes[0].path, Chunks(changes[1..]));
      assert [changes[0]] + changes[1..] == changes;
    }
  }

  lemma {:induction false} ChunksHaveNoNul(changes: seq<Change>)
    requires forall c <- changes :: Printable(c)
    ensures forall chunk <- Chunks(changes) :: '\0' !in chunk
  {
    hide Header, Printable;
    if changes != [] {
      assert changes[0] in changes && forall c <- changes[1..] :: c in changes;
      ChunksHaveNoNul(changes[1..]);
      HeaderSplits(changes[0]);
      PathHasNoNul(changes[0]);
    }
  }

  lemma PathHasNoNul(c: Change)
    requires Printable(c)
    ensures '\0' !in c.path
  {
  }

  // ----- Which output is parsed -----

  /** What is parsed is what would be printed. */
  lemma ChangeIsHeader(metadata: string, path: string)
    requires ParseChange(metadata, path).Some?
    ensures var c := ParseChange(metadata, path).value;
      metadata == Header(c) && path == c.path && ('\0' !in path ==> Printable(c))
  {
    var fields := Split(metadata, ' ');
    JoinedSplit(metadata, ' ');
    hide Split, IsMode, IsObjectId;
    FiveJoined(fields);
    assert fields[0] == ":" + fields[0][1..];
  }

  lemma FiveJoined(fields: seq<string>)
    requires |fields| == 5
    ensures Joined(fields, ' ') ==
      fields[0] + " " + fields[1] + " " + fields[2] + " " + fields[3] + " " + fields[4]
  {
    hide *;
    var a, b, c := fields[1..], fields[2..], fields[3..];
    assert a[1..] == b && b[1..] == c && c[1..] == [fields[4]];
    JoinedStep(fields);
    JoinedStep(a);
    JoinedStep(b);
    JoinedStep(c);
    JoinedStep([fields[4]]);
    FiveSpaced(fields[0], fields[1], fields[2], fields[3], fields[4]);
  }

  lemma JoinedStep(fields: seq<string>)
    requires fields != []
    ensures Joined(fields, ' ') == if |fields| == 1 then fields[0] else fields[0] + " " + Joined(fields[1..], ' ')
  {
  }

  lemma FiveSpaced(a: string, b: string, c: string, d: string, e: string)
    ensures a + " " + (b + " " + (c + " " + (d + " " + e))) == a + " " + b + " " + c + " " + d + " " + e
  {
  }

  lemma {:induction false} PairsAreChunks(chunks: seq<string>)
    requires |chunks| % 2 == 0 && ParsePairs(chunks).Some? && forall chunk <- chunks :: '\0' !in chunk
    ensures chunks == Chunks(ParsePairs(chunks).value)
    ensures forall c <- ParsePairs(chunks).value :: Printable(c)
    decreases |chunks|
  {
    hide ParseChange, Header, Printable;
    if chunks != [] {
      assert chunks[1] in chunks && forall chunk <- chunks[2..] :: chunk in chunks;
      PairsAreChunks(chunks[2..]);
      ChangeIsHeader(chunks[0], chunks[1]);
      var first, rest := ParseChange(chunks[0], chunks[1]).value, ParsePairs(chunks[2..]).value;
      assert ParsePairs(chunks).value == [first] + rest;
      assert ([first] + rest)[1..] == rest && chunks == [chunks[0], chunks[1]] + chunks[2..];
    }
  }

  /** The output lists these changes; the last NUL may be missing. */
  ghost predicate Prints(output: string, changes: seq<Change>) {
    && (forall c <- changes :: Printable(c)) && DistinctBy(PathOf, changes)
    && (output == RawDiff(changes) || (changes != [] && output + "\0" == RawDiff(changes)))
  }

  /** MAIN: exactly the output that lists changes to distinct paths, as Git prints them, is parsed,
      and it is parsed to these changes in the order of their paths. */
  lemma ParsedIff(output: string)
    ensures Parse(output).Some? <==> exists changes :: Prints(output, changes)
    ensures forall changes :: Prints(output, changes) ==> Parse(output) == Some(SortBy(PathOf, changes))
  {
    forall changes | Prints(output, changes) ensures Parse(output) == Some(SortBy(PathOf, changes)) {
      PrintedIsParsed(output, changes);
    }
    if Parse(output).Some? {
      ParsedIsPrinted(output);
    }
    hide Prints, Parse;
  }

  lemma PrintedIsParsed(output: string, changes: seq<Change>)
    requires Prints(output, changes)
    ensures Parse(output) == Some(SortBy(PathOf, changes))
  {
    hide Printable, Header, ParseChange, ParsePairs, Split, SortBy, DistinctBy, Chunks, Joined, Terminated;
    var chunks := Chunks(changes);
    ChunksHaveNoNul(changes);
    ParsesChunks(changes);
    SplitOfTerminated(chunks, '\0');
    if output == RawDiff(changes) {
      assert (chunks + [""])[..|chunks|] == chunks;
    } else {
      LastChunk(changes);
      JoinedIsUnterminated(output, chunks);
      SplitJoined(chunks, '\0');
    }
  }

  lemma {:induction false} LastChunk(changes: seq<Change>)
    requires changes != [] && forall c <- changes :: Printable(c)
    ensures Chunks(changes) != [] && Chunks(changes)[|Chunks(changes)| - 1] != ""
  {
    hide Header;
    if |changes| == 1 {
      assert changes[1..] == [] && changes[0] in changes;
    } else {
      LastChunk(changes[1..]);
    }
  }

  lemma {:induction false} JoinedIsUnterminated(output: string, parts: seq<string>)
    requires parts != [] && output + "\0" == Terminated(parts, '\0')
    ensures output == Joined(parts, '\0')
  {
    UnterminatedParts(parts);
    assert output == (output + "\0")[..|output|];
    assert Joined(parts, '\0') == (Joined(parts, '\0') + "\0")[..|Joined(parts, '\0')|];
    assert |output + "\0"| == |output| + 1 && |Joined(parts, '\0') + "\0"| == |Joined(parts, '\0')| + 1;
  }

  lemma {:induction false} UnterminatedParts(parts: seq<string>)
    requires parts != []
    ensures Joined(parts, '\0') + "\0" == Terminated(parts, '\0')
  {
    if |parts| > 1 {
      UnterminatedParts(parts[1..]);
    }
  }

  lemma ParsedIsPrinted(output: string)
    requires Parse(output).Some?
    ensures exists changes :: Prints(output, changes)
  {
    hide Printable, Header, ParseChange, ParsePairs, Split, SortBy, DistinctBy, Chunks, Joined, Terminated;
    var parts := Split(output, '\0');
    var chunks := WithoutLastEmpty(parts);
    SplitIsFree(output, '\0');
    JoinedSplit(output, '\0');
    assert forall chunk <- chunks :: chunk in parts;
    PairsAreChunks(chunks);
    var changes := ParsePairs(chunks).value;
    if chunks != parts {
      assert parts == chunks + [""];
      JoinedEmptyLast(chunks, '\0');
    } else {
      UnterminatedParts(chunks);
      NoChunks();
    }
    assert Prints(output, changes);
  }

  lemma NoChunks()
    ensures Chunks([]) == []
  {
  }

  /** A tree whose paths Git can print. */
  ghost predicate PrintableTree(t: Tree) {
    forall p <- t :: p != "" && '\0' !in p
  }

  /** Each differing path once, in any order. */
  ghost predicate Lists(paths: seq<Path>, a: Tree, b: Tree) {
    && (forall p :: p in paths <==> p in Differing(a, b))
    && forall i, j :: 0 <= i < j < |paths| ==> paths[i] != paths[j]
  }

  function ChangesAt(hash: File -> string, a: Tree, b: Tree, paths: seq<Path>): (changes: seq<Change>)
    ensures |changes| == |paths| && forall i :: 0 <= i < |paths| ==> changes[i] == ChangeAt(hash, a, b, paths[i])
  {
    seq(|paths|, i requires 0 <= i < |paths| => ChangeAt(hash, a, b, paths[i]))
  }

  lemma ChangeIsPrintable(hash: File -> string, a: Tree, b: Tree, p: Path)
    requires (forall f :: IsObjectId(hash(f))) && p != "" && '\0' !in p
    ensures Printable(ChangeAt(hash, a, b, p))
  {
  }

  /** The sorted changes of two trees are their differing paths, each once and in order, with both
      sides' modes and objects. */
  lemma SortedChanges(hash: File -> string, a: Tree, b: Tree, paths: seq<Path>)
    requires Lists(paths, a, b)
    ensures var sorted := SortBy(PathOf, ChangesAt(hash, a, b, paths));
      && InOrder(PathOf, sorted) && |sorted| == |paths|
      && forall c :: c in sorted <==> c.path in Differing(a, b) && c == ChangeAt(hash, a, b, c.path)
  {
    hide Below, ChangeAt, Differing;
    var changes := ChangesAt(hash, a, b, paths);
    var sorted := SortBy(PathOf, changes);
    SortByOrders(PathOf, changes);
    assert |multiset(sorted)| == |multiset(changes)|;
    forall c ensures c in sorted <==> c.path in Differing(a, b) && c == ChangeAt(hash, a, b, c.path) {
      assert c in sorted <==> c in multiset(sorted);
      assert c in changes <==> c in multiset(changes);
      if c in changes {
        var i :| 0 <= i < |changes| && changes[i] == c;
        assert paths[i] in paths;
        ChangePath(hash, a, b, paths[i]);
      }
      if c.path in Differing(a, b) && c == ChangeAt(hash, a, b, c.path) {
        var i :| 0 <= i < |paths| && paths[i] == c.path;
        assert changes[i] == c;
      }
    }
  }

  // ----- As it arrives -----

  function AllArrived(changes: seq<Change>): (arrived: seq<Change>)
    ensures |arrived| == |changes|
    ensures forall i :: 0 <= i < |changes| ==> arrived[i] == changes[i].(path := Received(changes[i].path))
  {
    if changes == [] then [] else [changes[0].(path := Received(changes[0].path))] + AllArrived(changes[1..])
  }

  lemma HeaderArrives(c: Change)
    requires Printable(c)
    ensures Received(Header(c)) == Header(c)
    ensures Header(c.(path := Received(c.path))) == Header(c)
    ensures Printable(c.(path := Received(c.path)))
  {
    NotEmptyReceived(c.path);
    ReceivedIff(Header(c));
    assert '\r' !in c.oldMode && '\r' !in c.newMode && '\r' !in c.oldObject && '\r' !in c.newObject;
    assert '\r' !in c.status;
    hide Received, IsMode, IsObjectId;
    assert '\r' !in Header(c);
  }

  lemma {:induction false} ChunksArrive(changes: seq<Change>)
    requires forall c <- changes :: Printable(c)
    ensures AllReceived(Chunks(changes)) == Chunks(AllArrived(changes))
    ensures forall c <- AllArrived(changes) :: Printable(c)
  {
    hide Header, Printable, Received;
    if changes != [] {
      assert changes[0] in changes && forall c <- changes[1..] :: c in changes;
      ChunksArrive(changes[1..]);
      HeaderArrives(changes[0]);
      AllReceivedJoins([Header(changes[0]), changes[0].path], Chunks(changes[1..]));
      var two := AllReceived([Header(changes[0]), changes[0].path]);
      assert two == [Header(changes[0]), Received(changes[0].path)];
      assert AllArrived(changes)[1..] == AllArrived(changes[1..]);
      assert AllArrived(changes) == [changes[0].(path := Received(changes[0].path))] + AllArrived(changes[1..]);
    }
  }

  lemma ParsesRaw(changes: seq<Change>)
    requires forall c <- changes :: Printable(c)
    ensures Parse(RawDiff(changes)) == if DistinctBy(PathOf, changes) then Some(SortBy(PathOf, changes)) else None
  {
    hide ParsePairs, Split, Terminated, SortBy, Printable, DistinctBy;
    ParsesChunks(changes);
    ChunksHaveNoNul(changes);
    SplitOfTerminated(Chunks(changes), '\0');
    assert WithoutLastEmpty(Chunks(changes) + [""]) == Chunks(changes);
  }

  /** What arrives is the diff of the paths as they arrive; it parses unless two of them collide. */
  lemma DiffArrives(changes: seq<Change>)
    requires forall c <- changes :: Printable(c)
    ensures var arrived := AllArrived(changes);
      Parse(Received(RawDiff(changes))) ==
        if DistinctBy(PathOf, arrived) then Some(SortBy(PathOf, arrived)) else None
  {
    hide Parse, Terminated, Received, SortBy, DistinctBy, Printable, Chunks;
    ReceivedTerminated(Chunks(changes), '\0');
    ChunksArrive(changes);
    ParsesRaw(AllArrived(changes));
  }

  lemma ChangesArePrintable(hash: File -> string, a: Tree, b: Tree, paths: seq<Path>)
    requires (forall f :: IsObjectId(hash(f))) && PrintableTree(a) && PrintableTree(b) && Lists(paths, a, b)
    ensures forall c <- ChangesAt(hash, a, b, paths) :: Printable(c)
    ensures DistinctBy(PathOf, ChangesAt(hash, a, b, paths))
  {
    hide ChangeAt, Printable;
    forall i | 0 <= i < |paths|
      ensures Printable(ChangeAt(hash, a, b, paths[i])) && ChangeAt(hash, a, b, paths[i]).path == paths[i]
    {
      assert paths[i] in paths;
      ChangeIsPrintable(hash, a, b, paths[i]);
      ChangePath(hash, a, b, paths[i]);
    }
  }

  lemma ArrivedAlike(changes: seq<Change>)
    requires forall c <- changes :: '\r' !in c.path
    ensures AllArrived(changes) == changes
  {
    forall i | 0 <= i < |changes| ensures AllArrived(changes)[i] == changes[i] {
      assert changes[i] in changes;
      ReceivedIff(changes[i].path);
    }
  }

  /** MAIN: parsing the raw diff of two trees gives exactly their differing paths, each once and
      in order, with both sides' modes and objects, if and only if no differing path holds a
      carriage return. */
  lemma DiffRoundTripIff(hash: File -> string, a: Tree, b: Tree, paths: seq<Path>)
    requires forall f :: IsObjectId(hash(f))
    requires PrintableTree(a) && PrintableTree(b) && Lists(paths, a, b)
    ensures var changes := ChangesAt(hash, a, b, paths);
      Parse(Received(RawDiff(changes))) == Some(SortBy(PathOf, changes)) <==>
        forall p <- Differing(a, b) :: '\r' !in p
    ensures var sorted := SortBy(PathOf, ChangesAt(hash, a, b, paths));
      && InOrder(PathOf, sorted)
      && forall c :: c in sorted <==> c.path in Differing(a, b) && c == ChangeAt(hash, a, b, c.path)
  {
    hide *;
    SortedChanges(hash, a, b, paths);
    var changes := ChangesAt(hash, a, b, paths);
    ChangesArePrintable(hash, a, b, paths);
    RawRoundTripIff(changes);
    PathsOfChanges(hash, a, b, paths);
  }

  lemma RawRoundTripIff(changes: seq<Change>)
    requires (forall c <- changes :: Printable(c)) && DistinctBy(PathOf, changes)
    ensures Parse(Received(RawDiff(changes))) == Some(SortBy(PathOf, changes)) <==>
      forall c <- changes :: '\r' !in c.path
  {
    hide *;
    DiffArrives(changes);
    var arrived := AllArrived(changes);
    if forall c <- changes :: '\r' !in c.path {
      ArrivedAlike(changes);
    } else {
      var c :| c in changes && '\r' in c.path;
      if SortBy(PathOf, arrived) == SortBy(PathOf, changes) {
        assert c in multiset(changes) && multiset(arrived) == multiset(changes);
        var k :| 0 <= k < |arrived| && arrived[k] == c;
        ReceivedIsClean(changes[k].path);
      }
    }
  }

  lemma PathsOfChanges(hash: File -> string, a: Tree, b: Tree, paths: seq<Path>)
    requires Lists(paths, a, b)
    ensures var changes := ChangesAt(hash, a, b, paths);
      && (forall p <- Differing(a, b) :: exists i :: 0 <= i < |changes| && changes[i].path == p)
      && forall c <- changes :: c.path in Differing(a, b)
  {
    hide ChangeAt, Differing;
    var changes := ChangesAt(hash, a, b, paths);
    forall i | 0 <= i < |paths| ensures changes[i].path == paths[i] && paths[i] in Differing(a, b) {
      assert paths[i] in paths;
      ChangePath(hash, a, b, paths[i]);
    }
    forall p <- Differing(a, b) ensures exists i :: 0 <= i < |changes| && changes[i].path == p {
      var i :| 0 <= i < |paths| && paths[i] == p;
      assert changes[i].path == p;
    }
  }

  lemma ChangePath(hash: File -> string, a: Tree, b: Tree, p: Path)
    ensures ChangeAt(hash, a, b, p).path == p
  {
  }

  // ----- The write scope -----

  predicate IsCanonicalChangedPath(path: string) {
    && path != "" && path[0] != '/'
    && '\\' !in path && '\0' !in path && '\n' !in path && '\r' !in path
    && forall part <- Split(path, '/') :: part !in {"", ".", ".."}
  }

  /** A name of a file or directory, as a canonical path has them. */
  ghost predicate IsName(part: string) {
    && part != "" && part != "." && part != ".."
    && forall c <- part :: c != '/' && c != '\\' && c != '\0' && c != '\n' && c != '\r'
  }

  /** MAIN: a changed path is canonical exactly when it is names joined by slashes. */
  lemma CanonicalIff(path: string)
    ensures IsCanonicalChangedPath(path) <==>
      exists parts: seq<string> :: parts != [] && (forall p <- parts :: IsName(p)) && path == Joined(parts, '/')
  {
    if IsCanonicalChangedPath(path) {
      var parts := Split(path, '/');
      JoinedSplit(path, '/');
      SplitIsFree(path, '/');
      forall p <- parts ensures IsName(p) {
        PartOfJoined(parts, '/', p);
        assert forall c <- p :: c in path;
      }
      assert path == Joined(parts, '/');
    }
    if parts: seq<string> :| parts != [] && (forall p <- parts :: IsName(p)) && path == Joined(parts, '/') {
      NamesAreCanonical(parts);
    }
  }

  lemma {:induction false} PartOfJoined(parts: seq<string>, sep: char, p: string)
    requires parts != [] && p in parts
    ensures forall c <- p :: c in Joined(parts, sep)
  {
    if p != parts[0] {
      assert p in parts[1..];
      PartOfJoined(parts[1..], sep, p);
    }
  }

  lemma {:induction false} JoinedHolds(parts: seq<string>, sep: char, c: char)
    requires parts != [] && c in Joined(parts, sep)
    ensures c == sep || exists p <- parts :: c in p
  {
    assert parts[0] in parts;
    if |parts| > 1 && c !in parts[0] && c != sep {
      JoinedHolds(parts[1..], sep, c);
      assert forall p <- parts[1..] :: p in parts;
    }
  }

  lemma NamesAreCanonical(parts: seq<string>)
    requires parts != [] && forall p <- parts :: IsName(p)
    ensures IsCanonicalChangedPath(Joined(parts, '/'))
  {
    var path := Joined(parts, '/');
    SplitJoined(parts, '/');
    assert parts[0] in parts;
    assert path != "" && path[0] == parts[0][0];
    forall c | c in {'\\', '\0', '\n', '\r'} ensures c !in path {
      if c in path {
        JoinedHolds(parts, '/', c);
      }
    }
  }

  predicate IsRegularMode(mode: string) {
    mode == "100644" || mode == "100755"
  }

  predicate IsUnsafeMode(mode: string) {
    mode == "120000" || mode == "160000"
  }

  predicate IsSafeRegularFileChange(c: Change) {
    if c.status == "A" then c.oldMode == ABSENT && IsRegularMode(c.newMode)
    else if c.status == "D" then IsRegularMode(c.oldMode) && c.newMode == ABSENT
    else c.status == "M" && c.oldMode == c.newMode && IsRegularMode(c.oldMode)
  }

  predicate IsAllowed(permits: string -> bool, c: Change) {
    && IsCanonicalChangedPath(c.path)
    && !IsUnsafeMode(c.oldMode) && !IsUnsafeMode(c.newMode)
    && IsSafeRegularFileChange(c)
    && permits(c.path)
  }

  datatype Reason = PathInvalid | UnsafeKind | ModeForbidden | OutsideScope

  /** `validate_changes`: the paths, unless some change violates the scope; `permits` is the
      Task's own `permits_write_path`. */
  method ValidateChanges(permits: string -> bool, changes: seq<Change>) returns (o: Option<seq<string>>)
    ensures o.Some? <==> forall c <- changes :: IsAllowed(permits, c)
    ensures o.Some? ==> |o.value| == |changes| && forall i :: 0 <= i < |changes| ==> o.value[i] == changes[i].path
  {
    hide IsCanonicalChangedPath;
    var violations: seq<(string, Reason)> := [];
    for i := 0 to |changes|
      invariant violations == [] <==> forall k :: 0 <= k < i ==> IsAllowed(permits, changes[k])
    {
      var entry := changes[i];
      if !IsCanonicalChangedPath(entry.path) {
        violations := violations + [(entry.path, PathInvalid)];
        continue;
      }
      if IsUnsafeMode(entry.oldMode) || IsUnsafeMode(entry.newMode) {
        violations := violations + [(entry.path, UnsafeKind)];
      } else if !IsSafeRegularFileChange(entry) {
        violations := violations + [(entry.path, ModeForbidden)];
      } else if !permits(entry.path) {
        violations := violations + [(entry.path, OutsideScope)];
      }
    }
    if violations != [] {
      return None;
    }
    return Some(seq(|changes|, i requires 0 <= i < |changes| => changes[i].path));
  }

  predicate AbsentOrRegular(f: Option<File>) {
    f.Some? ==> f.value.mode.Regular? || f.value.mode.Executable?
  }

  /** What a step from one tree to another may do. */
  ghost predicate InScope(permits: string -> bool, a: Tree, b: Tree) {
    forall p <- Differing(a, b) ::
      && IsCanonicalChangedPath(p) && permits(p)
      && AbsentOrRegular(Get(a, p)) && AbsentOrRegular(Get(b, p))
      && (p in a && p in b ==> a[p].mode == b[p].mode)
  }

  /** MAIN: the parsed diff of two trees is accepted exactly when every differing path is
      canonical and permitted, absent or a regular file on both sides, and keeps its mode. */
  lemma AcceptedIffInScope(hash: File -> string, permits: string -> bool, a: Tree, b: Tree)
    ensures (forall p <- Differing(a, b) :: IsAllowed(permits, ChangeAt(hash, a, b, p))) <==> InScope(permits, a, b)
  {
    hide IsCanonicalChangedPath, Differing;
    forall p <- Differing(a, b)
      ensures IsAllowed(permits, ChangeAt(hash, a, b, p)) <==>
        && IsCanonicalChangedPath(p) && permits(p)
        && AbsentOrRegular(Get(a, p)) && AbsentOrRegular(Get(b, p))
        && (p in a && p in b ==> a[p].mode == b[p].mode)
    {
      AllowedAt(hash, permits, a, b, p);
    }
  }

  /** MAIN: and what arrives of that diff is accepted exactly then, whatever the paths hold: a path
      with a carriage return arrives as one that is not canonical. */
  lemma ArrivedIffInScope(hash: File -> string, permits: string -> bool, a: Tree, b: Tree, paths: seq<Path>)
    requires forall f :: IsObjectId(hash(f))
    requires PrintableTree(a) && PrintableTree(b) && Lists(paths, a, b)
    ensures var changes := ChangesAt(hash, a, b, paths);
      var parsed := Parse(Received(RawDiff(changes)));
      && (parsed.Some? && (forall c <- parsed.value :: IsAllowed(permits, c)) <==> InScope(permits, a, b))
      && (InScope(permits, a, b) ==> parsed == Some(SortBy(PathOf, changes)))
  {
    hide *;
    var changes := ChangesAt(hash, a, b, paths);
    var arrived := AllArrived(changes);
    ChangesArePrintable(hash, a, b, paths);
    PathsOfChanges(hash, a, b, paths);
    DiffArrives(changes);
    AcceptedIffInScope(hash, permits, a, b);
    DiffRoundTripIff(hash, a, b, paths);
    AllowedSorted(permits, arrived);
    AllowedChanges(hash, permits, a, b, paths);
    if InScope(permits, a, b) {
      ScopeIsClean(permits, a, b);
      forall c <- changes ensures '\r' !in c.path {
        assert c.path in Differing(a, b);
      }
      ArrivedAlike(changes);
    }
    if forall c <- arrived :: IsAllowed(permits, c) {
      forall c <- changes ensures '\r' !in c.path {
        var k :| 0 <= k < |changes| && changes[k] == c;
        assert arrived[k] in arrived;
        AllowedIsClean(permits, arrived[k], changes[k]);
      }
      ArrivedAlike(changes);
    }
  }

  lemma AllowedSorted(permits: string -> bool, changes: seq<Change>)
    ensures (forall c <- SortBy(PathOf, changes) :: IsAllowed(permits, c)) <==>
      forall c <- changes :: IsAllowed(permits, c)
  {
    hide IsAllowed;
    var sorted := SortBy(PathOf, changes);
    forall c ensures c in sorted <==> c in changes {
      assert c in multiset(sorted) <==> c in multiset(changes);
    }
  }

  lemma AllowedChanges(hash: File -> string, permits: string -> bool, a: Tree, b: Tree, paths: seq<Path>)
    requires Lists(paths, a, b)
    ensures (forall c <- ChangesAt(hash, a, b, paths) :: IsAllowed(permits, c)) <==>
      forall p <- Differing(a, b) :: IsAllowed(permits, ChangeAt(hash, a, b, p))
  {
    hide IsAllowed, ChangeAt, Differing;
    var changes := ChangesAt(hash, a, b, paths);
    if forall c <- changes :: IsAllowed(permits, c) {
      forall p <- Differing(a, b) ensures IsAllowed(permits, ChangeAt(hash, a, b, p)) {
        var i :| 0 <= i < |paths| && paths[i] == p;
        assert changes[i] in changes;
      }
    }
    if forall p <- Differing(a, b) :: IsAllowed(permits, ChangeAt(hash, a, b, p)) {
      forall c <- changes ensures IsAllowed(permits, c) {
        var i :| 0 <= i < |changes| && changes[i] == c;
        assert paths[i] in paths;
      }
    }
  }

  lemma ScopeIsClean(permits: string -> bool, a: Tree, b: Tree)
    requires InScope(permits, a, b)
    ensures forall p <- Differing(a, b) :: '\r' !in p
  {
    hide Differing, Split;
  }

  lemma AllowedIsClean(permits: string -> bool, arrived: Change, c: Change)
    requires IsAllowed(permits, arrived) && arrived.path == Received(c.path)
    ensures '\r' !in c.path
  {
    hide Split, Received;
    if '\r' in c.path {
      ReturnBecomesFeed(c.path);
    }
  }

  lemma AllowedAt(hash: File -> string, permits: string -> bool, a: Tree, b: Tree, p: Path)
    requires p in Differing(a, b)
    ensures IsAllowed(permits, ChangeAt(hash, a, b, p)) <==>
      && IsCanonicalChangedPath(p) && permits(p)
      && AbsentOrRegular(Get(a, p)) && AbsentOrRegular(Get(b, p))
      && (p in a && p in b ==> a[p].mode == b[p].mode)
  {
    hide IsCanonicalChangedPath;
  }

  /** The two trees agree wherever the Task may not write. */
  ghost predicate AgreeOutside(permits: string -> bool, a: Tree, b: Tree) {
    forall p :: !permits(p) ==> Get(a, p) == Get(b, p)
  }

  ghost predicate AcceptedSteps(permits: string -> bool, trees: seq<Tree>) {
    forall i :: 0 < i < |trees| ==> InScope(permits, trees[i - 1], trees[i])
  }

  /** MAIN: over any chain of accepted steps, everything outside the scope stays as it was, and
      a path that is not canonical is never touched. */
  lemma {:induction false} ChainsStayInScope(permits: string -> bool, trees: seq<Tree>, i: nat, j: nat)
    requires AcceptedSteps(permits, trees) && i <= j < |trees|
    ensures AgreeOutside(permits, trees[i], trees[j])
    ensures forall p :: !IsCanonicalChangedPath(p) ==> Get(trees[i], p) == Get(trees[j], p)
    decreases j
  {
    hide IsCanonicalChangedPath;
    if i < j {
      ChainsStayInScope(permits, trees, i, j - 1);
      assert InScope(permits, trees[j - 1], trees[j]);
      forall p | !permits(p) || !IsCanonicalChangedPath(p) ensures Get(trees[j - 1], p) == Get(trees[j], p) {
        assert p !in Differing(trees[j - 1], trees[j]);
      }
    }
  }

  // ----- A source snapshot -----

  datatype ScopeError = BaselineUntrusted | LineageInvalid | ScopeViolation | DiffInvalid

  /** `validate_source`, over a repository whose diffs are printed by Git in some order. */
  method ValidateSource(commits: seq<Commit>, permits: string -> bool, trusted: CommitId, baseline: CommitId,
                        source: CommitId,
                        hash: File -> string, ghost paths: seq<Path>, output: string)
    returns (o: Outcome<seq<string>, ScopeError>)
    requires WellParented(commits) && trusted < |commits| && source < |commits| && baseline < |commits|
    requires PrintableTree(commits[baseline].tree) && PrintableTree(commits[source].tree)
    requires forall f :: IsObjectId(hash(f))
    requires Lists(paths, commits[baseline].tree, commits[source].tree)
    requires output == Received(RawDiff(ChangesAt(hash, commits[baseline].tree, commits[source].tree, paths)))
    ensures o.Done? <==>
      && IsAncestor(commits, baseline, trusted) && IsAncestor(commits, baseline, source)
      && InScope(permits, commits[baseline].tree, commits[source].tree)
    ensures o.Done? ==> forall p :: p in o.value <==> p in Differing(commits[baseline].tree, commits[source].tree)
    ensures o.Done? ==> AgreeOutside(permits, commits[baseline].tree, commits[source].tree)
  {
    hide *;
    if !IsAncestor(commits, baseline, trusted) {
      return Refused(BaselineUntrusted);
    }
    if !IsAncestor(commits, baseline, source) {
      return Refused(LineageInvalid);
    }
    ghost var a, b := commits[baseline].tree, commits[source].tree;
    ArrivedIffInScope(hash, permits, a, b, paths);
    var changes := Changes(output);
    if changes.None? {
      return Refused(DiffInvalid);
    }
    var accepted := ValidateChanges(permits, changes.value);
    if accepted.None? {
      return Refused(ScopeViolation);
    }
    AcceptedPaths(hash, a, b, paths, accepted.value);
    ScopeAgrees(permits, a, b);
    return Done(accepted.value);
  }

  lemma AcceptedPaths(hash: File -> string, a: Tree, b: Tree, paths: seq<Path>, accepted: seq<string>)
    requires Lists(paths, a, b)
    requires var sorted := SortBy(PathOf, ChangesAt(hash, a, b, paths));
      |accepted| == |sorted| && forall i :: 0 <= i < |sorted| ==> accepted[i] == sorted[i].path
    ensures forall p :: p in accepted <==> p in Differing(a, b)
  {
    SortedChanges(hash, a, b, paths);
    hide ChangesAt, Differing, Lists, Below, SortBy;
    var sorted := SortBy(PathOf, ChangesAt(hash, a, b, paths));
    forall p ensures p in accepted <==> p in Differing(a, b) {
      if p in accepted {
        var i :| 0 <= i < |accepted| && accepted[i] == p;
        assert sorted[i] in sorted;
      }
      if p in Differing(a, b) {
        ChangePath(hash, a, b, p);
        assert ChangeAt(hash, a, b, p) in sorted;
        var k :| 0 <= k < |sorted| && sorted[k] == ChangeAt(hash, a, b, p);
        assert accepted[k] == p;
      }
    }
  }

  lemma ScopeAgrees(permits: string -> bool, a: Tree, b: Tree)
    requires InScope(permits, a, b)
    ensures AgreeOutside(permits, a, b)
  {
    hide Differing;
    assert InScope(permits, [a, b][0], [a, b][1]);
    ChainsStayInScope(permits, [a, b], 0, 1);
  }
}
