/** Reading parents and message out of a raw commit object
    (src/researchctl/adapters/git_evidence.py). */
module CommitObject {
  import opened Wrappers
  import opened Text

  const MAX_COMMIT_BYTES := 256 * 1024

  /** Where Python's `str.splitlines` ends a line. */
  predicate EndsLine(c: char) {
    var u := c as int;
    0x0a <= u <= 0x0d || 0x1c <= u <= 0x1e || u == 0x85 || u == 0x2028 || u == 0x2029
  }

  /** `str.splitlines`. */
  function Lines(s: string): seq<string> {
    if s == "" then []
    else if s[0] == '\r' && |s| > 1 && s[1] == '\n' then [""] + Lines(s[2..])
    else if EndsLine(s[0]) then [""] + Lines(s[1..])
    else
      var rest := Lines(s[1..]);
      if rest == [] then [[s[0]]] else [[s[0]] + rest[0]] + rest[1..]
  }

  datatype Record = Record(parents: seq<string>, message: string)

  const PARENT := "parent "

  predicate IsParentLine(line: string) {
    PARENT <= line
  }

  /** The object ids of the parent lines, in order; None when one of them is no object id. */
  function Parents(validId: string -> bool, lines: seq<string>): Option<seq<string>> {
    if lines == [] then Some([])
    else
      var before, line := Parents(validId, lines[..|lines| - 1]), lines[|lines| - 1];
      if before.None? || !IsParentLine(line) then before
      else if validId(line[|PARENT|..]) then Some(before.value + [line[|PARENT|..]])
      else None
  }

  /** What is made of the text of a commit. */
  function Read(validId: string -> bool, content: string): Option<Record> {
    match Find(content, "\n\n", 0)
    case None => None
    case Some(i) =>
      match Parents(validId, Lines(content[..i]))
      case None => None
      case Some(parents) => Some(Record(parents, content[i + 2..]))
  }

  /** What is made of a commit object, which arrives as text and must have kept its size. */
  function ReadObject(validId: string -> bool, raw: string): Option<Record> {
    if Utf8Size(raw) > MAX_COMMIT_BYTES || Utf8Size(Received(raw)) != Utf8Size(raw) then None
    else Read(validId, Received(raw))
  }

  /** `_read_commit`. */
  method ReadCommit(validId: string -> bool, raw: string) returns (o: Option<Record>)
    ensures o == ReadObject(validId, raw)
  {
    var size := Utf8Size(raw);
    if size > MAX_COMMIT_BYTES {
      return None;
    }
    var content := Received(raw);
    if Utf8Size(content) != size {
      return None;
    }
    var separator := Find(content, "\n\n", 0);
    if separator.None? {
      return None;
    }
    var lines := Lines(content[..separator.value]);
    var parents: seq<string> := [];
    for k := 0 to |lines|
      invariant Parents(validId, lines[..k]) == Some(parents)
    {
      assert lines[..k + 1][..k] == lines[..k];
      if !IsParentLine(lines[k]) {
        continue;
      }
      var parent := lines[k][|PARENT|..];
      if !validId(parent) {
        BadParentStays(validId, lines, k + 1);
        return None;
      }
      parents := parents + [parent];
    }
    assert lines[..|lines|] == lines;
    return Some(Record(parents, content[separator.value + 2..]));
  }

  lemma {:induction false} BadParentStays(validId: string -> bool, lines: seq<string>, k: nat)
    requires k <= |lines| && Parents(validId, lines[..k]).None?
    ensures Parents(validId, lines).None?
    decreases |lines| - k
  {
    if k < |lines| {
      assert lines[..k + 1][..k] == lines[..k];
      BadParentStays(validId, lines, k + 1);
    } else {
      assert lines[..k] == lines;
    }
  }

  // ----- Commits as Git writes them -----

  /** A commit as Git writes it: a tree, its parents, and further header lines such as the
      author; then an empty line and the message. */
  datatype Commit = Commit(tree: string, parents: seq<string>, others: seq<string>, message: string)

  ghost predicate OneLine(s: string) {
    forall i :: 0 <= i < |s| ==> !EndsLine(s[i])
  }

  /** What Git sees to: object ids are ids, and a header line has no line feed. Names in it can
      hold any other character at which Python ends a line. */
  ghost predicate Written(validId: string -> bool, c: Commit) {
    && OneLine(c.tree)
    && (forall p <- c.parents :: validId(p) && OneLine(p))
    && (forall h <- c.others :: h != "" && '\n' !in h)
  }

  function ParentLines(parents: seq<string>): (lines: seq<string>)
    ensures |lines| == |parents| && forall i :: 0 <= i < |lines| ==> lines[i] == PARENT + parents[i]
  {
    seq(|parents|, i requires 0 <= i < |parents| => PARENT + parents[i])
  }

  /** Each line behind a line feed. */
  function Behind(lines: seq<string>): string {
    if lines == [] then "" else "\n" + lines[0] + Behind(lines[1..])
  }

  /** The header lines that Git itself makes up. */
  function Top(c: Commit): string {
    "tree " + c.tree + Behind(ParentLines(c.parents))
  }

  function Write(c: Commit): string {
    Top(c) + Behind(c.others) + "\n\n" + c.message
  }

  // ----- Lines of joined text -----

  /** What stands behind a line end at the end of a text, up to a line feed. */
  function Rest(a: string): seq<string> {
    if a == "" || EndsLine(a[|a| - 1]) then [""] else []
  }

  /** A first character put before some lines: it ends a line of its own, or starts the first. */
  function First(c: char, ends: bool, lines: seq<string>): seq<string> {
    if ends then [""] + lines
    else if lines == [] then [[c]]
    else [[c] + lines[0]] + lines[1..]
  }

  lemma FirstJoins(c: char, ends: bool, a: seq<string>, r: seq<string>, b: seq<string>)
    requires a != []
    ensures First(c, ends, a + r + b) == First(c, ends, a) + r + b
  {
    assert (a + r + b)[1..] == a[1..] + r + b;
    assert [""] + (a + r + b) == [""] + a + r + b;
  }

  lemma FirstAlone(c: char, ends: bool, b: seq<string>)
    ensures First(c, ends, [""] + b) == First(c, ends, []) + (if ends then [""] else []) + b
  {
    assert ([""] + b)[1..] == b && [c] + "" == [c];
  }

  lemma LinesStep(s: string)
    requires s != "" && s[0] != '\r'
    ensures Lines(s) == First(s[0], EndsLine(s[0]), Lines(s[1..])) != []
  {
    hide EndsLine;
    assert EndsLine(s[0]) ==> [""] + Lines(s[1..]) != [];
  }

  lemma {:induction false} LinesJoin(a: string, b: string)
    requires '\r' !in a
    ensures Lines(a + "\n" + b) == Lines(a) + Rest(a) + Lines(b)
  {
    hide *;
    if a == "" {
      LinesOfFeed(b);
    } else {
      var all := a + "\n" + b;
      LinesStep(a);
      JoinTail(a, b);
      LinesStep(all);
      RestTail(a);
      if a[1..] == "" {
        LinesOfFeed(b);
        NoLines();
        FirstAlone(a[0], EndsLine(a[0]), Lines(b));
      } else {
        LinesJoin(a[1..], b);
        LinesStep(a[1..]);
        FirstJoins(a[0], EndsLine(a[0]), Lines(a[1..]), Rest(a), Lines(b));
      }
    }
  }

  lemma JoinTail(a: string, b: string)
    requires a != "" && '\r' !in a
    ensures var all := a + "\n" + b; all != "" && all[0] == a[0] != '\r' && all[1..] == a[1..] + "\n" + b
    ensures a[1..] != "" ==> a[1..][0] != '\r'
    ensures '\r' !in a[1..]
  {
    assert forall c <- a[1..] :: c in a;
  }

  lemma RestTail(a: string)
    requires a != ""
    ensures Rest(a) == if a[1..] != "" then Rest(a[1..]) else if EndsLine(a[0]) then [""] else []
  {
    hide EndsLine;
  }

  lemma LinesOfFeed(b: string)
    ensures Lines("" + "\n" + b) == [""] + Lines(b)
    ensures Lines("" + "\n" + b) == Lines("") + Rest("") + Lines(b)
  {
    var all := "" + "\n" + b;
    assert all[0] == '\n' && all[1..] == b;
  }

  lemma NoLines()
    ensures Lines("") == []
  {
  }

  lemma {:induction false} LinesOfLine(line: string)
    requires line != "" && OneLine(line)
    ensures Lines(line) == [line]
  {
    if |line| > 1 {
      LinesOfLine(line[1..]);
      assert [line[0]] + line[1..] == line;
    } else {
      assert line[1..] == "" && line == [line[0]];
    }
  }

  /** Where carriage returns are cut like line feeds, a text has the lines it arrives with. */
  lemma {:induction false} LinesOfReceived(s: string)
    requires '\n' !in s
    ensures Lines(Received(s)) == Lines(s)
  {
    if s != "" {
      assert s[0] in s && forall c <- s[1..] :: c in s;
      LinesOfReceived(s[1..]);
      var r := Received(s);
      assert |s| > 1 ==> s[1] in s;
      assert r[1..] == Received(s[1..]);
    }
  }

  // ----- The parents in a text -----

  function Both(a: Option<seq<string>>, b: Option<seq<string>>): Option<seq<string>> {
    if a.None? || b.None? then None else Some(a.value + b.value)
  }

  lemma {:induction false} ParentsJoin(validId: string -> bool, a: seq<string>, b: seq<string>)
    ensures Parents(validId, a + b) == Both(Parents(validId, a), Parents(validId, b))
  {
    if b == [] {
      assert a + b == a;
      assert Parents(validId, a).Some? ==> Parents(validId, a).value + [] == Parents(validId, a).value;
    } else {
      assert (a + b)[..|a + b| - 1] == a + b[..|b| - 1];
      var x, y, line := Parents(validId, a), Parents(validId, b[..|b| - 1]), b[|b| - 1];
      ParentsJoin(validId, a, b[..|b| - 1]);
      if x.Some? && y.Some? && IsParentLine(line) {
        assert (x.value + y.value) + [line[|PARENT|..]] == x.value + (y.value + [line[|PARENT|..]]);
      }
    }
  }

  lemma {:induction false} NoParentsIff(validId: string -> bool, lines: seq<string>)
    ensures Parents(validId, lines) == Some([]) <==> forall l <- lines :: !IsParentLine(l)
  {
    if lines != [] {
      var before, last := lines[..|lines| - 1], lines[|lines| - 1];
      NoParentsIff(validId, before);
      assert lines == before + [last];
    }
  }

  lemma {:induction false} ParentsAreLines(validId: string -> bool, lines: seq<string>)
    requires Parents(validId, lines).Some?
    ensures forall p <- Parents(validId, lines).value :: PARENT + p in lines
  {
    if lines != [] {
      var before, last := lines[..|lines| - 1], lines[|lines| - 1];
      ParentsAreLines(validId, before);
      assert lines == before + [last];
      if IsParentLine(last) {
        assert PARENT + last[|PARENT|..] == last;
      }
    }
  }

  /** The object ids that the lines of a text give. */
  function In(validId: string -> bool, text: string): Option<seq<string>> {
    Parents(validId, Lines(text))
  }

  function InAll(validId: string -> bool, texts: seq<string>): Option<seq<string>> {
    if texts == [] then Some([]) else Both(In(validId, texts[0]), InAll(validId, texts[1..]))
  }

  lemma InJoined(validId: string -> bool, a: string, b: string)
    requires '\r' !in a
    ensures In(validId, a + "\n" + b) == Both(In(validId, a), In(validId, b))
  {
    hide Lines;
    LinesJoin(a, b);
    ParentsJoin(validId, Lines(a) + Rest(a), Lines(b));
    ParentsJoin(validId, Lines(a), Rest(a));
    NoParentsIff(validId, Rest(a));
    if In(validId, a).Some? {
      assert In(validId, a).value + [] == In(validId, a).value;
    }
  }

  lemma {:induction false} InBehind(validId: string -> bool, a: string, texts: seq<string>)
    requires '\r' !in a && forall t <- texts :: '\r' !in t
    ensures In(validId, a + Behind(texts)) == Both(In(validId, a), InAll(validId, texts))
    decreases |texts|
  {
    hide In;
    if texts == [] {
      assert a + Behind(texts) == a;
      assert In(validId, a).Some? ==> In(validId, a).value + [] == In(validId, a).value;
    } else {
      var b := texts[0] + Behind(texts[1..]);
      assert a + Behind(texts) == a + "\n" + b;
      assert texts[0] in texts && forall t <- texts[1..] :: t in texts;
      InJoined(validId, a, b);
      InBehind(validId, texts[0], texts[1..]);
      BothJoins(In(validId, a), In(validId, texts[0]), InAll(validId, texts[1..]));
    }
  }

  lemma BothJoins(a: Option<seq<string>>, b: Option<seq<string>>, c: Option<seq<string>>)
    ensures Both(a, Both(b, c)) == Both(Both(a, b), c)
  {
    if a.Some? && b.Some? && c.Some? {
      assert a.value + (b.value + c.value) == a.value + b.value + c.value;
    }
  }

  lemma {:induction false} InParentLines(validId: string -> bool, parents: seq<string>)
    requires forall p <- parents :: validId(p) && OneLine(p)
    ensures InAll(validId, ParentLines(parents)) == Some(parents)
  {
    if parents != [] {
      var line := PARENT + parents[0];
      assert parents[0] in parents && forall p <- parents[1..] :: p in parents;
      assert ParentLines(parents)[1..] == ParentLines(parents[1..]);
      InParentLines(validId, parents[1..]);
      ParentLineReads(validId, parents[0]);
      assert parents == [parents[0]] + parents[1..];
    }
  }

  lemma ParentLineIsOne(p: string)
    requires OneLine(p)
    ensures OneLine(PARENT + p) && PARENT + p != ""
  {
    assert OneLine(PARENT);
  }

  lemma ParentLineReads(validId: string -> bool, p: string)
    requires validId(p) && OneLine(p)
    ensures In(validId, PARENT + p) == Some([p])
  {
    var line := PARENT + p;
    assert OneLine(line) && line[|PARENT|..] == p && IsParentLine(line);
    LinesOfLine(line);
    hide Lines;
    assert [line][..0] == [] && [] + [p] == [p];
    assert Parents(validId, [line]) == Some([] + [line[|PARENT|..]]);
  }

  /** The lines that Git makes up give just the parents. */
  lemma InTop(validId: string -> bool, c: Commit)
    requires Written(validId, c)
    ensures '\r' !in Top(c) && In(validId, Top(c)) == Some(c.parents)
  {
    assert OneLine(c.tree) && forall p <- c.parents :: validId(p) && OneLine(p);
    TopIs(c);
    hide *;
    TreeLineReads(validId, c.tree);
    ParentLinesAreClean(validId, c.parents);
    InParentLines(validId, c.parents);
    InBehind(validId, "tree " + c.tree, ParentLines(c.parents));
    CleanBehind("tree " + c.tree, ParentLines(c.parents));
    NothingBefore(c.parents);
  }

  lemma TopIs(c: Commit)
    ensures Top(c) == "tree " + c.tree + Behind(ParentLines(c.parents))
  {
  }

  lemma NothingBefore(a: seq<string>)
    ensures Both(Some([]), Some(a)) == Some(a)
  {
    assert [] + a == a;
  }

  lemma TreeLineReads(validId: string -> bool, tree: string)
    requires OneLine(tree)
    ensures '\r' !in "tree " + tree && In(validId, "tree " + tree) == Some([])
  {
    var line := "tree " + tree;
    assert OneLine("tree ") && OneLine(line) && line[0] == 't' && PARENT[0] == 'p';
    OneLineIsClean(line);
    hide OneLine, Lines;
    LinesOfLine(line);
    NoParentsIff(validId, [line]);
  }

  lemma ParentLinesAreClean(validId: string -> bool, parents: seq<string>)
    requires forall p <- parents :: validId(p) && OneLine(p)
    ensures forall l <- ParentLines(parents) :: '\r' !in l
  {
    hide OneLine;
    forall l <- ParentLines(parents) ensures '\r' !in l {
      var k :| 0 <= k < |parents| && l == PARENT + parents[k];
      ParentLineIsOne(parents[k]);
      OneLineIsClean(l);
    }
  }

  lemma OneLineIsClean(s: string)
    requires OneLine(s)
    ensures '\r' !in s && '\n' !in s
  {
    assert forall c <- s :: exists i :: 0 <= i < |s| && s[i] == c;
  }

  lemma {:induction false} CleanBehind(a: string, texts: seq<string>)
    requires '\r' !in a && forall t <- texts :: '\r' !in t
    ensures '\r' !in a + Behind(texts)
    decreases |texts|
  {
    if texts != [] {
      assert texts[0] in texts && forall t <- texts[1..] :: t in texts;
      CleanBehind(texts[0], texts[1..]);
      assert Behind(texts) == "\n" + (texts[0] + Behind(texts[1..]));
    }
  }

  // ----- Where the headers end -----

  /** No line of the text is blank, as far as line feeds go. */
  ghost predicate NoBlankLine(s: string) {
    && s != "" && s[0] != '\n' && s[|s| - 1] != '\n'
    && forall i :: 0 < i < |s| ==> !(s[i - 1] == '\n' && s[i] == '\n')
  }

  lemma NoBlankJoins(a: string, b: string)
    ensures NoBlankLine(a + "\n" + b) <==> NoBlankLine(a) && NoBlankLine(b)
  {
    var all := a + "\n" + b;
    assert forall i :: 0 <= i < |a| ==> all[i] == a[i];
    assert all[|a|] == '\n' && forall i :: 0 <= i < |b| ==> all[|a| + 1 + i] == b[i];
    if NoBlankLine(all) {
      assert a != "" && b != "";
      assert all[|a| - 1] != '\n' && all[|a| + 1] != '\n';
      forall i | 0 < i < |b| ensures !(b[i - 1] == '\n' && b[i] == '\n') {
        assert !(all[|a| + 1 + i - 1] == '\n' && all[|a| + 1 + i] == '\n');
      }
    }
    if NoBlankLine(a) && NoBlankLine(b) {
      forall i | 0 < i < |all| ensures !(all[i - 1] == '\n' && all[i] == '\n') {
        if i > |a| + 1 {
          assert all[i] == b[i - |a| - 1] && all[i - 1] == b[i - |a| - 2];
        }
      }
    }
  }

  lemma {:induction false} NoBlankBehind(a: string, texts: seq<string>)
    ensures NoBlankLine(a + Behind(texts)) <==> NoBlankLine(a) && forall t <- texts :: NoBlankLine(t)
    decreases |texts|
  {
    hide NoBlankLine;
    BehindStep(a, texts);
    if texts != [] {
      hide Behind;
      NoBlankJoins(a, texts[0] + Behind(texts[1..]));
      NoBlankBehind(texts[0], texts[1..]);
      forall t ensures t in texts <==> t == texts[0] || t in texts[1..] {
        assert texts == [texts[0]] + texts[1..];
      }
    }
  }

  lemma BehindStep(a: string, texts: seq<string>)
    ensures a + Behind(texts) == if texts == [] then a else a + "\n" + (texts[0] + Behind(texts[1..]))
  {
    if texts != [] {
      var x, y := texts[0], Behind(texts[1..]);
      assert Behind(texts) == "\n" + x + y;
      hide Behind;
      FeedRegrouped(a, x, y);
    }
  }

  lemma FeedRegrouped(a: string, x: string, y: string)
    ensures a + ("\n" + x + y) == a + "\n" + (x + y)
  {
  }

  /** The first empty line ends the headers exactly when they have no blank line of their own. */
  lemma HeaderEnds(header: string, message: string)
    requires header != "" && header[0] != '\n'
    ensures var end := Find(header + "\n\n" + message, "\n\n", 0);
      && end.Some? && end.value <= |header|
      && (end.value == |header| <==> NoBlankLine(header))
  {
    hide OccursAt, NoBlankLine;
    var all := header + "\n\n" + message;
    BlankOccurs(all, |header|);
    if !NoBlankLine(header) {
      var i := BlankLineOf(header, message);
      BlankOccurs(all, i);
    } else {
      forall i | 0 <= i < |header| ensures !OccursAt(all, "\n\n", i) {
        BlankOccurs(all, i);
        NoBlankLineAt(header, message, i);
      }
    }
  }

  lemma BlankOccurs(s: string, i: nat)
    ensures OccursAt(s, "\n\n", i) <==> i + 1 < |s| && s[i] == '\n' && s[i + 1] == '\n'
  {
    if i + 2 <= |s| {
      var two := s[i..i + 2];
      assert two[0] == s[i] && two[1] == s[i + 1];
      assert two == [s[i], s[i + 1]];
    }
  }

  lemma BlankLineOf(header: string, message: string) returns (i: nat)
    requires header != "" && header[0] != '\n' && !NoBlankLine(header)
    ensures var all := header + "\n\n" + message; i < |header| && all[i] == '\n' && all[i + 1] == '\n'
  {
    if header[|header| - 1] == '\n' {
      i := |header| - 1;
    } else {
      var k :| 0 < k < |header| && header[k - 1] == '\n' && header[k] == '\n';
      i := k - 1;
    }
  }

  lemma NoBlankLineAt(header: string, message: string, i: nat)
    requires NoBlankLine(header) && i < |header|
    ensures var all := header + "\n\n" + message; !(all[i] == '\n' && all[i + 1] == '\n')
  {
    if i + 1 < |header| {
      assert !(header[i + 1 - 1] == '\n' && header[i + 1] == '\n');
    }
  }

  // ----- What is read of a commit as Git writes it -----

  ghost predicate EndsInReturn(s: string) {
    s != "" && s[|s| - 1] == '\r'
  }

  lemma CrLfJoins(a: string, b: string)
    ensures HasCrLf(a + b) <==> HasCrLf(a) || HasCrLf(b) || (EndsInReturn(a) && b != "" && b[0] == '\n')
  {
    var all := a + b;
    if HasCrLf(all) {
      var i :| 0 < i < |all| && all[i - 1] == '\r' && all[i] == '\n';
      if i > |a| {
        assert b[i - |a| - 1] == '\r' && b[i - |a|] == '\n';
      }
    }
    if HasCrLf(a) {
      var i :| 0 < i < |a| && a[i - 1] == '\r' && a[i] == '\n';
      assert all[i - 1] == '\r' && all[i] == '\n';
    }
    if HasCrLf(b) {
      var i :| 0 < i < |b| && b[i - 1] == '\r' && b[i] == '\n';
      assert all[|a| + i - 1] == '\r' && all[|a| + i] == '\n';
    }
    if EndsInReturn(a) && b != "" && b[0] == '\n' {
      assert all[|a| - 1] == '\r' && all[|a|] == '\n';
    }
  }

  /** Behind clean lines, carriage returns before line feeds come from lines that end in one. */
  lemma {:induction false} CrLfBehind(a: string, texts: seq<string>, tail: string)
    requires forall t <- texts :: t != "" && '\n' !in t
    requires tail != "" && tail[0] == '\n'
    ensures HasCrLf(a + Behind(texts) + tail) <==>
      HasCrLf(a) || EndsInReturn(a) || (exists t <- texts :: EndsInReturn(t)) || HasCrLf(tail)
    decreases |texts|
  {
    hide HasCrLf;
    if texts == [] {
      assert a + Behind(texts) + tail == a + tail;
      CrLfJoins(a, tail);
    } else {
      var first := "\n" + texts[0];
      var rest := first + Behind(texts[1..]) + tail;
      assert a + Behind(texts) + tail == a + rest;
      assert texts[0] in texts && forall t <- texts[1..] :: t in texts;
      assert texts == [texts[0]] + texts[1..];
      CrLfJoins(a, rest);
      CrLfBehind(first, texts[1..], tail);
      NoCrLfInLine(texts[0]);
    }
  }

  lemma NoCrLfInLine(s: string)
    requires '\n' !in s
    ensures !HasCrLf(s) && !HasCrLf("\n" + s)
  {
    forall i | 0 <= i < |s| ensures s[i] != '\n' {
      assert s[i] in s;
    }
  }

  lemma {:induction false} ReceivedBehind(a: string, texts: seq<string>, tail: string)
    requires !EndsInReturn(a) && forall t <- texts :: t != "" && !EndsInReturn(t)
    ensures Received(a + Behind(texts) + tail) == Received(a) + Behind(AllReceived(texts)) + Received(tail)
    decreases |texts|
  {
    hide Received;
    if texts == [] {
      assert a + Behind(texts) + tail == a + tail && Received(a) + Behind([]) == Received(a);
      ReceivedJoins(a, tail);
    } else {
      var first := "\n" + texts[0];
      assert a + Behind(texts) + tail == a + (first + Behind(texts[1..]) + tail);
      assert texts[0] in texts && forall t <- texts[1..] :: t in texts;
      ReceivedJoins(a, first + Behind(texts[1..]) + tail);
      ReceivedBehind(first, texts[1..], tail);
      ReceivedLine(texts[0]);
      assert AllReceived(texts) == [Received(texts[0])] + AllReceived(texts[1..]);
    }
  }

  lemma ReceivedLine(s: string)
    ensures Received("\n" + s) == "\n" + Received(s)
  {
    assert ("\n" + s)[1..] == s;
  }

  /** The commit as it arrives. */
  function Arrived(c: Commit): Commit {
    c.(others := AllReceived(c.others), message := Received(c.message))
  }

  lemma WriteArrives(validId: string -> bool, c: Commit)
    requires Written(validId, c)
    ensures HasCrLf(Write(c)) <==> (exists h <- c.others :: EndsInReturn(h)) || HasCrLf(c.message)
    ensures !HasCrLf(Write(c)) ==> Received(Write(c)) == Write(Arrived(c))
  {
    var top, tail := Top(c), "\n\n" + c.message;
    assert forall h <- c.others :: h != "" && '\n' !in h;
    WriteParts(c);
    WriteParts(Arrived(c));
    hide *;
    InTop(validId, c);
    CleanHasNoCrLf(top);
    CrLfBehind(top, c.others, tail);
    CrLfOfTail(c.message);
    if !HasCrLf(Write(c)) {
      ReceivedBehind(top, c.others, tail);
      ReceivedIff(top);
      SameTop(c);
    }
  }

  lemma WriteParts(c: Commit)
    ensures Write(c) == Top(c) + Behind(c.others) + ("\n\n" + c.message)
  {
    hide Top, Behind;
  }

  lemma CrLfOfTail(message: string)
    ensures var tail := "\n\n" + message;
      && tail != "" && tail[0] == '\n'
      && (HasCrLf(tail) <==> HasCrLf(message)) && Received(tail) == "\n\n" + Received(message)
  {
    hide HasCrLf, Received;
    CrLfJoins("\n\n", message);
    CleanHasNoCrLf("\n\n");
    ReceivedLine("\n" + message);
    ReceivedLine(message);
    assert "\n\n" + message == "\n" + ("\n" + message);
  }

  lemma SameTop(c: Commit)
    ensures Top(Arrived(c)) == Top(c)
    ensures Arrived(c).others == AllReceived(c.others) && Arrived(c).message == Received(c.message)
  {
  }

  lemma CleanHasNoCrLf(s: string)
    requires '\r' !in s
    ensures !HasCrLf(s) && !EndsInReturn(s)
  {
    forall i | 0 <= i < |s| ensures s[i] != '\r' {
      assert s[i] in s;
    }
  }

  /** The made-up lines have no blank one among them. */
  lemma TopIsPlain(validId: string -> bool, c: Commit)
    requires Written(validId, c)
    ensures NoBlankLine(Top(c)) && Top(c)[0] != '\n'
  {
    var tree := "tree " + c.tree;
    assert OneLine("tree ") && OneLine(tree);
    hide OneLine;
    NoBlankInLine(tree);
    forall l <- ParentLines(c.parents) ensures NoBlankLine(l) {
      var k :| 0 <= k < |c.parents| && l == PARENT + c.parents[k];
      ParentLineIsOne(c.parents[k]);
      NoBlankInLine(l);
    }
    NoBlankBehind(tree, ParentLines(c.parents));
  }

  lemma NoBlankInLine(s: string)
    requires s != "" && OneLine(s)
    ensures NoBlankLine(s)
  {
    assert forall i :: 0 <= i < |s| ==> s[i] != '\n';
  }

  /** A header line from which no parent can be cut, at any line end that Python knows. */
  predicate HidesNoParent(h: string) {
    forall l <- Lines(h) :: !IsParentLine(l)
  }

  /** Header lines from which no parent and no end of the headers can be cut. */
  ghost predicate Harmless(c: Commit) {
    forall h <- c.others :: HidesNoParent(h) && NoBlankLine(Received(h))
  }

  /** A text without carriage returns is read by its header lines. */
  lemma ReadsArrived(validId: string -> bool, c: Commit)
    requires Written(validId, c) && !HasCrLf(Write(c))
    ensures Received(Write(c)) == Top(c) + Behind(AllReceived(c.others)) + "\n\n" + Received(c.message)
    ensures (forall h <- c.others :: NoBlankLine(Received(h))) ==>
      In(validId, Top(c) + Behind(AllReceived(c.others)))
        == Both(Some(c.parents), InAll(validId, AllReceived(c.others)))
      && Find(Received(Write(c)), "\n\n", 0) == Some(|Top(c) + Behind(AllReceived(c.others))|)
    ensures !(forall h <- c.others :: NoBlankLine(Received(h))) ==>
      var end := Find(Received(Write(c)), "\n\n", 0);
      end.Some? && end.value < |Top(c) + Behind(AllReceived(c.others))|
  {
    WriteArrives(validId, c);
    SameTop(c);
    var header := Top(c) + Behind(AllReceived(c.others));
    TopIsPlain(validId, c);
    InTop(validId, c);
    hide Top, Behind, NoBlankLine, In, Written;
    forall t <- AllReceived(c.others) ensures '\r' !in t {
      var k :| 0 <= k < |c.others| && t == Received(c.others[k]);
      ReceivedIsClean(c.others[k]);
    }
    InBehind(validId, Top(c), AllReceived(c.others));
    HeaderStarts(Top(c), AllReceived(c.others));
    HeaderEnds(header, Received(c.message));
    NoBlankBehind(Top(c), AllReceived(c.others));
    AllReceivedNoBlank(c.others);
  }

  lemma AllReceivedNoBlank(texts: seq<string>)
    ensures (forall t <- AllReceived(texts) :: NoBlankLine(t)) <==> forall h <- texts :: NoBlankLine(Received(h))
  {
    hide NoBlankLine, Received;
    var all := AllReceived(texts);
    if forall t <- all :: NoBlankLine(t) {
      forall h <- texts ensures NoBlankLine(Received(h)) {
        var k :| 0 <= k < |texts| && texts[k] == h;
        assert all[k] in all;
      }
    }
    if forall h <- texts :: NoBlankLine(Received(h)) {
      forall t <- all ensures NoBlankLine(t) {
        var k :| 0 <= k < |texts| && all[k] == t;
        assert texts[k] in texts;
      }
    }
  }

  lemma HeaderStarts(top: string, texts: seq<string>)
    requires top != "" && top[0] != '\n'
    ensures top + Behind(texts) != "" && (top + Behind(texts))[0] != '\n'
  {
  }

  lemma {:induction false} NothingHiddenIff(validId: string -> bool, texts: seq<string>)
    requires forall h <- texts :: '\n' !in h
    ensures InAll(validId, AllReceived(texts)) == Some([]) <==> forall h <- texts :: HidesNoParent(h)
  {
    hide Lines, Received, Parents;
    if texts != [] {
      assert texts[0] in texts && forall h <- texts[1..] :: h in texts;
      assert AllReceived(texts)[1..] == AllReceived(texts[1..]);
      NothingHiddenIff(validId, texts[1..]);
      LinesOfReceived(texts[0]);
      NoParentsIff(validId, Lines(texts[0]));
      BothNothingIff(In(validId, Received(texts[0])), InAll(validId, AllReceived(texts[1..])));
      hide HidesNoParent;
      forall h ensures h in texts <==> h == texts[0] || h in texts[1..] {
        assert texts == [texts[0]] + texts[1..];
      }
    }
  }

  lemma BothNothingIff(a: Option<seq<string>>, b: Option<seq<string>>)
    ensures Both(a, b) == Some([]) <==> a == Some([]) && b == Some([])
  {
    if a.Some? && b.Some? {
      assert |a.value + b.value| == |a.value| + |b.value|;
    }
  }

  /** MAIN: of a commit as Git writes it, the reader gets the parents and the message exactly when
      it is not too large, the message holds no carriage return, and no header line hides a
      parent or, in carriage returns, a blank line. */
  lemma ReadsWhatIsWrittenIff(validId: string -> bool, c: Commit)
    requires Written(validId, c)
    ensures ReadObject(validId, Write(c)) == Some(Record(c.parents, c.message)) <==>
      Utf8Size(Write(c)) <= MAX_COMMIT_BYTES && '\r' !in c.message && Harmless(c)
  {
    SizeKeptIff(Write(c));
    WriteArrives(validId, c);
    ReceivedIff(c.message);
    NothingHiddenIff(validId, c.others);
    if HasCrLf(Write(c)) {
      CrLfIsHarmful(validId, c);
    } else {
      ReadsArrived(validId, c);
      ReadByParts(validId, c);
    }
  }

  lemma CrLfIsHarmful(validId: string -> bool, c: Commit)
    requires Written(validId, c) && HasCrLf(Write(c))
    ensures '\r' in c.message || !Harmless(c)
  {
    WriteArrives(validId, c);
    assert forall h <- c.others :: h != "" && '\n' !in h;
    hide *;
    HarmlessIff(c);
    if HasCrLf(c.message) {
      if '\r' !in c.message {
        CleanHasNoCrLf(c.message);
      }
    } else {
      var h :| h in c.others && EndsInReturn(h);
      LineEndsBlank(h);
    }
  }

  lemma LineEndsBlank(h: string)
    requires '\n' !in h && EndsInReturn(h)
    ensures !NoBlankLine(Received(h))
  {
    NoCrLfInLine(h);
    ReceivedChars(h);
  }

  lemma ReadByParts(validId: string -> bool, c: Commit)
    requires Written(validId, c) && !HasCrLf(Write(c)) && Utf8Size(Received(Write(c))) == Utf8Size(Write(c))
    requires Received(c.message) == c.message <==> '\r' !in c.message
    requires InAll(validId, AllReceived(c.others)) == Some([]) <==> forall h <- c.others :: HidesNoParent(h)
    ensures ReadObject(validId, Write(c)) == Some(Record(c.parents, c.message)) <==>
      Utf8Size(Write(c)) <= MAX_COMMIT_BYTES && '\r' !in c.message && Harmless(c)
  {
    if forall h <- c.others :: NoBlankLine(Received(h)) {
      ReadWhole(validId, c);
      hide *;
      var hidden := InAll(validId, AllReceived(c.others));
      if hidden.Some? {
        NothingAdded(c.parents, hidden.value);
      }
      HarmlessIff(c);
      ReadObjectIs(validId, Write(c));
    } else {
      ReadCut(validId, c);
      hide *;
      HarmlessIff(c);
      ReadObjectIs(validId, Write(c));
    }
  }

  lemma HarmlessIff(c: Commit)
    ensures Harmless(c) <==>
      (forall h <- c.others :: HidesNoParent(h)) && (forall h <- c.others :: NoBlankLine(Received(h)))
  {
    hide HidesNoParent, NoBlankLine, Received;
  }

  lemma ReadObjectIs(validId: string -> bool, raw: string)
    requires Utf8Size(Received(raw)) == Utf8Size(raw)
    ensures ReadObject(validId, raw) ==
      if Utf8Size(raw) <= MAX_COMMIT_BYTES then Read(validId, Received(raw)) else None
  {
    hide Utf8Size, Received, Read;
  }

  lemma NothingAdded(a: seq<string>, b: seq<string>)
    ensures a + b == a <==> b == []
  {
    assert |a + b| == |a| + |b|;
  }

  /** Without blank lines of their own, the headers are all read. */
  lemma ReadWhole(validId: string -> bool, c: Commit)
    requires Written(validId, c) && !HasCrLf(Write(c)) && forall h <- c.others :: NoBlankLine(Received(h))
    ensures var hidden := InAll(validId, AllReceived(c.others));
      Read(validId, Received(Write(c))) ==
        if hidden.None? then None else Some(Record(c.parents + hidden.value, Received(c.message)))
  {
    ReadsArrived(validId, c);
    hide Top, Behind, NoBlankLine, Written, Write, HasCrLf, Parents, Lines, InAll, Received, AllReceived, Find;
    CutAt(Top(c) + Behind(AllReceived(c.others)), Received(c.message));
  }

  lemma CutAt(header: string, message: string)
    ensures var text := header + "\n\n" + message;
      text[..|header|] == header && text[|header| + 2..] == message
  {
  }

  /** With a blank line, the message that is read starts too early. */
  lemma ReadCut(validId: string -> bool, c: Commit)
    requires Written(validId, c) && !HasCrLf(Write(c)) && !forall h <- c.others :: NoBlankLine(Received(h))
    requires Received(c.message) == c.message <==> '\r' !in c.message
    ensures Read(validId, Received(Write(c))) != Some(Record(c.parents, c.message))
  {
    ReadsArrived(validId, c);
    ReceivedIsClean(Write(c));
    hide Top, Behind, NoBlankLine, Written, Write, HasCrLf, Parents, Lines, Received, AllReceived;
    var text := Received(Write(c));
    var end := Find(text, "\n\n", 0).value;
    assert |text[end + 2..]| > |Received(c.message)|;
    assert '\r' !in text[end + 2..];
  }

  /** So the commits that Git writes with one-line names, and ids as the only parents, read back. */
  lemma ReadsWhatIsWritten(validId: string -> bool, c: Commit)
    requires Written(validId, c) && (forall h <- c.others :: OneLine(h) && !IsParentLine(h))
    requires '\r' !in c.message && Utf8Size(Write(c)) <= MAX_COMMIT_BYTES
    ensures ReadObject(validId, Write(c)) == Some(Record(c.parents, c.message))
  {
    forall h <- c.others ensures HidesNoParent(h) && NoBlankLine(Received(h)) {
      OneLineIsClean(h);
      ReceivedIff(h);
      NoBlankInLine(h);
      LinesOfLine(h);
    }
    ReadsWhatIsWrittenIff(validId, c);
  }

  // ----- Parents that are not parents -----

  /** An author line whose name has a vertical tab on each side of a parent line. */
  function HidingLine(id: string): string {
    "author a" + [11 as char] + (PARENT + id) + [11 as char] + "b <e> 1 +0000"
  }

  lemma {:induction false} LinesAtBreak(a: string, c: char, b: string)
    requires OneLine(a) && EndsLine(c) && c != '\r'
    ensures Lines(a + [c] + b) == [a] + Lines(b)
  {
    var all := a + [c] + b;
    if a == "" {
      assert all[1..] == b;
    } else {
      assert all[1..] == a[1..] + [c] + b;
      LinesAtBreak(a[1..], c, b);
      assert [a[0]] + a[1..] == a;
    }
  }

  lemma LinesOfHidingLine(id: string)
    requires OneLine(id)
    ensures Lines(HidingLine(id)) == ["author a", PARENT + id, "b <e> 1 +0000"]
  {
    var t, first, last := 11 as char, "author a", "b <e> 1 +0000";
    assert OneLine(first) && OneLine(last) && EndsLine(t);
    hide Lines, EndsLine;
    ParentLineIsOne(id);
    hide OneLine;
    Regrouped(first, [t], PARENT + id, last);
    LinesAtBreak(first, t, PARENT + id + [t] + last);
    LinesAtBreak(PARENT + id, t, last);
    LinesOfLine(last);
  }

  lemma Regrouped(a: string, t: string, p: string, b: string)
    ensures a + t + (p + t + b) == a + t + p + t + b
  {
  }

  lemma HidingLineIsOne(id: string)
    requires OneLine(id)
    ensures HidingLine(id) != "" && '\n' !in HidingLine(id) && '\r' !in HidingLine(id)
  {
    OneLineIsClean(id);
    assert '\n' !in "author a" && '\r' !in "author a" && '\n' !in PARENT && '\r' !in PARENT;
    assert '\n' !in "b <e> 1 +0000" && '\r' !in "b <e> 1 +0000";
  }

  lemma InHidingLine(validId: string -> bool, id: string)
    requires OneLine(id) && validId(id)
    ensures InAll(validId, AllReceived([HidingLine(id)])) == Some([id])
  {
    LinesOfHidingLine(id);
    HidingLineIsOne(id);
    ReceivedIff(HidingLine(id));
    hide Lines, Received;
    assert AllReceived([HidingLine(id)]) == [HidingLine(id)];
    var lines := ["author a", PARENT + id, "b <e> 1 +0000"];
    assert lines == ["author a"] + [PARENT + id] + ["b <e> 1 +0000"];
    assert "author a"[0] == 'a' && "b <e> 1 +0000"[0] == 'b' && PARENT[0] == 'p';
    NoParentsIff(validId, ["author a"]);
    NoParentsIff(validId, ["b <e> 1 +0000"]);
    ParentsJoin(validId, ["author a"] + [PARENT + id], ["b <e> 1 +0000"]);
    ParentsJoin(validId, ["author a"], [PARENT + id]);
    assert (PARENT + id)[|PARENT|..] == id && [PARENT + id][..0] == [];
    assert Parents(validId, [PARENT + id]) == Some([] + [id]);
    assert [] + ([] + [id]) + [] == [id];
    assert InAll(validId, [HidingLine(id)]) == Both(In(validId, HidingLine(id)), InAll(validId, []));
    assert [id] + [] == [id];
  }

  /** A concrete case: a commit without parents whose author is called like that is read as a
      child of any commit one likes. */
  lemma HiddenParentIsRead(validId: string -> bool, tree: string, id: string, message: string)
    requires OneLine(tree) && OneLine(id) && validId(id) && '\r' !in message
    requires Utf8Size(Write(Commit(tree, [], [HidingLine(id)], message))) <= MAX_COMMIT_BYTES
    ensures var c := Commit(tree, [], [HidingLine(id)], message);
      Written(validId, c) && ReadObject(validId, Write(c)) == Some(Record([id], message))
  {
    var c := Commit(tree, [], [HidingLine(id)], message);
    var h := HidingLine(id);
    HidingLineIsOne(id);
    ReceivedIff(h);
    ReceivedIff(message);
    NoBlankWithout(h);
    CleanHasNoCrLf(h);
    CleanHasNoCrLf(message);
    hide HidingLine, NoBlankLine, Received, HasCrLf, EndsInReturn;
    assert Written(validId, c);
    WriteArrives(validId, c);
    SizeKeptIff(Write(c));
    hide Written, Write;
    ReadWhole(validId, c);
    InHidingLine(validId, id);
    ReadObjectIs(validId, Write(c));
    assert [] + [id] == [id];
  }

  lemma NoBlankWithout(s: string)
    requires s != "" && '\n' !in s
    ensures NoBlankLine(s)
  {
    assert forall i :: 0 <= i < |s| ==> s[i] in s;
  }

  /** The headers are never cut inside the lines that Git makes up. */
  lemma EndBehindTop(top: string, behind: string)
    requires NoBlankLine(top) && Find(top + behind, "\n\n", 0).Some?
    ensures Find(top + behind, "\n\n", 0).value >= |top|
  {
    var all := top + behind;
    forall k | 0 <= k < |top| ensures !OccursAt(all, "\n\n", k) {
      BlankOccurs(all, k);
      if k + 1 < |top| {
        assert !(top[k + 1 - 1] == '\n' && top[k + 1] == '\n');
      }
    }
  }

  lemma {:induction false} LinesBehind(a: string, texts: seq<string>, l: string)
    requires '\r' !in a && (forall t <- texts :: '\r' !in t) && l != "" && l in Lines(a + Behind(texts))
    ensures l in Lines(a) || exists t <- texts :: l in Lines(t)
    decreases |texts|
  {
    hide Lines;
    if texts == [] {
      assert a + Behind(texts) == a;
    } else {
      var b := texts[0] + Behind(texts[1..]);
      assert a + Behind(texts) == a + "\n" + b;
      assert texts[0] in texts && forall t <- texts[1..] :: t in texts;
      LinesJoin(a, b);
      if l !in Lines(a) {
        LinesBehind(texts[0], texts[1..], l);
      }
    }
  }

  /** MAIN: whatever the reader makes of a commit as Git writes it, the parents it reports are the
      commit's parents and then those that header lines hide. */
  lemma ParentsReadMeans(validId: string -> bool, c: Commit) returns (hidden: seq<string>)
    requires Written(validId, c) && ReadObject(validId, Write(c)).Some?
    ensures ReadObject(validId, Write(c)).value.parents == c.parents + hidden
    ensures forall p <- hidden :: exists h <- c.others :: PARENT + p in Lines(h)
  {
    hide *;
    var text, top, others := Received(Write(c)), Top(c), AllReceived(c.others);
    var end := HeadersRead(validId, c);
    TopIsPlain(validId, c);
    InTop(validId, c);
    ReceivedAreClean(c.others);
    if end == |top| {
      assert c.parents + [] == c.parents;
      hidden := [];
    } else {
      hidden := HiddenBehind(validId, top, others, end);
      forall p <- hidden ensures exists h <- c.others :: PARENT + p in Lines(h) {
        var k :| 0 <= k < |others| && PARENT + p in Lines(others[k]);
        assert c.others[k] in c.others;
        LinesOfReceivedIn(validId, c, k);
      }
    }
  }

  lemma ReceivedAreClean(texts: seq<string>)
    ensures forall t <- AllReceived(texts) :: '\r' !in t
  {
    forall t <- AllReceived(texts) ensures '\r' !in t {
      var k :| 0 <= k < |texts| && t == Received(texts[k]);
      ReceivedIsClean(texts[k]);
    }
  }

  /** How far the headers are read: over all lines that Git makes up, up to a line feed. */
  lemma HeadersRead(validId: string -> bool, c: Commit) returns (end: nat)
    requires Written(validId, c) && ReadObject(validId, Write(c)).Some?
    ensures var top, header := Top(c), Top(c) + Behind(AllReceived(c.others));
      && |top| <= end <= |header| && (end < |header| ==> header[end] == '\n')
      && (end == |top| ==> header[..end] == top)
      && In(validId, header[..end]) == Some(ReadObject(validId, Write(c)).value.parents)
  {
    hide *;
    var text, top, behind := Received(Write(c)), Top(c), Behind(AllReceived(c.others));
    ReadObjectMeans(validId, Write(c));
    ReadsArrived(validId, c);
    TopIsPlain(validId, c);
    end := Find(text, "\n\n", 0).value;
    HeadersCut(top, behind, Received(c.message));
  }

  lemma ReadObjectMeans(validId: string -> bool, raw: string)
    requires ReadObject(validId, raw).Some?
    ensures !HasCrLf(raw) && Find(Received(raw), "\n\n", 0).Some?
    ensures In(validId, Received(raw)[..Find(Received(raw), "\n\n", 0).value]) ==
      Some(ReadObject(validId, raw).value.parents)
  {
    SizeKeptIff(raw);
    hide Received, HasCrLf, Lines, Parents, Find, Utf8Size;
  }

  lemma HeadersCut(top: string, behind: string, message: string)
    requires NoBlankLine(top)
    ensures var text, header := top + behind + "\n\n" + message, top + behind;
      && Find(text, "\n\n", 0).Some?
      && var end := Find(text, "\n\n", 0).value;
         && |top| <= end <= |header| && (end < |header| ==> header[end] == '\n')
         && text[..end] == header[..end] && (end == |top| ==> header[..end] == top)
  {
    var text, header := top + behind + "\n\n" + message, top + behind;
    assert header != "" && header[0] != '\n';
    HeaderEnds(header, message);
    assert text == top + (behind + "\n\n" + message);
    EndBehindTop(top, behind + "\n\n" + message);
    hide Find, NoBlankLine, OccursAt;
    var end := Find(text, "\n\n", 0).value;
    BlankOccurs(text, end);
  }

  lemma LinesOfReceivedIn(validId: string -> bool, c: Commit, k: nat)
    requires Written(validId, c) && k < |c.others|
    ensures Lines(AllReceived(c.others)[k]) == Lines(c.others[k])
  {
    assert c.others[k] in c.others;
    LinesOfReceived(c.others[k]);
  }

  lemma HiddenBehind(validId: string -> bool, top: string, texts: seq<string>, end: nat) returns (hidden: seq<string>)
    requires '\r' !in top && (forall t <- texts :: '\r' !in t) && In(validId, top).Some?
    requires var header := top + Behind(texts);
      && |top| < end <= |header| && (end < |header| ==> header[end] == '\n')
      && In(validId, header[..end]).Some?
    ensures In(validId, (top + Behind(texts))[..end]).value == In(validId, top).value + hidden
    ensures forall p <- hidden :: exists k :: 0 <= k < |texts| && PARENT + p in Lines(texts[k])
  {
    hide Lines;
    var header := top + Behind(texts);
    var all := texts[0] + Behind(texts[1..]);
    assert header == top + "\n" + all;
    var rest := all[..end - |top| - 1];
    assert header[..end] == top + "\n" + rest;
    InJoined(validId, top, rest);
    hidden := In(validId, rest).value;
    ParentsAreLines(validId, Lines(rest));
    forall p <- hidden ensures exists k :: 0 <= k < |texts| && PARENT + p in Lines(texts[k]) {
      LineOfWhole(texts, rest, PARENT + p);
    }
  }

  lemma LineOfWhole(texts: seq<string>, rest: string, l: string)
    requires texts != [] && (forall t <- texts :: '\r' !in t) && l != "" && l in Lines(rest)
    requires var all := texts[0] + Behind(texts[1..]);
      rest <= all && (|rest| < |all| ==> all[|rest|] == '\n')
    ensures exists k :: 0 <= k < |texts| && l in Lines(texts[k])
  {
    hide Lines;
    var all := texts[0] + Behind(texts[1..]);
    assert texts[0] in texts && forall t <- texts[1..] :: t in texts;
    CleanBehind(texts[0], texts[1..]);
    if |rest| < |all| {
      assert all == rest + "\n" + all[|rest| + 1..];
      assert '\r' !in rest by {
        assert forall c <- rest :: c in all;
      }
      LinesJoin(rest, all[|rest| + 1..]);
    } else {
      assert rest == all;
    }
    LinesBehind(texts[0], texts[1..], l);
  }
}
