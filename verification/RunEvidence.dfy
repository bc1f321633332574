/** The independent reader of a collected run, and its agreement with the writer
    (src/researchctl/adapters/git_evidence.py). */
module RunEvidence {
  import opened Wrappers
  import opened Text
  import opened GitModel
  import opened GitProcess
  import opened RunProtocol
  import opened RunSafety
  import CommitObject

  const MAX_RECORD_BYTES := 2 * 1024 * 1024

  /** The reader's side of the record format. */
  datatype Parser = Parser(parseSpec: string -> Option<RunSpec>, parseResult: string -> Option<RunResult>)

  datatype Evidence = Evidence(spec: RunSpec, result: RunResult, specCommit: CommitId, resultCommit: CommitId)

  /** How the commits of a repository are stored: the ids of commits and trees, and the header
      lines behind the parents, such as the author. */
  datatype Objects = Objects(
    validId: string -> bool, name: CommitId -> string, treeName: CommitId -> string, others: CommitId -> seq<string>)

  /** Ids tell commits apart, and no header line has a line feed. */
  ghost predicate Stores(objects: Objects, r: Repository) {
    && (forall a, b :: objects.name(a) == objects.name(b) ==> a == b)
    && forall c :: 0 <= c < |r.commits| ==> StoresOne(objects, c)
  }

  ghost predicate StoresOne(objects: Objects, c: CommitId) {
    && objects.validId(objects.name(c))
    && CommitObject.OneLine(objects.name(c)) && CommitObject.OneLine(objects.treeName(c))
    && forall h <- objects.others(c) :: h != "" && '\n' !in h
  }

  function Names(objects: Objects, commits: seq<CommitId>): (names: seq<string>)
    ensures |names| == |commits| && forall i :: 0 <= i < |commits| ==> names[i] == objects.name(commits[i])
  {
    if commits == [] then [] else [objects.name(commits[0])] + Names(objects, commits[1..])
  }

  function ObjectOf(r: Repository, objects: Objects, c: CommitId): CommitObject.Commit
    requires c < |r.commits|
  {
    CommitObject.Commit(objects.treeName(c), Names(objects, r.commits[c].parents), objects.others(c),
                        r.commits[c].message)
  }

  lemma ObjectIsWritten(r: Repository, objects: Objects, c: CommitId)
    requires Valid(r) && Stores(objects, r) && c < |r.commits|
    ensures CommitObject.Written(objects.validId, ObjectOf(r, objects, c))
  {
    hide CommitObject.OneLine;
    assert StoresOne(objects, c);
    var names := Names(objects, r.commits[c].parents);
    forall p <- names ensures objects.validId(p) && CommitObject.OneLine(p) {
      var i :| 0 <= i < |names| && names[i] == p;
      assert StoresOne(objects, r.commits[c].parents[i]);
    }
  }

  /** `_read_commit` of a stored commit. */
  function ReadCommit(r: Repository, objects: Objects, c: CommitId): Option<CommitObject.Record>
    requires c < |r.commits|
  {
    CommitObject.ReadObject(objects.validId, CommitObject.Write(ObjectOf(r, objects, c)))
  }

  /** The text of a regular, size-bounded file at a path of a commit, as it arrives. */
  function ReadRecord(r: Repository, c: CommitId, p: Path): Option<string>
    requires c < |r.commits|
  {
    match Get(r.commits[c].tree, p)
    case Some(File(Regular, content)) =>
      if Utf8Size(content) <= MAX_RECORD_BYTES && Utf8Size(Received(content)) == Utf8Size(content)
      then Some(Received(content)) else None
    case _ => None
  }

  /** The commit reads as one with this one parent and this marker, and its tree differs from the
      parent's at p only. */
  predicate IsRecordCommit(r: Repository, objects: Objects, c: CommitId, parent: CommitId, p: Path, marker: string)
    requires Valid(r) && c < |r.commits|
  {
    var read := ReadCommit(r, objects, c);
    && read.Some? && read.value.parents == [objects.name(parent)] && parent < |r.commits|
    && WithoutFinalNewlines(read.value.message) == marker
    && Differing(r.commits[parent].tree, r.commits[c].tree) == {p}
  }

  function Read(r: Repository, objects: Objects, records: Records, parser: Parser, runId: string): Option<Evidence>
    requires Valid(r)
  {
    var specPath, resultPath := RecordPath(runId, "spec"), RecordPath(runId, "result");
    if !records.validRunId(runId) || TagName(runId) !in r.tags || r.branch != BranchName(runId) then None
    else
      var specCommit, resultCommit := r.tags[TagName(runId)], r.head;
      match ReadRecord(r, specCommit, specPath)
      case None => None
      case Some(specText) =>
        match parser.parseSpec(specText)
        case None => None
        case Some(spec) =>
          if spec.runId != runId || specText != records.specText(spec)
             || !IsRecordCommit(r, objects, specCommit, spec.sourceCommit, specPath, FreezeMarker(runId, spec.digest))
             || r.commits[spec.sourceCommit].tree != spec.sourceTree then None
          else
            match ReadRecord(r, resultCommit, resultPath)
            case None => None
            case Some(resultText) =>
              match parser.parseResult(resultText)
              case None => None
              case Some(result) =>
                if resultText != records.resultText(result)
                   || !IsRecordCommit(r, objects, resultCommit, specCommit, resultPath,
                                      CollectMarker(runId, result.resultId))
                   || result.runId != runId || result.specDigest != spec.digest then None
                else Some(Evidence(spec, result, specCommit, resultCommit))
  }

  /** The two records are read from the given commits, canonical and bound to each other. */
  ghost predicate RecordsRead(r: Repository, records: Records, parser: Parser, runId: string, e: Evidence)
    requires Valid(r)
  {
    && e.specCommit < |r.commits| && e.resultCommit < |r.commits|
    && ReadRecord(r, e.specCommit, RecordPath(runId, "spec")) == Some(records.specText(e.spec))
    && ReadRecord(r, e.resultCommit, RecordPath(runId, "result")) == Some(records.resultText(e.result))
    && parser.parseSpec(records.specText(e.spec)) == Some(e.spec)
    && parser.parseResult(records.resultText(e.result)) == Some(e.result)
    && e.spec.runId == runId && e.result.runId == runId && e.result.specDigest == e.spec.digest
  }

  /** The two commits read as record commits, one over the other. */
  ghost predicate CommitsRead(r: Repository, objects: Objects, runId: string, e: Evidence)
    requires Valid(r) && e.specCommit < |r.commits| && e.resultCommit < |r.commits|
  {
    && IsRecordCommit(r, objects, e.specCommit, e.spec.sourceCommit, RecordPath(runId, "spec"),
                      FreezeMarker(runId, e.spec.digest))
    && IsRecordCommit(r, objects, e.resultCommit, e.specCommit, RecordPath(runId, "result"),
                      CollectMarker(runId, e.result.resultId))
    && e.spec.sourceCommit < |r.commits| && r.commits[e.spec.sourceCommit].tree == e.spec.sourceTree
  }

  ghost predicate Refers(r: Repository, records: Records, runId: string, e: Evidence) {
    && records.validRunId(runId) && TagOf(r, TagName(runId)) == Some(e.specCommit)
    && r.branch == BranchName(runId) && r.head == e.resultCommit
  }

  /** What it takes to be accepted. */
  lemma ReadIff(r: Repository, objects: Objects, records: Records, parser: Parser, runId: string, e: Evidence)
    requires Valid(r)
    ensures Read(r, objects, records, parser, runId) == Some(e) <==>
      && Refers(r, records, runId, e) && RecordsRead(r, records, parser, runId, e)
      && CommitsRead(r, objects, runId, e)
  {
    hide ReadRecord, ReadCommit, RecordPath, FreezeMarker, CollectMarker, TagName, BranchName, Differing,
      WithoutFinalNewlines;
  }

  // ----- What acceptance means -----

  lemma OnlyDifference(a: Tree, b: Tree, p: Path, f: File)
    requires Differing(a, b) == {p} && Get(b, p) == Some(f)
    ensures b == a[p := f]
  {
    forall q | q != p ensures Get(a, q) == Get(b, q) {
      assert q !in Differing(a, b);
    }
    SameFiles(b, a[p := f]);
  }

  /** The commit has this one parent; or it has none, and a header line hides this one. */
  ghost predicate ParentRead(r: Repository, objects: Objects, c: CommitId, parent: CommitId)
    requires c < |r.commits|
  {
    || r.commits[c].parents == [parent]
    || (r.commits[c].parents == []
        && exists h <- objects.others(c) :: CommitObject.PARENT + objects.name(parent) in CommitObject.Lines(h))
  }

  /** The tree `after` is `before` with one regular file put in, which arrives as the text. */
  ghost predicate PutIn(before: Tree, after: Tree, p: Path, text: string) {
    && p in after && after[p].mode.Regular? && after == before[p := after[p]]
    && Received(after[p].content) == text && !HasCrLf(after[p].content)
    && Utf8Size(after[p].content) <= MAX_RECORD_BYTES
  }

  lemma RecordCommitMeans(r: Repository, objects: Objects, c: CommitId, parent: CommitId, p: Path, marker: string)
    requires Valid(r) && Stores(objects, r) && c < |r.commits| && IsRecordCommit(r, objects, c, parent, p, marker)
    ensures ParentRead(r, objects, c, parent) && MarkerRead(r, objects, c, marker)
  {
    ObjectIsWritten(r, objects, c);
    hide CommitObject.Written, CommitObject.Write, CommitObject.ReadObject, Valid, Differing, WithoutFinalNewlines;
    var hidden := CommitObject.ParentsReadMeans(objects.validId, ObjectOf(r, objects, c));
    var names := Names(objects, r.commits[c].parents);
    assert |names + hidden| == |names| + |hidden|;
    if names != [] {
      assert names[0] == (names + hidden)[0];
      assert r.commits[c].parents == [r.commits[c].parents[0]];
    } else {
      assert names + hidden == hidden;
      assert objects.name(parent) in hidden;
    }
  }

  lemma RecordMeans(r: Repository, c: CommitId, parent: CommitId, p: Path, text: string)
    requires c < |r.commits| && parent < |r.commits| && ReadRecord(r, c, p) == Some(text)
    requires Differing(r.commits[parent].tree, r.commits[c].tree) == {p}
    ensures PutIn(r.commits[parent].tree, r.commits[c].tree, p, text)
  {
    var f := r.commits[c].tree[p];
    SizeKeptIff(f.content);
    OnlyDifference(r.commits[parent].tree, r.commits[c].tree, p, f);
  }

  /** The commit's message, as it is read, is the operation marker; the commit fits the bound. */
  ghost predicate MarkerRead(r: Repository, objects: Objects, c: CommitId, marker: string)
    requires c < |r.commits|
  {
    && ReadCommit(r, objects, c).Some?
    && WithoutFinalNewlines(ReadCommit(r, objects, c).value.message) == marker
    && Utf8Size(CommitObject.Write(ObjectOf(r, objects, c))) <= CommitObject.MAX_COMMIT_BYTES
  }

  /** What acceptance says for certain: the tag and the branch, the parents and messages as they
      are read, and the trees up to carriage returns that stand for line feeds. */
  ghost predicate AsRead(r: Repository, objects: Objects, records: Records, e: Evidence, runId: string) {
    && e.specCommit < |r.commits| && e.resultCommit < |r.commits| && e.spec.sourceCommit < |r.commits|
    && records.validRunId(runId) && r.branch == BranchName(runId)
    && TagOf(r, TagName(runId)) == Some(e.specCommit) && r.head == e.resultCommit
    && MarkerRead(r, objects, e.specCommit, FreezeMarker(runId, e.spec.digest))
    && MarkerRead(r, objects, e.resultCommit, CollectMarker(runId, e.result.resultId))
    && ParentRead(r, objects, e.specCommit, e.spec.sourceCommit)
    && ParentRead(r, objects, e.resultCommit, e.specCommit)
    && r.commits[e.spec.sourceCommit].tree == e.spec.sourceTree
    && PutIn(e.spec.sourceTree, r.commits[e.specCommit].tree, RecordPath(runId, "spec"), records.specText(e.spec))
    && PutIn(r.commits[e.specCommit].tree, r.commits[e.resultCommit].tree, RecordPath(runId, "result"),
             records.resultText(e.result))
    && e.spec.runId == runId && Binds(e.result, e.spec)
  }

  /** With plain header lines, the stored message without its final line feeds is the marker. */
  lemma PlainMarker(r: Repository, objects: Objects, c: CommitId, marker: string)
    requires Valid(r) && Stores(objects, r) && c < |r.commits|
    requires MarkerRead(r, objects, c, marker) && PlainObject(r, objects, c)
    ensures WithoutFinalNewlines(r.commits[c].message) == marker
  {
    hide Stores, PlainObject, ReadCommit, WithoutFinalNewlines, Utf8Size;
    PlainObjectReads(r, objects, c);
  }

  lemma AcceptedAsRead(r: Repository, objects: Objects, records: Records, parser: Parser, runId: string)
    requires Valid(r) && Stores(objects, r) && Read(r, objects, records, parser, runId).Some?
    ensures AsRead(r, objects, records, Read(r, objects, records, parser, runId).value, runId)
  {
    var e := Read(r, objects, records, parser, runId).value;
    ReadIff(r, objects, records, parser, runId, e);
    var specPath, resultPath := RecordPath(runId, "spec"), RecordPath(runId, "result");
    var specMarker, resultMarker := FreezeMarker(runId, e.spec.digest), CollectMarker(runId, e.result.resultId);
    hide ReadRecord, PutIn, ParentRead, MarkerRead, Stores, ReadCommit, RecordPath, FreezeMarker, CollectMarker, Read,
      TagName, BranchName, WithoutFinalNewlines, Differing;
    RecordCommitMeans(r, objects, e.specCommit, e.spec.sourceCommit, specPath, specMarker);
    RecordCommitMeans(r, objects, e.resultCommit, e.specCommit, resultPath, resultMarker);
    RecordMeans(r, e.specCommit, e.spec.sourceCommit, specPath, records.specText(e.spec));
    RecordMeans(r, e.resultCommit, e.specCommit, resultPath, records.resultText(e.result));
  }

  /** The lineage source, spec, result: the tagged commit is a child of the source with just the
      canonical RunSpec put in, and the branch tip a child of that with just the canonical
      RunResult put in. */
  ghost predicate IsLineage(r: Repository, records: Records, e: Evidence, runId: string)
    requires e.specCommit < |r.commits| && e.resultCommit < |r.commits|
  {
    && r.commits[e.resultCommit].parents == [e.specCommit]
    && r.commits[e.specCommit].parents == [e.spec.sourceCommit]
    && r.commits[e.specCommit].tree ==
       e.spec.sourceTree[RecordPath(runId, "spec") := File(Regular, records.specText(e.spec))]
    && r.commits[e.resultCommit].tree ==
       r.commits[e.specCommit].tree[RecordPath(runId, "result") := File(Regular, records.resultText(e.result))]
  }

  /** MAIN: what the reader accepts is the lineage source, spec, result exactly when neither of the
      two commits is a root commit and neither record holds a carriage return. */
  lemma AcceptedIsLineageIff(r: Repository, objects: Objects, records: Records, parser: Parser, runId: string)
    requires Valid(r) && Stores(objects, r) && Read(r, objects, records, parser, runId).Some?
    ensures var e := Read(r, objects, records, parser, runId).value;
      && AsRead(r, objects, records, e, runId)
      && (IsLineage(r, records, e, runId) <==>
          && r.commits[e.specCommit].parents != [] && r.commits[e.resultCommit].parents != []
          && '\r' !in r.commits[e.specCommit].tree[RecordPath(runId, "spec")].content
          && '\r' !in r.commits[e.resultCommit].tree[RecordPath(runId, "result")].content)
      && (IsLineage(r, records, e, runId) ==> e.spec.sourceCommit < e.specCommit < e.resultCommit)
  {
    var e := Read(r, objects, records, parser, runId).value;
    AcceptedAsRead(r, objects, records, parser, runId);
    hide Read, RecordPath, Stores;
    PutInIff(e.spec.sourceTree, r.commits[e.specCommit].tree, RecordPath(runId, "spec"), records.specText(e.spec));
    PutInIff(r.commits[e.specCommit].tree, r.commits[e.resultCommit].tree, RecordPath(runId, "result"),
             records.resultText(e.result));
    if IsLineage(r, records, e, runId) {
      assert r.commits[e.specCommit].parents[0] < e.specCommit;
      assert r.commits[e.resultCommit].parents[0] < e.resultCommit;
    }
  }

  lemma PutInIff(before: Tree, after: Tree, p: Path, text: string)
    requires PutIn(before, after, p, text)
    ensures after == before[p := File(Regular, text)] <==> '\r' !in after[p].content
  {
    ReceivedIff(after[p].content);
    ReceivedIsClean(after[p].content);
    hide Received;
    if '\r' in after[p].content {
      assert before[p := File(Regular, text)][p].content == text;
    }
  }

  // ----- What the reader accepts beside -----

  /** A commit loses its parents. */
  function Rooted(r: Repository, c: CommitId): Repository
    requires c < |r.commits|
  {
    r.(commits := r.commits[c := r.commits[c].(parents := [])])
  }

  /** Its author line hides another one. */
  function Hiding(objects: Objects, c: CommitId, parent: CommitId): Objects {
    objects.(others := (x: CommitId) =>
      if x == c then [CommitObject.HidingLine(objects.name(parent))] else objects.others(x))
  }

  /** A concrete case: a root commit in the place of the tagged one, with the same tree and message
      and an author line that hides the source commit, is accepted like it. */
  lemma RootIsAccepted(r: Repository, objects: Objects, records: Records, parser: Parser, runId: string)
    requires Valid(r) && Stores(objects, r) && Read(r, objects, records, parser, runId).Some?
    requires var e := Read(r, objects, records, parser, runId).value;
      && e.specCommit != e.resultCommit && e.specCommit < |r.commits| && e.spec.sourceCommit < |r.commits|
      && '\r' !in r.commits[e.specCommit].message
      && WithoutFinalNewlines(r.commits[e.specCommit].message) == FreezeMarker(runId, e.spec.digest)
      && var stored := ObjectOf(Rooted(r, e.specCommit), Hiding(objects, e.specCommit, e.spec.sourceCommit),
                                e.specCommit);
         Utf8Size(CommitObject.Write(stored)) <= CommitObject.MAX_COMMIT_BYTES
    ensures var e := Read(r, objects, records, parser, runId).value;
      var root, hiding := Rooted(r, e.specCommit), Hiding(objects, e.specCommit, e.spec.sourceCommit);
      && Valid(root) && Stores(hiding, root) && root.commits[e.specCommit].parents == []
      && Read(root, hiding, records, parser, runId) == Some(e)
  {
    hide *;
    var e := Read(r, objects, records, parser, runId).value;
    var root, hiding := Rooted(r, e.specCommit), Hiding(objects, e.specCommit, e.spec.sourceCommit);
    RootIsValid(r, e.specCommit);
    HidingStores(r, objects, e.specCommit, e.spec.sourceCommit);
    ReadIff(r, objects, records, parser, runId, e);
    ReadIff(root, hiding, records, parser, runId, e);
    RootRefers(r, records, parser, runId, e, e.specCommit);
    RootCommitsRead(r, objects, runId, e);
  }

  lemma RootIsValid(r: Repository, c: CommitId)
    requires Valid(r) && c < |r.commits|
    ensures Valid(Rooted(r, c)) && c < |Rooted(r, c).commits| && Rooted(r, c).commits[c].parents == []
  {
  }

  lemma RootRefers(r: Repository, records: Records, parser: Parser, runId: string, e: Evidence, c: CommitId)
    requires Valid(r) && c < |r.commits| && Refers(r, records, runId, e) && RecordsRead(r, records, parser, runId, e)
    ensures Valid(Rooted(r, c)) && e.resultCommit < |r.commits|
    ensures Refers(Rooted(r, c), records, runId, e) && RecordsRead(Rooted(r, c), records, parser, runId, e)
  {
    RootIsValid(r, c);
    RootKeepsRecord(r, c, e.specCommit, RecordPath(runId, "spec"));
    RootKeepsRecord(r, c, e.resultCommit, RecordPath(runId, "result"));
    hide ReadRecord, RecordPath, TagName, BranchName, Valid;
  }

  lemma RootCommitsRead(r: Repository, objects: Objects, runId: string, e: Evidence)
    requires Valid(r) && Stores(objects, r) && e.specCommit < |r.commits| && e.resultCommit < |r.commits|
    requires CommitsRead(r, objects, runId, e) && e.specCommit != e.resultCommit
    requires e.spec.sourceCommit < |r.commits| && '\r' !in r.commits[e.specCommit].message
    requires WithoutFinalNewlines(r.commits[e.specCommit].message) == FreezeMarker(runId, e.spec.digest)
    requires var stored := ObjectOf(Rooted(r, e.specCommit), Hiding(objects, e.specCommit, e.spec.sourceCommit),
                                    e.specCommit);
      Utf8Size(CommitObject.Write(stored)) <= CommitObject.MAX_COMMIT_BYTES
    ensures var root := Rooted(r, e.specCommit);
      Valid(root) && e.specCommit < |root.commits| && e.resultCommit < |root.commits|
      && CommitsRead(root, Hiding(objects, e.specCommit, e.spec.sourceCommit), runId, e)
  {
    RootIsValid(r, e.specCommit);
    RootReads(r, objects, e.specCommit, e.spec.sourceCommit);
    RootKeepsOthers(r, objects, e.specCommit, e.spec.sourceCommit, e.resultCommit);
    RootKeepsRecord(r, e.specCommit, e.resultCommit, "");
    hide ReadCommit, RecordPath, FreezeMarker, CollectMarker, Valid, Differing, WithoutFinalNewlines, Hiding, Rooted,
      Stores, Utf8Size, CommitObject.Write, ObjectOf;
  }

  lemma RootKeepsOthers(r: Repository, objects: Objects, c: CommitId, parent: CommitId, other: CommitId)
    requires c < |r.commits| && other < |r.commits| && other != c
    ensures ReadCommit(Rooted(r, c), Hiding(objects, c, parent), other) == ReadCommit(r, objects, other)
    ensures Hiding(objects, c, parent).name == objects.name
  {
    assert ObjectOf(Rooted(r, c), Hiding(objects, c, parent), other) == ObjectOf(r, objects, other);
    assert Hiding(objects, c, parent).validId == objects.validId;
    hide CommitObject.ReadObject, CommitObject.Write, ObjectOf;
  }

  lemma RootKeepsRecord(r: Repository, c: CommitId, other: CommitId, p: Path)
    requires c < |r.commits| && other < |r.commits|
    ensures ReadRecord(Rooted(r, c), other, p) == ReadRecord(r, other, p)
    ensures |Rooted(r, c).commits| == |r.commits|
    ensures forall x :: 0 <= x < |r.commits| ==> Rooted(r, c).commits[x].tree == r.commits[x].tree
  {
    hide Utf8Size, Received;
  }

  lemma HidingStores(r: Repository, objects: Objects, c: CommitId, parent: CommitId)
    requires Valid(r) && Stores(objects, r) && c < |r.commits| && parent < |r.commits|
    ensures Stores(Hiding(objects, c, parent), Rooted(r, c))
  {
    hide CommitObject.OneLine, CommitObject.HidingLine;
    var hiding := Hiding(objects, c, parent);
    assert StoresOne(objects, parent);
    CommitObject.HidingLineIsOne(objects.name(parent));
    forall x | 0 <= x < |r.commits| ensures StoresOne(hiding, x) {
      assert StoresOne(objects, x);
    }
  }

  lemma RootReads(r: Repository, objects: Objects, c: CommitId, parent: CommitId)
    requires Valid(r) && Stores(objects, r) && c < |r.commits| && parent < |r.commits|
    requires '\r' !in r.commits[c].message
    requires Utf8Size(CommitObject.Write(ObjectOf(Rooted(r, c), Hiding(objects, c, parent), c)))
      <= CommitObject.MAX_COMMIT_BYTES
    ensures ReadCommit(Rooted(r, c), Hiding(objects, c, parent), c) ==
      Some(CommitObject.Record([objects.name(parent)], r.commits[c].message))
  {
    hide CommitObject.OneLine, CommitObject.HidingLine, CommitObject.Write, CommitObject.ReadObject, Utf8Size,
      CommitObject.Written;
    assert StoresOne(objects, parent) && StoresOne(objects, c);
    CommitObject.HiddenParentIsRead(objects.validId, objects.treeName(c), objects.name(parent), r.commits[c].message);
  }

  /** Text with carriage returns for its line feeds. */
  function Returned(s: string): string {
    if s == "" then "" else [if s[0] == '\n' then '\r' else s[0]] + Returned(s[1..])
  }

  lemma {:induction false} ReturnedArrives(s: string)
    requires '\r' !in s
    ensures Received(Returned(s)) == s && Utf8Size(Returned(s)) == Utf8Size(s)
    ensures |Returned(s)| == |s| && (s != "" ==> Returned(s)[0] != '\n')
  {
    if s != "" {
      assert s[0] in s && forall c <- s[1..] :: c in s;
      ReturnedArrives(s[1..]);
      var t := Returned(s);
      assert t[0] == (if s[0] == '\n' then '\r' else s[0]) && t[1..] == Returned(s[1..]);
      assert |s| > 1 ==> t[1] == Returned(s[1..])[0];
      hide Received, Returned;
      ReceivedStep(t);
      assert s == [s[0]] + s[1..];
    }
  }

  /** The tip holds another file at a path. */
  function WithFile(r: Repository, p: Path, f: File): Repository
    requires r.head < |r.commits|
  {
    var c := r.commits[r.head];
    r.(commits := r.commits[r.head := c.(tree := c.tree[p := f])])
  }

  /** Another concrete case: a result record whose line feeds are all replaced by carriage returns
      is accepted as the canonical record. */
  lemma ReturnsAreAccepted(r: Repository, objects: Objects, records: Records, parser: Parser, runId: string)
    requires Valid(r) && Read(r, objects, records, parser, runId).Some?
    requires var e := Read(r, objects, records, parser, runId).value;
      && e.specCommit != e.resultCommit && e.spec.sourceCommit != e.resultCommit
      && e.specCommit < |r.commits| && RecordPath(runId, "result") !in r.commits[e.specCommit].tree
      && Utf8Size(records.resultText(e.result)) <= MAX_RECORD_BYTES
      && '\r' !in records.resultText(e.result)
    ensures var e := Read(r, objects, records, parser, runId).value;
      var s := WithFile(r, RecordPath(runId, "result"), File(Regular, Returned(records.resultText(e.result))));
      Valid(s) && Read(s, objects, records, parser, runId) == Some(e)
  {
    var e := Read(r, objects, records, parser, runId).value;
    var p, text := RecordPath(runId, "result"), records.resultText(e.result);
    var f := File(Regular, Returned(text));
    var s := WithFile(r, p, f);
    assert Valid(s) && |s.commits| == |r.commits|;
    ReadIff(r, objects, records, parser, runId, e);
    ReadIff(s, objects, records, parser, runId, e);
    hide Read, Valid, WithFile, RecordPath, Returned, Utf8Size;
    ReturnedRecords(r, records, parser, runId, e);
    ReturnedCommits(r, objects, runId, e, f);
  }

  lemma ReturnedRecords(r: Repository, records: Records, parser: Parser, runId: string, e: Evidence)
    requires Valid(r) && RecordsRead(r, records, parser, runId, e) && Refers(r, records, runId, e)
    requires Utf8Size(records.resultText(e.result)) <= MAX_RECORD_BYTES && '\r' !in records.resultText(e.result)
    requires e.specCommit != e.resultCommit
    ensures var s := WithFile(r, RecordPath(runId, "result"), File(Regular, Returned(records.resultText(e.result))));
      Valid(s) && RecordsRead(s, records, parser, runId, e) && Refers(s, records, runId, e)
  {
    ReturnedArrives(records.resultText(e.result));
    var s := WithFile(r, RecordPath(runId, "result"), File(Regular, Returned(records.resultText(e.result))));
    assert Valid(s) && s.commits[e.specCommit] == r.commits[e.specCommit];
    hide Valid, Received, Returned, Utf8Size, RecordPath, TagName, BranchName;
  }

  lemma ReturnedCommits(r: Repository, objects: Objects, runId: string, e: Evidence, f: File)
    requires Valid(r) && e.specCommit < |r.commits| && e.resultCommit == r.head
    requires CommitsRead(r, objects, runId, e) && RecordPath(runId, "result") !in r.commits[e.specCommit].tree
    requires e.specCommit != e.resultCommit && e.spec.sourceCommit != e.resultCommit
    ensures var s := WithFile(r, RecordPath(runId, "result"), f);
      Valid(s) && |s.commits| == |r.commits| && CommitsRead(s, objects, runId, e)
  {
    var p := RecordPath(runId, "result");
    var s := WithFile(r, p, f);
    assert Valid(s);
    StillDiffers(r.commits[e.specCommit].tree, r.commits[r.head].tree, p, f);
    FileKeepsReading(r, objects, e.resultCommit, p, f);
    FileKeepsReading(r, objects, e.specCommit, p, f);
    hide ReadCommit, RecordPath, FreezeMarker, CollectMarker, Valid, Differing, WithoutFinalNewlines;
  }

  lemma FileKeepsReading(r: Repository, objects: Objects, c: CommitId, p: Path, f: File)
    requires r.head < |r.commits| && c < |r.commits|
    ensures ReadCommit(WithFile(r, p, f), objects, c) == ReadCommit(r, objects, c)
  {
    assert ObjectOf(WithFile(r, p, f), objects, c) == ObjectOf(r, objects, c);
    hide ObjectOf, CommitObject.ReadObject, CommitObject.Write;
  }

  lemma StillDiffers(a: Tree, b: Tree, p: Path, f: File)
    requires Differing(a, b) == {p} && p !in a
    ensures Differing(a, b[p := f]) == {p}
  {
    var c := b[p := f];
    assert forall q :: q != p ==> Get(c, q) == Get(b, q);
    assert p in Differing(a, c);
    assert forall q :: q != p ==> (q in Differing(a, c) <==> q in Differing(a, b));
  }

  // ----- The writer and the reader -----

  /** The reader understands these two records, and they arrive whole and fit its bound. */
  ghost predicate Readable(records: Records, parser: Parser, spec: RunSpec, result: RunResult) {
    && parser.parseSpec(records.specText(spec)) == Some(spec)
    && parser.parseResult(records.resultText(result)) == Some(result)
    && '\r' !in records.specText(spec) && '\r' !in records.resultText(result)
    && Utf8Size(records.specText(spec)) <= MAX_RECORD_BYTES
    && Utf8Size(records.resultText(result)) <= MAX_RECORD_BYTES
  }

  /** The commit has plain header lines and a plain message, and fits the reader's bound; the
      writer sets its author itself. */
  ghost predicate PlainObject(r: Repository, objects: Objects, c: CommitId)
    requires c < |r.commits|
  {
    && (forall h <- objects.others(c) :: CommitObject.OneLine(h) && !CommitObject.IsParentLine(h))
    && '\r' !in r.commits[c].message
    && Utf8Size(CommitObject.Write(ObjectOf(r, objects, c))) <= CommitObject.MAX_COMMIT_BYTES
  }

  lemma PlainObjectReads(r: Repository, objects: Objects, c: CommitId)
    requires Valid(r) && Stores(objects, r) && c < |r.commits| && PlainObject(r, objects, c)
    ensures ReadCommit(r, objects, c) ==
      Some(CommitObject.Record(Names(objects, r.commits[c].parents), r.commits[c].message))
  {
    ObjectIsWritten(r, objects, c);
    hide CommitObject.OneLine, CommitObject.Write, CommitObject.ReadObject, Utf8Size, CommitObject.Written;
    CommitObject.ReadsWhatIsWritten(objects.validId, ObjectOf(r, objects, c));
  }

  /** On a collected run the two commits are record commits, one over the other. */
  lemma RecordCommitsStand(e: Setup, r: Repository, objects: Objects)
    requires e.WellFormed() && At(e, Collected, r) && Stores(objects, r)
    requires |e.base| + 1 < |r.commits| && PlainObject(r, objects, |e.base|) && PlainObject(r, objects, |e.base| + 1)
    ensures Valid(r) && r.head == |e.base| + 1
    ensures IsRecordCommit(r, objects, |e.base|, e.source, e.freeze.path, e.freeze.marker)
    ensures IsRecordCommit(r, objects, |e.base| + 1, |e.base|, e.collect.path, e.collect.marker)
    ensures r.commits[e.source] == e.base[e.source]
    ensures r.commits[|e.base|] == e.SpecCommit() && r.commits[|e.base| + 1] == e.ResultCommit()
  {
    hide *;
    CommitsOfRun(e, r);
    RecordCommitStands(r, objects, |e.base|, e.source, e.freeze.path, e.freeze.marker);
    RecordCommitStands(r, objects, |e.base| + 1, |e.base|, e.collect.path, e.collect.marker);
  }

  lemma RecordCommitStands(r: Repository, objects: Objects, c: CommitId, parent: CommitId, p: Path, marker: string)
    requires Valid(r) && Stores(objects, r) && c < |r.commits| && PlainObject(r, objects, c)
    requires r.commits[c].parents == [parent] && parent < |r.commits|
    requires WithoutFinalNewlines(r.commits[c].message) == marker
    requires Differing(r.commits[parent].tree, r.commits[c].tree) == {p}
    ensures IsRecordCommit(r, objects, c, parent, p, marker)
  {
    hide PlainObject, Stores, ReadCommit, Differing, WithoutFinalNewlines, Valid;
    PlainObjectReads(r, objects, c);
    assert Names(objects, [parent]) == [objects.name(parent)];
  }

  lemma CommitsOfRun(e: Setup, r: Repository)
    requires e.WellFormed() && At(e, Collected, r)
    ensures Valid(r) && r.head == |e.base| + 1 < |r.commits| && r.commits[e.source] == e.base[e.source]
    ensures r.commits[|e.base|] == e.SpecCommit() && r.commits[|e.base| + 1] == e.ResultCommit()
    ensures e.source < |e.base| && r.commits[e.source].tree == e.SourceTree()
    ensures e.SpecCommit().parents == [e.source] && e.ResultCommit().parents == [|e.base|]
    ensures WithoutFinalNewlines(e.SpecCommit().message) == e.freeze.marker
    ensures WithoutFinalNewlines(e.ResultCommit().message) == e.collect.marker
    ensures Differing(e.SourceTree(), e.SpecCommit().tree) == {e.freeze.path}
    ensures Differing(e.SpecCommit().tree, e.ResultCommit().tree) == {e.collect.path}
  {
    AtIsValid(e, Collected, r);
    assert r.commits[|e.base|] == e.SpecCommit() && r.commits[|e.base| + 1] == e.ResultCommit();
    MessageRoundTrip(e.freeze.marker);
    MessageRoundTrip(e.collect.marker);
    SetChangesOnly(e.SourceTree(), e.freeze.path, Some(e.freeze.AsFile()));
    SetChangesOnly(e.SpecCommit().tree, e.collect.path, Some(e.collect.AsFile()));
  }

  /** A collected run reads back as exactly what was written. */
  lemma CollectedIsAccepted(base: seq<Commit>, tags: map<string, CommitId>, records: Records, parser: Parser,
                            spec: RunSpec, result: RunResult, r: Repository, objects: Objects)
    requires SetupOf(base, tags, records, spec, result).WellFormed()
    requires At(SetupOf(base, tags, records, spec, result), Collected, r) && Stores(objects, r)
    requires |base| + 1 < |r.commits| && PlainObject(r, objects, |base|) && PlainObject(r, objects, |base| + 1)
    requires records.validRunId(spec.runId) && Binds(result, spec) && Readable(records, parser, spec, result)
    requires base[spec.sourceCommit].tree == spec.sourceTree
    ensures Valid(r)
    ensures Read(r, objects, records, parser, spec.runId) == Some(Evidence(spec, result, |base|, |base| + 1))
  {
    hide *;
    SetupRefers(base, tags, records, spec, result, r);
    SetupReads(base, tags, records, parser, spec, result, r);
    SetupCommits(base, tags, records, spec, result, r, objects);
    ReadIff(r, objects, records, parser, spec.runId, Evidence(spec, result, |base|, |base| + 1));
  }

  lemma SetupCommits(base: seq<Commit>, tags: map<string, CommitId>, records: Records, spec: RunSpec, result: RunResult,
                     r: Repository, objects: Objects)
    requires SetupOf(base, tags, records, spec, result).WellFormed()
    requires At(SetupOf(base, tags, records, spec, result), Collected, r) && Stores(objects, r)
    requires |base| + 1 < |r.commits| && PlainObject(r, objects, |base|) && PlainObject(r, objects, |base| + 1)
    requires base[spec.sourceCommit].tree == spec.sourceTree
    ensures Valid(r) && CommitsRead(r, objects, spec.runId, Evidence(spec, result, |base|, |base| + 1))
  {
    hide At, Stores, PlainObject, IsRecordCommit, Valid, RecordPath, FreezeMarker, CollectMarker, WellParented;
    var e := SetupOf(base, tags, records, spec, result);
    assert e.base == base && e.source == spec.sourceCommit < |base|;
    RecordCommitsStand(e, r, objects);
  }

  lemma SetupRefers(base: seq<Commit>, tags: map<string, CommitId>, records: Records, spec: RunSpec, result: RunResult,
                    r: Repository)
    requires SetupOf(base, tags, records, spec, result).WellFormed()
    requires At(SetupOf(base, tags, records, spec, result), Collected, r) && records.validRunId(spec.runId)
    ensures Refers(r, records, spec.runId, Evidence(spec, result, |base|, |base| + 1))
  {
    hide TagName, BranchName, RecordPath, FreezeMarker, CollectMarker;
  }

  lemma SetupReads(base: seq<Commit>, tags: map<string, CommitId>, records: Records, parser: Parser, spec: RunSpec,
                   result: RunResult, r: Repository)
    requires SetupOf(base, tags, records, spec, result).WellFormed()
    requires At(SetupOf(base, tags, records, spec, result), Collected, r)
    requires Binds(result, spec) && Readable(records, parser, spec, result)
    ensures Valid(r) && RecordsRead(r, records, parser, spec.runId, Evidence(spec, result, |base|, |base| + 1))
  {
    var e := SetupOf(base, tags, records, spec, result);
    AtIsValid(e, Collected, r);
    RecordsOfRun(e, r, records, parser, spec, result);
    hide At, Valid, RecordPath, FreezeMarker, CollectMarker, ReadRecord;
  }

  lemma RecordsOfRun(e: Setup, r: Repository, records: Records, parser: Parser, spec: RunSpec, result: RunResult)
    requires e.WellFormed() && At(e, Collected, r) && Readable(records, parser, spec, result)
    requires e.freeze.text == records.specText(spec) && e.collect.text == records.resultText(result)
    ensures |e.base| + 1 < |r.commits|
    ensures ReadRecord(r, |e.base|, e.freeze.path) == Some(records.specText(spec))
    ensures ReadRecord(r, |e.base| + 1, e.collect.path) == Some(records.resultText(result))
  {
    CommitsOfRun(e, r);
    ReceivedIff(records.specText(spec));
    ReceivedIff(records.resultText(result));
    hide At, Received, Utf8Size, Differing, Valid;
  }

  /** MAIN: from the moment a collector gets its receipt, and whatever happens afterwards, the
      independent reader accepts the run and returns its records and both commits, as long as
      these are stored with plain header lines. */
  lemma WriterAndReaderAgree(base: seq<Commit>, tags: map<string, CommitId>, records: Records, parser: Parser,
                             spec: RunSpec, result: RunResult, objects: Objects,
                             states: seq<Repository>, events: seq<Event>, i: nat, j: nat)
    requires SetupOf(base, tags, records, spec, result).WellFormed()
    requires History(SetupOf(base, tags, records, spec, result), states, events)
    requires i < j < |states| && events[i].Collect? && events[i].collected.Done?
    requires Readable(records, parser, spec, result) && base[spec.sourceCommit].tree == spec.sourceTree
    requires Stores(objects, states[j]) && |base| + 1 < |states[j].commits|
    requires PlainObject(states[j], objects, |base|) && PlainObject(states[j], objects, |base| + 1)
    ensures Valid(states[j])
    ensures Read(states[j], objects, records, parser, spec.runId) ==
      Some(Evidence(spec, result, events[i].over.commit, events[i].collected.value.commit))
  {
    hide At, Read, Readable, Stores, PlainObject;
    var e := SetupOf(base, tags, records, spec, result);
    CollectedForever(e, states, events, i, j);
    CollectedIsAccepted(base, tags, records, parser, spec, result, states[j], objects);
  }

  lemma CollectedForever(e: Setup, states: seq<Repository>, events: seq<Event>, i: nat, j: nat)
    requires e.WellFormed() && History(e, states, events)
    requires i < j < |states| && events[i].Collect? && events[i].collected.Done?
    ensures At(e, Collected, states[j]) && e.bound && e.collect.valid
    ensures events[i].over.commit == |e.base| && events[i].collected.value.commit == |e.base| + 1
  {
    hide At, FreezeRun, CollectRun;
    var stages := Stages(e, states, events);
    assert Explained(e, events[i], stages[i], stages[i + 1]);
    StagesAdvance(e, states, events, stages, i + 1, j);
    assert Linked(e, states, events, i);
    CollectedWasValid(e, states[i], events[i].over, events[i].temp);
  }

  lemma CollectedWasValid(e: Setup, r: Repository, over: Receipt, temp: Path)
    requires Valid(r) && CollectRun(r, e.collect, e.bound, over, temp).outcome.Done?
    ensures e.bound && e.collect.valid
  {
  }
}
