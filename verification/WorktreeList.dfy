/** Two parsers of `git worktree list --porcelain -z`: one for preparing worktrees
    (src/researchctl/adapters/git_worktree.py) and a stricter one for the inventory
    (src/researchctl/adapters/reconcile.py). */
module WorktreeList {
  import opened Wrappers
  import opened Ordering
  import opened Text

  type Fields = map<string, string>

  /** `pathOf` is the spelling a path has after `Path(...)`. */
  datatype Rules = Rules(validObjectId: string -> bool, pathOf: string -> string)

  datatype Entry = Entry(path: string, head: Option<string>, branch: Option<string>, prunable: bool)

  function PathOf(e: Entry): string {
    e.path
  }

  // ----- Fields -----

  /** `field.partition(" ")`: the text before the first space, whether there is one, and the rest. */
  function Partition(field: string): (string, bool, string) {
    if field == "" then ("", false, "")
    else if field[0] == ' ' then ("", true, field[1..])
    else
      var (key, found, value) := Partition(field[1..]);
      ([field[0]] + key, found, value)
  }

  predicate ValidField(key: string, separated: bool) {
    || (key in {"HEAD", "branch", "worktree"} && separated)
    || key in {"locked", "prunable"}
    || (key in {"bare", "detached"} && !separated)
  }

  /** The records of a listing, each as the dictionary of its fields. */
  function Records(fields: seq<string>, current: Fields): Option<seq<Fields>>
    decreases |fields|
  {
    if fields == [] then Some(Flushed(current))
    else if fields[0] == "" then Ahead(Flushed(current), Records(fields[1..], map[]))
    else
      var (key, separated, value) := Partition(fields[0]);
      if !ValidField(key, separated) then None
      else if key == "worktree" && current != map[] then Ahead([current], Records(fields[1..], map[key := value]))
      else if key in current then None
      else Records(fields[1..], current[key := value])
  }

  function Flushed(current: Fields): seq<Fields> {
    if current == map[] then [] else [current]
  }

  function Ahead<T>(first: seq<T>, rest: Option<seq<T>>): Option<seq<T>> {
    if rest.None? then None else Some(first + rest.value)
  }

  function Get(fields: Fields, key: string): Option<string> {
    if key in fields then Some(fields[key]) else None
  }

  // ----- Entries -----

  function EntryOf(rules: Rules, fields: Fields): Entry {
    Entry(rules.pathOf(Get(fields, "worktree").UnwrapOr("")), Get(fields, "HEAD"), Get(fields, "branch"),
      "prunable" in fields)
  }

  predicate Accepts(rules: Rules, fields: Fields) {
    && Get(fields, "worktree").UnwrapOr("") != ""
    && ("HEAD" in fields ==> rules.validObjectId(fields["HEAD"]))
  }

  predicate AcceptsStrictly(rules: Rules, fields: Fields) {
    && Accepts(rules, fields)
    && fields["worktree"][0] == '/' && '\0' !in fields["worktree"]
    && ("branch" in fields ==> '\0' !in fields["branch"] && '\r' !in fields["branch"] && '\n' !in fields["branch"])
  }

  function Entries(rules: Rules, records: seq<Fields>): (es: seq<Entry>)
    ensures |es| == |records| && forall i :: 0 <= i < |es| ==> es[i] == EntryOf(rules, records[i])
  {
    seq(|records|, i requires 0 <= i < |records| => EntryOf(rules, records[i]))
  }

  predicate AllAccepted(rules: Rules, strictly: bool, records: seq<Fields>) {
    forall r <- records :: AcceptedBy(rules, strictly, r)
  }

  predicate AcceptedBy(rules: Rules, strictly: bool, fields: Fields) {
    if strictly then AcceptsStrictly(rules, fields) else Accepts(rules, fields)
  }

  // ----- The parsers as they execute -----

  /** What both parsers make of a listing, before sorting. */
  function Read(rules: Rules, strictly: bool, fields: seq<string>, current: Fields): Option<seq<Entry>> {
    Collect(rules, strictly, Records(fields, current))
  }

  function Collect(rules: Rules, strictly: bool, records: Option<seq<Fields>>): Option<seq<Entry>> {
    if records.None? || !AllAccepted(rules, strictly, records.value) then None else Some(Entries(rules, records.value))
  }

  method EntryFromFields(rules: Rules, fields: Fields) returns (o: Option<Entry>)
    ensures o == if Accepts(rules, fields) then Some(EntryOf(rules, fields)) else None
  {
    if "worktree" !in fields || fields["worktree"] == "" {
      return None;
    }
    if "HEAD" in fields && !rules.validObjectId(fields["HEAD"]) {
      return None;
    }
    return Some(EntryOf(rules, fields));
  }

  method StrictEntry(rules: Rules, fields: Fields) returns (o: Option<Entry>)
    ensures o == if AcceptsStrictly(rules, fields) then Some(EntryOf(rules, fields)) else None
  {
    if "worktree" !in fields || fields["worktree"] == "" {
      return None;
    }
    if fields["worktree"][0] != '/' || '\0' in fields["worktree"] {
      return None;
    }
    if "HEAD" in fields && !rules.validObjectId(fields["HEAD"]) {
      return None;
    }
    if "branch" in fields && ('\0' in fields["branch"] || '\r' in fields["branch"] || '\n' in fields["branch"]) {
      return None;
    }
    return Some(EntryOf(rules, fields));
  }

  /** `_parse_worktree_list`. */
  method ParseWorktreeList(rules: Rules, output: string) returns (o: Option<seq<Entry>>)
    ensures o == Read(rules, false, Split(output, '\0'), map[])
  {
    hide Accepts, Entries, Partition;
    var fields := Split(output, '\0');
    var entries: seq<Entry> := [];
    var current: Fields := map[];
    NothingRead(rules, false, fields);
    for i := 0 to |fields|
      invariant Read(rules, false, fields, map[]) == Ahead(entries, Read(rules, false, fields[i..], current))
    {
      var field := fields[i];
      ReadStep(rules, false, fields[i..], current, entries);
      assert fields[i..][1..] == fields[i + 1..];
      if field == "" {
        if current != map[] {
          var entry := EntryFromFields(rules, current);
          if entry.None? {
            return None;
          }
          entries := entries + [entry.value];
          current := map[];
        }
        continue;
      }
      var (key, separator, value) := Partition(field);
      if !ValidField(key, separator) {
        return None;
      }
      if key == "worktree" && current != map[] {
        var entry := EntryFromFields(rules, current);
        if entry.None? {
          return None;
        }
        entries := entries + [entry.value];
        current := map[];
      }
      if key in current {
        return None;
      }
      current := current[key := value];
    }
    ReadEnd(rules, false, fields[|fields|..], current, entries);
    if current != map[] {
      var entry := EntryFromFields(rules, current);
      if entry.None? {
        return None;
      }
      entries := entries + [entry.value];
    }
    return Some(entries);
  }

  lemma NothingRead(rules: Rules, strictly: bool, fields: seq<string>)
    ensures fields[0..] == fields
    ensures Read(rules, strictly, fields, map[]) == Ahead([], Read(rules, strictly, fields, map[]))
  {
    if Read(rules, strictly, fields, map[]).Some? {
      assert [] + Read(rules, strictly, fields, map[]).value == Read(rules, strictly, fields, map[]).value;
    }
  }

  lemma CollectNone(rules: Rules, strictly: bool, rest: Option<seq<Fields>>)
    ensures Collect(rules, strictly, Ahead([], rest)) == Collect(rules, strictly, rest)
    ensures Collect(rules, strictly, None) == None
  {
    if rest.Some? {
      assert [] + rest.value == rest.value;
    }
  }

  lemma CollectOne(rules: Rules, strictly: bool, r: Fields, rest: Option<seq<Fields>>, entries: seq<Entry>)
    ensures Ahead(entries, Collect(rules, strictly, Ahead([r], rest))) ==
      if AcceptedBy(rules, strictly, r)
      then Ahead(entries + [EntryOf(rules, r)], Collect(rules, strictly, rest)) else None
  {
    hide AcceptedBy, EntryOf;
    if rest.Some? {
      var all := [r] + rest.value;
      assert r in all && forall x :: x in all <==> x == r || x in rest.value;
      if AllAccepted(rules, strictly, all) {
        assert Entries(rules, all) == [EntryOf(rules, r)] + Entries(rules, rest.value);
        assert entries + ([EntryOf(rules, r)] + Entries(rules, rest.value)) ==
          entries + [EntryOf(rules, r)] + Entries(rules, rest.value);
      }
    }
  }

  /** One field more, with the entries read before it. */
  lemma ReadStep(rules: Rules, strictly: bool, fields: seq<string>, current: Fields, entries: seq<Entry>)
    requires fields != []
    ensures var whole, rest := Ahead(entries, Read(rules, strictly, fields, current)), fields[1..];
      if fields[0] == "" then
        if current == map[] then whole == Ahead(entries, Read(rules, strictly, rest, map[]))
        else if !AcceptedBy(rules, strictly, current) then whole == None
        else whole == Ahead(entries + [EntryOf(rules, current)], Read(rules, strictly, rest, map[]))
      else
        var (key, separated, value) := Partition(fields[0]);
        if !ValidField(key, separated) then whole == None
        else if key == "worktree" && current != map[] then
          if !AcceptedBy(rules, strictly, current) then whole == None
          else whole == Ahead(entries + [EntryOf(rules, current)], Read(rules, strictly, rest, map[key := value]))
        else if key in current then whole == None
        else whole == Ahead(entries, Read(rules, strictly, rest, current[key := value]))
  {
    hide Collect, AcceptedBy, EntryOf, ValidField;
    var rest := fields[1..];
    CollectNone(rules, strictly, Records(rest, map[]));
    CollectOne(rules, strictly, current, Records(rest, map[]), entries);
    var (key, _, value) := Partition(fields[0]);
    CollectOne(rules, strictly, current, Records(rest, map[key := value]), entries);
  }

  lemma ReadEnd(rules: Rules, strictly: bool, fields: seq<string>, current: Fields, entries: seq<Entry>)
    requires fields == []
    ensures var whole := Ahead(entries, Read(rules, strictly, fields, current));
      if current == map[] then whole == Some(entries)
      else if !AcceptedBy(rules, strictly, current) then whole == None
      else whole == Some(entries + [EntryOf(rules, current)])
  {
    hide AcceptedBy, EntryOf;
    CollectOne(rules, strictly, current, Some([]), entries);
    assert [current] + [] == [current] && entries + [] == entries;
    assert entries + [EntryOf(rules, current)] + [] == entries + [EntryOf(rules, current)];
  }

  /** `_parse_worktrees`. */
  method ParseWorktrees(rules: Rules, output: string) returns (o: Option<seq<Entry>>)
    ensures o == Inventory(rules, output)
  {
    hide AcceptsStrictly, Entries, Partition;
    var fields := Split(output, '\0');
    var entries: seq<Entry> := [];
    var current: Fields := map[];
    NothingRead(rules, true, fields);
    for i := 0 to |fields|
      invariant Read(rules, true, fields, map[]) == Ahead(entries, Read(rules, true, fields[i..], current))
    {
      var field := fields[i];
      ReadStep(rules, true, fields[i..], current, entries);
      assert fields[i..][1..] == fields[i + 1..];
      if field == "" {
        if current != map[] {
          var entry := StrictEntry(rules, current);
          if entry.None? {
            return None;
          }
          entries := entries + [entry.value];
          current := map[];
        }
        continue;
      }
      var (key, separator, value) := Partition(field);
      if key == "worktree" && current != map[] {
        var entry := StrictEntry(rules, current);
        if entry.None? {
          return None;
        }
        entries := entries + [entry.value];
        current := map[];
      }
      if !ValidField(key, separator) || key in current {
        return None;
      }
      current := current[key := value];
    }
    ReadEnd(rules, true, fields[|fields|..], current, entries);
    if current != map[] {
      var entry := StrictEntry(rules, current);
      if entry.None? {
        return None;
      }
      entries := entries + [entry.value];
    }
    if !DistinctBy(PathOf, entries) {
      return None;
    }
    return Some(SortBy(PathOf, entries));
  }

  function Inventory(rules: Rules, output: string): Option<seq<Entry>> {
    match Read(rules, true, Split(output, '\0'), map[])
    case None => None
    case Some(entries) => if DistinctBy(PathOf, entries) then Some(SortBy(PathOf, entries)) else None
  }

  // ----- The two parsers -----

  ghost predicate NulFree(r: Fields) {
    forall k <- r :: '\0' !in r[k]
  }

  lemma {:induction false} PartitionKeeps(field: string)
    ensures var (key, found, value) := Partition(field);
      field == key + (if found then " " + value else "") && ' ' !in key && (!found ==> value == "")
  {
    if field != "" && field[0] != ' ' {
      PartitionKeeps(field[1..]);
      assert field == [field[0]] + field[1..];
    }
  }

  lemma {:induction false} RecordsAreNulFree(fields: seq<string>, current: Fields)
    requires (forall f <- fields :: '\0' !in f) && NulFree(current)
    ensures Records(fields, current).Some? ==> forall r <- Records(fields, current).value :: NulFree(r)
    decreases |fields|
  {
    hide Partition;
    if fields != [] {
      assert fields[0] in fields && forall f <- fields[1..] :: f in fields;
      RecordsAreNulFree(fields[1..], map[]);
      PartitionKeeps(fields[0]);
      var (key, _, value) := Partition(fields[0]);
      assert NulFree(map[key := value]) && NulFree(current[key := value]) by {
        assert '\0' !in value;
      }
      RecordsAreNulFree(fields[1..], map[key := value]);
      RecordsAreNulFree(fields[1..], current[key := value]);
    }
  }

  // ----- Which listings can be read -----

  function KeyOf(field: string): string {
    Split(field, ' ')[0]
  }

  /** A line of a record as Git writes them. */
  ghost predicate Known(field: string) {
    || field in {"bare", "detached", "locked", "prunable"}
    || exists key, value :: IsLine(field, key, value)
  }

  ghost predicate IsLine(field: string, key: string, value: string) {
    key in {"worktree", "HEAD", "branch", "locked", "prunable"} && field == key + " " + value
  }

  /** An empty line ends a record, and a worktree line starts one. */
  ghost predicate Starts(field: string) {
    field == "" || KeyOf(field) == "worktree"
  }

  ghost predicate StartsBetween(fields: seq<string>, i: nat, j: nat)
    requires j < |fields|
  {
    exists k :: i <= k <= j && Starts(fields[k])
  }

  /** Two lines of one record have the same key. */
  ghost predicate Repeats(fields: seq<string>) {
    exists i, j :: 0 <= i < j < |fields| && fields[i] != "" && SameRecord(fields, i, j)
                   && KeyOf(fields[i]) == KeyOf(fields[j])
  }

  ghost predicate SameRecord(fields: seq<string>, i: nat, j: nat)
    requires i < j < |fields|
  {
    fields[j] != "" && !StartsBetween(fields, i + 1, j)
  }

  /** A line of the record that is under way has one of these keys. */
  ghost predicate Again(fields: seq<string>, keys: set<string>) {
    exists j :: 0 <= j < |fields| && fields[j] != "" && !StartsBetween(fields, 0, j) && KeyOf(fields[j]) in keys
  }

  lemma {:induction false} PartitionIs(field: string)
    ensures Partition(field).0 == KeyOf(field)
    ensures Partition(field).1 <==> KeyOf(field) != field
  {
    var (key, found, value) := Partition(field);
    PartitionKeeps(field);
    SplitHead(field, key, ' ');
    hide Partition, Split;
    if found {
      assert key + [' '] == key + " ";
      assert key + [' '] <= field;
    }
  }

  lemma KnownIff(field: string)
    ensures Known(field) <==> ValidField(Partition(field).0, Partition(field).1)
  {
    var (key, found, value) := Partition(field);
    PartitionKeeps(field);
    if k, v :| IsLine(field, k, v) {
      PartitionOf(k, v);
    }
    if field in {"bare", "detached", "locked", "prunable"} {
      PartitionOf(field, "");
    }
    hide Partition;
    assert !found ==> field == key;
    assert found && ValidField(key, found) ==> IsLine(field, key, value);
  }

  lemma BetweenShifts(fields: seq<string>, i: nat, j: nat)
    requires j + 1 < |fields|
    ensures StartsBetween(fields, i + 1, j + 1) <==> StartsBetween(fields[1..], i, j)
    ensures StartsBetween(fields, 0, j + 1) <==> Starts(fields[0]) || StartsBetween(fields[1..], 0, j)
  {
    hide Starts;
    if k :| i + 1 <= k <= j + 1 && Starts(fields[k]) {
      assert fields[1..][k - 1] == fields[k];
    }
    if k :| 0 <= k <= j + 1 && Starts(fields[k]) {
      assert k > 0 ==> fields[1..][k - 1] == fields[k];
    }
    if k :| i <= k <= j && Starts(fields[1..][k]) {
      assert fields[1..][k] == fields[k + 1];
    }
    if k :| 0 <= k <= j && Starts(fields[1..][k]) {
      assert fields[1..][k] == fields[k + 1];
    }
  }

  lemma AgainStep(fields: seq<string>, keys: set<string>)
    requires fields != []
    ensures Again(fields, keys) <==> !Starts(fields[0]) && (KeyOf(fields[0]) in keys || Again(fields[1..], keys))
  {
    hide KeyOf, StartsBetween;
    var rest := fields[1..];
    AtStart(fields);
    if j :| 0 <= j < |fields| && fields[j] != "" && !StartsBetween(fields, 0, j) && KeyOf(fields[j]) in keys {
      if j > 0 {
        BetweenShifts(fields, 0, j - 1);
        assert rest[j - 1] == fields[j];
      }
    }
    if j :| 0 <= j < |rest| && rest[j] != "" && !StartsBetween(rest, 0, j) && KeyOf(rest[j]) in keys {
      BetweenShifts(fields, 0, j);
      assert rest[j] == fields[j + 1];
    }
  }

  lemma AtStart(fields: seq<string>)
    requires fields != []
    ensures StartsBetween(fields, 0, 0) <==> Starts(fields[0])
  {
  }

  lemma RepeatsStep(fields: seq<string>)
    requires fields != []
    ensures Repeats(fields) <==>
      Repeats(fields[1..]) || (fields[0] != "" && Again(fields[1..], {KeyOf(fields[0])}))
  {
    hide KeyOf, StartsBetween;
    var rest := fields[1..];
    if i, j :| 0 <= i < j < |fields| && fields[i] != "" && SameRecord(fields, i, j)
               && KeyOf(fields[i]) == KeyOf(fields[j]) {
      BetweenShifts(fields, i, j - 1);
      assert rest[j - 1] == fields[j];
      if i > 0 {
        assert rest[i - 1] == fields[i] && SameRecord(rest, i - 1, j - 1);
      }
    }
    if i, j :| 0 <= i < j < |rest| && rest[i] != "" && SameRecord(rest, i, j) && KeyOf(rest[i]) == KeyOf(rest[j]) {
      BetweenShifts(fields, i + 1, j);
      assert rest[i] == fields[i + 1] && rest[j] == fields[j + 1] && SameRecord(fields, i + 1, j + 1);
    }
    if fields[0] != "" && Again(rest, {KeyOf(fields[0])}) {
      var j :| 0 <= j < |rest| && rest[j] != "" && !StartsBetween(rest, 0, j) && KeyOf(rest[j]) in {KeyOf(fields[0])};
      BetweenShifts(fields, 0, j);
      assert rest[j] == fields[j + 1] && SameRecord(fields, 0, j + 1);
    }
  }

  lemma AgainOfBoth(fields: seq<string>, keys: set<string>, key: string)
    ensures Again(fields, keys + {key}) <==> Again(fields, keys) || Again(fields, {key})
  {
    hide KeyOf, StartsBetween;
  }

  lemma NothingAgain(fields: seq<string>)
    ensures !Again(fields, {})
  {
    hide KeyOf, StartsBetween;
  }

  /** The key of a worktree line never comes again: such a line starts a record. */
  lemma NoWorktreeAgain(fields: seq<string>)
    ensures !Again(fields, {"worktree"})
  {
    hide KeyOf;
  }

  ghost predicate AllKnown(fields: seq<string>) {
    forall f <- fields :: f == "" || Known(f)
  }

  lemma {:induction false} RecordsOverIff(fields: seq<string>, current: Fields)
    ensures Records(fields, current).Some? <==>
      AllKnown(fields) && !Repeats(fields) && !Again(fields, current.Keys)
    decreases |fields|
  {
    hide *;
    if fields == [] {
      NoFields(current);
    } else {
      var f, rest := fields[0], fields[1..];
      var key, value := KeyOf(f), Partition(f).2;
      var none: Fields, first: Fields := map[], map[key := value];
      KnownRest(fields);
      PartitionIs(f);
      StartsIs(f);
      RecordsStep(fields, current);
      AgainStep(fields, current.Keys);
      RepeatsStep(fields);
      RecordsOverIff(rest, none);
      RecordsOverIff(rest, first);
      RecordsOverIff(rest, current[key := value]);
      assert none.Keys == {} && first.Keys == {key} && current[key := value].Keys == current.Keys + {key};
      AgainOfBoth(rest, current.Keys, key);
      NoWorktreeAgain(rest);
      NothingAgain(rest);
    }
  }

  lemma NoFields(current: Fields)
    ensures Records([], current).Some? && AllKnown([]) && !Repeats([]) && !Again([], current.Keys)
  {
  }

  lemma StartsIs(field: string)
    ensures Starts(field) <==> field == "" || KeyOf(field) == "worktree"
  {
    hide KeyOf;
  }

  /** Reading one line. */
  lemma RecordsStep(fields: seq<string>, current: Fields)
    requires fields != []
    ensures var f, rest := fields[0], fields[1..];
      var key, value := Partition(f).0, Partition(f).2;
      Records(fields, current).Some? <==>
        if f == "" then Records(rest, map[]).Some?
        else
          && Known(f)
          && if key == "worktree" then
               Records(rest, if current == map[] then current[key := value] else map[key := value]).Some?
             else key !in current && Records(rest, current[key := value]).Some?
  {
    KnownIff(fields[0]);
    hide Partition, ValidField, Known;
  }

  lemma KnownRest(fields: seq<string>)
    requires fields != []
    ensures AllKnown(fields) <==> (fields[0] == "" || Known(fields[0])) && AllKnown(fields[1..])
  {
    hide Known;
    assert fields == [fields[0]] + fields[1..];
  }

  /** MAIN: a listing falls into records exactly if each line that is not empty is one that Git
      writes, and no record has two lines with one key. */
  lemma RecordsIff(fields: seq<string>)
    ensures Records(fields, map[]).Some? <==> AllKnown(fields) && !Repeats(fields)
  {
    hide *;
    var nothing: Fields := map[];
    RecordsOverIff(fields, nothing);
    NothingAgain(fields);
    assert nothing.Keys == {};
  }

  /** MAIN: what the inventory accepts the lenient parser accepts, with the same entries up to
      sorting; and the inventory accepts exactly the listings the lenient parser accepts whose
      paths are absolute and distinct and whose branches have no line ends. */
  lemma InventoryRefines(rules: Rules, output: string)
    ensures var strict, lenient, records := Inventory(rules, output),
      Read(rules, false, Split(output, '\0'), map[]), Records(Split(output, '\0'), map[]);
      && (strict.Some? ==>
          lenient.Some? && multiset(strict.value) == multiset(lenient.value) && InOrder(PathOf, strict.value))
      && (strict.Some? <==>
          && lenient.Some? && DistinctBy(PathOf, lenient.value)
          && forall r <- records.value ::
               && r["worktree"][0] == '/'
               && ("branch" in r ==> '\r' !in r["branch"] && '\n' !in r["branch"]))
  {
    hide Records, Split, Entries, SortBy, DistinctBy;
    SplitIsFree(output, '\0');
    RecordsAreNulFree(Split(output, '\0'), map[]);
    var records := Records(Split(output, '\0'), map[]);
    if records.Some? {
      StrictlyIff(rules, records.value);
      SortByOrders(PathOf, Entries(rules, records.value));
    }
  }

  lemma StrictlyIff(rules: Rules, records: seq<Fields>)
    requires forall r <- records :: NulFree(r)
    ensures AllAccepted(rules, true, records) <==>
      && AllAccepted(rules, false, records)
      && forall r <- records ::
           && r["worktree"][0] == '/'
           && ("branch" in r ==> '\r' !in r["branch"] && '\n' !in r["branch"])
  {
  }

  // ----- Printing and reading again -----

  /** A worktree as Git lists it. */
  datatype Worktree = Worktree(
    path: string, head: Option<string>, bare: bool, detached: bool, branch: Option<string>,
    locked: Option<string>, prunable: Option<string>)

  ghost predicate Printable(rules: Rules, w: Worktree) {
    && w.path != "" && '\0' !in w.path
    && (w.head.Some? ==> rules.validObjectId(w.head.value) && '\0' !in w.head.value)
    && (w.branch.Some? ==> '\0' !in w.branch.value)
    && (w.locked.Some? ==> '\0' !in w.locked.value)
    && (w.prunable.Some? ==> '\0' !in w.prunable.value)
  }

  function Line(key: string, value: Option<string>): seq<string> {
    if value.None? then [] else [key + " " + value.value]
  }

  /** A reason is printed only when there is one. */
  function Reason(key: string, value: Option<string>): seq<string> {
    if value.None? then [] else if value.value == "" then [key] else [key + " " + value.value]
  }

  function Lines(w: Worktree): seq<string> {
    ["worktree " + w.path] + Line("HEAD", w.head)
    + (if w.bare then ["bare"] else []) + (if w.detached then ["detached"] else [])
    + Line("branch", w.branch) + Reason("locked", w.locked) + Reason("prunable", w.prunable) + [""]
  }

  function AllLines(ws: seq<Worktree>): seq<string> {
    if ws == [] then [] else Lines(ws[0]) + AllLines(ws[1..])
  }

  lemma {:induction false} PartitionOf(key: string, value: string)
    requires ' ' !in key
    ensures Partition(key + " " + value) == (key, true, value)
    ensures Partition(key) == (key, false, "")
  {
    if key == "" {
      assert key + " " + value == " " + value && (" " + value)[1..] == value;
    } else {
      assert (key + " " + value)[1..] == key[1..] + " " + value;
      PartitionOf(key[1..], value);
      assert [key[0]] + key[1..] == key;
    }
  }

  /** The dictionary of one printed worktree. */
  function FieldsOf(w: Worktree): Fields {
    var f := map["worktree" := w.path];
    var f := if w.head.Some? then f["HEAD" := w.head.value] else f;
    var f := if w.bare then f["bare" := ""] else f;
    var f := if w.detached then f["detached" := ""] else f;
    WithTail(w, f)
  }

  function WithTail(w: Worktree, f: Fields): Fields {
    var f := if w.branch.Some? then f["branch" := w.branch.value] else f;
    var f := if w.locked.Some? then f["locked" := w.locked.value] else f;
    if w.prunable.Some? then f["prunable" := w.prunable.value] else f
  }

  function EntryOfWorktree(rules: Rules, w: Worktree): Entry {
    Entry(rules.pathOf(w.path), w.head, w.branch, w.prunable.Some?)
  }

  /** One optional line is taken into the dictionary. */
  lemma TakesLine(key: string, value: Option<string>, rest: seq<string>, current: Fields)
    requires key in {"HEAD", "branch"} && key !in current
    ensures Records(Line(key, value) + rest, current) ==
      Records(rest, if value.Some? then current[key := value.value] else current)
  {
    if value.Some? {
      PartitionOf(key, value.value);
      assert (Line(key, value) + rest)[1..] == rest;
    } else {
      assert [] + rest == rest;
    }
  }

  lemma TakesReason(key: string, value: Option<string>, rest: seq<string>, current: Fields)
    requires key in {"locked", "prunable"} && key !in current
    ensures Records(Reason(key, value) + rest, current) ==
      Records(rest, if value.Some? then current[key := value.value] else current)
  {
    if value.None? {
      assert [] + rest == rest;
    } else {
      TakesField(key, value.value, Reason(key, value)[0], rest, current);
    }
  }

  lemma TakesField(key: string, value: string, field: string, rest: seq<string>, current: Fields)
    requires key in {"locked", "prunable"} && key !in current
    requires field == if value == "" then key else key + " " + value
    ensures Records([field] + rest, current) == Records(rest, current[key := value])
  {
    PartitionOf(key, value);
    hide Partition;
    TakesAny(key, value != "", value, field, rest, current);
  }

  /** A valid field that starts no other record goes into the dictionary. */
  lemma TakesAny(key: string, separated: bool, value: string, field: string, rest: seq<string>, current: Fields)
    requires field != "" && Partition(field) == (key, separated, value) && ValidField(key, separated)
    requires key !in current && (key == "worktree" ==> current == map[])
    ensures Records([field] + rest, current) == Records(rest, current[key := value])
  {
    hide Partition, ValidField;
    assert ([field] + rest)[1..] == rest;
  }

  lemma TakesFlag(key: string, on: bool, rest: seq<string>, current: Fields)
    requires key in {"bare", "detached"} && key !in current
    ensures Records((if on then [key] else []) + rest, current) ==
      Records(rest, if on then current[key := ""] else current)
  {
    if on {
      PartitionOf(key, "");
      assert ([key] + rest)[1..] == rest;
    } else {
      assert [] + rest == rest;
    }
  }

  /** A printed worktree is read as its dictionary. */
  lemma TakesWorktree(w: Worktree, rest: seq<string>)
    ensures Records(Lines(w) + rest, map[]) == Ahead([FieldsOf(w)], Records(rest, map[]))
  {
    hide Records, Line, Reason;
    var f0: Fields := map["worktree" := w.path];
    var f1 := if w.head.Some? then f0["HEAD" := w.head.value] else f0;
    var f2 := if w.bare then f1["bare" := ""] else f1;
    var f3 := if w.detached then f2["detached" := ""] else f2;
    var r3 := Line("branch", w.branch) +
      (Reason("locked", w.locked) + (Reason("prunable", w.prunable) + ([""] + rest)));
    var r2 := (if w.detached then ["detached"] else []) + r3;
    var r1 := (if w.bare then ["bare"] else []) + r2;
    assert Lines(w) + rest == ["worktree " + w.path] + (Line("HEAD", w.head) + r1);
    TakesPath(w.path, Line("HEAD", w.head) + r1);
    TakesLine("HEAD", w.head, r1, f0);
    TakesFlag("bare", w.bare, r2, f1);
    TakesFlag("detached", w.detached, r3, f2);
    assert f3.Keys <= {"worktree", "HEAD", "bare", "detached"};
    TakesTail(w, f3, rest);
  }

  lemma TakesTail(w: Worktree, current: Fields, rest: seq<string>)
    requires current.Keys <= {"worktree", "HEAD", "bare", "detached"} && "worktree" in current
    ensures Records(Line("branch", w.branch) +
      (Reason("locked", w.locked) + (Reason("prunable", w.prunable) + ([""] + rest))), current)
      == Ahead([WithTail(w, current)], Records(rest, map[]))
  {
    hide Records, Line, Reason;
    var f4 := if w.branch.Some? then current["branch" := w.branch.value] else current;
    var f5 := if w.locked.Some? then f4["locked" := w.locked.value] else f4;
    TakesLine("branch", w.branch,
              Reason("locked", w.locked) + (Reason("prunable", w.prunable) + ([""] + rest)), current);
    TakesReason("locked", w.locked, Reason("prunable", w.prunable) + ([""] + rest), f4);
    TakesReason("prunable", w.prunable, [""] + rest, f5);
    assert "worktree" in WithTail(w, current);
    TakesEnd(WithTail(w, current), rest);
  }

  lemma TakesPath(path: string, rest: seq<string>)
    ensures Records(["worktree " + path] + rest, map[]) == Records(rest, map["worktree" := path])
  {
    PartitionOf("worktree", path);
    assert "worktree" + " " + path == "worktree " + path;
    TakesAny("worktree", true, path, "worktree " + path, rest, map[]);
    assert map[]["worktree" := path] == map["worktree" := path];
  }

  lemma TakesEnd(current: Fields, rest: seq<string>)
    requires current != map[]
    ensures Records([""] + rest, current) == Ahead([current], Records(rest, map[]))
  {
    assert ([""] + rest)[1..] == rest;
  }

  function AllFields(ws: seq<Worktree>): (all: seq<Fields>)
    ensures |all| == |ws| && forall i :: 0 <= i < |ws| ==> all[i] == FieldsOf(ws[i])
  {
    if ws == [] then [] else [FieldsOf(ws[0])] + AllFields(ws[1..])
  }

  function AllEntries(rules: Rules, ws: seq<Worktree>): (all: seq<Entry>)
    ensures |all| == |ws| && forall i :: 0 <= i < |ws| ==> all[i] == EntryOfWorktree(rules, ws[i])
  {
    if ws == [] then [] else [EntryOfWorktree(rules, ws[0])] + AllEntries(rules, ws[1..])
  }

  lemma {:induction false} PrintedRecords(ws: seq<Worktree>)
    ensures Records(AllLines(ws) + [""], map[]) == Some(AllFields(ws))
  {
    hide Lines, FieldsOf;
    if ws == [] {
      assert [] + [""] == [""] && [""][1..] == [];
      var none: seq<Fields> := [];
      assert none + none == none && Records([], map[]) == Some(none);
    } else {
      hide Records;
      assert AllLines(ws) + [""] == Lines(ws[0]) + (AllLines(ws[1..]) + [""]);
      TakesWorktree(ws[0], AllLines(ws[1..]) + [""]);
      PrintedRecords(ws[1..]);
    }
  }

  lemma LineIsNulFree(key: string, value: Option<string>)
    requires '\0' !in key && (value.Some? ==> '\0' !in value.value)
    ensures forall l <- Line(key, value) + Reason(key, value) :: '\0' !in l
  {
  }

  lemma LinesOfOne(rules: Rules, w: Worktree)
    requires Printable(rules, w)
    ensures forall l <- Lines(w) :: '\0' !in l
  {
    LineIsNulFree("HEAD", w.head);
    LineIsNulFree("branch", w.branch);
    LineIsNulFree("locked", w.locked);
    LineIsNulFree("prunable", w.prunable);
    assert '\0' !in "worktree " && '\0' !in "bare" && '\0' !in "detached";
    hide Line, Reason;
  }

  lemma {:induction false} LinesAreNulFree(rules: Rules, ws: seq<Worktree>)
    requires forall w <- ws :: Printable(rules, w)
    ensures forall l <- AllLines(ws) :: '\0' !in l
  {
    hide Lines, Printable;
    if ws != [] {
      assert ws[0] in ws && forall w <- ws[1..] :: w in ws;
      LinesAreNulFree(rules, ws[1..]);
      LinesOfOne(rules, ws[0]);
    }
  }

  lemma FieldsOfEntry(rules: Rules, w: Worktree)
    requires Printable(rules, w)
    ensures Accepts(rules, FieldsOf(w)) && EntryOf(rules, FieldsOf(w)) == EntryOfWorktree(rules, w)
  {
    assert "worktree" in FieldsOf(w) && FieldsOf(w)["worktree"] == w.path;
  }

  /** MAIN: reading what was printed gives the worktrees back, in order. */
  lemma ReadsWhatWasPrinted(rules: Rules, ws: seq<Worktree>)
    requires forall w <- ws :: Printable(rules, w)
    ensures Read(rules, false, Split(Terminated(AllLines(ws), '\0'), '\0'), map[]) == Some(AllEntries(rules, ws))
  {
    hide Records, Split, Terminated, Accepts, FieldsOf, EntryOf, EntryOfWorktree, AllLines, Printable;
    LinesAreNulFree(rules, ws);
    SplitOfTerminated(AllLines(ws), '\0');
    PrintedRecords(ws);
    forall i | 0 <= i < |ws|
      ensures Accepts(rules, FieldsOf(ws[i])) && EntryOf(rules, FieldsOf(ws[i])) == EntryOfWorktree(rules, ws[i])
    {
      FieldsOfEntry(rules, ws[i]);
    }
    assert Entries(rules, AllFields(ws)) == AllEntries(rules, ws);
  }

  // ----- As it arrives -----

  function Arrives(value: Option<string>): Option<string> {
    if value.None? then None else Some(Received(value.value))
  }

  function Arrived(w: Worktree): Worktree {
    Worktree(Received(w.path), Arrives(w.head), w.bare, w.detached, Arrives(w.branch), Arrives(w.locked),
             Arrives(w.prunable))
  }

  function AllArrived(ws: seq<Worktree>): (arrived: seq<Worktree>)
    ensures |arrived| == |ws| && forall i :: 0 <= i < |ws| ==> arrived[i] == Arrived(ws[i])
  {
    if ws == [] then [] else [Arrived(ws[0])] + AllArrived(ws[1..])
  }

  lemma KeyedArrives(key: string, value: string)
    requires '\r' !in key
    ensures Received(key + " " + value) == key + " " + Received(value)
    ensures Received(key) == key
  {
    ReceivedIff(key);
    ReceivedIff(key + " ");
    assert '\r' !in key + " ";
    hide Received;
    ReceivedJoins(key + " ", value);
  }

  lemma LineArrives(key: string, value: Option<string>)
    requires '\r' !in key
    ensures AllReceived(Line(key, value)) == Line(key, Arrives(value))
    ensures AllReceived(Reason(key, value)) == Reason(key, Arrives(value))
  {
    if value.Some? {
      KeyedArrives(key, value.value);
      NotEmptyReceived(value.value);
    }
    hide Received;
  }

  lemma WordArrives(word: string)
    requires '\r' !in word
    ensures AllReceived([word]) == [word] && AllReceived([]) == []
  {
    ReceivedIff(word);
    hide Received;
  }

  lemma LinesArrive(w: Worktree)
    ensures AllReceived(Lines(w)) == Lines(Arrived(w))
  {
    hide Received, Line, Reason, AllReceived;
    var a, b := ["worktree " + w.path], Line("HEAD", w.head);
    var c, d := (if w.bare then ["bare"] else []), (if w.detached then ["detached"] else []);
    var e, f, g := Line("branch", w.branch), Reason("locked", w.locked), Reason("prunable", w.prunable);
    AllReceivedJoins(a + b + c + d + e + f + g, [""]);
    AllReceivedJoins(a + b + c + d + e + f, g);
    AllReceivedJoins(a + b + c + d + e, f);
    AllReceivedJoins(a + b + c + d, e);
    AllReceivedJoins(a + b + c, d);
    AllReceivedJoins(a + b, c);
    AllReceivedJoins(a, b);
    PathLineArrives(w.path);
    LineArrives("HEAD", w.head);
    LineArrives("branch", w.branch);
    LineArrives("locked", w.locked);
    LineArrives("prunable", w.prunable);
    WordArrives("bare");
    WordArrives("detached");
    WordArrives("");
  }

  lemma PathLineArrives(path: string)
    ensures AllReceived(["worktree " + path]) == ["worktree " + Received(path)]
  {
    KeyedArrives("worktree", path);
    assert "worktree" + " " + path == "worktree " + path;
    assert "worktree" + " " + Received(path) == "worktree " + Received(path);
    hide Received;
  }

  lemma {:induction false} AllLinesArrive(ws: seq<Worktree>)
    ensures AllReceived(AllLines(ws)) == AllLines(AllArrived(ws))
  {
    hide Lines, Received, Arrived, AllReceived;
    if ws == [] {
      WordArrives("");
    } else {
      AllReceivedJoins(Lines(ws[0]), AllLines(ws[1..]));
      LinesArrive(ws[0]);
      AllLinesArrive(ws[1..]);
      assert AllArrived(ws)[1..] == AllArrived(ws[1..]);
    }
  }

  lemma ArrivesPrintable(rules: Rules, w: Worktree)
    requires Printable(rules, w) && forall id :: rules.validObjectId(id) ==> '\r' !in id
    ensures Printable(rules, Arrived(w)) && Arrived(w).head == w.head
  {
    NotEmptyReceived(w.path);
    if w.head.Some? {
      ReceivedIff(w.head.value);
    }
    if w.branch.Some? {
      NotEmptyReceived(w.branch.value);
    }
    if w.locked.Some? {
      NotEmptyReceived(w.locked.value);
    }
    if w.prunable.Some? {
      NotEmptyReceived(w.prunable.value);
    }
    hide Received;
  }

  /** MAIN: what is read of a printed listing is the worktrees as they arrive, in order; that is
      what was printed exactly when no branch holds a carriage return and each path means the
      same without its own. */
  lemma ReadsWhatArrives(rules: Rules, ws: seq<Worktree>)
    requires (forall w <- ws :: Printable(rules, w)) && forall id :: rules.validObjectId(id) ==> '\r' !in id
    ensures var output := Received(Terminated(AllLines(ws), '\0'));
      && Read(rules, false, Split(output, '\0'), map[]) == Some(AllEntries(rules, AllArrived(ws)))
      && (Read(rules, false, Split(output, '\0'), map[]) == Some(AllEntries(rules, ws)) <==>
          forall w <- ws :: SameEntry(rules, w))
  {
    hide Terminated, Split, AllLines, Received, Printable, Arrived, EntryOfWorktree, Read;
    ReceivedTerminated(AllLines(ws), '\0');
    AllLinesArrive(ws);
    var arrived := AllArrived(ws);
    forall i | 0 <= i < |ws|
      ensures Printable(rules, arrived[i])
      ensures EntryOfWorktree(rules, arrived[i]) == EntryOfWorktree(rules, ws[i]) <==> SameEntry(rules, ws[i])
    {
      assert ws[i] in ws;
      ArrivesPrintable(rules, ws[i]);
      ArrivesSame(rules, ws[i]);
    }
    ReadsWhatWasPrinted(rules, arrived);
    var printed, read := AllEntries(rules, ws), AllEntries(rules, arrived);
    if read == printed {
      forall w <- ws ensures SameEntry(rules, w) {
        var i :| 0 <= i < |ws| && ws[i] == w;
        assert read[i] == printed[i];
      }
    }
    if forall w <- ws :: SameEntry(rules, w) {
      forall i | 0 <= i < |ws| ensures read[i] == printed[i] {
        assert ws[i] in ws;
      }
    }
  }

  predicate SameEntry(rules: Rules, w: Worktree) {
    rules.pathOf(Received(w.path)) == rules.pathOf(w.path) && (w.branch.Some? ==> '\r' !in w.branch.value)
  }

  lemma ArrivesSame(rules: Rules, w: Worktree)
    requires Arrived(w).head == w.head
    ensures EntryOfWorktree(rules, Arrived(w)) == EntryOfWorktree(rules, w) <==> SameEntry(rules, w)
  {
    if w.branch.Some? {
      ReceivedIff(w.branch.value);
    }
    hide Received;
  }
}
