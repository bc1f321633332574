/** The closed set of paths an impact proposal may change
    (src/researchctl/adapters/git_impact.py). */
module ImpactPaths {

  predicate EndsWith(s: string, suffix: string) {
    |s| >= |suffix| && s[|s| - |suffix|..] == suffix
  }

  /** `removesuffix`. */
  function Without(s: string, suffix: string): string {
    if EndsWith(s, suffix) then s[..|s| - |suffix|] else s
  }

  const REPORTS := ".research/reports/report_"

  predicate IsHexDigit(c: char) {
    '0' <= c <= '9' || 'a' <= c <= 'f'
  }

  /** A report revision without its suffix: its directory is a report id, its file a number
      without leading zeros. `digit` holds of the decimal digits of Unicode. */
  predicate IsRevision(digit: char -> bool, s: string) {
    && |s| > 67 && REPORTS <= s
    && (forall i :: 25 <= i < 33 ==> digit(s[i])) && s[33] == 'T'
    && (forall i :: 34 <= i < 40 ==> digit(s[i])) && s[40] == 'Z' && s[41] == '_'
    && (forall i :: 42 <= i < 66 ==> IsHexDigit(s[i])) && s[66] == '/'
    && '1' <= s[67] <= '9' && forall i :: 68 <= i < |s| ==> '0' <= s[i] <= '9'
  }

  ghost predicate AllIn(chars: set<char>, s: string) {
    forall i :: 0 <= i < |s| ==> s[i] in chars
  }

  ghost predicate AllDigits(digit: char -> bool, s: string) {
    forall i :: 0 <= i < |s| ==> digit(s[i])
  }

  const DIGITS := {'0', '1', '2', '3', '4', '5', '6', '7', '8', '9'}
  const HEX_DIGITS := DIGITS + {'a', 'b', 'c', 'd', 'e', 'f'}

  /** `report_<date>T<time>Z_<hash>/<number>`. */
  ghost predicate IsSpelled(digit: char -> bool, s: string, date: string, time: string, hash: string, number: string) {
    && s == ".research/reports/report_" + date + "T" + time + "Z_" + hash + "/" + number
    && |date| == 8 && AllDigits(digit, date) && |time| == 6 && AllDigits(digit, time)
    && |hash| == 24 && AllIn(HEX_DIGITS, hash)
    && number != "" && AllIn(DIGITS, number) && number[0] != '0'
  }

  /** MAIN: a revision is a report's directory, named after a date, a time and a hash, with a
      number that starts with no zero. */
  lemma RevisionIff(digit: char -> bool, s: string)
    ensures IsRevision(digit, s) <==> exists date, time, hash, number :: IsSpelled(digit, s, date, time, hash, number)
  {
    if IsRevision(digit, s) {
      RevisionIsSpelled(digit, s);
    }
    hide IsRevision;
    if date, time, hash, number :| IsSpelled(digit, s, date, time, hash, number) {
      SpelledIsRevision(digit, s, date, time, hash, number);
    }
  }

  lemma RevisionIsSpelled(digit: char -> bool, s: string)
    requires IsRevision(digit, s)
    ensures IsSpelled(digit, s, s[25..33], s[34..40], s[42..66], s[67..])
  {
    RevisionPieces(s, s[25..33], s[34..40], s[42..66], s[67..]);
    HexIs(s[42..66]);
    NumberIs(s[67..]);
    hide AllIn, IsHexDigit;
    assert IsHex(s[42..66]);
    assert IsNumber(s[67..]);
  }

  lemma SpelledIsRevision(digit: char -> bool, s: string, date: string, time: string, hash: string, number: string)
    requires IsSpelled(digit, s, date, time, hash, number)
    ensures IsRevision(digit, s)
  {
    SpelledPlaces(s, date, time, hash, number);
    HexIs(hash);
    NumberIs(number);
    hide AllIn, IsHexDigit;
    assert forall i :: 25 <= i < 33 ==> s[i] == date[i - 25];
    assert forall i :: 34 <= i < 40 ==> s[i] == time[i - 34];
    assert forall i :: 42 <= i < 66 ==> s[i] == hash[i - 42];
    assert forall i :: 67 <= i < |s| ==> s[i] == number[i - 67];
  }

  ghost predicate IsHex(s: string) {
    forall i :: 0 <= i < |s| ==> IsHexDigit(s[i])
  }

  ghost predicate IsNumber(s: string) {
    s != "" && '1' <= s[0] <= '9' && forall i :: 1 <= i < |s| ==> '0' <= s[i] <= '9'
  }

  lemma HexIs(s: string)
    ensures AllIn(HEX_DIGITS, s) <==> IsHex(s)
  {
  }

  lemma NumberIs(s: string)
    ensures IsNumber(s) <==> s != "" && AllIn(DIGITS, s) && s[0] != '0'
  {
    assert s != "" && AllIn(DIGITS, s) ==> s[0] in DIGITS;
  }

  lemma RevisionPieces(s: string, date: string, time: string, hash: string, number: string)
    requires |s| > 67 && REPORTS <= s && s[33] == 'T' && s[40] == 'Z' && s[41] == '_' && s[66] == '/'
    requires date == s[25..33] && time == s[34..40] && hash == s[42..66] && number == s[67..]
    ensures s == ".research/reports/report_" + date + "T" + time + "Z_" + hash + "/" + number
  {
    assert s == s[..25] + date + s[33..34] + time + s[40..42] + hash + s[66..67] + number;
    assert s[33..34] == "T" && s[40..42] == "Z_" && s[66..67] == "/";
  }

  lemma SpelledPlaces(s: string, date: string, time: string, hash: string, number: string)
    requires s == ".research/reports/report_" + date + "T" + time + "Z_" + hash + "/" + number
    requires |date| == 8 && |time| == 6 && |hash| == 24 && number != ""
    ensures |s| > 67 && REPORTS <= s && s[33] == 'T' && s[40] == 'Z' && s[41] == '_' && s[66] == '/'
    ensures date == s[25..33] && time == s[34..40] && hash == s[42..66] && number == s[67..]
  {
  }

  predicate IsRevisionPath(digit: char -> bool, path: string) {
    || (EndsWith(path, ".md") && IsRevision(digit, Without(path, ".md")))
    || (EndsWith(path, ".yaml") && IsRevision(digit, Without(path, ".yaml")))
  }

  function Stem(path: string): string {
    if EndsWith(path, ".md") then Without(path, ".md") else Without(path, ".yaml")
  }

  function ImpactPath(impactId: string, create: bool): string {
    ".research/impacts/" + impactId + "/" + if create then "impact.yaml" else "impact-batch.yaml"
  }

  predicate Distinct(paths: seq<string>) {
    forall i, j :: 0 <= i < j < |paths| ==> paths[i] != paths[j]
  }

  function MarkdownStems(reports: set<string>): set<string> {
    set p | p in reports && EndsWith(p, ".md") :: Without(p, ".md")
  }

  predicate ReportsAccepted(digit: char -> bool, reports: set<string>) {
    && reports != {} && |reports| % 2 == 0 && |reports| <= 512
    && (forall p <- reports :: IsRevisionPath(digit, p))
    && (set p | p in reports :: Stem(p)) == MarkdownStems(reports)
    && |reports| == 2 * |MarkdownStems(reports)|
  }

  function Reports(paths: seq<string>, impactPath: string): set<string> {
    set p | p in paths && p != impactPath
  }

  /** The checks at the head of `commit_proposal`. */
  predicate PathsAccepted(digit: char -> bool, impactId: string, create: bool, paths: seq<string>) {
    && Distinct(paths)
    && ImpactPath(impactId, create) in paths
    && var reports := Reports(paths, ImpactPath(impactId, create));
       ReportsAccepted(digit, reports) && (create ==> |reports| == 2)
  }

  /** Both files of every revision. */
  function BothFiles(revisions: set<string>): set<string> {
    (set r | r in revisions :: r + ".md") + (set r | r in revisions :: r + ".yaml")
  }

  /** The impact file and both files of each of the given revisions, each path once. */
  ghost predicate ExactlyFor(digit: char -> bool, impactId: string, create: bool, paths: seq<string>,
                             revisions: set<string>) {
    && Distinct(paths)
    && (forall r <- revisions :: IsRevision(digit, r))
    && 1 <= |revisions| <= 256 && (create ==> |revisions| == 1)
    && forall p :: p in paths <==> p == ImpactPath(impactId, create) || p in BothFiles(revisions)
  }

  lemma SuffixOfBoth(r: string)
    ensures EndsWith(r + ".md", ".md") && Without(r + ".md", ".md") == r && !EndsWith(r + ".md", ".yaml")
    ensures EndsWith(r + ".yaml", ".yaml") && Without(r + ".yaml", ".yaml") == r && !EndsWith(r + ".yaml", ".md")
    ensures Stem(r + ".md") == r == Stem(r + ".yaml")
  {
    assert (r + ".md")[..|r|] == r && (r + ".md")[|r|..] == ".md";
    assert (r + ".yaml")[..|r|] == r && (r + ".yaml")[|r|..] == ".yaml";
    assert (r + ".yaml")[|r + ".yaml"| - 1] == 'l' && (r + ".md")[|r + ".md"| - 1] == 'd';
  }

  lemma StemAndSuffix(path: string)
    requires EndsWith(path, ".md") || EndsWith(path, ".yaml")
    ensures path == Stem(path) + if EndsWith(path, ".md") then ".md" else ".yaml"
  {
  }

  lemma {:induction false} ImageSize(revisions: set<string>, suffix: string)
    ensures |set r | r in revisions :: r + suffix| == |revisions|
  {
    if revisions != {} {
      var r :| r in revisions;
      var rest := revisions - {r};
      ImageSize(rest, suffix);
      var image := set x | x in rest :: x + suffix;
      assert (set x | x in revisions :: x + suffix) == image + {r + suffix};
      assert r + suffix !in image by {
        forall x | x in rest ensures x + suffix != r + suffix {
          assert (x + suffix)[..|x + suffix| - |suffix|] == x && (r + suffix)[..|r + suffix| - |suffix|] == r;
        }
      }
    }
  }

  lemma BothFilesSize(revisions: set<string>)
    ensures |BothFiles(revisions)| == 2 * |revisions|
  {
    var md, yaml := set r | r in revisions :: r + ".md", set r | r in revisions :: r + ".yaml";
    ImageSize(revisions, ".md");
    ImageSize(revisions, ".yaml");
    assert md !! yaml by {
      forall r | r in revisions ensures r + ".md" !in yaml {
        SuffixOfBoth(r);
        forall x | x in revisions ensures x + ".yaml" != r + ".md" {
          SuffixOfBoth(x);
        }
      }
    }
  }

  lemma SubsetOfSameSize(a: set<string>, b: set<string>)
    requires a <= b && |a| == |b|
    ensures a == b
  {
    assert b == a + (b - a);
  }

  /** The two commands have one impact file each. */
  lemma ImpactFiles(impactId: string)
    ensures ImpactPath(impactId, true) == ".research/impacts/" + impactId + "/impact.yaml"
    ensures ImpactPath(impactId, false) == ".research/impacts/" + impactId + "/impact-batch.yaml"
  {
  }

  /** A revision file is no impact file. */
  lemma ImpactIsNoReport(digit: char -> bool, impactId: string, create: bool, p: string)
    requires IsRevisionPath(digit, p)
    ensures p != ImpactPath(impactId, create)
  {
    assert p[10] == 'r' && ImpactPath(impactId, create)[10] == 'i';
  }

  /** MAIN: the checks pass exactly for the impact file together with precisely the `.md` and
      the `.yaml` of each of one to 256 report revisions, and of one when an impact is created. */
  lemma AcceptedIff(digit: char -> bool, impactId: string, create: bool, paths: seq<string>)
    ensures PathsAccepted(digit, impactId, create, paths) <==>
      exists revisions :: ExactlyFor(digit, impactId, create, paths, revisions)
  {
    if PathsAccepted(digit, impactId, create, paths) {
      AcceptedIsExact(digit, impactId, create, paths);
    }
    forall revisions | ExactlyFor(digit, impactId, create, paths, revisions)
      ensures PathsAccepted(digit, impactId, create, paths)
    {
      ExactIsAccepted(digit, impactId, create, paths, revisions);
    }
  }

  lemma AcceptedIsExact(digit: char -> bool, impactId: string, create: bool, paths: seq<string>)
    requires PathsAccepted(digit, impactId, create, paths)
    ensures exists revisions :: ExactlyFor(digit, impactId, create, paths, revisions)
  {
    hide ReportsAccepted, ImpactPath, IsRevision, BothFiles, MarkdownStems;
    var reports := Reports(paths, ImpactPath(impactId, create));
    var revisions := MarkdownStems(reports);
    AcceptedReports(digit, reports);
    assert ExactlyFor(digit, impactId, create, paths, revisions);
  }

  lemma AcceptedReports(digit: char -> bool, reports: set<string>)
    requires ReportsAccepted(digit, reports)
    ensures var revisions := MarkdownStems(reports);
      && reports == BothFiles(revisions) && (forall r <- revisions :: IsRevision(digit, r))
      && 1 <= |revisions| <= 256 && |reports| == 2 * |revisions|
  {
    hide IsRevision, EndsWith, Without;
    var revisions := MarkdownStems(reports);
    forall p <- reports ensures p in BothFiles(revisions) {
      StemAndSuffix(p);
      assert Stem(p) in (set q | q in reports :: Stem(q));
    }
    BothFilesSize(revisions);
    SubsetOfSameSize(reports, BothFiles(revisions));
    forall r <- revisions ensures IsRevision(digit, r) {
      assert r + ".md" in reports;
      SuffixOfBoth(r);
    }
  }

  lemma ExactIsAccepted(digit: char -> bool, impactId: string, create: bool, paths: seq<string>, revisions: set<string>)
    requires ExactlyFor(digit, impactId, create, paths, revisions)
    ensures PathsAccepted(digit, impactId, create, paths)
  {
    hide ReportsAccepted, ImpactPath, IsRevision, BothFiles;
    var reports := Reports(paths, ImpactPath(impactId, create));
    ExactReports(digit, impactId, create, revisions);
    assert reports == BothFiles(revisions);
    BothFilesSize(revisions);
  }

  lemma FilesAreRevisionPaths(digit: char -> bool, r: string)
    requires IsRevision(digit, r)
    ensures IsRevisionPath(digit, r + ".md") && IsRevisionPath(digit, r + ".yaml")
  {
    hide IsRevision, EndsWith, Without;
    SuffixOfBoth(r);
  }

  lemma BothFilesAreRevisionPaths(digit: char -> bool, revisions: set<string>, p: string)
    requires (forall r <- revisions :: IsRevision(digit, r)) && p in BothFiles(revisions)
    ensures IsRevisionPath(digit, p)
  {
    hide IsRevision, IsRevisionPath;
    var r :| r in revisions && (p == r + ".md" || p == r + ".yaml");
    FilesAreRevisionPaths(digit, r);
  }

  lemma ExactReports(digit: char -> bool, impactId: string, create: bool, revisions: set<string>)
    requires (forall r <- revisions :: IsRevision(digit, r)) && 1 <= |revisions| <= 256
    ensures ReportsAccepted(digit, BothFiles(revisions)) && ImpactPath(impactId, create) !in BothFiles(revisions)
  {
    hide IsRevision, ImpactPath, BothFiles, MarkdownStems, IsRevisionPath;
    var reports := BothFiles(revisions);
    forall p <- reports ensures IsRevisionPath(digit, p) && p != ImpactPath(impactId, create) {
      BothFilesAreRevisionPaths(digit, revisions, p);
      ImpactIsNoReport(digit, impactId, create, p);
    }
    BothFilesSize(revisions);
    StemsOfBoth(revisions);
  }

  lemma StemsOfBoth(revisions: set<string>)
    ensures MarkdownStems(BothFiles(revisions)) == revisions
    ensures (set p | p in BothFiles(revisions) :: Stem(p)) == revisions
  {
    hide EndsWith, Without, Stem;
    forall r <- revisions
      ensures EndsWith(r + ".md", ".md") && Without(r + ".md", ".md") == r && !EndsWith(r + ".yaml", ".md")
      ensures Stem(r + ".md") == r == Stem(r + ".yaml")
    {
      SuffixOfBoth(r);
    }
    var files := BothFiles(revisions);
    forall r | r in revisions ensures r in MarkdownStems(files) && r in (set p | p in files :: Stem(p)) {
      assert r + ".md" in files;
    }
  }
}
