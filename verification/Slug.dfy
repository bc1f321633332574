/** Turning a title into a document slug (src/researchctl/document_cli.py), and the grammar such
    slugs have to follow (src/researchctl/domain/types.py). */
module Slug {

  predicate IsLetter(c: char) {
    'a' <= c <= 'z'
  }

  predicate IsWordChar(c: char) {
    IsLetter(c) || '0' <= c <= '9'
  }

  const MAX_LENGTH := 80

  // ----- The grammar -----

  /** `[a-z0-9]*(?:-[a-z0-9]+)*` */
  predicate IsTail(s: string) {
    if s == "" then true
    else if s[0] == '-' then |s| > 1 && IsWordChar(s[1]) && IsTail(s[2..])
    else IsWordChar(s[0]) && IsTail(s[1..])
  }

  /** `^[a-z][a-z0-9]*(?:-[a-z0-9]+)*$` of at most 80 characters. */
  predicate IsSlug(s: string) {
    0 < |s| <= MAX_LENGTH && IsLetter(s[0]) && IsTail(s[1..])
  }

  // ----- The function -----

  /** `sub(r"[^a-z0-9]+", "-", s)`; `inRun` says that the dash of the current run is written. */
  function Dashes(s: string, inRun: bool): string {
    if s == "" then ""
    else if IsWordChar(s[0]) then [s[0]] + Dashes(s[1..], false)
    else (if inRun then "" else "-") + Dashes(s[1..], true)
  }

  function StripLeft(s: string): string {
    if s != "" && s[0] == '-' then StripLeft(s[1..]) else s
  }

  function StripRight(s: string): string {
    if s != "" && s[|s| - 1] == '-' then StripRight(s[..|s| - 1]) else s
  }

  /** The title that stands in for one without a leading letter. */
  function Named(slug: string): string {
    if slug == "" then "document" else if !IsLetter(slug[0]) then "document-" + slug else slug
  }

  /** `_slugify`, with `str.lower` as a parameter. */
  function Slugify(lower: string -> string, title: string): string {
    var slug := StripRight(StripLeft(Dashes(lower(title), false)));
    var named := Named(slug);
    StripRight(if |named| > MAX_LENGTH then named[..MAX_LENGTH] else named)
  }

  // ----- What it yields -----

  /** Word characters and single dashes. */
  ghost predicate Dashed(s: string) {
    && (forall i :: 0 <= i < |s| ==> IsWordChar(s[i]) || s[i] == '-')
    && forall i :: 0 < i < |s| ==> s[i - 1] != '-' || s[i] != '-'
  }

  predicate EndsInDash(s: string) {
    s != "" && s[|s| - 1] == '-'
  }

  lemma {:induction false} DashesAreDashed(s: string, inRun: bool)
    ensures Dashed(Dashes(s, inRun))
    ensures inRun && Dashes(s, inRun) != "" ==> Dashes(s, inRun)[0] != '-'
  {
    if s != "" {
      DashesAreDashed(s[1..], !IsWordChar(s[0]));
    }
  }

  lemma {:induction false} StripsAreDashed(s: string)
    requires Dashed(s)
    ensures Dashed(StripLeft(s)) && (StripLeft(s) != "" ==> StripLeft(s)[0] != '-')
    ensures Dashed(StripRight(s)) && !EndsInDash(StripRight(s))
    ensures StripRight(s) <= s && (s != "" && s[0] != '-' ==> StripRight(s) != "" && StripRight(s)[0] == s[0])
  {
    if s != "" && s[0] == '-' && |s| > 1 {
      assert s[1] != '-';
    }
    if EndsInDash(s) && |s| > 1 {
      assert s[|s| - 2] != '-';
    }
  }

  lemma {:induction false} DashedIsTail(s: string)
    requires Dashed(s) && !EndsInDash(s)
    ensures IsTail(s)
  {
    if s != "" {
      if s[0] == '-' {
        assert s[1] != '-';
        DashedIsTail(s[2..]);
      } else {
        DashedIsTail(s[1..]);
      }
    }
  }

  lemma {:induction false} TailIsDashed(s: string)
    requires IsTail(s)
    ensures Dashed(s) && !EndsInDash(s)
  {
    if s != "" {
      if s[0] == '-' {
        TailIsDashed(s[2..]);
        assert s == [s[0], s[1]] + s[2..];
      } else {
        TailIsDashed(s[1..]);
        assert s == [s[0]] + s[1..];
      }
    }
  }

  lemma RestOfDashed(s: string)
    requires Dashed(s) && s != "" && !EndsInDash(s)
    ensures Dashed(s[1..]) && !EndsInDash(s[1..])
  {
    assert forall i :: 0 <= i < |s[1..]| ==> s[1..][i] == s[i + 1];
  }

  lemma PrefixOfDashed(s: string, n: nat)
    requires Dashed(s) && n <= |s|
    ensures Dashed(s[..n])
  {
  }

  lemma NamedIsDashed(slug: string)
    requires Dashed(slug) && (slug != "" ==> slug[0] != '-')
    ensures Dashed(Named(slug)) && Named(slug) != "" && IsLetter(Named(slug)[0])
  {
  }

  /** MAIN: every title becomes a slug of the grammar, whatever `lower` does. */
  lemma SlugifyIsSlug(lower: string -> string, title: string)
    ensures IsSlug(Slugify(lower, title))
  {
    hide Dashes, StripLeft, StripRight, IsTail, Dashed, Named;
    var dashed := Dashes(lower(title), false);
    DashesAreDashed(lower(title), false);
    StripsAreDashed(dashed);
    StripsAreDashed(StripLeft(dashed));
    var named := Named(StripRight(StripLeft(dashed)));
    NamedIsDashed(StripRight(StripLeft(dashed)));
    var short := if |named| > MAX_LENGTH then named[..MAX_LENGTH] else named;
    PrefixOfDashed(named, |short|);
    StripsAreDashed(short);
    RestOfDashed(StripRight(short));
    DashedIsTail(StripRight(short)[1..]);
  }

  /** A text of word characters and single dashes is its own dashing. */
  lemma {:induction false} DashesKeep(s: string, inRun: bool)
    requires Dashed(s) && (inRun && s != "" ==> s[0] != '-')
    ensures Dashes(s, inRun) == s
  {
    if s != "" {
      assert s == [s[0]] + s[1..];
      DashesKeep(s[1..], s[0] == '-');
    }
  }

  /** `lower` leaves lower-case letters, digits and dashes alone. */
  ghost predicate KeepsSlugs(lower: string -> string) {
    forall s :: Dashed(s) ==> lower(s) == s
  }

  /** MAIN: the slugs of the grammar are exactly the titles that stay as they are. */
  lemma FixedIffSlug(lower: string -> string, s: string)
    requires KeepsSlugs(lower)
    ensures Slugify(lower, s) == s <==> IsSlug(s)
  {
    if IsSlug(s) {
      TailIsDashed(s[1..]);
      assert s == [s[0]] + s[1..];
      assert Dashed(s) && !EndsInDash(s);
      DashesKeep(s, false);
    }
    SlugifyIsSlug(lower, s);
  }

  /** MAIN: so making a slug twice is making it once. */
  lemma SlugifyIsIdempotent(lower: string -> string, title: string)
    requires KeepsSlugs(lower)
    ensures Slugify(lower, Slugify(lower, title)) == Slugify(lower, title)
  {
    SlugifyIsSlug(lower, title);
    FixedIffSlug(lower, Slugify(lower, title));
  }

  // ----- What a slug is made of -----

  /** A character put in front of the first word. */
  function Grow(c: char, words: seq<string>): seq<string> {
    if words == [] then [[c]] else [[c] + words[0]] + words[1..]
  }

  predicate InWords(c: char) {
    c in {'a', 'b', 'c', 'd', 'e', 'f', 'g', 'h', 'i', 'j', 'k', 'l', 'm', 'n', 'o', 'p', 'q', 'r', 's', 't',
          'u', 'v', 'w', 'x', 'y', 'z', '0', '1', '2', '3', '4', '5', '6', '7', '8', '9'}
  }

  lemma InWordsIff()
    ensures forall c :: InWords(c) <==> IsWordChar(c)
  {
  }

  /** The runs of such characters in a text, as long as they go. */
  function Words(s: string): seq<string> {
    if s == "" then []
    else if !InWords(s[0]) then Words(s[1..])
    else if |s| > 1 && InWords(s[1]) then Grow(s[0], Words(s[1..]))
    else [[s[0]]] + Words(s[1..])
  }

  function Joined(words: seq<string>): string {
    if words == [] then ""
    else if |words| == 1 then words[0]
    else words[0] + "-" + Joined(words[1..])
  }

  lemma DashesStart(s: string)
    ensures Dashes(s, false) == "" <==> s == ""
    ensures s != "" ==> (IsWordChar(Dashes(s, false)[0]) <==> IsWordChar(s[0]))
  {
  }

  lemma {:induction false} DashesKeepWords(s: string, inRun: bool)
    ensures Words(Dashes(s, inRun)) == Words(s)
  {
    InWordsIff();
    hide InWords;
    if s != "" {
      DashesKeepWords(s[1..], !IsWordChar(s[0]));
      if IsWordChar(s[0]) {
        DashesStart(s[1..]);
        assert Dashes(s, inRun)[1..] == Dashes(s[1..], false);
      } else if inRun {
        assert Dashes(s, inRun) == Dashes(s[1..], true);
      } else {
        assert Dashes(s, inRun)[1..] == Dashes(s[1..], true);
      }
    }
  }

  lemma {:induction false} WordsWithDash(s: string)
    ensures Words(s + "-") == Words(s)
  {
    InWordsIff();
    hide InWords;
    if s != "" {
      WordsWithDash(s[1..]);
      assert (s + "-")[1..] == s[1..] + "-";
    }
  }

  lemma {:induction false} StripsKeepWords(s: string)
    ensures Words(StripLeft(s)) == Words(s) && Words(StripRight(s)) == Words(s)
  {
    InWordsIff();
    hide InWords;
    if s != "" && s[0] == '-' {
      StripsKeepWords(s[1..]);
    }
    if s != "" && s[|s| - 1] == '-' {
      StripsKeepWords(s[..|s| - 1]);
      WordsWithDash(s[..|s| - 1]);
      assert s[..|s| - 1] + "-" == s;
    }
  }

  lemma JoinedGrow(c: char, words: seq<string>)
    requires words != []
    ensures Joined(Grow(c, words)) == [c] + Joined(words)
  {
    if |words| > 1 {
      assert Grow(c, words)[1..] == words[1..];
      Regrouped([c], words[0], Joined(words[1..]));
    }
  }

  lemma Regrouped(a: string, b: string, c: string)
    ensures a + b + "-" + c == a + (b + "-" + c)
  {
  }

  /** A text of words with single dashes between them is its words, joined. */
  lemma {:induction false} DashedIsJoined(s: string)
    requires Dashed(s) && !EndsInDash(s) && (s != "" ==> s[0] != '-')
    ensures s == Joined(Words(s)) && (s != "" ==> Words(s) != [])
  {
    InWordsIff();
    hide InWords;
    if |s| > 1 {
      RestOfDashed(s);
      var ws := Words(s[1..]);
      if s[1] != '-' {
        DashedIsJoined(s[1..]);
        JoinedGrow(s[0], ws);
        assert s == [s[0]] + s[1..];
      } else {
        assert s[2] != '-';
        RestOfDashed(s[1..]);
        assert s[1..][1..] == s[2..];
        DashedIsJoined(s[2..]);
        assert s == [s[0]] + "-" + s[2..];
        assert ([[s[0]]] + ws)[1..] == ws;
      }
    } else if s != "" {
      assert s[1..] == "" && s == [s[0]];
    }
  }

  /** MAIN: a slug is the words of the lower-cased title joined by dashes, with `document` in front
      where there is no leading letter, cut to 80 characters and not behind a dash. */
  lemma SlugIsWords(lower: string -> string, title: string)
    ensures var core := Joined(Words(lower(title)));
      var full := if core == "" then "document" else if IsLetter(core[0]) then core else "document-" + core;
      Slugify(lower, title) ==
        if |full| <= 80 then full else if full[79] == '-' then full[..79] else full[..80]
  {
    hide IsTail, Words, InWords, Joined;
    var dashed := Dashes(lower(title), false);
    var core := StripRight(StripLeft(dashed));
    DashesAreDashed(lower(title), false);
    StripsAreDashed(dashed);
    StripsAreDashed(StripLeft(dashed));
    DashesKeepWords(lower(title), false);
    StripsKeepWords(dashed);
    StripsKeepWords(StripLeft(dashed));
    DashedIsJoined(core);
    NamedIsDashed(core);
    hide Dashes, StripLeft, Words, Joined;
    var full := Named(core);
    NamedKeepsEnd(core);
    CutOnce(if |full| > 80 then full[..80] else full);
    PrefixOfDashed(full, if |full| > 80 then 80 else |full|);
  }

  lemma NamedKeepsEnd(core: string)
    requires !EndsInDash(core)
    ensures !EndsInDash(Named(core))
  {
  }

  /** A dashed text has one dash at its end at most. */
  lemma CutOnce(s: string)
    ensures Dashed(s) ==> StripRight(s) == if EndsInDash(s) then s[..|s| - 1] else s
  {
    if Dashed(s) && EndsInDash(s) && |s| > 1 {
      assert s[|s| - 2] != '-';
    }
  }
}
