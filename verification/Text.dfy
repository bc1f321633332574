/** Searching and counting in strings, as Python's `str.find` and `str.count` do. */
module Text {
  import opened Wrappers

  predicate OccursAt(s: string, w: string, i: int) {
    0 <= i && i + |w| <= |s| && s[i..i + |w|] == w
  }

  /** The first occurrence at or after `from`. */
  function Find(s: string, w: string, from: nat): (r: Option<nat>)
    ensures r.Some? ==> r.value >= from && OccursAt(s, w, r.value)
    ensures r.Some? ==> forall i :: from <= i < r.value ==> !OccursAt(s, w, i)
    ensures r.None? ==> forall i :: from <= i ==> !OccursAt(s, w, i)
    decreases |s| - from
  {
    if from + |w| > |s| then None
    else if OccursAt(s, w, from) then Some(from)
    else if from == |s| then None
    else Find(s, w, from + 1)
  }

  /** The number of occurrences a left-to-right scan finds without overlaps. */
  function Count(s: string, w: string): nat
    requires |w| > 0
    decreases |s|
  {
    if |s| < |w| then 0
    else if w <= s then 1 + Count(s[|w|..], w)
    else Count(s[1..], w)
  }

  /** No occurrence of w lies across the seam of a and b. */
  ghost predicate NoCross(a: string, b: string, w: string) {
    forall i :: i < |a| < i + |w| ==> !OccursAt(a + b, w, i)
  }

  lemma OccursShift(a: string, b: string, w: string, i: int)
    requires i >= |a|
    ensures OccursAt(a + b, w, i) <==> OccursAt(b, w, i - |a|)
  {
    if i + |w| <= |a + b| {
      assert (a + b)[i..i + |w|] == b[i - |a|..i - |a| + |w|];
    }
  }

  lemma OccursWithin(a: string, b: string, w: string, i: int)
    requires i + |w| <= |a|
    ensures OccursAt(a + b, w, i) <==> OccursAt(a, w, i)
  {
    if 0 <= i {
      assert (a + b)[i..i + |w|] == a[i..i + |w|];
    }
  }

  lemma OccursInParts(s: string, a: string, b: string, i: int)
    requires OccursAt(s, a + b, i)
    ensures OccursAt(s, a, i) && OccursAt(s, b, i + |a|)
  {
    var part := s[i..i + |a + b|];
    assert part[..|a|] == s[i..i + |a|] && part[|a|..] == s[i + |a|..i + |a| + |b|];
    assert (a + b)[..|a|] == a && (a + b)[|a|..] == b;
  }

  lemma OccursChars(s: string, w: string, i: int)
    requires OccursAt(s, w, i)
    ensures forall k :: 0 <= k < |w| ==> s[i + k] == w[k]
  {
    forall k | 0 <= k < |w| ensures s[i + k] == w[k] {
      assert s[i..i + |w|][k] == s[i + k];
    }
  }

  lemma OccursStarts(s: string, w: string, i: nat)
    requires |w| > 0
    ensures OccursAt(s, w, i) ==> i < |s| && s[i] == w[0]
  {
    if i + |w| <= |s| {
      assert s[i..i + |w|][0] == s[i];
    }
  }

  lemma NoCrossTail(a: string, b: string, w: string, k: nat)
    requires NoCross(a, b, w) && k <= |a|
    ensures NoCross(a[k..], b, w)
  {
    forall i | i < |a[k..]| < i + |w| ensures !OccursAt(a[k..] + b, w, i) {
      assert a + b == a[..k] + (a[k..] + b);
      if i >= 0 {
        OccursShift(a[..k], a[k..] + b, w, i + k);
      }
    }
  }

  lemma {:induction false} CountJoins(a: string, b: string, w: string)
    requires |w| > 0 && NoCross(a, b, w)
    ensures Count(a + b, w) == Count(a, w) + Count(b, w)
    decreases |a|
  {
    if a == [] {
      assert a + b == b;
    } else if |w| <= |a| && w <= a {
      assert w <= a + b && (a + b)[|w|..] == a[|w|..] + b;
      NoCrossTail(a, b, w, |w|);
      CountJoins(a[|w|..], b, w);
    } else {
      if |w| <= |a| {
        OccursWithin(a, b, w, 0);
      }
      assert !OccursAt(a + b, w, 0);
      assert (a + b)[1..] == a[1..] + b;
      NoCrossTail(a, b, w, 1);
      CountJoins(a[1..], b, w);
      CountStep(a, w);
      CountStep(a + b, w);
    }
  }

  /** A string that does not start with w has the count of its tail. */
  lemma CountStep(s: string, w: string)
    requires |w| > 0 && |s| > 0 && !(|w| <= |s| && w <= s)
    ensures Count(s, w) == Count(s[1..], w)
  {
  }

  /** Counting nothing means there is nothing. */
  lemma {:induction false} CountZero(s: string, w: string)
    requires |w| > 0
    ensures Count(s, w) == 0 <==> forall i :: !OccursAt(s, w, i)
    decreases |s|
  {
    if |s| >= |w| {
      if w <= s {
        assert OccursAt(s, w, 0);
      } else {
        CountZero(s[1..], w);
        forall i ensures OccursAt(s[1..], w, i) ==> OccursAt(s, w, i + 1) {
          assert s == s[..1] + s[1..];
          if i >= 0 {
            OccursShift(s[..1], s[1..], w, i + 1);
          }
        }
        forall i ensures OccursAt(s, w, i) ==> i >= 1 && OccursAt(s[1..], w, i - 1) {
          assert s == s[..1] + s[1..];
          if i >= 1 {
            OccursShift(s[..1], s[1..], w, i);
          }
        }
      }
    }
  }

  // ----- Splitting at a separator -----

  function Split(s: string, sep: char): (parts: seq<string>)
    ensures parts != []
  {
    if s == "" then [""]
    else
      var rest := Split(s[1..], sep);
      if s[0] == sep then [""] + rest else [[s[0]] + rest[0]] + rest[1..]
  }

  /** Every part with the separator behind it. */
  function Terminated(parts: seq<string>, sep: char): string {
    if parts == [] then "" else parts[0] + [sep] + Terminated(parts[1..], sep)
  }

  lemma {:induction false} SplitIsFree(s: string, sep: char)
    ensures forall p <- Split(s, sep) :: sep !in p
  {
    if s != "" {
      SplitIsFree(s[1..], sep);
      var rest := Split(s[1..], sep);
      assert rest == [rest[0]] + rest[1..];
    }
  }

  lemma {:induction false} SplitOfPart(part: string, rest: string, sep: char)
    requires sep !in part
    ensures Split(part + [sep] + rest, sep) == [part] + Split(rest, sep)
  {
    var all := part + [sep] + rest;
    if part == "" {
      assert all[1..] == rest;
    } else {
      assert all[1..] == part[1..] + [sep] + rest;
      SplitOfPart(part[1..], rest, sep);
      assert [part[0]] + part[1..] == part;
    }
  }

  lemma {:induction false} SplitOfLast(part: string, sep: char)
    requires sep !in part
    ensures Split(part, sep) == [part]
  {
    if part != "" {
      SplitOfLast(part[1..], sep);
      assert [part[0]] + part[1..] == part;
    }
  }

  lemma {:induction false} SplitOfTerminated(parts: seq<string>, sep: char)
    requires forall p <- parts :: sep !in p
    ensures Split(Terminated(parts, sep), sep) == parts + [""]
  {
    if parts != [] {
      SplitOfPart(parts[0], Terminated(parts[1..], sep), sep);
      SplitOfTerminated(parts[1..], sep);
      assert parts == [parts[0]] + parts[1..];
    }
  }

  function Joined(parts: seq<string>, sep: char): string
    requires parts != []
  {
    if |parts| == 1 then parts[0] else parts[0] + [sep] + Joined(parts[1..], sep)
  }

  lemma {:induction false} JoinedSplit(s: string, sep: char)
    ensures Joined(Split(s, sep), sep) == s
  {
    if s != "" {
      JoinedSplit(s[1..], sep);
      var rest := Split(s[1..], sep);
      assert s == [s[0]] + s[1..];
      if s[0] == sep {
        assert ([""] + rest)[1..] == rest;
        assert "" + [sep] + Joined(rest, sep) == s;
      } else if |rest| > 1 {
        assert ([[s[0]] + rest[0]] + rest[1..])[1..] == rest[1..];
        assert [s[0]] + rest[0] + [sep] + Joined(rest[1..], sep) == [s[0]] + Joined(rest, sep);
      }
    }
  }

  /** The first part of a text. */
  lemma SplitHead(s: string, head: string, sep: char)
    requires sep !in head
    ensures Split(s, sep)[0] == head <==> s == head || head + [sep] <= s
  {
    hide Split, Joined;
    JoinedSplit(s, sep);
    JoinedStarts(Split(s, sep), sep);
    if s == head {
      SplitOfLast(head, sep);
    } else if head + [sep] <= s {
      assert s == head + [sep] + s[|head| + 1..];
      SplitOfPart(head, s[|head| + 1..], sep);
    }
  }

  lemma JoinedStarts(parts: seq<string>, sep: char)
    requires parts != []
    ensures Joined(parts, sep) == parts[0] || parts[0] + [sep] <= Joined(parts, sep)
  {
  }

  lemma {:induction false} JoinedEmptyLast(parts: seq<string>, sep: char)
    ensures Joined(parts + [""], sep) == Terminated(parts, sep)
  {
    if parts != [] {
      assert (parts + [""])[1..] == parts[1..] + [""];
      JoinedEmptyLast(parts[1..], sep);
    }
  }

  lemma {:induction false} SplitJoined(parts: seq<string>, sep: char)
    requires parts != [] && forall p <- parts :: sep !in p
    ensures Split(Joined(parts, sep), sep) == parts
  {
    assert parts[0] in parts;
    if |parts| == 1 {
      SplitOfLast(parts[0], sep);
    } else {
      assert forall p <- parts[1..] :: p in parts;
      SplitOfPart(parts[0], Joined(parts[1..], sep), sep);
      SplitJoined(parts[1..], sep);
      assert parts == [parts[0]] + parts[1..];
    }
  }

  // ----- Text as a program receives it -----

  /** Newline translation, as for the output of a command or a file that is read as text: a
      carriage return arrives as a line feed, with the line feed that may follow it. */
  function Received(s: string): string
    decreases |s|
  {
    if s == "" then ""
    else if s[0] != '\r' then [s[0]] + Received(s[1..])
    else if |s| > 1 && s[1] == '\n' then "\n" + Received(s[2..])
    else "\n" + Received(s[1..])
  }

  function Utf8Size(s: string): nat {
    if s == "" then 0
    else
      var c := s[0] as int;
      (if c < 0x80 then 1 else if c < 0x800 then 2 else if c < 0x1_0000 then 3 else 4) + Utf8Size(s[1..])
  }

  /** A carriage return right before a line feed. */
  ghost predicate HasCrLf(s: string) {
    exists i :: 0 < i < |s| && s[i - 1] == '\r' && s[i] == '\n'
  }

  lemma CrLfTail(s: string)
    requires s != ""
    ensures HasCrLf(s) <==> (|s| > 1 && s[0] == '\r' && s[1] == '\n') || HasCrLf(s[1..])
  {
    if HasCrLf(s) {
      var i :| 0 < i < |s| && s[i - 1] == '\r' && s[i] == '\n';
      assert i > 1 ==> s[1..][i - 2] == '\r' && s[1..][i - 1] == '\n';
    }
    if HasCrLf(s[1..]) {
      var i :| 0 < i < |s[1..]| && s[1..][i - 1] == '\r' && s[1..][i] == '\n';
      assert s[i] == '\r' && s[i + 1] == '\n';
    }
  }

  lemma {:induction false} ReceivedIsClean(s: string)
    ensures '\r' !in Received(s)
    decreases |s|
  {
    if s != "" {
      ReceivedIsClean(s[1..]);
      if |s| > 1 {
        ReceivedIsClean(s[2..]);
      }
    }
  }

  /** Text arrives as it was exactly when it has no carriage return. */
  lemma {:induction false} ReceivedIff(s: string)
    ensures Received(s) == s <==> '\r' !in s
  {
    ReceivedIsClean(s);
    if '\r' !in s && s != "" {
      assert s == [s[0]] + s[1..];
      ReceivedIff(s[1..]);
    }
  }

  lemma ReceivedStep(s: string)
    requires s != ""
    ensures Received(s) ==
      if s[0] == '\r' && |s| > 1 && s[1] == '\n' then "\n" + Received(s[2..])
      else [if s[0] == '\r' then '\n' else s[0]] + Received(s[1..])
  {
  }

  lemma {:induction false} ReceivedJoins(a: string, b: string)
    requires !(a != "" && a[|a| - 1] == '\r' && b != "" && b[0] == '\n')
    ensures Received(a + b) == Received(a) + Received(b)
    decreases |a|
  {
    hide *;
    if a == "" {
      assert a + b == b;
      NothingReceived();
    } else {
      ReceivedStep(a);
      ReceivedStep(a + b);
      assert (a + b)[1..] == a[1..] + b;
      if a[0] == '\r' && |a| > 1 && a[1] == '\n' {
        assert (a + b)[2..] == a[2..] + b;
        ReceivedJoins(a[2..], b);
        JoinedBehind("\n", Received(a[2..]), Received(b));
      } else {
        ReceivedJoins(a[1..], b);
        JoinedBehind([if a[0] == '\r' then '\n' else a[0]], Received(a[1..]), Received(b));
      }
    }
  }

  lemma NothingReceived()
    ensures Received("") == ""
  {
  }

  lemma JoinedBehind(a: string, b: string, c: string)
    ensures a + (b + c) == a + b + c
  {
  }

  /** Exactly a carriage return before a line feed makes text arrive shorter than it was. */
  lemma {:induction false} SizeKeptIff(s: string)
    ensures Utf8Size(Received(s)) <= Utf8Size(s)
    ensures Utf8Size(Received(s)) == Utf8Size(s) <==> !HasCrLf(s)
    decreases |s|
  {
    hide HasCrLf;
    if s == "" {
      NoCrLfInNothing();
    } else {
      CrLfTail(s);
      SizeKeptIff(s[1..]);
      var r := Received(s);
      if s[0] == '\r' && |s| > 1 && s[1] == '\n' {
        SizeKeptIff(s[2..]);
        assert s[1..][1..] == s[2..] && r[1..] == Received(s[2..]);
      } else {
        assert r[1..] == Received(s[1..]);
      }
    }
  }

  lemma NoCrLfInNothing()
    ensures !HasCrLf("")
  {
  }

  /** Otherwise each carriage return becomes a line feed. */
  lemma {:induction false} ReceivedChars(s: string)
    requires !HasCrLf(s)
    ensures |Received(s)| == |s|
    ensures forall i :: 0 <= i < |s| ==> Received(s)[i] == if s[i] == '\r' then '\n' else s[i]
  {
    if s != "" {
      CrLfTail(s);
      ReceivedChars(s[1..]);
      assert Received(s) == [if s[0] == '\r' then '\n' else s[0]] + Received(s[1..]);
    }
  }

  function AllReceived(texts: seq<string>): (received: seq<string>)
    ensures |received| == |texts| && forall i :: 0 <= i < |texts| ==> received[i] == Received(texts[i])
  {
    if texts == [] then [] else [Received(texts[0])] + AllReceived(texts[1..])
  }

  lemma AllReceivedJoins(a: seq<string>, b: seq<string>)
    ensures AllReceived(a + b) == AllReceived(a) + AllReceived(b)
  {
  }

  /** Parts that are ended by another character arrive one by one. */
  lemma {:induction false} ReceivedTerminated(parts: seq<string>, sep: char)
    requires sep != '\r' && sep != '\n'
    ensures Received(Terminated(parts, sep)) == Terminated(AllReceived(parts), sep)
  {
    if parts != [] {
      var rest := Terminated(parts[1..], sep);
      assert Terminated(parts, sep) == parts[0] + ([sep] + rest);
      assert AllReceived(parts)[1..] == AllReceived(parts[1..]);
      ReceivedTerminated(parts[1..], sep);
      hide Received;
      ReceivedJoins(parts[0], [sep] + rest);
      ReceivedStep([sep] + rest);
      assert ([sep] + rest)[1..] == rest;
    }
  }

  lemma NotEmptyReceived(s: string)
    ensures Received(s) == "" <==> s == ""
    ensures forall c :: c != '\n' && c !in s ==> c !in Received(s)
  {
    ReceivedHolds(s);
  }

  lemma {:induction false} ReceivedHolds(s: string)
    ensures forall c <- Received(s) :: c == '\n' || c in s
    decreases |s|
  {
    if s != "" {
      ReceivedHolds(s[1..]);
      assert forall c <- s[1..] :: c in s;
      if |s| > 1 {
        ReceivedHolds(s[2..]);
        assert forall c <- s[2..] :: c in s;
      }
    }
  }

  lemma {:induction false} ReturnBecomesFeed(s: string)
    requires '\r' in s
    ensures '\n' in Received(s)
    decreases |s|
  {
    ReceivedStep(s);
    if s[0] != '\r' {
      assert s == [s[0]] + s[1..];
      ReturnBecomesFeed(s[1..]);
    }
  }
}
