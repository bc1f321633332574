/** Building the navigation of a documentation site from its manifest
    (src/researchctl/integrations/mkdocs.py). */
module SiteNavigation {

  /** `parts` are the segments of the section-relative path; the last one is the file. */
  datatype Page = Page(path: string, title: string, root: bool, section: string, parts: seq<string>, inHistory: bool)

  datatype Manifest = Manifest(sections: seq<string>, pages: seq<Page>)

  /** What the manifest's own validation guarantees. */
  ghost predicate Valid(m: Manifest) {
    && Distinct(m.sections)
    && (forall p <- m.pages :: !p.root ==> p.section in m.sections && p.parts != [])
    && (forall i, j :: 0 <= i < j < |m.pages| ==> m.pages[i].path != m.pages[j].path)
  }

  ghost predicate Distinct(sections: seq<string>) {
    forall i, j :: 0 <= i < j < |sections| ==> sections[i] != sections[j]
  }

  datatype Item = Leaf(page: Page) | Heading(name: string, items: seq<Item>)

  // ----- Reading a navigation -----

  /** A page and the headings above it, outermost first. */
  datatype Entry = Entry(headings: seq<string>, page: Page)

  /** Every page that stands in the items, as often as it does, with its headings. */
  function Entries(above: seq<string>, items: seq<Item>): multiset<Entry>
    decreases items
  {
    if items == [] then multiset{}
    else
      (match items[0]
       case Leaf(p) => multiset{Entry(above, p)}
       case Heading(name, inner) => Entries(above + [name], inner))
      + Entries(above, items[1..])
  }

  lemma {:induction false} EntriesJoin(above: seq<string>, a: seq<Item>, b: seq<Item>)
    ensures Entries(above, a + b) == Entries(above, a) + Entries(above, b)
  {
    if a == [] {
      assert a + b == b;
    } else {
      assert (a + b)[1..] == a[1..] + b;
      EntriesJoin(above, a[1..], b);
    }
  }

  lemma EntriesOfHeading(above: seq<string>, name: string, items: seq<Item>)
    ensures Entries(above, [Heading(name, items)]) == Entries(above + [name], items)
  {
    assert [Heading(name, items)][1..] == [];
  }

  // ----- Where pages belong -----

  function Labels(humanize: string -> string, segments: seq<string>): seq<string> {
    if segments == [] then [] else [humanize(segments[0])] + Labels(humanize, segments[1..])
  }

  /** A page below some headings, filed under its directories from a depth on. */
  function Filed(humanize: string -> string, above: seq<string>, depth: nat, p: Page): Entry
    requires depth < |p.parts|
  {
    Entry(above + Labels(humanize, p.parts[depth..|p.parts| - 1]), p)
  }

  predicate Deeper(pages: seq<Page>, depth: nat) {
    forall p <- pages :: depth < |p.parts|
  }

  function AllFiled(humanize: string -> string, above: seq<string>, depth: nat, pages: seq<Page>): multiset<Entry>
    requires Deeper(pages, depth)
  {
    if pages == [] then multiset{}
    else
      AllFiled(humanize, above, depth, pages[..|pages| - 1])
      + multiset{Filed(humanize, above, depth, pages[|pages| - 1])}
  }

  /** The entry of a page in the whole navigation: root pages under Overview, others under their
      section and directories, and retired ones below History. */
  function Home(humanize: string -> string, p: Page): (e: Entry)
    requires !p.root ==> p.parts != []
    ensures e.page == p
  {
    if p.root then Entry([if p.inHistory then "History" else "Overview"], p)
    else Filed(humanize, (if p.inHistory then ["History"] else []) + [humanize(p.section)], 0, p)
  }

  ghost predicate Placed(pages: seq<Page>) {
    forall p <- pages :: !p.root ==> p.parts != []
  }

  function Homes(humanize: string -> string, pages: seq<Page>): multiset<Entry>
    requires Placed(pages)
  {
    if pages == [] then multiset{}
    else Homes(humanize, pages[..|pages| - 1]) + multiset{Home(humanize, pages[|pages| - 1])}
  }

  lemma FiledSnoc(humanize: string -> string, above: seq<string>, depth: nat, pages: seq<Page>, p: Page)
    requires Deeper(pages, depth) && depth < |p.parts|
    ensures Deeper(pages + [p], depth)
    ensures AllFiled(humanize, above, depth, pages + [p])
         == AllFiled(humanize, above, depth, pages) + multiset{Filed(humanize, above, depth, p)}
  {
    assert (pages + [p])[..|pages|] == pages;
  }

  // ----- Ordered dictionaries of pages -----

  datatype Bucket = Bucket(key: string, pages: seq<Page>)

  /** `setdefault(key, []).append(page)`. */
  function Put(buckets: seq<Bucket>, key: string, page: Page): seq<Bucket> {
    if buckets == [] then [Bucket(key, [page])]
    else if buckets[0].key == key then [Bucket(key, buckets[0].pages + [page])] + buckets[1..]
    else [buckets[0]] + Put(buckets[1..], key, page)
  }

  /** A bucket holds pages of one subdirectory. */
  predicate Sorted(b: Bucket, depth: nat, bound: nat) {
    b.pages != [] && Deeper(b.pages, depth + 1) && forall p <- b.pages :: p.parts[depth] == b.key && |p.parts| <= bound
  }

  predicate AllSorted(buckets: seq<Bucket>, depth: nat, bound: nat) {
    buckets == [] || (Sorted(buckets[0], depth, bound) && AllSorted(buckets[1..], depth, bound))
  }

  function InBuckets(humanize: string -> string, above: seq<string>, depth: nat, bound: nat,
                     buckets: seq<Bucket>): multiset<Entry>
    requires AllSorted(buckets, depth, bound)
  {
    if buckets == [] then multiset{}
    else AllFiled(humanize, above, depth, buckets[0].pages) + InBuckets(humanize, above, depth, bound, buckets[1..])
  }

  lemma {:induction false} PutAdds(humanize: string -> string, above: seq<string>, depth: nat, bound: nat,
                                   buckets: seq<Bucket>, p: Page)
    requires AllSorted(buckets, depth, bound) && depth + 1 < |p.parts| <= bound
    ensures var more := Put(buckets, p.parts[depth], p);
      && AllSorted(more, depth, bound)
      && InBuckets(humanize, above, depth, bound, more)
         == InBuckets(humanize, above, depth, bound, buckets) + multiset{Filed(humanize, above, depth, p)}
  {
    hide Filed, Deeper, AllFiled;
    var key := p.parts[depth];
    var more := Put(buckets, key, p);
    if buckets == [] {
      FiledSnoc(humanize, above, depth, [], p);
      FiledNothing(humanize, above, depth);
      NewBucket(depth, bound, [], p);
      assert [] + [p] == [p] && more == [Bucket(key, [p])] && more[1..] == [];
    } else if buckets[0].key == key {
      DeeperAgain(buckets[0].pages, depth);
      FiledSnoc(humanize, above, depth, buckets[0].pages, p);
      NewBucket(depth, bound, buckets[0].pages, p);
      assert more[1..] == buckets[1..];
    } else {
      PutAdds(humanize, above, depth, bound, buckets[1..], p);
      assert more[1..] == Put(buckets[1..], key, p);
    }
  }

  lemma FiledNothing(humanize: string -> string, above: seq<string>, depth: nat)
    ensures Deeper([], depth) && AllFiled(humanize, above, depth, []) == multiset{}
  {
  }

  lemma DeeperAgain(pages: seq<Page>, depth: nat)
    requires Deeper(pages, depth + 1)
    ensures Deeper(pages, depth)
  {
  }

  lemma NewBucket(depth: nat, bound: nat, pages: seq<Page>, p: Page)
    requires depth + 1 < |p.parts| <= bound
    requires pages == [] || Sorted(Bucket(p.parts[depth], pages), depth, bound)
    ensures Sorted(Bucket(p.parts[depth], pages + [p]), depth, bound)
  {
  }

  /** One level down is one heading more. */
  lemma {:induction false} OneLevelDown(humanize: string -> string, above: seq<string>, depth: nat, key: string,
                                        pages: seq<Page>)
    requires Deeper(pages, depth + 1) && forall p <- pages :: p.parts[depth] == key
    ensures AllFiled(humanize, above + [humanize(key)], depth + 1, pages) == AllFiled(humanize, above, depth, pages)
  {
    if pages != [] {
      var before, p := pages[..|pages| - 1], pages[|pages| - 1];
      assert p in pages && forall q <- before :: q in pages;
      OneLevelDown(humanize, above, depth, key, before);
      FiledDeeper(humanize, above, depth, p);
    }
  }

  lemma FiledDeeper(humanize: string -> string, above: seq<string>, depth: nat, p: Page)
    requires depth + 1 < |p.parts|
    ensures Filed(humanize, above + [humanize(p.parts[depth])], depth + 1, p) == Filed(humanize, above, depth, p)
  {
    var dirs := p.parts[depth..|p.parts| - 1];
    assert dirs[1..] == p.parts[depth + 1..|p.parts| - 1];
  }

  function Leaves(pages: seq<Page>): seq<Item> {
    if pages == [] then [] else Leaves(pages[..|pages| - 1]) + [Leaf(pages[|pages| - 1])]
  }

  /** The pages that lie directly at a depth, in their order. */
  function Direct(pages: seq<Page>, depth: nat): seq<Page> {
    if pages == [] then []
    else
      var p := pages[|pages| - 1];
      Direct(pages[..|pages| - 1], depth) + if |p.parts| == depth + 1 then [p] else []
  }

  /** The directories at a depth, in the order of their first page. */
  function Mentioned(pages: seq<Page>, depth: nat): seq<string>
    requires Deeper(pages, depth)
  {
    if pages == [] then []
    else
      var p := pages[|pages| - 1];
      var before := Mentioned(pages[..|pages| - 1], depth);
      if |p.parts| == depth + 1 then before else WithKey(before, p.parts[depth])
  }

  /** The keys with one more, unless it is there. */
  function WithKey(keys: seq<string>, key: string): seq<string> {
    if keys == [] then [key]
    else if keys[0] == key then keys
    else [keys[0]] + WithKey(keys[1..], key)
  }

  lemma {:induction false} WithKeyMeans(keys: seq<string>, key: string)
    ensures WithKey(keys, key) == if key in keys then keys else keys + [key]
  {
    if keys != [] {
      WithKeyMeans(keys[1..], key);
      assert keys == [keys[0]] + keys[1..];
    }
  }

  function Keys(buckets: seq<Bucket>): (keys: seq<string>)
    ensures |keys| == |buckets| && forall i :: 0 <= i < |keys| ==> keys[i] == buckets[i].key
  {
    if buckets == [] then [] else [buckets[0].key] + Keys(buckets[1..])
  }

  lemma {:induction false} PutKeys(buckets: seq<Bucket>, key: string, p: Page)
    ensures Keys(Put(buckets, key, p)) == WithKey(Keys(buckets), key)
  {
    if buckets != [] {
      var more := Put(buckets, key, p);
      if buckets[0].key == key {
        assert more[1..] == buckets[1..];
      } else {
        PutKeys(buckets[1..], key, p);
        assert more[1..] == Put(buckets[1..], key, p);
      }
      assert Keys(buckets)[1..] == Keys(buckets[1..]);
    }
  }

  // ----- How items are arranged -----

  /** The pages below one directory, in their order. */
  function Under(pages: seq<Page>, depth: nat, key: string): (under: seq<Page>)
    ensures Deeper(under, depth + 1)
    ensures forall p <- under :: p in pages && p.parts[depth] == key
  {
    if pages == [] then []
    else
      var p := pages[|pages| - 1];
      Under(pages[..|pages| - 1], depth, key) + if |p.parts| > depth + 1 && p.parts[depth] == key then [p] else []
  }

  /** First the pages that lie directly at a depth, in their order; then a heading for each
      directory, in the order of the directories' first pages, arranged likewise over all pages
      below that directory. */
  predicate Arranged(humanize: string -> string, items: seq<Item>, depth: nat, pages: seq<Page>)
    requires Deeper(pages, depth)
    decreases items
  {
    var direct, dirs := Leaves(Direct(pages, depth)), Mentioned(pages, depth);
    && |items| == |direct| + |dirs|
    && items[..|direct|] == direct
    && forall k :: 0 <= k < |dirs| ==>
         HeadingOf(humanize, items[|direct| + k], dirs[k], depth + 1, Under(pages, depth, dirs[k]))
  }

  /** The heading of one segment with its pages arranged below it. */
  predicate HeadingOf(humanize: string -> string, item: Item, segment: string, depth: nat, pages: seq<Page>)
    decreases item
  {
    && item.Heading? && item.name == humanize(segment)
    && Deeper(pages, depth) && Arranged(humanize, item.items, depth, pages)
  }

  /** There is only one arrangement of the same pages. */
  lemma {:induction false} ArrangedIsUnique(humanize: string -> string, a: seq<Item>, b: seq<Item>, depth: nat,
                                            pages: seq<Page>)
    requires Deeper(pages, depth) && Arranged(humanize, a, depth, pages) && Arranged(humanize, b, depth, pages)
    ensures a == b
    decreases a
  {
    hide Direct, Leaves, Mentioned, Under;
    var direct, dirs := Leaves(Direct(pages, depth)), Mentioned(pages, depth);
    forall i | 0 <= i < |a| ensures a[i] == b[i] {
      if i < |direct| {
        assert a[i] == a[..|direct|][i] && b[i] == b[..|direct|][i];
      } else {
        var under := Under(pages, depth, dirs[i - |direct|]);
        assert a[i] == a[|direct| + (i - |direct|)];
        assert b[i] == b[|direct| + (i - |direct|)];
        ArrangedIsUnique(humanize, a[i].items, b[i].items, depth + 1, under);
      }
    }
  }

  /** `dict.get(key, [])`. */
  function Found(buckets: seq<Bucket>, key: string): seq<Page> {
    if buckets == [] then []
    else if buckets[0].key == key then buckets[0].pages
    else Found(buckets[1..], key)
  }

  lemma {:induction false} PutFound(buckets: seq<Bucket>, key: string, p: Page, other: string)
    ensures Found(Put(buckets, key, p), other) ==
      if other == key then Found(buckets, key) + [p] else Found(buckets, other)
  {
    if buckets != [] {
      var more := Put(buckets, key, p);
      if buckets[0].key == key {
        assert more[1..] == buckets[1..];
      } else {
        PutFound(buckets[1..], key, p, other);
        assert more[1..] == Put(buckets[1..], key, p);
      }
    }
  }

  lemma {:induction false} FoundAt(buckets: seq<Bucket>, k: nat)
    requires k < |buckets| && Distinct(Keys(buckets))
    ensures Found(buckets, buckets[k].key) == buckets[k].pages
  {
    if k > 0 {
      var keys := Keys(buckets);
      assert keys[0] != keys[k];
      var rest := Keys(buckets[1..]);
      forall i, j | 0 <= i < j < |rest| ensures rest[i] != rest[j] {
        assert rest[i] == keys[i + 1] && rest[j] == keys[j + 1];
      }
      FoundAt(buckets[1..], k - 1);
    }
  }

  lemma {:induction false} MentionedOnce(pages: seq<Page>, depth: nat)
    requires Deeper(pages, depth)
    ensures Distinct(Mentioned(pages, depth))
  {
    if pages != [] {
      var before, p := pages[..|pages| - 1], pages[|pages| - 1];
      assert pages == before + [p];
      MentionedOnce(before, depth);
      WithKeyMeans(Mentioned(before, depth), p.parts[depth]);
    }
  }

  /** Each bucket holds the pages below its directory. */
  ghost predicate Filled(nested: seq<Bucket>, depth: nat, pages: seq<Page>) {
    forall key :: Found(nested, key) == Under(pages, depth, key)
  }

  lemma UnderMore(pages: seq<Page>, depth: nat, p: Page, key: string)
    requires depth < |p.parts|
    ensures Under(pages + [p], depth, key) ==
      if |p.parts| > depth + 1 && p.parts[depth] == key then Under(pages, depth, key) + [p]
      else Under(pages, depth, key)
  {
    assert (pages + [p])[..|pages|] == pages;
  }

  lemma FilledOne(nested: seq<Bucket>, depth: nat, pages: seq<Page>, p: Page)
    requires Filled(nested, depth, pages) && depth < |p.parts|
    ensures |p.parts| == depth + 1 ==> Filled(nested, depth, pages + [p])
    ensures |p.parts| > depth + 1 ==> Filled(Put(nested, p.parts[depth], p), depth, pages + [p])
  {
    hide Put, Found, Under;
    if |p.parts| == depth + 1 {
      forall key ensures Found(nested, key) == Under(pages + [p], depth, key) {
        UnderMore(pages, depth, p, key);
      }
    } else {
      forall key ensures Found(Put(nested, p.parts[depth], p), key) == Under(pages + [p], depth, key) {
        PutFound(nested, p.parts[depth], p, key);
        UnderMore(pages, depth, p, key);
      }
    }
  }

  // ----- The hook as it executes -----

  /** `items` shows the pages, whatever stands above them. */
  ghost predicate Shows(humanize: string -> string, items: seq<Item>, depth: nat, pages: seq<Page>)
    requires Deeper(pages, depth)
  {
    forall above :: Entries(above, items) == AllFiled(humanize, above, depth, pages)
  }

  /** The pages seen so far are split into the direct ones and the buckets. */
  ghost predicate Split(humanize: string -> string, items: seq<Item>, nested: seq<Bucket>, depth: nat, bound: nat,
                        pages: seq<Page>)
    requires Deeper(pages, depth) && AllSorted(nested, depth, bound)
  {
    forall above ::
      Entries(above, items) + InBuckets(humanize, above, depth, bound, nested) ==
        AllFiled(humanize, above, depth, pages)
  }

  /** The items behind the first ones are the headings of the first directories, each arranged. */
  ghost predicate Headed(humanize: string -> string, items: seq<Item>, first: nat, dirs: seq<string>, n: nat,
                         depth: nat, pages: seq<Page>)
    requires n <= |dirs|
  {
    && |items| == first + n
    && forall k :: 0 <= k < n ==>
         HeadingOf(humanize, items[first + k], dirs[k], depth + 1, Under(pages, depth, dirs[k]))
  }

  lemma HeadedMore(humanize: string -> string, items: seq<Item>, first: nat, dirs: seq<string>, n: nat,
                   depth: nat, pages: seq<Page>, item: Item)
    requires n < |dirs| && Headed(humanize, items, first, dirs, n, depth, pages)
    requires HeadingOf(humanize, item, dirs[n], depth + 1, Under(pages, depth, dirs[n]))
    ensures Headed(humanize, items + [item], first, dirs, n + 1, depth, pages)
  {
    hide HeadingOf, Under;
  }

  lemma HeadedAll(humanize: string -> string, items: seq<Item>, depth: nat, pages: seq<Page>)
    requires Deeper(pages, depth)
    requires Leaves(Direct(pages, depth)) <= items
    requires Headed(humanize, items, |Leaves(Direct(pages, depth))|, Mentioned(pages, depth),
                    |Mentioned(pages, depth)|, depth, pages)
    ensures Arranged(humanize, items, depth, pages)
  {
    hide HeadingOf, Under, Leaves, Direct, Mentioned;
  }

  /** `_nested_items`: every page appears once, under the headings of its directories, and the
      items are arranged at every level. */
  method NestedItems(humanize: string -> string, pages: seq<Page>, depth: nat,
                     ghost bound: nat) returns (items: seq<Item>)
    requires Deeper(pages, depth) && forall p <- pages :: |p.parts| <= bound
    ensures Shows(humanize, items, depth, pages)
    ensures Arranged(humanize, items, depth, pages)
    decreases bound - depth
  {
    hide Entries, InBuckets, AllFiled, AllSorted, Labels, Leaves, Direct, Split, Shows, Keys, Mentioned, Put,
      Arranged, Headed, Under, Found, Filled, Distinct;
    LeavesNothing(depth);
    var direct: seq<Item> := [];
    var nested: seq<Bucket> := [];
    SplitNothing(humanize, depth, bound);
    for i := 0 to |pages|
      invariant direct == Leaves(Direct(pages[..i], depth))
      invariant Keys(nested) == Mentioned(pages[..i], depth) && Filled(nested, depth, pages[..i])
      invariant AllSorted(nested, depth, bound) && Split(humanize, direct, nested, depth, bound, pages[..i])
    {
      assert pages[..i + 1][..i] == pages[..i] && pages[i] in pages;
      assert pages[..i + 1] == pages[..i] + [pages[i]];
      SplitOne(humanize, direct, nested, depth, bound, pages[..i], pages[i]);
      LeavesOne(pages[..i], depth, pages[i]);
      MentionedOne(pages[..i], depth, pages[i]);
      FilledOne(nested, depth, pages[..i], pages[i]);
      if |pages[i].parts| - depth == 1 {
        direct := direct + [Leaf(pages[i])];
      } else {
        PutKeys(nested, pages[i].parts[depth], pages[i]);
        nested := Put(nested, pages[i].parts[depth], pages[i]);
      }
    }
    assert pages[..|pages|] == pages;
    items := direct;
    var k := 0;
    MentionedOnce(pages, depth);
    HeadedNothing(humanize, items, Keys(nested), depth, pages);
    while k < |nested|
      invariant 0 <= k <= |nested|
      invariant direct <= items && Headed(humanize, items, |direct|, Keys(nested), k, depth, pages)
      invariant AllSorted(nested[k..], depth, bound) && Split(humanize, items, nested[k..], depth, bound, pages)
    {
      FirstBucket(humanize, items, nested[k..], depth, bound, pages);
      assert nested[k] == nested[k..][0] && nested[k].pages[0] in nested[k].pages;
      var children := NestedItems(humanize, nested[k].pages, depth + 1, bound);
      FirstBucketShown(humanize, items, nested[k..], children, depth, bound, pages);
      FilledAt(nested, depth, pages, k);
      HeadedMore(humanize, items, |direct|, Keys(nested), k, depth, pages, Heading(humanize(nested[k].key), children));
      items := items + [Heading(humanize(nested[k].key), children)];
      assert nested[k..][1..] == nested[k + 1..];
      k := k + 1;
    }
    HeadedAll(humanize, items, depth, pages);
    AllBucketsShown(humanize, items, nested[k..], depth, bound, pages);
  }

  lemma HeadedNothing(humanize: string -> string, items: seq<Item>, dirs: seq<string>, depth: nat, pages: seq<Page>)
    ensures Headed(humanize, items, |items|, dirs, 0, depth, pages)
  {
  }

  lemma FilledAt(nested: seq<Bucket>, depth: nat, pages: seq<Page>, k: nat)
    requires Filled(nested, depth, pages) && k < |nested| && Distinct(Keys(nested))
    ensures nested[k].pages == Under(pages, depth, nested[k].key)
  {
    FoundAt(nested, k);
  }

  lemma MentionedOne(pages: seq<Page>, depth: nat, p: Page)
    requires Deeper(pages, depth) && depth < |p.parts|
    ensures Deeper(pages + [p], depth)
    ensures var before := Mentioned(pages, depth);
      Mentioned(pages + [p], depth) ==
        if |p.parts| == depth + 1 then before else WithKey(before, p.parts[depth])
  {
    assert (pages + [p])[..|pages|] == pages;
  }

  lemma SplitNothing(humanize: string -> string, depth: nat, bound: nat)
    ensures AllSorted([], depth, bound) && Split(humanize, [], [], depth, bound, [])
  {
  }

  lemma LeavesNothing(depth: nat)
    ensures Leaves(Direct([], depth)) == [] && Mentioned([], depth) == [] && Keys([]) == []
    ensures Filled([], depth, [])
  {
  }

  lemma LeavesOne(pages: seq<Page>, depth: nat, p: Page)
    ensures Leaves(Direct(pages + [p], depth)) ==
      Leaves(Direct(pages, depth)) + if |p.parts| == depth + 1 then [Leaf(p)] else []
  {
    assert (pages + [p])[..|pages|] == pages;
    var direct := Direct(pages, depth);
    assert (direct + [p])[..|direct|] == direct && direct + [] == direct;
  }

  lemma SplitOne(humanize: string -> string, direct: seq<Item>, nested: seq<Bucket>, depth: nat, bound: nat,
                 pages: seq<Page>, p: Page)
    requires Deeper(pages, depth) && AllSorted(nested, depth, bound) &&
      Split(humanize, direct, nested, depth, bound, pages)
    requires depth < |p.parts| <= bound
    ensures Deeper(pages + [p], depth)
    ensures |p.parts| == depth + 1 ==> Split(humanize, direct + [Leaf(p)], nested, depth, bound, pages + [p])
    ensures |p.parts| != depth + 1 ==>
      AllSorted(Put(nested, p.parts[depth], p), depth, bound)
      && Split(humanize, direct, Put(nested, p.parts[depth], p), depth, bound, pages + [p])
  {
    hide AllFiled, InBuckets, AllSorted, Put, Entries;
    assert Deeper(pages + [p], depth);
    if |p.parts| == depth + 1 {
      forall above
        ensures Entries(above, direct + [Leaf(p)]) + InBuckets(humanize, above, depth, bound, nested)
          == AllFiled(humanize, above, depth, pages + [p])
      {
        SplitOneAbove(humanize, above, direct, nested, depth, bound, pages, p);
      }
    } else {
      PutAdds(humanize, [], depth, bound, nested, p);
      forall above
        ensures Entries(above, direct) + InBuckets(humanize, above, depth, bound, Put(nested, p.parts[depth], p))
          == AllFiled(humanize, above, depth, pages + [p])
      {
        SplitOneAbove(humanize, above, direct, nested, depth, bound, pages, p);
      }
    }
  }

  ghost predicate SplitOneHolds(humanize: string -> string, above: seq<string>, direct: seq<Item>, nested: seq<Bucket>,
                                depth: nat, bound: nat, pages: seq<Page>, p: Page)
    requires AllSorted(nested, depth, bound) && depth < |p.parts| <= bound
  {
    && Deeper(pages + [p], depth)
    && var all := AllFiled(humanize, above, depth, pages + [p]);
       if |p.parts| == depth + 1 then
         Entries(above, direct + [Leaf(p)]) + InBuckets(humanize, above, depth, bound, nested) == all
       else
         && AllSorted(Put(nested, p.parts[depth], p), depth, bound)
         && Entries(above, direct) + InBuckets(humanize, above, depth, bound, Put(nested, p.parts[depth], p)) == all
  }

  lemma SplitOneAbove(humanize: string -> string, above: seq<string>, direct: seq<Item>, nested: seq<Bucket>,
                      depth: nat, bound: nat, pages: seq<Page>, p: Page)
    requires Deeper(pages, depth) && AllSorted(nested, depth, bound) &&
      Split(humanize, direct, nested, depth, bound, pages)
    requires depth < |p.parts| <= bound
    ensures SplitOneHolds(humanize, above, direct, nested, depth, bound, pages, p)
  {
    hide AllFiled, InBuckets, AllSorted, Put;
    FiledSnoc(humanize, above, depth, pages, p);
    if |p.parts| == depth + 1 {
      EntriesJoin(above, direct, [Leaf(p)]);
      assert [Leaf(p)][1..] == [] && p.parts[depth..|p.parts| - 1] == [];
      assert above + [] == above;
    } else {
      hide Entries, Filed;
      PutAdds(humanize, above, depth, bound, nested, p);
    }
  }

  lemma FirstBucket(humanize: string -> string, items: seq<Item>, nested: seq<Bucket>, depth: nat, bound: nat,
                    pages: seq<Page>)
    requires nested != [] && AllSorted(nested, depth, bound)
    ensures Sorted(nested[0], depth, bound) && AllSorted(nested[1..], depth, bound)
  {
  }

  lemma FirstBucketShown(humanize: string -> string, items: seq<Item>, nested: seq<Bucket>, children: seq<Item>,
                         depth: nat, bound: nat, pages: seq<Page>)
    requires Deeper(pages, depth) && AllSorted(nested, depth, bound) &&
      Split(humanize, items, nested, depth, bound, pages)
    requires nested != [] && Sorted(nested[0], depth, bound) && AllSorted(nested[1..], depth, bound)
    requires Shows(humanize, children, depth + 1, nested[0].pages)
    ensures Split(humanize, items + [Heading(humanize(nested[0].key), children)], nested[1..], depth, bound, pages)
  {
    hide Entries, AllFiled;
    var b := nested[0];
    forall above
      ensures Entries(above, items + [Heading(humanize(b.key), children)]) +
        InBuckets(humanize, above, depth, bound, nested[1..])
        == AllFiled(humanize, above, depth, pages)
    {
      EntriesJoin(above, items, [Heading(humanize(b.key), children)]);
      EntriesOfHeading(above, humanize(b.key), children);
      OneLevelDown(humanize, above, depth, b.key, b.pages);
    }
  }

  lemma AllBucketsShown(humanize: string -> string, items: seq<Item>, nested: seq<Bucket>, depth: nat, bound: nat,
                        pages: seq<Page>)
    requires Deeper(pages, depth) && AllSorted(nested, depth, bound) &&
      Split(humanize, items, nested, depth, bound, pages)
    requires nested == []
    ensures Shows(humanize, items, depth, pages)
  {
  }

  // ----- The whole navigation -----

  /** Section pages of one section, current or retired, in manifest order. */
  function Of(pages: seq<Page>, section: string, retired: bool): (of: seq<Page>)
    ensures forall p <- of :: p in pages && !p.root && p.section == section
  {
    if pages == [] then []
    else
      var p := pages[|pages| - 1];
      Of(pages[..|pages| - 1], section, retired)
      + if !p.root && p.section == section && p.inHistory == retired then [p] else []
  }

  /** Pages at the document root, current or retired. */
  function Roots(pages: seq<Page>, retired: bool): seq<Page> {
    if pages == [] then []
    else
      var p := pages[|pages| - 1];
      Roots(pages[..|pages| - 1], retired) + if p.root && p.inHistory == retired then [p] else []
  }

  /** What the groups of the given sections show. */
  function Grouped(humanize: string -> string, above: seq<string>, sections: seq<string>, pages: seq<Page>,
                   retired: bool): multiset<Entry>
    requires Placed(pages)
  {
    if sections == [] then multiset{}
    else
      Grouped(humanize, above, sections[..|sections| - 1], pages, retired)
      + (var s := sections[|sections| - 1];
         assert Deeper(Of(pages, s, retired), 0);
         AllFiled(humanize, above + [humanize(s)], 0, Of(pages, s, retired)))
  }

  /** The sections somebody has written in. */
  function Written(sections: seq<string>, pages: seq<Page>, retired: bool): seq<string> {
    if sections == [] then []
    else
      var s := sections[|sections| - 1];
      Written(sections[..|sections| - 1], pages, retired) + if Of(pages, s, retired) == [] then [] else [s]
  }

  function Longest(pages: seq<Page>): (n: nat)
    ensures forall p <- pages :: |p.parts| <= n
  {
    if pages == [] then 0
    else
      var n, p := Longest(pages[1..]), pages[0];
      if |p.parts| > n then |p.parts| else n
  }

  function Lookup(bySection: map<string, seq<Page>>, section: string): seq<Page> {
    if section in bySection then bySection[section] else []
  }

  /** A heading for each of the sections, with its pages arranged below it. */
  ghost predicate SectionsArranged(humanize: string -> string, groups: seq<Item>, written: seq<string>,
                                   pages: seq<Page>, retired: bool)
  {
    && |groups| == |written|
    && forall k :: 0 <= k < |groups| ==>
         HeadingOf(humanize, groups[k], written[k], 0, Of(pages, written[k], retired))
  }

  lemma SectionArranged(humanize: string -> string, groups: seq<Item>, written: seq<string>, item: Item,
                        section: string, pages: seq<Page>, retired: bool)
    requires SectionsArranged(humanize, groups, written, pages, retired)
    requires HeadingOf(humanize, item, section, 0, Of(pages, section, retired))
    ensures SectionsArranged(humanize, groups + [item], written + [section], pages, retired)
  {
    hide HeadingOf, Of;
  }

  lemma NoSections(humanize: string -> string, sections: seq<string>, pages: seq<Page>, retired: bool)
    ensures SectionsArranged(humanize, [], Written(sections[..0], pages, retired), pages, retired)
  {
  }

  /** `_section_groups`: a heading for each section that has pages, in policy order, with its
      pages arranged by directories. */
  method SectionGroups(humanize: string -> string, sections: seq<string>, bySection: map<string, seq<Page>>,
                       ghost pages: seq<Page>, ghost retired: bool) returns (groups: seq<Item>)
    requires Placed(pages) && forall s :: Lookup(bySection, s) == Of(pages, s, retired)
    ensures GroupsShow(humanize, groups, sections, pages, retired)
    ensures SectionsArranged(humanize, groups, Written(sections, pages, retired), pages, retired)
  {
    hide Entries, Grouped, Written, GroupsShow, SectionsArranged, Arranged, Shows;
    groups := [];
    GroupedNothing(humanize, sections, pages, retired);
    NoSections(humanize, sections, pages, retired);
    for i := 0 to |sections|
      invariant GroupsShow(humanize, groups, sections[..i], pages, retired)
      invariant SectionsArranged(humanize, groups, Written(sections[..i], pages, retired), pages, retired)
    {
      var section := sections[i];
      var found := Lookup(bySection, section);
      assert sections[..i + 1] == sections[..i] + [section];
      if found == [] {
        EmptySection(humanize, groups, sections[..i], section, pages, retired);
        continue;
      }
      assert Deeper(found, 0);
      var items := NestedItems(humanize, found, 0, Longest(found));
      OneSectionMore(humanize, groups, items, sections[..i], section, pages, retired);
      var group := Heading(humanize(section), items);
      SectionArranged(humanize, groups, Written(sections[..i], pages, retired), group, section, pages, retired);
      groups := groups + [group];
    }
    assert sections[..|sections|] == sections;
  }

  ghost predicate GroupsShow(humanize: string -> string, groups: seq<Item>, sections: seq<string>, pages: seq<Page>,
                             retired: bool)
    requires Placed(pages)
  {
    forall above :: Entries(above, groups) == Grouped(humanize, above, sections, pages, retired)
  }

  lemma GroupedNothing(humanize: string -> string, sections: seq<string>, pages: seq<Page>, retired: bool)
    requires Placed(pages)
    ensures GroupsShow(humanize, [], sections[..0], pages, retired) && Written(sections[..0], pages, retired) == []
  {
  }

  lemma EmptySection(humanize: string -> string, groups: seq<Item>, sections: seq<string>, s: string,
                     pages: seq<Page>, retired: bool)
    requires Placed(pages) && Of(pages, s, retired) == [] && GroupsShow(humanize, groups, sections, pages, retired)
    ensures GroupsShow(humanize, groups, sections + [s], pages, retired)
    ensures Written(sections + [s], pages, retired) == Written(sections, pages, retired)
  {
    assert (sections + [s])[..|sections|] == sections;
  }

  lemma OneSectionMore(humanize: string -> string, groups: seq<Item>, items: seq<Item>, sections: seq<string>,
                       s: string,
                       pages: seq<Page>, retired: bool)
    requires Placed(pages) && Of(pages, s, retired) != [] && GroupsShow(humanize, groups, sections, pages, retired)
    requires Deeper(Of(pages, s, retired), 0) && Shows(humanize, items, 0, Of(pages, s, retired))
    ensures GroupsShow(humanize, groups + [Heading(humanize(s), items)], sections + [s], pages, retired)
    ensures Written(sections + [s], pages, retired) == Written(sections, pages, retired) + [s]
  {
    assert (sections + [s])[..|sections|] == sections;
    hide Entries, Of, AllFiled, Written;
    forall above
      ensures Entries(above, groups + [Heading(humanize(s), items)]) ==
        Grouped(humanize, above, sections + [s], pages, retired)
    {
      EntriesJoin(above, groups, [Heading(humanize(s), items)]);
      EntriesOfHeading(above, humanize(s), items);
    }
  }

  /** An item of the whole navigation, unless it would be empty. */
  function Titled(name: string, items: seq<Item>): seq<Item> {
    if items == [] then [] else [Heading(name, items)]
  }

  /** The root pages under Overview, then the written sections in policy order, then History with
      the retired root pages and the retired sections; each section is arranged by directories. */
  ghost predicate Composed(humanize: string -> string, m: Manifest, navigation: seq<Item>,
                           current: seq<Item>, retired: seq<Item>)
  {
    && SectionsArranged(humanize, current, Written(m.sections, m.pages, false), m.pages, false)
    && SectionsArranged(humanize, retired, Written(m.sections, m.pages, true), m.pages, true)
    && navigation == Titled("Overview", Leaves(Roots(m.pages, false))) + current
                     + Titled("History", Leaves(Roots(m.pages, true)) + retired)
  }

  lemma SectionsAreUnique(humanize: string -> string, a: seq<Item>, b: seq<Item>, written: seq<string>,
                          pages: seq<Page>, retired: bool)
    requires SectionsArranged(humanize, a, written, pages, retired)
    requires SectionsArranged(humanize, b, written, pages, retired)
    ensures a == b
  {
    hide Arranged, Of;
    forall k | 0 <= k < |a| ensures a[k] == b[k] {
      ArrangedIsUnique(humanize, a[k].items, b[k].items, 0, Of(pages, written[k], retired));
    }
  }

  /** MAIN: a manifest has one navigation: which pages, under which headings, and in which order
      at every level, is all determined. */
  lemma NavigationIsUnique(humanize: string -> string, m: Manifest, a: seq<Item>, b: seq<Item>)
    requires exists current, retired :: Composed(humanize, m, a, current, retired)
    requires exists current, retired :: Composed(humanize, m, b, current, retired)
    ensures a == b
  {
    var currentA, retiredA :| Composed(humanize, m, a, currentA, retiredA);
    var currentB, retiredB :| Composed(humanize, m, b, currentB, retiredB);
    hide SectionsArranged;
    SectionsAreUnique(humanize, currentA, currentB, Written(m.sections, m.pages, false), m.pages, false);
    SectionsAreUnique(humanize, retiredA, retiredB, Written(m.sections, m.pages, true), m.pages, true);
  }

  /** MAIN: `_simple_navigation` shows exactly the pages of the manifest, each once and at its
      home, composed in the one order that the manifest gives at every level. */
  method SimpleNavigation(humanize: string -> string, m: Manifest) returns (navigation: seq<Item>)
    requires Valid(m)
    ensures Placed(m.pages) && Entries([], navigation) == Homes(humanize, m.pages)
    ensures exists current, retired :: Composed(humanize, m, navigation, current, retired)
  {
    hide SectionsArranged, Entries, Grouped, Homes, Written, Of, Roots, Leaves, SortedInto;
    var overview: seq<Item>, retiredRoots: seq<Item> := [], [];
    var current: map<string, seq<Page>>, retired: map<string, seq<Page>> := map[], map[];
    NothingSorted();
    for i := 0 to |m.pages|
      invariant SortedInto(m.pages[..i], overview, retiredRoots, current, retired)
    {
      var page := m.pages[i];
      PageSorted(m.pages[..i], page, overview, retiredRoots, current, retired);
      assert m.pages[..i + 1] == m.pages[..i] + [page];
      if page.root {
        if page.inHistory {
          retiredRoots := retiredRoots + [Leaf(page)];
        } else {
          overview := overview + [Leaf(page)];
        }
        continue;
      }
      if page.inHistory {
        retired := retired[page.section := Lookup(retired, page.section) + [page]];
      } else {
        current := current[page.section := Lookup(current, page.section) + [page]];
      }
    }
    assert m.pages[..|m.pages|] == m.pages;
    AllSortedInto(m.pages, overview, retiredRoots, current, retired);
    navigation := Titled("Overview", overview);
    var groups := SectionGroups(humanize, m.sections, current, m.pages, false);
    navigation := navigation + groups;
    var retiredGroups := SectionGroups(humanize, m.sections, retired, m.pages, true);
    var history := retiredRoots + retiredGroups;
    navigation := navigation + Titled("History", history);
    EntriesOfAll(humanize, m, groups, retiredGroups);
    assert Composed(humanize, m, navigation, groups, retiredGroups);
  }

  // ----- No heading is empty -----

  /** Every heading has something below it, at every level. */
  predicate Full(items: seq<Item>)
    decreases items
  {
    forall k :: 0 <= k < |items| ==> FullItem(items[k])
  }

  predicate FullItem(item: Item)
    decreases item
  {
    item.Heading? ==> item.items != [] && Full(item.items)
  }

  lemma {:induction false} MentionedHasPages(pages: seq<Page>, depth: nat)
    requires Deeper(pages, depth)
    ensures forall dir <- Mentioned(pages, depth) :: Under(pages, depth, dir) != []
  {
    if pages != [] {
      var p := pages[|pages| - 1];
      MentionedHasPages(pages[..|pages| - 1], depth);
      WithKeyMeans(Mentioned(pages[..|pages| - 1], depth), p.parts[depth]);
    }
  }

  lemma {:induction false} SomethingArranged(pages: seq<Page>, depth: nat)
    requires Deeper(pages, depth) && pages != []
    ensures Direct(pages, depth) != [] || Mentioned(pages, depth) != []
  {
    var p, before := pages[|pages| - 1], pages[..|pages| - 1];
    if |p.parts| != depth + 1 {
      WithKeyMeans(Mentioned(before, depth), p.parts[depth]);
    }
  }

  lemma {:induction false} LeavesAreFull(pages: seq<Page>)
    ensures |Leaves(pages)| == |pages| && Full(Leaves(pages))
  {
    if pages != [] {
      LeavesAreFull(pages[..|pages| - 1]);
    }
  }

  lemma {:induction false} ArrangedIsFull(humanize: string -> string, items: seq<Item>, depth: nat, pages: seq<Page>)
    requires Deeper(pages, depth) && pages != [] && Arranged(humanize, items, depth, pages)
    ensures items != [] && Full(items)
    decreases items
  {
    var direct, dirs := Leaves(Direct(pages, depth)), Mentioned(pages, depth);
    LeavesAreFull(Direct(pages, depth));
    SomethingArranged(pages, depth);
    MentionedHasPages(pages, depth);
    hide Direct, Leaves, Mentioned, Under, Deeper, FullItem;
    forall k | 0 <= k < |items| ensures FullItem(items[k]) {
      if k < |direct| {
        assert items[k] == items[..|direct|][k];
      } else {
        var dir := dirs[k - |direct|];
        assert items[|direct| + (k - |direct|)] == items[k];
        assert dir in dirs;
        HeadingIsFull(humanize, items[k], dir, depth + 1, Under(pages, depth, dir));
      }
    }
  }

  lemma {:induction false} HeadingIsFull(humanize: string -> string, item: Item, segment: string, depth: nat,
                                         pages: seq<Page>)
    requires pages != [] && HeadingOf(humanize, item, segment, depth, pages)
    ensures FullItem(item)
    decreases item
  {
    hide Arranged, Deeper, Full;
    ArrangedIsFull(humanize, item.items, depth, pages);
  }

  lemma SectionsAreFull(humanize: string -> string, groups: seq<Item>, sections: seq<string>, pages: seq<Page>,
                        retired: bool)
    requires SectionsArranged(humanize, groups, Written(sections, pages, retired), pages, retired)
    ensures Full(groups)
  {
    WrittenHavePages(sections, pages, retired);
    hide HeadingOf, Of, Written, FullItem;
    forall k | 0 <= k < |groups| ensures FullItem(groups[k]) {
      var section := Written(sections, pages, retired)[k];
      HeadingIsFull(humanize, groups[k], section, 0, Of(pages, section, retired));
    }
  }

  lemma {:induction false} WrittenHavePages(sections: seq<string>, pages: seq<Page>, retired: bool)
    ensures forall s <- Written(sections, pages, retired) :: Of(pages, s, retired) != []
  {
    hide Of;
    if sections != [] {
      WrittenHavePages(sections[..|sections| - 1], pages, retired);
    }
  }

  /** MAIN: no heading of the navigation is empty, at any level. */
  lemma NoHeadingIsEmpty(humanize: string -> string, m: Manifest, navigation: seq<Item>)
    requires exists current, retired :: Composed(humanize, m, navigation, current, retired)
    ensures Full(navigation)
  {
    hide SectionsArranged, Leaves, Roots, Written;
    var current, retired :| Composed(humanize, m, navigation, current, retired);
    SectionsAreFull(humanize, current, m.sections, m.pages, false);
    SectionsAreFull(humanize, retired, m.sections, m.pages, true);
    LeavesAreFull(Roots(m.pages, false));
    LeavesAreFull(Roots(m.pages, true));
    var history := Leaves(Roots(m.pages, true)) + retired;
    FullJoins(Leaves(Roots(m.pages, true)), retired);
    TitledIsFull("Overview", Leaves(Roots(m.pages, false)));
    TitledIsFull("History", history);
    FullJoins(Titled("Overview", Leaves(Roots(m.pages, false))), current);
    FullJoins(Titled("Overview", Leaves(Roots(m.pages, false))) + current, Titled("History", history));
  }

  lemma FullJoins(a: seq<Item>, b: seq<Item>)
    requires Full(a) && Full(b)
    ensures Full(a + b)
  {
    hide FullItem;
  }

  lemma TitledIsFull(name: string, items: seq<Item>)
    requires Full(items)
    ensures Full(Titled(name, items))
  {
  }

  /** The four collections hold the pages seen so far. */
  ghost predicate SortedInto(pages: seq<Page>, overview: seq<Item>, retiredRoots: seq<Item>,
                             current: map<string, seq<Page>>, retired: map<string, seq<Page>>) {
    && overview == Leaves(Roots(pages, false)) && retiredRoots == Leaves(Roots(pages, true))
    && (forall s :: Lookup(current, s) == Of(pages, s, false))
    && (forall s :: Lookup(retired, s) == Of(pages, s, true))
  }

  lemma NothingSorted()
    ensures SortedInto([], [], [], map[], map[])
  {
  }

  lemma PageSorted(pages: seq<Page>, p: Page, overview: seq<Item>, retiredRoots: seq<Item>,
                   current: map<string, seq<Page>>, retired: map<string, seq<Page>>)
    requires SortedInto(pages, overview, retiredRoots, current, retired)
    ensures p.root && p.inHistory ==> SortedInto(pages + [p], overview, retiredRoots + [Leaf(p)], current, retired)
    ensures p.root && !p.inHistory ==> SortedInto(pages + [p], overview + [Leaf(p)], retiredRoots, current, retired)
    ensures !p.root && p.inHistory ==>
      SortedInto(pages + [p], overview, retiredRoots, current, retired[p.section := Lookup(retired, p.section) + [p]])
    ensures !p.root && !p.inHistory ==>
      SortedInto(pages + [p], overview, retiredRoots, current[p.section := Lookup(current, p.section) + [p]], retired)
  {
    hide Of, Roots, Leaves;
    OnePageMore(pages, p);
    LookupMore(current, p.section, p);
    LookupMore(retired, p.section, p);
    hide Lookup;
    assert Leaves(Roots(pages, false)) + [] == Leaves(Roots(pages, false)) &&
      Leaves(Roots(pages, true)) + [] == Leaves(Roots(pages, true));
    assert forall s, flag :: Of(pages, s, flag) + [] == Of(pages, s, flag);
  }

  lemma LookupMore(bySection: map<string, seq<Page>>, section: string, p: Page)
    ensures var more := bySection[section := Lookup(bySection, section) + [p]];
      forall s :: Lookup(more, s) == if s == section then Lookup(bySection, s) + [p] else Lookup(bySection, s)
  {
  }

  lemma AllSortedInto(pages: seq<Page>, overview: seq<Item>, retiredRoots: seq<Item>,
                      current: map<string, seq<Page>>, retired: map<string, seq<Page>>)
    requires SortedInto(pages, overview, retiredRoots, current, retired)
    ensures overview == Leaves(Roots(pages, false)) && retiredRoots == Leaves(Roots(pages, true))
    ensures (forall s :: Lookup(current, s) == Of(pages, s, false)) &&
      forall s :: Lookup(retired, s) == Of(pages, s, true)
  {
  }

  lemma OnePageMore(pages: seq<Page>, p: Page)
    ensures forall retired ::
      Leaves(Roots(pages + [p], retired)) ==
        Leaves(Roots(pages, retired)) + if p.root && p.inHistory == retired then [Leaf(p)] else []
    ensures forall s, retired ::
      Of(pages + [p], s, retired) ==
        Of(pages, s, retired) + if !p.root && p.section == s && p.inHistory == retired then [p] else []
  {
    assert (pages + [p])[..|pages|] == pages;
    forall retired
      ensures Leaves(Roots(pages + [p], retired)) ==
        Leaves(Roots(pages, retired)) + if p.root && p.inHistory == retired then [Leaf(p)] else []
    {
      var roots := Roots(pages, retired);
      assert (roots + [p])[..|roots|] == roots && roots + [] == roots;
    }
  }

  // ----- Everything is shown -----

  function RootsShown(pages: seq<Page>, retired: bool): multiset<Entry> {
    Entries([if retired then "History" else "Overview"], Leaves(Roots(pages, retired)))
  }

  lemma EntriesOfTitled(name: string, items: seq<Item>)
    ensures Entries([], Titled(name, items)) == Entries([name], items)
  {
    if items != [] {
      EntriesOfHeading([], name, items);
      assert [] + [name] == [name];
    }
  }

  lemma EntriesOfAll(humanize: string -> string, m: Manifest, current: seq<Item>, retired: seq<Item>)
    requires Valid(m) && Placed(m.pages)
    requires GroupsShow(humanize, current, m.sections, m.pages, false) &&
      GroupsShow(humanize, retired, m.sections, m.pages, true)
    ensures Entries([], Titled("Overview", Leaves(Roots(m.pages, false))) + current +
      Titled("History", Leaves(Roots(m.pages, true)) + retired))
         == Homes(humanize, m.pages)
  {
    hide Entries, Grouped, Homes, Leaves, Roots;
    var overview, history := Leaves(Roots(m.pages, false)), Leaves(Roots(m.pages, true)) + retired;
    EntriesJoin([], Titled("Overview", overview) + current, Titled("History", history));
    EntriesJoin([], Titled("Overview", overview), current);
    EntriesOfTitled("Overview", overview);
    EntriesOfTitled("History", history);
    EntriesJoin(["History"], Leaves(Roots(m.pages, true)), retired);
    HomesAreShown(humanize, m.sections, m.pages);
  }

  /** What stands under Overview, under the sections, and below History. */
  function Everywhere(humanize: string -> string, sections: seq<string>, pages: seq<Page>): multiset<Entry>
    requires Placed(pages)
  {
    RootsShown(pages, false) + RootsShown(pages, true)
    + Grouped(humanize, [], sections, pages, false) + Grouped(humanize, ["History"], sections, pages, true)
  }

  lemma EverywhereMore(humanize: string -> string, sections: seq<string>, pages: seq<Page>, p: Page)
    requires Distinct(sections) && Placed(pages) && Placed(pages + [p]) && (!p.root ==> p.section in sections)
    ensures Placed([p]) && Everywhere(humanize, sections, pages + [p]) ==
      Everywhere(humanize, sections, pages) + multiset{Home(humanize, p)}
  {
    hide Grouped, Filed, RootsShown, Home, Distinct;
    assert p in pages + [p];
    RootsMore(pages, p, false);
    RootsMore(pages, p, true);
    GroupedMore(humanize, [], sections, pages, p, false);
    GroupedMore(humanize, ["History"], sections, pages, p, true);
    HomeIsSomewhere(humanize, p);
    if p.root && p.inHistory {
    } else if p.root {
    } else if p.inHistory {
    } else {
    }
  }

  /** Current and retired roots and sections make up all pages. */
  lemma {:induction false} HomesAreShown(humanize: string -> string, sections: seq<string>, pages: seq<Page>)
    requires Distinct(sections) && Placed(pages) && forall p <- pages :: !p.root ==> p.section in sections
    ensures Homes(humanize, pages) == Everywhere(humanize, sections, pages)
  {
    hide Home;
    if pages == [] {
      NothingGrouped(humanize, [], sections, false);
      NothingGrouped(humanize, ["History"], sections, true);
      NoRootsShown();
    } else {
      hide Everywhere;
      var before, p := pages[..|pages| - 1], pages[|pages| - 1];
      assert pages == before + [p] && p in pages && forall q <- before :: q in pages;
      HomesAreShown(humanize, sections, before);
      EverywhereMore(humanize, sections, before, p);
    }
  }

  lemma NoRootsShown()
    ensures RootsShown([], false) == multiset{} == RootsShown([], true)
  {
  }

  lemma HomeIsSomewhere(humanize: string -> string, p: Page)
    requires Placed([p])
    ensures p.root ==> Home(humanize, p) == Entry([if p.inHistory then "History" else "Overview"], p)
    ensures !p.root && p.inHistory ==>
      p.parts != [] && Home(humanize, p) == Filed(humanize, ["History"] + [humanize(p.section)], 0, p)
    ensures !p.root && !p.inHistory ==>
      p.parts != [] && Home(humanize, p) == Filed(humanize, [] + [humanize(p.section)], 0, p)
  {
    assert p in [p];
  }

  lemma RootsMore(pages: seq<Page>, p: Page, retired: bool)
    ensures RootsShown(pages + [p], retired) == RootsShown(pages, retired) +
      if p.root && p.inHistory == retired
      then multiset{Entry([if retired then "History" else "Overview"], p)} else multiset{}
  {
    hide Roots, Leaves;
    OnePageMore(pages, p);
    var above := [if retired then "History" else "Overview"];
    EntriesJoin(above, Leaves(Roots(pages, retired)), if p.root && p.inHistory == retired then [Leaf(p)] else []);
    assert [Leaf(p)][1..] == [];
  }

  lemma {:induction false} NothingGrouped(humanize: string -> string, above: seq<string>, sections: seq<string>,
      retired: bool)
    ensures Grouped(humanize, above, sections, [], retired) == multiset{}
  {
    if sections != [] {
      NothingGrouped(humanize, above, sections[..|sections| - 1], retired);
    }
  }

  lemma {:induction false} GroupedMore(humanize: string -> string, above: seq<string>, sections: seq<string>,
                                       pages: seq<Page>, p: Page, retired: bool)
    requires Distinct(sections) && Placed(pages + [p]) && Placed(pages)
    ensures Grouped(humanize, above, sections, pages + [p], retired) ==
      Grouped(humanize, above, sections, pages, retired) +
      if !p.root && p.inHistory == retired && p.section in sections
      then multiset{Filed(humanize, above + [humanize(p.section)], 0, p)} else multiset{}
  {
    hide Filed, AllFiled, Of;
    assert p in pages + [p];
    if sections != [] {
      var before, s := sections[..|sections| - 1], sections[|sections| - 1];
      assert sections == before + [s];
      GroupedMore(humanize, above, before, pages, p, retired);
      OnePageMore(pages, p);
      if !p.root && p.section == s && p.inHistory == retired {
        FiledSnoc(humanize, above + [humanize(s)], 0, Of(pages, s, retired), p);
      } else {
        assert Of(pages, s, retired) + [] == Of(pages, s, retired);
      }
    }
  }

  /** MAIN: so every page of the manifest stands in the navigation exactly once, at its home. */
  lemma {:induction false} EveryPageOnce(humanize: string -> string, pages: seq<Page>, p: Page)
    requires Placed(pages) && p in pages
    requires forall i, j :: 0 <= i < j < |pages| ==> pages[i].path != pages[j].path
    ensures forall e :: e in Homes(humanize, pages) && e.page == p ==> e == Home(humanize, p)
    ensures Homes(humanize, pages)[Home(humanize, p)] == 1
  {
    hide Home;
    var before, last := pages[..|pages| - 1], pages[|pages| - 1];
    assert pages == before + [last];
    forall e | e in Homes(humanize, pages) && e.page == p ensures e == Home(humanize, p) {
      HomesOfPages(humanize, pages, e);
    }
    if last == p {
      if Home(humanize, p) in Homes(humanize, before) {
        HomesOfPages(humanize, before, Home(humanize, p));
      }
    } else {
      assert forall i, j :: 0 <= i < j < |before| ==>
        before[i].path == pages[i].path && before[j].path == pages[j].path;
      EveryPageOnce(humanize, before, p);
    }
  }

  lemma {:induction false} HomesOfPages(humanize: string -> string, pages: seq<Page>, e: Entry)
    requires Placed(pages) && e in Homes(humanize, pages)
    ensures e.page in pages && e == Home(humanize, e.page)
  {
    var before, last := pages[..|pages| - 1], pages[|pages| - 1];
    assert pages == before + [last];
    if e in Homes(humanize, before) {
      HomesOfPages(humanize, before, e);
    }
  }
}
