/** The aggregator (`collect_stats`): one pass over the scan that keeps the
    total byte count, the bytes per lower-cased extension, the bytes and the
    entries of each category, and an amortised largest-files list. */
module Aggregator {
  import opened Paths
  import opened Classifier
  import opened Ranking
  import opened Entries

  /* ---------------------------------------------------------------------- */
  /* Bytes per extension                                                    */
  /* ---------------------------------------------------------------------- */

  /** One item of the `by_ext` dictionary. */
  datatype ExtTotal = ExtTotal(ext: string, bytes: nat)

  /** The dictionary's keys, in insertion order. */
  function Keys(t: seq<ExtTotal>): seq<string> {
    seq(|t|, j requires 0 <= j < |t| => t[j].ext)
  }

  predicate DistinctKeys(t: seq<ExtTotal>) {
    forall i, j :: 0 <= i < j < |t| ==> t[i].ext != t[j].ext
  }

  /** `by_ext.get(k, 0)`. */
  function Lookup(t: seq<ExtTotal>, k: string): nat {
    if t == [] then 0 else if t[0].ext == k then t[0].bytes else Lookup(t[1..], k)
  }

  function SumBytes(t: seq<ExtTotal>): nat {
    if t == [] then 0 else t[0].bytes + SumBytes(t[1..])
  }

  /** `by_ext[k] = by_ext.get(k, 0) + v`: an existing key keeps its place and
      grows by `v`; a new key is appended with `v`. */
  function Bump(t: seq<ExtTotal>, k: string, v: nat): seq<ExtTotal> {
    if t == [] then [ExtTotal(k, v)]
    else if t[0].ext == k then [ExtTotal(k, t[0].bytes + v)] + t[1..]
    else [t[0]] + Bump(t[1..], k, v)
  }

  /** An update keeps the keys and their order, appending the key when it is new. */
  lemma {:induction false} BumpKeys(t: seq<ExtTotal>, k: string, v: nat)
    ensures Keys(Bump(t, k, v)) == if k in Keys(t) then Keys(t) else Keys(t) + [k]
  {
    if t != [] {
      KeysCons(t[0], t[1..]);
      assert [t[0]] + t[1..] == t;
      if t[0].ext != k {
        BumpKeys(t[1..], k, v);
        KeysCons(t[0], Bump(t[1..], k, v));
        assert k in Keys(t) <==> k in Keys(t[1..]);
        if k !in Keys(t) {
          assert [t[0].ext] + (Keys(t[1..]) + [k]) == ([t[0].ext] + Keys(t[1..])) + [k];
        }
      } else {
        KeysCons(ExtTotal(k, t[0].bytes + v), t[1..]);
      }
    }
  }

  lemma KeysCons(x: ExtTotal, t: seq<ExtTotal>)
    ensures Keys([x] + t) == [x.ext] + Keys(t)
  {
  }

  /** What one update does to the dictionary, read through `get` and summed. */
  lemma {:induction false} BumpSpec(t: seq<ExtTotal>, k: string, v: nat)
    requires DistinctKeys(t)
    ensures DistinctKeys(Bump(t, k, v))
    ensures Lookup(Bump(t, k, v), k) == Lookup(t, k) + v
    ensures forall j :: j != k ==> Lookup(Bump(t, k, v), j) == Lookup(t, j)
    ensures SumBytes(Bump(t, k, v)) == SumBytes(t) + v
  {
    if t != [] && t[0].ext != k {
      BumpSpec(t[1..], k, v);
      BumpKeys(t, k, v);
      var r := Bump(t, k, v);
      assert Keys(r) == if k in Keys(t) then Keys(t) else Keys(t) + [k];
      forall i, j | 0 <= i < j < |r|
        ensures r[i].ext != r[j].ext
      {
        assert Keys(r)[i] == r[i].ext && Keys(r)[j] == r[j].ext;
        if j < |t| {
          assert Keys(t)[i] == t[i].ext && Keys(t)[j] == t[j].ext;
        } else {
          assert k !in Keys(t) && i < |t| && Keys(t)[i] == t[i].ext;
        }
      }
    }
  }

  /** The `by_ext` dictionary after folding the entries in scan order. */
  function ExtTable(es: seq<Entry>): seq<ExtTotal> {
    if es == [] then []
    else
      var e := es[|es| - 1];
      Bump(ExtTable(es[..|es| - 1]), ExtOf(e.path), e.size)
  }

  /** The bytes of the entries whose extension key is `k`. */
  function ExtSize(es: seq<Entry>, k: string): nat {
    if es == [] then 0
    else
      var e := es[|es| - 1];
      ExtSize(es[..|es| - 1], k) + (if ExtOf(e.path) == k then e.size else 0)
  }

  lemma ExtTableAppend(es: seq<Entry>, e: Entry)
    ensures ExtTable(es + [e]) == Bump(ExtTable(es), ExtOf(e.path), e.size)
    ensures ExtSize(es + [e], ExtOf(e.path)) == ExtSize(es, ExtOf(e.path)) + e.size
    ensures forall k :: k != ExtOf(e.path) ==> ExtSize(es + [e], k) == ExtSize(es, k)
  {
    assert (es + [e])[..|es|] == es;
  }

  /** The meaning of `by_ext`: each key once, and the value read for any key
      is the bytes of the scanned files whose extension key it is. */
  lemma {:induction false} ExtTableLookup(es: seq<Entry>)
    ensures DistinctKeys(ExtTable(es))
    ensures forall k :: Lookup(ExtTable(es), k) == ExtSize(es, k)
  {
    if es != [] {
      var init, e := es[..|es| - 1], es[|es| - 1];
      assert es == init + [e];
      ExtTableLookup(init);
      ExtTableAppend(init, e);
      BumpSpec(ExtTable(init), ExtOf(e.path), e.size);
    }
  }

  /** The keys of `by_ext` are exactly the extension keys of the scanned files. */
  lemma {:induction false} ExtTableKeys(es: seq<Entry>)
    ensures forall k :: k in Keys(ExtTable(es)) <==> exists e :: e in es && ExtOf(e.path) == k
  {
    if es != [] {
      var init, e := es[..|es| - 1], es[|es| - 1];
      assert es == init + [e];
      ExtTableKeys(init);
      ExtTableAppend(init, e);
      BumpKeys(ExtTable(init), ExtOf(e.path), e.size);
      forall k
        ensures k in Keys(ExtTable(es)) <==> exists x :: x in es && ExtOf(x.path) == k
      {
        SomeExtAppend(init, e, k);
      }
    }
  }

  lemma SomeExtAppend(es: seq<Entry>, e: Entry, k: string)
    ensures (exists x :: x in es + [e] && ExtOf(x.path) == k)
        <==> (exists x :: x in es && ExtOf(x.path) == k) || ExtOf(e.path) == k
  {
    if exists x :: x in es + [e] && ExtOf(x.path) == k {
      var x :| x in es + [e] && ExtOf(x.path) == k;
      if x != e {
        assert x in es;
      }
    }
  }

  /** The values of `by_ext` add up to the total. */
  lemma {:induction false} ExtTableSum(es: seq<Entry>)
    ensures SumBytes(ExtTable(es)) == TotalSize(es)
  {
    if es != [] {
      var init, e := es[..|es| - 1], es[|es| - 1];
      assert es == init + [e];
      ExtTableSum(init);
      ExtTableAppend(init, e);
      ExtTableLookup(init);
      BumpSpec(ExtTable(init), ExtOf(e.path), e.size);
      TotalSizeAppend(init, e);
    }
  }

  /* ---------------------------------------------------------------------- */
  /* The extension list ordered by bytes                                    */
  /* ---------------------------------------------------------------------- */

  /** Non-increasing in bytes. */
  predicate ByteSorted(t: seq<ExtTotal>) {
    forall i, j :: 0 <= i < j < |t| ==> t[i].bytes >= t[j].bytes
  }

  /** Places `x` before the first item with no more bytes, so that it stays
      ahead of the items with the same bytes that came after it. */
  function InsertByBytes(x: ExtTotal, t: seq<ExtTotal>): (r: seq<ExtTotal>)
    ensures multiset(r) == multiset(t) + multiset{x}
    ensures SumBytes(r) == SumBytes(t) + x.bytes
  {
    if t == [] || x.bytes >= t[0].bytes then [x] + t
    else
      assert t == [t[0]] + t[1..];
      [t[0]] + InsertByBytes(x, t[1..])
  }

  lemma {:induction false} InsertByBytesSorted(x: ExtTotal, t: seq<ExtTotal>)
    requires ByteSorted(t)
    ensures ByteSorted(InsertByBytes(x, t))
  {
    if t == [] || x.bytes >= t[0].bytes {
      if t != [] {
        forall j | 0 < j < |t| ensures t[0].bytes >= t[j].bytes { }
      }
    } else {
      var r := InsertByBytes(x, t[1..]);
      InsertByBytesSorted(x, t[1..]);
      assert t == [t[0]] + t[1..];
      forall j | 0 <= j < |r| ensures t[0].bytes >= r[j].bytes {
        assert r[j] in multiset(r);
        assert r[j] == x || r[j] in t[1..];
      }
    }
  }

  /** `sorted(by_ext.items(), key=lambda kv: kv[1], reverse=True)`: a stable
      sort by bytes, largest first. */
  function SortByBytes(t: seq<ExtTotal>): (r: seq<ExtTotal>)
    ensures multiset(r) == multiset(t)
    ensures ByteSorted(r)
    ensures SumBytes(r) == SumBytes(t)
  {
    if t == [] then []
    else
      assert t == [t[0]] + t[1..];
      InsertByBytesSorted(t[0], SortByBytes(t[1..]));
      InsertByBytes(t[0], SortByBytes(t[1..]))
  }

  /* ---------------------------------------------------------------------- */
  /* Category buckets                                                       */
  /* ---------------------------------------------------------------------- */

  /** The entries filed under `c`, in scan order. */
  function Bucket(es: seq<Entry>, c: Category): seq<Entry> {
    if es == [] then []
    else
      var e := es[|es| - 1];
      Bucket(es[..|es| - 1], c) + (if CategoryOf(e.path) == c then [e] else [])
  }

  /** The category dictionaries before the first entry: a key for each of
      the six categories, with 0 bytes and no entries. */
  const NoBytes: map<Category, nat> :=
    map[Proxy := 0, Optimized := 0, RenderCache := 0, Stills := 0, Backups := 0, Other := 0]
  const NoPaths: map<Category, seq<Entry>> :=
    map[Proxy := [], Optimized := [], RenderCache := [], Stills := [], Backups := [], Other := []]

  lemma EveryCategoryIsAKey(c: Category)
    ensures c in NoBytes && c in NoPaths
  {
  }

  /** `by_category_bytes` after folding the entries in scan order: every
      category starts at 0, and each entry adds its size to its category. */
  function CategoryBytes(es: seq<Entry>): (m: map<Category, nat>)
    ensures forall c :: c in m
  {
    if es == [] then
      assert forall c :: c in NoBytes by {
        forall c ensures c in NoBytes { EveryCategoryIsAKey(c); }
      }
      NoBytes
    else
      var e := es[|es| - 1];
      var m := CategoryBytes(es[..|es| - 1]);
      m[CategoryOf(e.path) := m[CategoryOf(e.path)] + e.size]
  }

  /** `by_category_paths` after folding the entries in scan order: every
      category starts empty, and each entry is appended to its category. */
  function CategoryPaths(es: seq<Entry>): (m: map<Category, seq<Entry>>)
    ensures forall c :: c in m
  {
    if es == [] then
      assert forall c :: c in NoPaths by {
        forall c ensures c in NoPaths { EveryCategoryIsAKey(c); }
      }
      NoPaths
    else
      var e := es[|es| - 1];
      var m := CategoryPaths(es[..|es| - 1]);
      m[CategoryOf(e.path) := m[CategoryOf(e.path)] + [e]]
  }

  function CategorySum(m: map<Category, nat>): nat
    requires forall c :: c in m
  {
    m[Proxy] + m[Optimized] + m[RenderCache] + m[Stills] + m[Backups] + m[Other]
  }

  lemma BucketAppend(es: seq<Entry>, e: Entry, c: Category)
    ensures Bucket(es + [e], c) == Bucket(es, c) + (if CategoryOf(e.path) == c then [e] else [])
  {
    assert (es + [e])[..|es|] == es;
  }

  /** Membership of a bucket: an entry is in the bucket of `c` exactly when
      it was scanned and is filed under `c`, so each entry is in the bucket
      of its own category and in no other. */
  lemma {:induction false} BucketSpec(es: seq<Entry>, c: Category)
    ensures forall e :: e in Bucket(es, c) <==> e in es && CategoryOf(e.path) == c
    ensures |Bucket(es, c)| <= |es|
  {
    if es != [] {
      var init, e := es[..|es| - 1], es[|es| - 1];
      assert es == init + [e];
      BucketSpec(init, c);
    }
  }

  lemma BucketSizeAppend(es: seq<Entry>, e: Entry, c: Category)
    ensures TotalSize(Bucket(es + [e], c)) == TotalSize(Bucket(es, c)) + (if CategoryOf(e.path) == c then e.size else 0)
    ensures |Bucket(es + [e], c)| == |Bucket(es, c)| + (if CategoryOf(e.path) == c then 1 else 0)
  {
    BucketAppend(es, e, c);
    if CategoryOf(e.path) == c {
      TotalSizeAppend(Bucket(es, c), e);
    } else {
      assert Bucket(es + [e], c) == Bucket(es, c);
    }
  }

  /** The meaning of the category dictionaries: the list kept for a
      category is its bucket, and the bytes kept for it are the bucket's size. */
  lemma {:induction false} CategorySpec(es: seq<Entry>)
    ensures forall c :: CategoryPaths(es)[c] == Bucket(es, c)
    ensures forall c :: CategoryBytes(es)[c] == TotalSize(Bucket(es, c))
  {
    if es != [] {
      var init, e := es[..|es| - 1], es[|es| - 1];
      assert es == init + [e];
      CategorySpec(init);
      forall c
        ensures CategoryPaths(es)[c] == Bucket(es, c)
        ensures CategoryBytes(es)[c] == TotalSize(Bucket(es, c))
      {
        BucketAppend(init, e, c);
        BucketSizeAppend(init, e, c);
        assert Bucket(init, c) + [] == Bucket(init, c);
      }
    }
  }

  /** The six bucket sizes add up to the total. */
  lemma {:induction false} BucketBytesSum(es: seq<Entry>)
    ensures TotalSize(Bucket(es, Proxy)) + TotalSize(Bucket(es, Optimized)) + TotalSize(Bucket(es, RenderCache))
          + TotalSize(Bucket(es, Stills)) + TotalSize(Bucket(es, Backups)) + TotalSize(Bucket(es, Other))
         == TotalSize(es)
  {
    if es != [] {
      var init, e := es[..|es| - 1], es[|es| - 1];
      assert es == init + [e];
      BucketBytesSum(init);
      TotalSizeAppend(init, e);
      BucketSizeAppend(init, e, Proxy);
      BucketSizeAppend(init, e, Optimized);
      BucketSizeAppend(init, e, RenderCache);
      BucketSizeAppend(init, e, Stills);
      BucketSizeAppend(init, e, Backups);
      BucketSizeAppend(init, e, Other);
    }
  }

  /** The six category totals add up to the total. */
  lemma CategoryBytesSum(es: seq<Entry>)
    ensures CategorySum(CategoryBytes(es)) == TotalSize(es)
  {
    CategorySpec(es);
    BucketBytesSum(es);
  }

  /** The six buckets together hold as many entries as the scan. */
  lemma {:induction false} BucketCounts(es: seq<Entry>)
    ensures |Bucket(es, Proxy)| + |Bucket(es, Optimized)| + |Bucket(es, RenderCache)|
          + |Bucket(es, Stills)| + |Bucket(es, Backups)| + |Bucket(es, Other)| == |es|
  {
    if es != [] {
      var init, e := es[..|es| - 1], es[|es| - 1];
      assert es == init + [e];
      BucketCounts(init);
      BucketSizeAppend(init, e, Proxy);
      BucketSizeAppend(init, e, Optimized);
      BucketSizeAppend(init, e, RenderCache);
      BucketSizeAppend(init, e, Stills);
      BucketSizeAppend(init, e, Backups);
      BucketSizeAppend(init, e, Other);
    }
  }

  /* ---------------------------------------------------------------------- */
  /* The snapshot                                                           */
  /* ---------------------------------------------------------------------- */

  /** What `collect_stats` returns, without the display-only fields. */
  datatype Snapshot = Snapshot(
    totalBytes: nat,
    byExt: seq<ExtTotal>,
    largest: seq<Ranked>,
    byCategoryBytes: map<Category, nat>,
    byCategoryPaths: map<Category, seq<Entry>>)

  /** The largest-files list the pass yields: the top `top_n` rows for a
      non-negative `top_n`; a negative one makes every `largest[:top_n]` cut
      drop rows from the end, so the list stays empty. */
  function Largest(es: seq<Entry>, topN: int): seq<Ranked> {
    if topN >= 0 then TopN(Ranks(es), topN) else []
  }

  /** The reference snapshot of a scan, each part defined on the whole scan. */
  function Audit(es: seq<Entry>, topN: int): Snapshot {
    Snapshot(TotalSize(es), SortByBytes(ExtTable(es)), Largest(es, topN),
             CategoryBytes(es), CategoryPaths(es))
  }

  /** The snapshot's invariants: the category totals, the extension totals
      and the total agree; each category total is the size of its bucket; the
      extension list is ordered by bytes, largest first; the largest-files list
      has `min(top_n, file count)` rows, is non-increasing, and no file it
      leaves out is larger than one it keeps. */
  lemma AuditSpec(es: seq<Entry>, topN: int)
    ensures var s := Audit(es, topN);
      && CategorySum(s.byCategoryBytes) == s.totalBytes
      && SumBytes(s.byExt) == s.totalBytes
      && ByteSorted(s.byExt)
      && (forall c :: s.byCategoryBytes[c] == TotalSize(s.byCategoryPaths[c]))
      && |s.largest| == (if topN <= 0 then 0 else if topN < |es| then topN else |es|)
      && Sorted(s.largest)
      && (forall x, k :: x in multiset(Ranks(es)) - multiset(s.largest) && 0 <= k < |s.largest|
            ==> Geq(s.largest[k], x))
  {
    CategoryBytesSum(es);
    CategorySpec(es);
    ExtTableSum(es);
    if topN >= 0 {
      TopNSpec(Ranks(es), topN);
      TopNDominates(Ranks(es), topN);
    }
  }

  lemma RanksAppend(es: seq<Entry>, e: Entry)
    ensures Ranks(es + [e]) == Ranks(es) + [Rank(e)]
  {
  }

  /** One more entry adds its size to its own category's total and leaves
      the other totals alone. */
  lemma CategoryBytesNext(es: seq<Entry>, e: Entry, catBytes: map<Category, nat>, cat: Category)
    requires catBytes == CategoryBytes(es) && cat == CategoryOf(e.path)
    ensures cat in catBytes
    ensures catBytes[cat := catBytes[cat] + e.size] == CategoryBytes(es + [e])
  {
    assert (es + [e])[..|es|] == es;
  }

  /** One more entry joins the end of its own category's list and leaves the
      other lists alone. */
  lemma CategoryPathsNext(es: seq<Entry>, e: Entry, catPaths: map<Category, seq<Entry>>, cat: Category)
    requires catPaths == CategoryPaths(es) && cat == CategoryOf(e.path)
    ensures cat in catPaths
    ensures catPaths[cat := catPaths[cat] + [e]] == CategoryPaths(es + [e])
  {
    assert (es + [e])[..|es|] == es;
  }

  /** What the amortised largest-files list keeps after the rows `seen`:
      the same top `top_n` rows as all of them, or nothing for a negative
      `top_n`. */
  predicate KeepsTop(largest: seq<Ranked>, seen: seq<Ranked>, topN: int) {
    if topN >= 0 then TopN(largest, topN) == TopN(seen, topN) else largest == []
  }

  /** The accumulators of the pass after the entries `seen`: each holds the
      value its reference definition gives for them, and the largest-files
      list keeps their top rows in at most `3 * top_n` rows. */
  ghost predicate Accumulated(seen: seq<Entry>, topN: int, total: nat, byExt: seq<ExtTotal>,
                              largest: seq<Ranked>, catBytes: map<Category, nat>,
                              catPaths: map<Category, seq<Entry>>) {
    && total == TotalSize(seen)
    && byExt == ExtTable(seen)
    && catBytes == CategoryBytes(seen)
    && catPaths == CategoryPaths(seen)
    && KeepsTop(largest, Ranks(seen), topN)
    && (topN >= 0 ==> |largest| <= 3 * topN)
  }

  /** The body of the pass for one entry: add its size to the total, to its
      extension and to its category, append it to its category's list, and
      append its row to the largest-files list, sorting and cutting that list
      back to `top_n` rows once it holds more than `3 * top_n`. */
  method AddEntry(e: Entry, topN: int, total: nat, byExt: seq<ExtTotal>, largest: seq<Ranked>,
                  catBytes: map<Category, nat>, catPaths: map<Category, seq<Entry>>, ghost seen: seq<Entry>)
    returns (total': nat, byExt': seq<ExtTotal>, largest': seq<Ranked>,
             catBytes': map<Category, nat>, catPaths': map<Category, seq<Entry>>)
    requires Accumulated(seen, topN, total, byExt, largest, catBytes, catPaths)
    ensures Accumulated(seen + [e], topN, total', byExt', largest', catBytes', catPaths')
  {
    ghost var next := seen + [e];
    TotalSizeAppend(seen, e);
    total' := total + e.size;
    byExt' := AddToExt(e, byExt, seen);
    catBytes', catPaths' := AddToCategory(e, catBytes, catPaths, seen);
    largest' := PushLargest(largest, e, topN, seen);
    assert total' == TotalSize(next) && byExt' == ExtTable(next);
    assert catBytes' == CategoryBytes(next) && catPaths' == CategoryPaths(next);
    assert KeepsTop(largest', Ranks(next), topN);
  }

  /** The extension step of the pass: the entry's size is added to the
      total of its extension key, which is created at zero when new. */
  method AddToExt(e: Entry, byExt: seq<ExtTotal>, ghost seen: seq<Entry>) returns (byExt': seq<ExtTotal>)
    requires byExt == ExtTable(seen)
    ensures byExt' == ExtTable(seen + [e])
  {
    ExtTableAppend(seen, e);
    byExt' := Bump(byExt, ExtOf(e.path), e.size);
  }

  /** The category step of the pass: the entry's size is added to its
      category's byte count and the entry appended to its category's list. */
  method AddToCategory(e: Entry, catBytes: map<Category, nat>, catPaths: map<Category, seq<Entry>>,
                       ghost seen: seq<Entry>)
    returns (catBytes': map<Category, nat>, catPaths': map<Category, seq<Entry>>)
    requires catBytes == CategoryBytes(seen) && catPaths == CategoryPaths(seen)
    ensures catBytes' == CategoryBytes(seen + [e]) && catPaths' == CategoryPaths(seen + [e])
  {
    var cat := CategoryOf(e.path);
    CategoryBytesNext(seen, e, catBytes, cat);
    CategoryPathsNext(seen, e, catPaths, cat);
    catBytes' := catBytes[cat := catBytes[cat] + e.size];
    catPaths' := catPaths[cat := catPaths[cat] + [e]];
  }

  /** The largest-files step of the pass: append the row, and once the list
      holds more than `3 * top_n` rows, sort it and cut it back to `top_n`.
      The list keeps the top rows of everything seen, within its bound. */
  method PushLargest(largest: seq<Ranked>, e: Entry, topN: int, ghost seen: seq<Entry>)
    returns (r: seq<Ranked>)
    requires KeepsTop(largest, Ranks(seen), topN) && (topN >= 0 ==> |largest| <= 3 * topN)
    ensures KeepsTop(r, Ranks(seen + [e]), topN) && (topN >= 0 ==> |r| <= 3 * topN)
  {
    RanksAppend(seen, e);
    r := largest + [Rank(e)];
    if topN >= 0 {
      TopAppend(largest, Ranks(seen), [Rank(e)], topN);
    }
    if |r| > topN * 3 {
      if topN >= 0 {
        TrimKeepsTop(r, topN);
      }
      r := SliceTo(SortDesc(r), topN);
    }
  }

  /** After the last entry: the final cut turns the amortised list into the
      top `top_n` rows, and the accumulators make up the reference snapshot. */
  lemma AccumulatedAudit(es: seq<Entry>, topN: int, total: nat, byExt: seq<ExtTotal>,
                         largest: seq<Ranked>, catBytes: map<Category, nat>,
                         catPaths: map<Category, seq<Entry>>)
    requires Accumulated(es, topN, total, byExt, largest, catBytes, catPaths)
    ensures Snapshot(total, SortByBytes(byExt), SliceTo(SortDesc(largest), topN), catBytes, catPaths)
         == Audit(es, topN)
  {
  }

  lemma PrefixNext(es: seq<Entry>, i: nat)
    requires i < |es|
    ensures es[..i + 1] == es[..i] + [es[i]]
  {
  }

  /** `collect_stats` over a scan: one pass that updates the accumulators
      entry by entry, then sorts and cuts the largest-files list and sorts the
      extension totals. It yields exactly the reference snapshot. */
  method CollectStats(es: seq<Entry>, topN: int) returns (snap: Snapshot)
    ensures snap == Audit(es, topN)
  {
    var total := 0;
    var byExt: seq<ExtTotal> := [];
    var largest: seq<Ranked> := [];
    var catBytes := NoBytes;
    var catPaths := NoPaths;
    assert es[..0] == [];
    var i := 0;
    while i < |es|
      invariant 0 <= i <= |es|
      invariant Accumulated(es[..i], topN, total, byExt, largest, catBytes, catPaths)
    {
      total, byExt, largest, catBytes, catPaths :=
        AddEntry(es[i], topN, total, byExt, largest, catBytes, catPaths, es[..i]);
      PrefixNext(es, i);
      i := i + 1;
    }
    assert es[..i] == es;
    AccumulatedAudit(es, topN, total, byExt, largest, catBytes, catPaths);
    largest := SliceTo(SortDesc(largest), topN);
    snap := Snapshot(total, SortByBytes(byExt), largest, catBytes, catPaths);
  }
}
