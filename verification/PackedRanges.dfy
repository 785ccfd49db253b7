/** Packing a sorted run of entries into as few pages as possible, and finding an entry by
    binary search over page ranges. */
module PackedRanges {
  import opened Common
  import opened Bytes
  import opened PackedPages

  datatype Budget = Budget(maxPages: nat, maxEntries: nat, maxBytes: nat)

  // ---- splits --------------------------------------------------------------

  /** Where pages begin and end: page `i` holds the entries from one cut to the next. */
  type Cuts = seq<nat>

  predicate Ascends(es: seq<Entry>, cuts: Cuts) {
    && cuts != [] && cuts[0] == 0
    && (forall i :: 0 <= i < |cuts| ==> cuts[i] <= |es|)
    && (forall i :: 0 <= i < |cuts| - 1 ==> cuts[i] <= cuts[i + 1])
  }

  function Slice(es: seq<Entry>, cuts: Cuts, i: nat): seq<Entry>
    requires Ascends(es, cuts) && i < |cuts| - 1
  {
    es[cuts[i]..cuts[i + 1]]
  }

  /** An order-preserving split into pages that fit, empty pages allowed. */
  ghost predicate IsSplit(es: seq<Entry>, cuts: Cuts) {
    && Ascends(es, cuts) && cuts[|cuts| - 1] == |es|
    && forall i :: 0 <= i < |cuts| - 1 ==> Size(Slice(es, cuts, i)) <= PAYLOAD_BYTES
  }

  /** Every page is closed only because the next entry does not fit. */
  ghost predicate Greedy(es: seq<Entry>, cuts: Cuts) {
    && Ascends(es, cuts)
    && forall i :: 0 <= i < |cuts| - 1 && cuts[i + 1] < |es| ==> Overfull(es, cuts[i], cuts[i + 1])
  }

  predicate Overfull(es: seq<Entry>, lo: nat, hi: nat)
    requires lo <= hi < |es|
  {
    Size(es[lo..hi + 1]) > PAYLOAD_BYTES
  }

  lemma SizeWithin(es: seq<Entry>, lo: nat, a: nat, b: nat, hi: nat)
    requires lo <= a <= b <= hi <= |es|
    ensures Size(es[a..b]) <= Size(es[lo..hi])
  {
    hide Size;
    SizeAt(es, lo, a, hi);
    SizeAt(es, a, b, hi);
  }

  /** Closing pages as late as possible never falls behind another split. */
  lemma {:induction false} StaysAhead(es: seq<Entry>, cuts: Cuts, other: Cuts, k: nat)
    requires Greedy(es, cuts) && IsSplit(es, other) && k < |cuts| && k < |other|
    ensures other[k] <= cuts[k]
  {
    hide Size;
    if k > 0 {
      StaysAhead(es, cuts, other, k - 1);
      assert Size(Slice(es, other, k - 1)) <= PAYLOAD_BYTES;
      if other[k] > cuts[k] {
        assert Overfull(es, cuts[k - 1], cuts[k]);
        SizeWithin(es, other[k - 1], cuts[k - 1], cuts[k] + 1, other[k]);
        assert false;
      }
    }
  }

  /** No split uses fewer pages than a greedy one without empty pages. */
  lemma GreedyIsFewest(es: seq<Entry>, cuts: Cuts, other: Cuts)
    requires Greedy(es, cuts) && cuts[|cuts| - 1] == |es| && forall i :: 0 <= i < |cuts| - 1 ==> cuts[i] < cuts[i + 1]
    requires IsSplit(es, other)
    ensures |other| >= |cuts|
  {
    if |other| < |cuts| {
      var k := |other| - 1;
      assert cuts[k] < cuts[k + 1];
      StaysAhead(es, cuts, other, k);
      assert false;
    }
  }

  /** Full pages that do not reach the end prove that as many pages are not enough. */
  lemma NotEnoughPages(es: seq<Entry>, cuts: Cuts, other: Cuts)
    requires Greedy(es, cuts) && cuts[|cuts| - 1] < |es| && IsSplit(es, other)
    ensures |other| > |cuts|
  {
    if |other| <= |cuts| {
      var k := |other| - 1;
      StaysAhead(es, cuts, other, k);
      Monotone(es, cuts, k, |cuts| - 1);
      assert false;
    }
  }

  lemma {:induction false} Monotone(es: seq<Entry>, cuts: Cuts, i: nat, j: nat)
    requires Ascends(es, cuts) && i <= j < |cuts|
    ensures cuts[i] <= cuts[j]
    decreases j
  {
    if i < j {
      Monotone(es, cuts, i, j - 1);
    }
  }

  // ---- packing -------------------------------------------------------------

  /** Pages that hold the entries between the cuts. */
  ghost predicate IsPacking(crc: Checksum, generation: u64, es: seq<Entry>, pages: seq<ByteString>, cuts: Cuts) {
    && Ascends(es, cuts) && |pages| == |cuts| - 1 <= MAX_PAGES
    && forall i :: 0 <= i < |pages| ==> PageFits(Slice(es, cuts, i)) && pages[i] == PageImage(crc, generation, i, Slice(es, cuts, i))
  }

  /** The input and the budget allow a packing. */
  ghost predicate Packable(es: seq<Entry>, budget: Budget) {
    && budget.maxPages > 0 && budget.maxEntries > 0 && budget.maxBytes >= PAGE_BYTES
    && Sorted(es) && AllFit(es) && |es| <= budget.maxEntries && Size(es) <= budget.maxBytes
    && exists cuts :: IsSplit(es, cuts) && |cuts| - 1 <= budget.maxPages && |cuts| - 1 <= MAX_PAGES
  }

  /** What the loop has done before looking at an entry. */
  ghost predicate Packed(crc: Checksum, generation: u64, es: seq<Entry>, pages: seq<ByteString>, cuts: Cuts, current: seq<Entry>, position: nat) {
    && position <= |es|
    && IsPacking(crc, generation, es, pages, cuts)
    && Greedy(es, cuts)
    && (forall i :: 0 <= i < |cuts| - 1 ==> cuts[i] < cuts[i + 1])
    && cuts[|cuts| - 1] <= position && current == es[cuts[|cuts| - 1]..position]
    && (position > 0 ==> current != [])
    && AllFit(es[..position]) && Size(current) <= PAYLOAD_BYTES
  }

  lemma PackedStart(crc: Checksum, generation: u64, es: seq<Entry>)
    ensures Packed(crc, generation, es, [], [0], [], 0)
  {
  }

  lemma Taken(es: seq<Entry>, lo: nat, n: nat)
    requires lo <= n < |es|
    ensures es[lo..n + 1] == es[lo..n] + [es[n]]
    ensures Size(es[lo..n + 1]) == Size(es[lo..n]) + ENTRY_HEADER_BYTES + |es[n].value|
  {
    assert es[lo..n + 1] == es[lo..n] + [es[n]];
    SizeSplit(es[lo..n], [es[n]]);
    SizeOne(es[n]);
  }

  /** The entry joins the current page. */
  lemma PackedMore(crc: Checksum, generation: u64, es: seq<Entry>, pages: seq<ByteString>, cuts: Cuts, current: seq<Entry>, position: nat)
    requires Packed(crc, generation, es, pages, cuts, current, position) && position < |es| && Fits(es[position])
    requires Size(current) + ENTRY_HEADER_BYTES + |es[position].value| <= PAYLOAD_BYTES
    ensures Packed(crc, generation, es, pages, cuts, current + [es[position]], position + 1)
  {
    hide Size, PageFits, PageImage;
    Taken(es, cuts[|cuts| - 1], position);
    FitsMore(es, position);
  }

  /** The current page is closed; the entry will begin the next one. */
  lemma PackedClose(crc: Checksum, generation: u64, es: seq<Entry>, pages: seq<ByteString>, cuts: Cuts, current: seq<Entry>, position: nat, page: ByteString)
    requires Packed(crc, generation, es, pages, cuts, current, position) && current != [] && |pages| < MAX_PAGES
    requires position < |es| ==> Size(current) + ENTRY_HEADER_BYTES + |es[position].value| > PAYLOAD_BYTES
    requires PageFits(current) && page == PageImage(crc, generation, |pages|, current)
    ensures var more := cuts + [position];
            && IsPacking(crc, generation, es, pages + [page], more) && Greedy(es, more)
            && (forall i :: 0 <= i < |more| - 1 ==> more[i] < more[i + 1])
  {
    hide Size, PageFits, PageImage;
    var more := cuts + [position];
    var n := |cuts| - 1;
    assert cuts[n] < position;
    assert Ascends(es, more);
    if position < |es| {
      Taken(es, cuts[n], position);
    }
    forall i | 0 <= i < |more| - 1 && more[i + 1] < |es| ensures Overfull(es, more[i], more[i + 1]) {
      if i < n {
        assert Overfull(es, cuts[i], cuts[i + 1]);
      }
    }
    forall i | 0 <= i < |pages| + 1 ensures PageFits(Slice(es, more, i)) && (pages + [page])[i] == PageImage(crc, generation, i, Slice(es, more, i)) {
      if i < |pages| {
        assert Slice(es, more, i) == Slice(es, cuts, i);
      }
    }
  }

  lemma CurrentFits(es: seq<Entry>, lo: nat, position: nat)
    requires lo < position <= |es| && AllFit(es[..position]) && Size(es[lo..position]) <= PAYLOAD_BYTES
    ensures PageFits(es[lo..position])
  {
    hide Size;
    forall i | 0 <= i < position - lo ensures Fits(es[lo..position][i]) {
      assert es[lo..position][i] == es[..position][lo + i];
    }
  }

  /** Pack sorted entries within a budget. */
  method PackSorted(crc: Checksum, generation: u64, es: seq<Entry>, budget: Budget) returns (r: Result<seq<ByteString>>, ghost cuts: Cuts)
    ensures r.Ok? <==> Packable(es, budget)
    ensures r.Ok? ==> IsPacking(crc, generation, es, r.value, cuts) && IsSplit(es, cuts) && |r.value| <= budget.maxPages
    ensures r.Ok? ==> forall other :: IsSplit(es, other) ==> |other| - 1 >= |r.value|
  {
    hide Size, AllFit, Sorted, PageFits, PageImage, LexLess, Packed, IsPacking, IsSplit, Greedy;
    cuts := [0];
    if budget.maxPages == 0 || budget.maxEntries == 0 || budget.maxBytes < PAGE_BYTES {
      return Err(InvalidState), cuts;
    }
    var pages: seq<ByteString>, current: seq<Entry>, used, position := [], [], 0, 0;
    PackedStart(crc, generation, es);
    EmptyPrefix(es);
    while position < |es|
      invariant Packed(crc, generation, es, pages, cuts, current, position) && position <= |es|
      invariant |pages| == |cuts| - 1 && |pages| < budget.maxPages && |pages| <= MAX_PAGES
      invariant Sorted(es[..position]) && used == Size(es[..position]) <= budget.maxBytes && position <= budget.maxEntries
    {
      var e := es[position];
      if position > 0 && !LexLess(es[position - 1].key, e.key) {
        Unsorted(es, position);
        return Err(InvalidState), cuts;
      }
      SortedMore(es, position);
      var entryBytes := ENTRY_HEADER_BYTES + |e.value|;
      if entryBytes > PAYLOAD_BYTES {
        Oversized(es, position);
        return Err(ValueTooLarge), cuts;
      }
      if position >= budget.maxEntries {
        return Err(InvalidState), cuts;
      }
      SizeGrows(es, position);
      if used + entryBytes > budget.maxBytes {
        return Err(InvalidState), cuts;
      }
      if current != [] && Size(current) + entryBytes > PAYLOAD_BYTES {
        PackedFacts(crc, generation, es, pages, cuts, current, position);
        if |pages| >= MAX_PAGES {
          TooManyPages(es, cuts, budget);
          return Err(InvalidState), cuts;
        }
        var page := FromEntries(crc, generation, |pages|, current);
        PackedClose(crc, generation, es, pages, cuts, current, position, page.value);
        pages := pages + [page.value];
        cuts := cuts + [position];
        current := [];
        if |pages| >= budget.maxPages {
          TooManyPages(es, cuts, budget);
          return Err(InvalidState), cuts;
        }
        PackedNext(crc, generation, es, pages, cuts, position);
      } else {
        PackedJoin(crc, generation, es, pages, cuts, current, position);
      }
      current := current + [e];
      used := used + entryBytes;
      position := position + 1;
    }
    assert es[..position] == es;
    PackedFacts(crc, generation, es, pages, cuts, current, position);
    if current != [] {
      if |pages| >= MAX_PAGES {
        TooManyPages(es, cuts, budget);
        return Err(InvalidState), cuts;
      }
      var page := FromEntries(crc, generation, |pages|, current);
      PackedClose(crc, generation, es, pages, cuts, current, position, page.value);
      pages := pages + [page.value];
      cuts := cuts + [position];
    }
    PackedAll(crc, generation, es, pages, cuts, budget);
    r := Ok(pages);
  }

  lemma EmptyPrefix(es: seq<Entry>)
    ensures Sorted(es[..0]) && Size(es[..0]) == 0
  {
  }

  lemma Unsorted(es: seq<Entry>, n: nat)
    requires 0 < n < |es| && !LexLess(es[n - 1].key, es[n].key)
    ensures !Sorted(es)
  {
    hide LexLess;
    assert !LexLess(es[n - 1].key, es[n - 1 + 1].key);
  }

  lemma SortedMore(es: seq<Entry>, n: nat)
    requires n < |es| && Sorted(es[..n]) && (n > 0 ==> LexLess(es[n - 1].key, es[n].key))
    ensures Sorted(es[..n + 1])
  {
    hide LexLess;
    var less, more := es[..n], es[..n + 1];
    forall i | 0 <= i < |more| - 1 ensures LexLess(more[i].key, more[i + 1].key) {
      if i < n - 1 {
        assert LexLess(less[i].key, less[i + 1].key);
      }
    }
  }

  lemma Oversized(es: seq<Entry>, n: nat)
    requires n < |es| && !Fits(es[n])
    ensures !AllFit(es)
  {
  }

  lemma PackedFacts(crc: Checksum, generation: u64, es: seq<Entry>, pages: seq<ByteString>, cuts: Cuts, current: seq<Entry>, position: nat)
    requires Packed(crc, generation, es, pages, cuts, current, position)
    ensures current != [] ==> PageFits(current)
    ensures Greedy(es, cuts) && IsPacking(crc, generation, es, pages, cuts) && cuts != [] && cuts[|cuts| - 1] <= position
    ensures current != [] ==> cuts[|cuts| - 1] < position <= |es|
    ensures current == [] ==> cuts[|cuts| - 1] == position
    ensures AllFit(es[..position]) && forall i :: 0 <= i < |cuts| - 1 ==> cuts[i] < cuts[i + 1]
  {
    hide Size, PageFits, PageImage;
    if current != [] {
      CurrentFits(es, cuts[|cuts| - 1], position);
    }
  }

  lemma PackedNext(crc: Checksum, generation: u64, es: seq<Entry>, pages: seq<ByteString>, cuts: Cuts, position: nat)
    requires IsPacking(crc, generation, es, pages, cuts) && Greedy(es, cuts) && position < |es| && Fits(es[position])
    requires cuts[|cuts| - 1] == position && AllFit(es[..position]) && forall i :: 0 <= i < |cuts| - 1 ==> cuts[i] < cuts[i + 1]
    ensures Packed(crc, generation, es, pages, cuts, [] + [es[position]], position + 1)
  {
    hide PageFits, PageImage;
    FitsMore(es, position);
    SizeOne(es[position]);
    assert es[position..position + 1] == [es[position]];
  }

  lemma PackedJoin(crc: Checksum, generation: u64, es: seq<Entry>, pages: seq<ByteString>, cuts: Cuts, current: seq<Entry>, position: nat)
    requires Packed(crc, generation, es, pages, cuts, current, position) && position < |es| && Fits(es[position])
    requires current == [] || Size(current) + ENTRY_HEADER_BYTES + |es[position].value| <= PAYLOAD_BYTES
    ensures Packed(crc, generation, es, pages, cuts, current + [es[position]], position + 1)
  {
    hide Packed;
    PackedMore(crc, generation, es, pages, cuts, current, position);
  }

  lemma TooManyPages(es: seq<Entry>, cuts: Cuts, budget: Budget)
    requires Greedy(es, cuts) && cuts[|cuts| - 1] < |es| && (|cuts| - 1 >= budget.maxPages || |cuts| - 1 >= MAX_PAGES)
    ensures !Packable(es, budget)
  {
    hide Greedy, IsSplit, Sorted, AllFit, Size;
    forall other | IsSplit(es, other) ensures |other| > |cuts| {
      NotEnoughPages(es, cuts, other);
    }
  }

  lemma PackedAll(crc: Checksum, generation: u64, es: seq<Entry>, pages: seq<ByteString>, cuts: Cuts, budget: Budget)
    requires IsPacking(crc, generation, es, pages, cuts) && Greedy(es, cuts) && cuts[|cuts| - 1] == |es|
    requires |pages| <= budget.maxPages && forall i :: 0 <= i < |cuts| - 1 ==> cuts[i] < cuts[i + 1]
    requires budget.maxPages > 0 && budget.maxEntries > 0 && budget.maxBytes >= PAGE_BYTES
    requires Sorted(es) && AllFit(es) && |es| <= budget.maxEntries && Size(es) <= budget.maxBytes
    ensures IsSplit(es, cuts) && Packable(es, budget)
    ensures forall other :: IsSplit(es, other) ==> |other| - 1 >= |pages|
  {
    hide Greedy, Sorted, AllFit, Size, PageImage;
    forall other | IsSplit(es, other) ensures |other| >= |cuts| {
      GreedyIsFewest(es, cuts, other);
    }
  }

  // ---- reading back --------------------------------------------------------

  lemma SliceSorted(es: seq<Entry>, cuts: Cuts, i: nat)
    requires Sorted(es) && Ascends(es, cuts) && i < |cuts| - 1
    ensures Sorted(Slice(es, cuts, i))
  {
    hide Sorted;
    SortedSlice(es, cuts[i], cuts[i + 1]);
  }

  /** The entries of all pages, one page after the other. */
  function AllEntries(pages: seq<ByteString>): Result<seq<Entry>>
    requires forall i :: 0 <= i < |pages| ==> |pages[i]| == PAGE_BYTES
  {
    if pages == [] then Ok([])
    else
      var front :- AllEntries(pages[..|pages| - 1]);
      var last :- PageEntries(pages[|pages| - 1]);
      Ok(front + last)
  }

  /** A packing decodes, page by page, to exactly the entries packed. */
  lemma {:induction false} PackingReadsBack(crc: Checksum, generation: u64, es: seq<Entry>, pages: seq<ByteString>, cuts: Cuts, n: nat)
    requires IsPacking(crc, generation, es, pages, cuts) && Sorted(es) && n <= |pages|
    ensures forall i :: 0 <= i < |pages| ==> |pages[i]| == PAGE_BYTES
    ensures AllEntries(pages[..n]) == Ok(es[..cuts[n]])
    ensures forall i :: 0 <= i < n ==> DecodePage(crc, pages[i], generation, i) == Ok(pages[i])
  {
    hide Sorted, PageImage, PageEntries, PageFits, DecodePage;
    if n > 0 {
      PackingReadsBack(crc, generation, es, pages, cuts, n - 1);
      SliceSorted(es, cuts, n - 1);
      PageRoundTrip(crc, generation, n - 1, Slice(es, cuts, n - 1));
      assert pages[..n][..n - 1] == pages[..n - 1];
      assert es[..cuts[n - 1]] + Slice(es, cuts, n - 1) == es[..cuts[n]];
    }
  }

  // ---- lookup --------------------------------------------------------------

  /** The value of the first entry with a key. */
  function Lookup(es: seq<Entry>, key: Key): (v: Option<ByteString>)
    ensures v.None? <==> forall i :: 0 <= i < |es| ==> es[i].key != key
    ensures v.Some? ==> exists i :: 0 <= i < |es| && es[i] == Entry(key, v.value)
  {
    if es == [] then None
    else if es[0].key == key then
      assert es[0] == Entry(key, es[0].value);
      Some(es[0].value)
    else
      var v := Lookup(es[1..], key);
      assert v.Some? ==> exists i :: 0 <= i < |es| && es[i] == Entry(key, v.value) by {
        if v.Some? {
          var i :| 0 <= i < |es[1..]| && es[1..][i] == Entry(key, v.value);
          assert es[i + 1] == Entry(key, v.value);
        }
      }
      v
  }

  lemma LookupInSlice(es: seq<Entry>, lo: nat, hi: nat, key: Key)
    requires Sorted(es) && lo <= hi <= |es|
    requires forall i :: 0 <= i < lo || hi <= i < |es| ==> es[i].key != key
    ensures Lookup(es[lo..hi], key) == Lookup(es, key)
  {
    hide LexLess, Sorted;
    var part := es[lo..hi];
    if Lookup(part, key).Some? {
      var i :| 0 <= i < |part| && part[i] == Entry(key, Lookup(part, key).value);
      assert es[lo + i].key == key;
      var j :| 0 <= j < |es| && es[j] == Entry(key, Lookup(es, key).value);
      UniqueKey(es, lo + i, j);
    } else {
      forall i | 0 <= i < |es| ensures es[i].key != key {
        if lo <= i < hi {
          assert part[i - lo] == es[i];
        }
      }
    }
  }

  lemma UniqueKey(es: seq<Entry>, i: nat, j: nat)
    requires Sorted(es) && i < |es| && j < |es| && es[i].key == es[j].key
    ensures i == j
  {
    hide LexLess, Sorted;
    LexTotal(es[i].key, es[i].key);
    if i < j {
      SortedApart(es, i, j);
    } else if j < i {
      SortedApart(es, j, i);
    }
  }

  /** Keys before a position are smaller, keys from another on are larger. */
  ghost predicate Bracketed(es: seq<Entry>, lo: nat, hi: nat, key: Key) {
    && (forall i :: 0 <= i < lo && i < |es| ==> LexLess(es[i].key, key))
    && (forall i :: hi <= i < |es| ==> LexLess(key, es[i].key))
  }

  lemma BelowPage(es: seq<Entry>, cuts: Cuts, mid: nat, hi: nat, lo: nat, key: Key)
    requires Sorted(es) && Ascends(es, cuts) && mid < |cuts| - 1 && cuts[mid] < cuts[mid + 1] && Bracketed(es, lo, hi, key)
    requires LexLess(key, es[cuts[mid]].key)
    ensures Bracketed(es, lo, cuts[mid], key)
  {
    hide LexLess, Sorted;
    forall i | cuts[mid] <= i < |es| ensures LexLess(key, es[i].key) {
      if i > cuts[mid] {
        SortedApart(es, cuts[mid], i);
        LexTransitive(key, es[cuts[mid]].key, es[i].key);
      }
    }
  }

  lemma AbovePage(es: seq<Entry>, cuts: Cuts, mid: nat, hi: nat, lo: nat, key: Key)
    requires Sorted(es) && Ascends(es, cuts) && mid < |cuts| - 1 && cuts[mid] < cuts[mid + 1] && Bracketed(es, lo, hi, key)
    requires LexLess(es[cuts[mid + 1] - 1].key, key)
    ensures Bracketed(es, cuts[mid + 1], hi, key)
  {
    hide LexLess, Sorted;
    var last := cuts[mid + 1] - 1;
    forall i | 0 <= i <= last ensures LexLess(es[i].key, key) {
      if i < last {
        SortedApart(es, i, last);
        LexTransitive(es[i].key, es[last].key, key);
      }
    }
  }

  lemma InPage(es: seq<Entry>, lo: nat, hi: nat, key: Key)
    requires Sorted(es) && lo < hi <= |es| && !LexLess(key, es[lo].key) && !LexLess(es[hi - 1].key, key)
    ensures forall i :: 0 <= i < lo || hi <= i < |es| ==> es[i].key != key
  {
    hide LexLess, Sorted;
    forall i | 0 <= i < lo ensures es[i].key != key {
      SortedApart(es, i, lo);
    }
    forall i | hi <= i < |es| ensures es[i].key != key {
      SortedApart(es, hi - 1, i);
    }
  }

  lemma NowhereElse(es: seq<Entry>, at: nat, key: Key)
    requires Bracketed(es, at, at, key)
    ensures Lookup(es, key) == None
  {
    hide LexLess;
    forall i | 0 <= i < |es| ensures es[i].key != key {
      LexTotal(key, key);
    }
  }

  /** The range header of a packed page is that of its entries. */
  lemma PageRange(crc: Checksum, generation: u64, es: seq<Entry>, pages: seq<ByteString>, cuts: Cuts, i: nat)
    requires IsPacking(crc, generation, es, pages, cuts) && Sorted(es) && i < |pages|
    ensures |pages[i]| == PAGE_BYTES && cuts[i] < cuts[i + 1] <= |es|
    ensures FirstKey(pages[i]) == es[cuts[i]].key && LastKey(pages[i]) == es[cuts[i + 1] - 1].key
    ensures PageEntries(pages[i]) == Ok(Slice(es, cuts, i))
  {
    hide Sorted, PageImage, PageEntries, Size, AllFit;
    var part := Slice(es, cuts, i);
    HeaderFields(crc, generation, i, part);
    SliceSorted(es, cuts, i);
    PageRoundTrip(crc, generation, i, part);
  }

  /** Find a key: binary search over page ranges, then a search in one page. On a packing
      this is the lookup in the entries packed. */
  method Get(pages: seq<ByteString>, key: Key, ghost crc: Checksum, ghost generation: u64, ghost es: seq<Entry>, ghost cuts: Cuts)
      returns (r: Result<Option<ByteString>>)
    requires forall i :: 0 <= i < |pages| ==> |pages[i]| == PAGE_BYTES
    requires IsPacking(crc, generation, es, pages, cuts) && cuts[|cuts| - 1] == |es| && Sorted(es)
    ensures r == Ok(Lookup(es, key))
  {
    hide LexLess, Sorted, PageEntries, FirstKey, LastKey, Lookup, IsPacking, PageImage, Bracketed;
    var lo, hi := 0, |pages|;
    PackingCuts(crc, generation, es, pages, cuts);
    NothingBracketed(es, key);
    while lo < hi
      invariant 0 <= lo <= hi <= |pages| == |cuts| - 1 && Bracketed(es, cuts[lo], cuts[hi], key)
    {
      var mid := (lo + hi) / 2;
      PageRange(crc, generation, es, pages, cuts, mid);
      if LexLess(key, FirstKey(pages[mid])) {
        BelowPage(es, cuts, mid, cuts[hi], cuts[lo], key);
        hi := mid;
      } else if LexLess(LastKey(pages[mid]), key) {
        AbovePage(es, cuts, mid, cuts[hi], cuts[lo], key);
        lo := mid + 1;
      } else {
        InPage(es, cuts[mid], cuts[mid + 1], key);
        LookupInSlice(es, cuts[mid], cuts[mid + 1], key);
        return match PageEntries(pages[mid]) case Ok(found) => Ok(Lookup(found, key)) case Err(e) => Err(e);
      }
    }
    NowhereElse(es, cuts[lo], key);
    r := Ok(None);
  }

  lemma PackingCuts(crc: Checksum, generation: u64, es: seq<Entry>, pages: seq<ByteString>, cuts: Cuts)
    requires IsPacking(crc, generation, es, pages, cuts)
    ensures |pages| == |cuts| - 1 && Ascends(es, cuts)
  {
    hide PageFits, PageImage;
  }

  lemma NothingBracketed(es: seq<Entry>, key: Key)
    ensures Bracketed(es, 0, |es|, key)
  {
  }
}
