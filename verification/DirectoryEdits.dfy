/** What adding and removing an entry does to a directory: lemmas on pages and chains. */
module DirectoryEdits {
  import opened Octets
  import opened FileChain
  import opened Directory

  /** The entries of the pages from n on. */
  function Tail(pages: seq<Page>, chain: seq<nat>, n: nat): seq<Entry>
    requires ValidPages(pages) && IsDirectory(pages, chain) && n <= |chain|
    decreases |chain| - n
  {
    if n == |chain| then [] else PageEntries(pages, chain, n) + Tail(pages, chain, n + 1)
  }

  lemma {:induction false} ListingSplits(pages: seq<Page>, chain: seq<nat>, n: nat)
    requires ValidPages(pages) && IsDirectory(pages, chain) && n <= |chain|
    ensures Listing(pages, chain) == Entries(pages, chain, n) + Tail(pages, chain, n)
    decreases |chain| - n
  {
    if n < |chain| {
      ListingSplits(pages, chain, n + 1);
      TailStep(pages, chain, n);
      Regroup(Entries(pages, chain, n), PageEntries(pages, chain, n), Tail(pages, chain, n + 1));
    }
  }

  lemma Regroup(a: seq<Entry>, b: seq<Entry>, c: seq<Entry>)
    ensures (a + b) + c == a + (b + c)
  {
  }

  /** Page k of one directory has the entries of the page d places further on in another. */
  predicate SameEntries(pages: seq<Page>, chain: seq<nat>, pages': seq<Page>, chain': seq<nat>, k: nat, d: int)
    requires ValidPages(pages) && IsDirectory(pages, chain) && ValidPages(pages') && IsDirectory(pages', chain')
  {
    k < |chain| && 0 <= k + d < |chain'| && PageEntries(pages, chain, k) == PageEntries(pages', chain', k + d)
  }

  lemma {:induction false} SamePrefix(pages: seq<Page>, chain: seq<nat>, pages': seq<Page>, chain': seq<nat>, n: nat)
    requires ValidPages(pages) && IsDirectory(pages, chain) && ValidPages(pages') && IsDirectory(pages', chain')
    requires n <= |chain| && n <= |chain'| && forall k | 0 <= k < n :: SameEntries(pages, chain, pages', chain', k, 0)
    ensures Entries(pages, chain, n) == Entries(pages', chain', n)
  {
    if n > 0 {
      SamePrefix(pages, chain, pages', chain', n - 1);
      assert SameEntries(pages, chain, pages', chain', n - 1, 0);
    }
  }

  lemma {:induction false} SameTail(pages: seq<Page>, chain: seq<nat>, pages': seq<Page>, chain': seq<nat>, n: nat,
                                    m: nat, d: int)
    requires ValidPages(pages) && IsDirectory(pages, chain) && ValidPages(pages') && IsDirectory(pages', chain')
    requires n <= |chain| && m == n + d && |chain'| == |chain| + d
    requires forall k | n <= k < |chain| :: SameEntries(pages, chain, pages', chain', k, d)
    ensures Tail(pages, chain, n) == Tail(pages', chain', m)
    decreases |chain| - n
  {
    if n < |chain| {
      assert SameEntries(pages, chain, pages', chain', n, d);
      SameTail(pages, chain, pages', chain', n + 1, m + 1, d);
      TailStep(pages, chain, n);
      TailStep(pages', chain', m);
    }
  }

  lemma TailStep(pages: seq<Page>, chain: seq<nat>, n: nat)
    requires ValidPages(pages) && IsDirectory(pages, chain) && n < |chain|
    ensures Tail(pages, chain, n) == PageEntries(pages, chain, n) + Tail(pages, chain, n + 1)
  {
  }

  // ----- one page

  /** The continuation byte is no part of the entries. */
  lemma {:induction false} ContinuationIsNoEntry(bytes: seq<Octet>, x: Octet, i: nat)
    requires bytes != []
    ensures EntriesFrom(bytes[..|bytes| - 1] + [x], i) == EntriesFrom(bytes, i)
    decreases |bytes| - i
  {
    var b := bytes[..|bytes| - 1] + [x];
    if i + ENTRY < |bytes| {
      ContinuationIsNoEntry(bytes, x, i + ENTRY);
      assert b[i..i + ENTRY] == bytes[i..i + ENTRY];
    }
  }

  /** Bytes before the first entry are no part of the entries either. */
  lemma {:induction false} HeaderIsNoEntry(a: seq<Octet>, b: seq<Octet>, i: nat)
    requires |a| == |b| && i <= |a| && a[i..] == b[i..]
    ensures EntriesFrom(a, i) == EntriesFrom(b, i)
    decreases |a| - i
  {
    if i + ENTRY < |a| {
      assert a[i..][ENTRY..] == a[i + ENTRY..] && b[i..][ENTRY..] == b[i + ENTRY..];
      assert a[i..][..ENTRY] == a[i..i + ENTRY] && b[i..][..ENTRY] == b[i..i + ENTRY];
      HeaderIsNoEntry(a, b, i + ENTRY);
    }
  }

  /** An entry put before the continuation byte comes last. */
  lemma {:induction false} EntryPutLast(bytes: seq<Octet>, e: Entry, x: Octet, i: nat)
    requires |bytes| % ENTRY == 1 && i % ENTRY == 0 && i < |bytes|
    ensures EntriesFrom(bytes[..|bytes| - 1] + e + [x], i) == EntriesFrom(bytes, i) + [e]
    decreases |bytes| - i
  {
    var b := bytes[..|bytes| - 1] + e + [x];
    EntryStep(bytes, i);
    if i + 1 == |bytes| {
      assert b[i..i + ENTRY] == e;
      assert EntriesFrom(b, i + ENTRY) == [];
    } else {
      EntryPutLast(bytes, e, x, i + ENTRY);
      assert b[i..i + ENTRY] == bytes[i..i + ENTRY];
    }
  }

  /** Shifting the bytes behind an entry over it removes that entry. */
  lemma {:induction false} EntryTakenOut(bytes: seq<Octet>, off: nat, i: nat, m: nat)
    requires |bytes| % ENTRY == 1 && i % ENTRY == 0 && off == i + ENTRY * m && off + ENTRY < |bytes|
    ensures m < |EntriesFrom(bytes, i)|
    ensures EntriesFrom(bytes[..off] + bytes[off + ENTRY..], i)
            == EntriesFrom(bytes, i)[..m] + EntriesFrom(bytes, i)[m + 1..]
    decreases m
  {
    var b := bytes[..off] + bytes[off + ENTRY..];
    EntryStep(bytes, i);
    if m == 0 {
      ShiftedEntries(bytes, b, off);
    } else {
      EntryTakenOut(bytes, off, i + ENTRY, m - 1);
      assert b[i..i + ENTRY] == bytes[i..i + ENTRY];
    }
  }

  lemma {:induction false} ShiftedEntries(bytes: seq<Octet>, b: seq<Octet>, i: nat)
    requires |b| + ENTRY == |bytes| && i <= |b| && b[i..] == bytes[i + ENTRY..]
    ensures EntriesFrom(b, i) == EntriesFrom(bytes, i + ENTRY)
    decreases |b| - i
  {
    if i + ENTRY < |b| {
      assert b[i..][ENTRY..] == b[i + ENTRY..] && bytes[i + ENTRY..][ENTRY..] == bytes[i + ENTRY + ENTRY..];
      assert b[i..][..ENTRY] == b[i..i + ENTRY] && bytes[i + ENTRY..][..ENTRY] == bytes[i + ENTRY..i + ENTRY + ENTRY];
      ShiftedEntries(bytes, b, i + ENTRY);
    }
  }

  /** Replacing the number of pages of an entry changes just that entry. */
  lemma {:induction false} EntryRenumbered(bytes: seq<Octet>, off: nat, n: Octet, i: nat, m: nat)
    requires |bytes| % ENTRY == 1 && i % ENTRY == 0 && off == i + ENTRY * m && off + ENTRY < |bytes|
    ensures var es := EntriesFrom(bytes, i);
            m < |es| && EntriesFrom(bytes[off + ENTRY - 1 := n], i) == es[m := es[m][ENTRY - 1 := n]]
    decreases m
  {
    var b := bytes[off + ENTRY - 1 := n];
    EntryStep(bytes, i);
    EntryStep(b, i);
    if m == 0 {
      HeaderIsNoEntry(bytes, b, i + ENTRY);
      assert b[i..i + ENTRY] == bytes[i..i + ENTRY][ENTRY - 1 := n];
    } else {
      EntryRenumbered(bytes, off, n, i + ENTRY, m - 1);
      assert b[i..i + ENTRY] == bytes[i..i + ENTRY];
    }
  }

  // ----- whole directories

  /** A list with one entry put in, or taken out, and the others in their order. */
  function Inserted(es: seq<Entry>, at: nat, e: Entry): seq<Entry>
    requires at <= |es|
  {
    es[..at] + [e] + es[at..]
  }

  function Removed(es: seq<Entry>, at: nat): seq<Entry>
    requires at < |es|
  {
    es[..at] + es[at + 1..]
  }

  /** The listing around page k. */
  function Around(a: seq<Entry>, b: seq<Entry>, c: seq<Entry>): seq<Entry> { a + (b + c) }

  lemma ListingAround(pages: seq<Page>, chain: seq<nat>, k: nat)
    requires ValidPages(pages) && IsDirectory(pages, chain) && k < |chain|
    ensures Listing(pages, chain)
            == Around(Entries(pages, chain, k), PageEntries(pages, chain, k), Tail(pages, chain, k + 1))
  {
    ListingSplits(pages, chain, k);
    TailStep(pages, chain, k);
  }

  lemma OthersBefore(pages: seq<Page>, pages': seq<Page>, chain: seq<nat>, k: nat)
    requires ValidPages(pages) && IsDirectory(pages, chain) && ValidPages(pages') && IsDirectory(pages', chain)
             && k < |chain|
    requires forall j | 0 <= j < |chain| && j != k :: SameEntries(pages, chain, pages', chain, j, 0)
    ensures Entries(pages, chain, k) == Entries(pages', chain, k)
  {
    SamePrefix(pages, chain, pages', chain, k);
  }

  lemma OthersBehind(pages: seq<Page>, pages': seq<Page>, chain: seq<nat>, k: nat)
    requires ValidPages(pages) && IsDirectory(pages, chain) && ValidPages(pages') && IsDirectory(pages', chain)
             && k < |chain|
    requires forall j | 0 <= j < |chain| && j != k :: SameEntries(pages, chain, pages', chain, j, 0)
    ensures Tail(pages, chain, k + 1) == Tail(pages', chain, k + 1)
  {
    SameTail(pages, chain, pages', chain, k + 1, k + 1, 0);
  }

  /** Two directories over the same chain that differ only on page k. */
  lemma OnePageChanged(pages: seq<Page>, pages': seq<Page>, chain: seq<nat>, k: nat)
    requires ValidPages(pages) && IsDirectory(pages, chain) && ValidPages(pages') && IsDirectory(pages', chain)
             && k < |chain|
    requires forall j | 0 <= j < |chain| && j != k :: SameEntries(pages, chain, pages', chain, j, 0)
    ensures Listing(pages', chain)
            == Around(Entries(pages, chain, k), PageEntries(pages', chain, k), Tail(pages, chain, k + 1))
  {
    OthersBefore(pages, pages', chain, k);
    OthersBehind(pages, pages', chain, k);
    ListingAround(pages', chain, k);
  }

  /** Replacing the bytes of one page by those of a directory page with the same continuation keeps
      the chain and the other pages. */
  lemma PageReplaced(pages: seq<Page>, chain: seq<nat>, k: nat, bytes: seq<Octet>, pages': seq<Page>)
    requires ValidPages(pages) && IsDirectory(pages, chain) && k < |chain| && chain[k] < |pages|
    requires IsDirPage(bytes, k == 0) && pages[chain[k]].Holding? && Last(bytes) == Last(pages[chain[k]].bytes)
    requires pages' == pages[chain[k] := Holding(bytes)]
    ensures ValidPages(pages') && IsDirectory(pages', chain)
            && PageEntries(pages', chain, k) == EntriesFrom(bytes, Base(k == 0))
    ensures forall j | 0 <= j < |chain| && j != k :: SameEntries(pages, chain, pages', chain, j, 0)
  {
    DirectoryIsChain(pages, chain);
    forall j | 0 <= j < |chain|
      ensures DirPageAt(pages', chain, j) && (j != k ==> pages'[chain[j]] == pages[chain[j]])
    {
      assert DirPageAt(pages, chain, j);
      if j < k {
        NoPageTwice(pages, chain, j, k);
      } else if k < j {
        NoPageTwice(pages, chain, k, j);
      }
    }
  }

  lemma {:induction false} EntryCount(bytes: seq<Octet>, i: nat)
    requires |bytes| % ENTRY == 1 && i % ENTRY == 0 && i < |bytes|
    ensures ENTRY * |EntriesFrom(bytes, i)| == |bytes| - 1 - i
    decreases |bytes| - i
  {
    EntryStep(bytes, i);
    if i + 1 < |bytes| {
      EntryCount(bytes, i + ENTRY);
    }
  }

  lemma PageCount(bytes: seq<Octet>, first: bool)
    requires IsDirPage(bytes, first)
    ensures ENTRY * |EntriesFrom(bytes, Base(first))| == |bytes| - 1 - Base(first)
  {
    EntryCount(bytes, Base(first));
  }

  /** Entry P is the last one on page k. */
  predicate LastOnPage(pages: seq<Page>, chain: seq<nat>, k: nat, P: nat)
    requires ValidPages(pages) && IsDirectory(pages, chain)
  {
    k < |chain| && LocatedAt(pages, chain, k, |PageBytes(pages, chain, k)| - 8, P)
  }

  lemma LastOffset(len: nat, base: nat, n: nat)
    requires ENTRY * n == len - 1 - base && n > 0 && base % ENTRY == 0
    ensures base <= len - 8 && (len - 8) % ENTRY == 0 && (len - 8 - base) / ENTRY == n - 1
  {
    OffsetOfEntry(base, n - 1, len - 8);
  }

  lemma CountsAsLast(pages: seq<Page>, chain: seq<nat>, k: nat, P: nat)
    requires ValidPages(pages) && IsDirectory(pages, chain) && k < |chain|
    requires P + 1 == |Entries(pages, chain, k)| + |PageEntries(pages, chain, k)| && |PageEntries(pages, chain, k)| > 0
    ensures LastOnPage(pages, chain, k, P)
  {
    PageCount(PageBytes(pages, chain, k), k == 0);
    LastAt(pages, chain, k, P, |Entries(pages, chain, k)|, |PageEntries(pages, chain, k)|);
  }

  lemma LastAt(pages: seq<Page>, chain: seq<nat>, k: nat, P: nat, before: nat, n: nat)
    requires ValidPages(pages) && IsDirectory(pages, chain) && k < |chain| && before == |Entries(pages, chain, k)|
    requires ENTRY * n == |PageBytes(pages, chain, k)| - 1 - Base(k == 0) && n > 0 && P + 1 == before + n
    ensures LastOnPage(pages, chain, k, P)
  {
    LastOffset(|PageBytes(pages, chain, k)|, Base(k == 0), n);
    assert DirPageAt(pages, chain, k);
  }

  /** An entry lies on one page only. */
  lemma LocatedOnce(pages: seq<Page>, chain: seq<nat>, k: nat, off: nat, l: nat, off': nat, P: nat)
    requires ValidPages(pages) && IsDirectory(pages, chain)
    requires LocatedAt(pages, chain, k, off, P) && LocatedAt(pages, chain, l, off', P)
    ensures k == l
  {
    EntriesUpTo(pages, chain, k, off, l, P);
    EntriesUpTo(pages, chain, l, off', k, P);
  }

  lemma {:induction false} EntriesUpTo(pages: seq<Page>, chain: seq<nat>, k: nat, off: nat, n: nat, P: nat)
    requires ValidPages(pages) && IsDirectory(pages, chain) && LocatedAt(pages, chain, k, off, P) && n <= |chain|
    ensures k < n ==> P < |Entries(pages, chain, n)|
    decreases n
  {
    if k + 1 < n {
      EntriesUpTo(pages, chain, k, off, n - 1, P);
    } else if k < n {
      InItsPage(pages, chain, k, off, P);
    }
  }

  lemma InItsPage(pages: seq<Page>, chain: seq<nat>, k: nat, off: nat, P: nat)
    requires ValidPages(pages) && IsDirectory(pages, chain) && LocatedAt(pages, chain, k, off, P)
    ensures P < |Entries(pages, chain, k)| + |PageEntries(pages, chain, k)|
  {
    PageCount(PageBytes(pages, chain, k), k == 0);
  }

  /** An entry added on a page with room. */
  lemma AddedOnPage(pages: seq<Page>, chain: seq<nat>, k: nat, e: Entry, pages': seq<Page>)
    requires ValidPages(pages) && IsDirectory(pages, chain) && k < |chain| && DirPageAt(pages, chain, k)
    requires var bytes := pages[chain[k]].bytes;
             |bytes| < MAX_PACKET && pages' == pages[chain[k] := Holding(bytes[..|bytes| - 1] + e + [Last(bytes)])]
    ensures ValidPages(pages') && IsDirectory(pages', chain)
    ensures |Entries(pages, chain, k + 1)| <= |Listing(pages, chain)|
    ensures Listing(pages', chain) == Inserted(Listing(pages, chain), |Entries(pages, chain, k + 1)|, e)
  {
    var bytes := pages[chain[k]].bytes;
    var b := bytes[..|bytes| - 1] + e + [Last(bytes)];
    assert Last(b) == Last(bytes) && |b| == |bytes| + ENTRY;
    PageReplaced(pages, chain, k, b, pages');
    EntryPutLast(bytes, e, Last(bytes), Base(k == 0));
    OnePageChanged(pages, pages', chain, k);
    ListingAround(pages, chain, k);
    InsertBetween(Entries(pages, chain, k), PageEntries(pages, chain, k), Tail(pages, chain, k + 1), e);
  }

  lemma AddedIsLast(pages: seq<Page>, chain: seq<nat>, k: nat, e: Entry, pages': seq<Page>)
    requires ValidPages(pages) && IsDirectory(pages, chain) && k < |chain| && DirPageAt(pages, chain, k)
    requires var bytes := pages[chain[k]].bytes;
             |bytes| < MAX_PACKET && pages' == pages[chain[k] := Holding(bytes[..|bytes| - 1] + e + [Last(bytes)])]
    ensures ValidPages(pages') && IsDirectory(pages', chain)
    ensures LastOnPage(pages', chain, k, |Entries(pages, chain, k + 1)|)
  {
    AddedToPage(pages, chain, k, e, pages');
    CountsAsLast(pages', chain, k, |Entries(pages, chain, k + 1)|);
  }

  lemma AddedToPage(pages: seq<Page>, chain: seq<nat>, k: nat, e: Entry, pages': seq<Page>)
    requires ValidPages(pages) && IsDirectory(pages, chain) && k < |chain| && DirPageAt(pages, chain, k)
    requires var bytes := pages[chain[k]].bytes;
             |bytes| < MAX_PACKET && pages' == pages[chain[k] := Holding(bytes[..|bytes| - 1] + e + [Last(bytes)])]
    ensures ValidPages(pages') && IsDirectory(pages', chain) && Entries(pages', chain, k) == Entries(pages, chain, k)
    ensures PageEntries(pages', chain, k) == PageEntries(pages, chain, k) + [e]
  {
    var bytes := pages[chain[k]].bytes;
    var b := bytes[..|bytes| - 1] + e + [Last(bytes)];
    assert Last(b) == Last(bytes) && |b| == |bytes| + ENTRY;
    EntryPutLast(bytes, e, Last(bytes), Base(k == 0));
    PageReplaced(pages, chain, k, b, pages');
    OthersBefore(pages, pages', chain, k);
  }

  lemma InsertBetween(a: seq<Entry>, b: seq<Entry>, c: seq<Entry>, e: Entry)
    ensures |a + b| <= |Around(a, b, c)| && Around(a, b + [e], c) == Inserted(Around(a, b, c), |a + b|, e)
  {
    assert (a + (b + c))[..|a + b|] == a + b;
    assert (a + (b + c))[|a + b|..] == c;
  }

  /** An entry removed from a page that keeps others. */
  lemma RemovedOnPage(pages: seq<Page>, chain: seq<nat>, k: nat, off: nat, P: nat, pages': seq<Page>)
    requires ValidPages(pages) && IsDirectory(pages, chain) && LocatedAt(pages, chain, k, off, P)
             && |pages[chain[k]].bytes| > 8
    requires var bytes := pages[chain[k]].bytes;
             pages' == pages[chain[k] := Holding(bytes[..off] + bytes[off + ENTRY..])]
    ensures ValidPages(pages') && IsDirectory(pages', chain)
    ensures P < |Listing(pages, chain)| && Listing(pages', chain) == Removed(Listing(pages, chain), P)
  {
    var bytes, base := pages[chain[k]].bytes, Base(k == 0);
    var b, m := bytes[..off] + bytes[off + ENTRY..], (off - base) / ENTRY;
    assert off == base + ENTRY * m;
    assert Last(b) == Last(bytes);
    PageReplaced(pages, chain, k, b, pages');
    EntryTakenOut(bytes, off, base, m);
    OnePageChanged(pages, pages', chain, k);
    ListingAround(pages, chain, k);
    RemoveBetween(Entries(pages, chain, k), PageEntries(pages, chain, k), Tail(pages, chain, k + 1), m);
  }

  lemma RemoveBetween(a: seq<Entry>, b: seq<Entry>, c: seq<Entry>, m: nat)
    requires m < |b|
    ensures |a| + m < |Around(a, b, c)| && Around(a, b[..m] + b[m + 1..], c) == Removed(Around(a, b, c), |a| + m)
  {
    var all := a + (b + c);
    assert all[..|a| + m] == a + b[..m];
    assert all[|a| + m + 1..] == b[m + 1..] + c;
  }

  /** An entry given another number of pages. */
  function NumberReplaced(es: seq<Entry>, P: nat, n: Octet): seq<Entry>
    requires P < |es|
  {
    es[P := es[P][ENTRY - 1 := n]]
  }

  lemma RenumberedOnPage(pages: seq<Page>, chain: seq<nat>, k: nat, off: nat, P: nat, n: Octet, pages': seq<Page>)
    requires ValidPages(pages) && IsDirectory(pages, chain) && LocatedAt(pages, chain, k, off, P)
    requires pages' == pages[chain[k] := Holding(pages[chain[k]].bytes[off + ENTRY - 1 := n])]
    ensures ValidPages(pages') && IsDirectory(pages', chain)
    ensures P < |Listing(pages, chain)| && Listing(pages', chain) == NumberReplaced(Listing(pages, chain), P, n)
  {
    var bytes, base := pages[chain[k]].bytes, Base(k == 0);
    var b, m := bytes[off + ENTRY - 1 := n], (off - base) / ENTRY;
    assert off == base + ENTRY * m;
    PageReplaced(pages, chain, k, b, pages');
    EntryRenumbered(bytes, off, n, base, m);
    OnePageChanged(pages, pages', chain, k);
    ListingAround(pages, chain, k);
    ReplaceBetween(Entries(pages, chain, k), PageEntries(pages, chain, k), Tail(pages, chain, k + 1), m, n);
  }

  lemma ReplaceBetween(a: seq<Entry>, b: seq<Entry>, c: seq<Entry>, m: nat, n: Octet)
    requires m < |b|
    ensures |a| + m < |Around(a, b, c)|
    ensures Around(a, NumberReplaced(b, m, n), c) == NumberReplaced(Around(a, b, c), |a| + m, n)
  {
    assert (a + (b + c))[|a| + m] == b[m];
  }

  /** The page before an edited continuation: same entries, another page to go to. */
  lemma RelinkedPage(bytes: seq<Octet>, x: Octet, first: bool)
    requires IsDirPage(bytes, first)
    ensures var b := bytes[..|bytes| - 1] + [x];
            IsDirPage(b, first) && Last(b) == x && EntriesFrom(b, Base(first)) == EntriesFrom(bytes, Base(first))
  {
    ContinuationIsNoEntry(bytes, x, Base(first));
  }

  lemma OneEntryPage(e: Entry, x: Octet)
    ensures IsDirPage(e + [x], false) && Last(e + [x]) == x && EntriesFrom(e + [x], 0) == [e]
  {
    assert EntriesFrom(e + [x], ENTRY) == [];
  }

  /** The pages after a full last page has been continued on a new page. */
  predicate Continued(pages: seq<Page>, chain: seq<nat>, avail: Octet, e: Entry, pages': seq<Page>, chain': seq<nat>)
    requires ValidPages(pages) && IsDirectory(pages, chain)
  {
    var k := |chain| - 1;
    && 0 < avail < |pages| && avail as nat !in chain && chain' == chain + [avail] && DirPageAt(pages, chain, k)
    && var bytes := pages[chain[k]].bytes;
    pages' == pages[avail as nat := Holding(e + [0])][chain[k] := Holding(bytes[..|bytes| - 1] + [avail])]
  }

  lemma ContinuedAt(pages: seq<Page>, chain: seq<nat>, avail: Octet, e: Entry, pages': seq<Page>, chain': seq<nat>,
                    j: nat)
    requires ValidPages(pages) && IsDirectory(pages, chain) && Continued(pages, chain, avail, e, pages', chain')
             && j < |chain'|
    ensures ValidPages(pages') && DirPageAt(pages', chain', j)
    ensures EntriesFrom(pages'[chain'[j]].bytes, Base(j == 0)) == if j < |chain| then PageEntries(pages, chain, j)
            else [e]
  {
    var k := |chain| - 1;
    OneEntryPage(e, 0);
    RelinkedPage(pages[chain[k]].bytes, avail, k == 0);
    if j < |chain| {
      assert DirPageAt(pages, chain, j) && chain[j] in chain;
      if j < k {
        DirectoryIsChain(pages, chain);
        NoPageTwice(pages, chain, j, k);
      }
    }
  }

  /** An entry added on a new page behind a full last page. */
  lemma AddedOnNewPage(pages: seq<Page>, chain: seq<nat>, avail: Octet, e: Entry, pages': seq<Page>, chain': seq<nat>)
    requires ValidPages(pages) && IsDirectory(pages, chain) && Continued(pages, chain, avail, e, pages', chain')
    ensures ValidPages(pages') && IsDirectory(pages', chain') && Listing(pages', chain') == Listing(pages, chain) + [e]
    ensures LastOnPage(pages', chain', |chain|, |Listing(pages, chain)|)
  {
    forall j | 0 <= j < |chain'|
      ensures ValidPages(pages') && DirPageAt(pages', chain', j)
    {
      ContinuedAt(pages, chain, avail, e, pages', chain', j);
    }
    ContinuedAt(pages, chain, avail, e, pages', chain', |chain|);
    forall j | 0 <= j < |chain|
      ensures SameEntries(pages, chain, pages', chain', j, 0)
    {
      ContinuedAt(pages, chain, avail, e, pages', chain', j);
    }
    SamePrefix(pages, chain, pages', chain', |chain|);
    CountsAsLast(pages', chain', |chain|, |Listing(pages, chain)|);
  }

  /** The pages after page k has been unlinked from the page before it. */
  predicate Unlinked(pages: seq<Page>, chain: seq<nat>, k: nat, pages': seq<Page>, chain': seq<nat>)
    requires ValidPages(pages) && IsDirectory(pages, chain)
  {
    && 0 < k < |chain| && DirPageAt(pages, chain, k) && DirPageAt(pages, chain, k - 1)
    && chain' == chain[..k] + chain[k + 1..]
    && var prev := pages[chain[k - 1]].bytes;
    pages' == pages[chain[k - 1] := Holding(prev[..|prev| - 1] + [Last(pages[chain[k]].bytes)])]
  }

  lemma UnlinkedAt(pages: seq<Page>, chain: seq<nat>, k: nat, pages': seq<Page>, chain': seq<nat>, i: nat, j: nat)
    requires ValidPages(pages) && IsDirectory(pages, chain) && Unlinked(pages, chain, k, pages', chain')
    requires i < |chain'| && j == if i < k then i else i + 1
    ensures ValidPages(pages') && DirPageAt(pages', chain', i)
    ensures EntriesFrom(pages'[chain'[i]].bytes, Base(i == 0)) == PageEntries(pages, chain, j)
  {
    DirectoryIsChain(pages, chain);
    RelinkedPage(pages[chain[k - 1]].bytes, Last(pages[chain[k]].bytes), k - 1 == 0);
    assert DirPageAt(pages, chain, j) && chain'[i] == chain[j];
    if j < k - 1 {
      NoPageTwice(pages, chain, j, k - 1);
    } else if k - 1 < j {
      NoPageTwice(pages, chain, k - 1, j);
    }
    if i + 1 < |chain'| {
      assert chain'[i + 1] == chain[if i + 1 < k then i + 1 else i + 2];
    }
  }

  lemma UnlinkedPage(pages: seq<Page>, chain: seq<nat>, k: nat, pages': seq<Page>, chain': seq<nat>)
    requires ValidPages(pages) && IsDirectory(pages, chain) && Unlinked(pages, chain, k, pages', chain')
    ensures ValidPages(pages') && IsDirectory(pages', chain')
    ensures forall j | 0 <= j < k :: SameEntries(pages, chain, pages', chain', j, 0)
    ensures forall j | k < j < |chain| :: SameEntries(pages, chain, pages', chain', j, -1)
  {
    forall i | 0 <= i < |chain'|
      ensures ValidPages(pages') && DirPageAt(pages', chain', i)
    {
      UnlinkedAt(pages, chain, k, pages', chain', i, if i < k then i else i + 1);
    }
    UnlinkedAt(pages, chain, k, pages', chain', 0, 0);
    forall j | 0 <= j < k
      ensures SameEntries(pages, chain, pages', chain', j, 0)
    {
      UnlinkedAt(pages, chain, k, pages', chain', j, j);
    }
    forall j | k < j < |chain|
      ensures SameEntries(pages, chain, pages', chain', j, -1)
    {
      UnlinkedAt(pages, chain, k, pages', chain', j - 1, j);
    }
  }

  /** The listing without the entries of an unlinked page. */
  lemma ListingUnlinked(pages: seq<Page>, chain: seq<nat>, k: nat, pages': seq<Page>, chain': seq<nat>)
    requires ValidPages(pages) && IsDirectory(pages, chain) && Unlinked(pages, chain, k, pages', chain')
    ensures ValidPages(pages') && IsDirectory(pages', chain')
    ensures Listing(pages', chain') == Around(Entries(pages, chain, k), [], Tail(pages, chain, k + 1))
  {
    UnlinkedPage(pages, chain, k, pages', chain');
    SamePrefix(pages, chain, pages', chain', k);
    SameTail(pages, chain, pages', chain', k + 1, k, -1);
    ListingSplits(pages', chain', k);
    assert [] + Tail(pages, chain, k + 1) == Tail(pages, chain, k + 1);
  }

  /** Removing the only entry of a page by unlinking the page. */
  lemma RemovedWithPage(pages: seq<Page>, chain: seq<nat>, k: nat, off: nat, P: nat, pages': seq<Page>,
                        chain': seq<nat>)
    requires ValidPages(pages) && IsDirectory(pages, chain) && LocatedAt(pages, chain, k, off, P)
             && |pages[chain[k]].bytes| == 8
    requires k > 0 ==> Unlinked(pages, chain, k, pages', chain')
    ensures k > 0 && ValidPages(pages') && IsDirectory(pages', chain')
    ensures P < |Listing(pages, chain)| && Listing(pages', chain') == Removed(Listing(pages, chain), P)
  {
    var bytes := pages[chain[k]].bytes;
    assert bytes == bytes[..ENTRY] + [Last(bytes)];
    OneEntryPage(bytes[..ENTRY], Last(bytes));
    ListingUnlinked(pages, chain, k, pages', chain');
    ListingAround(pages, chain, k);
    RemoveBetween(Entries(pages, chain, k), [bytes[..ENTRY]], Tail(pages, chain, k + 1), 0);
  }

  /** Page j of a directory looks the same to a search: only header bytes may have changed. */
  predicate SameToSearch(pages: seq<Page>, pages': seq<Page>, chain: seq<nat>, j: nat)
    requires ValidPages(pages) && ValidPages(pages') && j < |chain|
  {
    && DirPageAt(pages, chain, j) && chain[j] < |pages'| && pages'[chain[j]].Holding?
    && var a, b := pages[chain[j]].bytes, pages'[chain[j]].bytes;
    && |a| == |b| && a[Base(j == 0)..] == b[Base(j == 0)..] && (j == 0 ==> b[0] == 0xAA && b[1] == 0)
  }

  /** Only header bytes of its pages may have changed. */
  predicate SameDirectory(pages: seq<Page>, pages': seq<Page>, chain: seq<nat>)
    requires ValidPages(pages) && ValidPages(pages')
  {
    forall j | 0 <= j < |chain| :: SameToSearch(pages, pages', chain, j)
  }

  lemma HeaderTouched(pages: seq<Page>, pages': seq<Page>, chain: seq<nat>)
    requires ValidPages(pages) && IsDirectory(pages, chain) && ValidPages(pages') && SameDirectory(pages, pages', chain)
    ensures IsDirectory(pages', chain) && Listing(pages', chain) == Listing(pages, chain)
    ensures forall n | 0 <= n <= |chain| :: Entries(pages', chain, n) == Entries(pages, chain, n)
  {
    forall j | 0 <= j < |chain|
      ensures DirPageAt(pages', chain, j)
    {
      assert SameToSearch(pages, pages', chain, j);
      var a, b := pages[chain[j]].bytes, pages'[chain[j]].bytes;
      assert a[Base(j == 0)..][|a| - 1 - Base(j == 0)] == Last(a)
             && b[Base(j == 0)..][|a| - 1 - Base(j == 0)] == Last(b);
    }
    forall j | 0 <= j < |chain|
      ensures SameEntries(pages, chain, pages', chain, j, 0)
    {
      assert SameToSearch(pages, pages', chain, j);
      HeaderIsNoEntry(pages[chain[j]].bytes, pages'[chain[j]].bytes, Base(j == 0));
    }
    forall n | 0 <= n <= |chain|
      ensures Entries(pages', chain, n) == Entries(pages, chain, n)
    {
      SamePrefix(pages, chain, pages', chain, n);
    }
  }

  /** The place of an entry is the same then. */
  lemma SamePlace(pages: seq<Page>, pages': seq<Page>, chain: seq<nat>, k: nat, P: nat)
    requires ValidPages(pages) && IsDirectory(pages, chain) && ValidPages(pages') && SameDirectory(pages, pages', chain)
    requires IsDirectory(pages', chain) && LastOnPage(pages, chain, k, P)
    ensures LastOnPage(pages', chain, k, P) && |PageBytes(pages', chain, k)| == |PageBytes(pages, chain, k)|
  {
    HeaderTouched(pages, pages', chain);
    assert SameToSearch(pages, pages', chain, k) && DirPageAt(pages', chain, k);
  }
}
