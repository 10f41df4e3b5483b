/** Directories of owfile.c as lists of seven-byte entries over a chain of pages: their chains and
    listings, where an entry lies, and what a search for a name is to find. */
module Directory {
  import opened Octets
  import opened FileChain

  const ENTRY := 7
  const DIR_EXT := 0x7F

  /** An entry as it lies on the page: four name bytes, the extension with its flag bit, the start
      page and the number of pages. */
  type Entry = e: seq<Octet> | |e| == ENTRY witness [0, 0, 0, 0, 0, 0, 0]

  /** A directory page: whole entries and a continuation byte; the first page of a directory has a
      header in place of its first entry. */
  predicate IsDirPage(bytes: seq<Octet>, first: bool) {
    8 <= |bytes| <= MAX_PACKET && |bytes| % ENTRY == 1 && (first ==> bytes[0] == 0xAA && bytes[1] == 0)
  }

  /** Where the entries of a page begin. */
  function Base(first: bool): (b: nat)
    ensures b % ENTRY == 0
  {
    if first then ENTRY else 0
  }

  /** The entries of a page from offset i on. */
  function EntriesFrom(bytes: seq<Octet>, i: nat): (es: seq<Entry>)
    decreases |bytes| - i
  {
    if i + ENTRY >= |bytes| then [] else [bytes[i..i + ENTRY]] + EntriesFrom(bytes, i + ENTRY)
  }

  /** Page k of a directory chain is a directory page. */
  predicate DirPageAt(pages: seq<Page>, chain: seq<nat>, k: nat)
    requires ValidPages(pages) && k < |chain|
  {
    LinkAt(pages, chain, k) && IsDirPage(pages[chain[k]].bytes, k == 0)
  }

  predicate IsDirectory(pages: seq<Page>, chain: seq<nat>)
    requires ValidPages(pages)
  {
    chain != [] && forall k | 0 <= k < |chain| :: DirPageAt(pages, chain, k)
  }

  /** The bytes of page k. */
  function PageBytes(pages: seq<Page>, chain: seq<nat>, k: nat): (bytes: seq<Octet>)
    requires ValidPages(pages) && IsDirectory(pages, chain) && k < |chain|
    ensures IsDirPage(bytes, k == 0) && chain[k] < |pages| && pages[chain[k]] == Holding(bytes)
    ensures Last(bytes) == if k + 1 < |chain| then chain[k + 1] else 0
  {
    assert DirPageAt(pages, chain, k);
    pages[chain[k]].bytes
  }

  /** The entries of page k. */
  function PageEntries(pages: seq<Page>, chain: seq<nat>, k: nat): seq<Entry>
    requires ValidPages(pages) && IsDirectory(pages, chain) && k < |chain|
  {
    assert DirPageAt(pages, chain, k);
    EntriesFrom(pages[chain[k]].bytes, Base(k == 0))
  }

  /** The entries of the first n pages, in order. */
  function Entries(pages: seq<Page>, chain: seq<nat>, n: nat): seq<Entry>
    requires ValidPages(pages) && IsDirectory(pages, chain) && n <= |chain|
  {
    if n == 0 then [] else Entries(pages, chain, n - 1) + PageEntries(pages, chain, n - 1)
  }

  /** All entries of a directory, in the order a search visits them. */
  function Listing(pages: seq<Page>, chain: seq<nat>): seq<Entry>
    requires ValidPages(pages) && IsDirectory(pages, chain)
  {
    Entries(pages, chain, |chain|)
  }

  /** A chain that ends visits no page twice. */
  lemma {:induction false} NoPageTwice(pages: seq<Page>, chain: seq<nat>, i: nat, j: nat)
    requires ValidPages(pages) && IsChain(pages, chain) && i < j < |chain|
    ensures chain[i] != chain[j]
    decreases |chain| - j
  {
    assert LinkAt(pages, chain, i) && LinkAt(pages, chain, j);
    if j + 1 < |chain| {
      NoPageTwice(pages, chain, i + 1, j + 1);
    }
  }

  lemma DirectoryIsChain(pages: seq<Page>, chain: seq<nat>)
    requires ValidPages(pages) && IsDirectory(pages, chain)
    ensures IsChain(pages, chain)
  {
    assert forall k | 0 <= k < |chain| :: DirPageAt(pages, chain, k) ==> LinkAt(pages, chain, k);
  }

  // ----- matching

  function Upper(b: Octet): Octet { if 'a' as nat <= b <= 'z' as nat then b - 32 else b }

  /** A name of four characters in capitals. */
  function UpperName(c: seq<Octet>): (n: seq<Octet>)
    requires |c| == 4
    ensures IsName(n)
  {
    [Upper(c[0]), Upper(c[1]), Upper(c[2]), Upper(c[3])]
  }

  predicate IsName(name: seq<Octet>) {
    |name| == 4 && forall j | 0 <= j < 4 :: Upper(name[j]) == name[j]
  }

  predicate CharMatches(b: Octet, c: Octet) {
    Upper(b) == c || (b == 0x20 && c == 0xCC)
  }

  predicate EntryMatches(e: Entry, name: seq<Octet>, ext: Octet)
    requires |name| == 4
  {
    (forall j | 0 <= j < 4 :: CharMatches(e[j], name[j])) && e[4] % 128 == ext
  }

  /** The place of the first entry that matches, or the number of entries. */
  function FirstMatch(es: seq<Entry>, name: seq<Octet>, ext: Octet): (i: nat)
    requires |name| == 4
    ensures i <= |es|
  {
    if es == [] then 0 else if EntryMatches(es[0], name, ext) then 0 else 1 + FirstMatch(es[1..], name, ext)
  }

  lemma {:induction false} FirstMatchIsFirst(es: seq<Entry>, name: seq<Octet>, ext: Octet)
    requires |name| == 4
    ensures var i := FirstMatch(es, name, ext);
            (i < |es| ==> EntryMatches(es[i], name, ext)) && forall j | 0 <= j < i :: !EntryMatches(es[j], name, ext)
  {
    if es != [] && !EntryMatches(es[0], name, ext) {
      FirstMatchIsFirst(es[1..], name, ext);
    }
  }

  lemma {:induction false} FirstMatchOfConcat(a: seq<Entry>, b: seq<Entry>, name: seq<Octet>, ext: Octet)
    requires |name| == 4
    ensures FirstMatch(a + b, name, ext) == if FirstMatch(a, name, ext) < |a| then FirstMatch(a, name, ext)
            else |a| + FirstMatch(b, name, ext)
  {
    if a == [] {
      assert a + b == b;
    } else {
      assert (a + b)[1..] == a[1..] + b;
      FirstMatchOfConcat(a[1..], b, name, ext);
    }
  }

  lemma {:induction false} EntriesGrow(pages: seq<Page>, chain: seq<nat>, n: nat)
    requires ValidPages(pages) && IsDirectory(pages, chain) && n <= |chain|
    ensures Entries(pages, chain, n) <= Listing(pages, chain)
    decreases |chain| - n
  {
    if n < |chain| {
      EntriesGrow(pages, chain, n + 1);
    }
  }

  /** A match among the first pages is the match of the whole search. */
  lemma MatchOfPrefix(pages: seq<Page>, chain: seq<nat>, n: nat, name: seq<Octet>, ext: Octet)
    requires ValidPages(pages) && IsDirectory(pages, chain) && n <= |chain| && |name| == 4
    requires FirstMatch(Entries(pages, chain, n), name, ext) < |Entries(pages, chain, n)|
    ensures FirstMatch(Listing(pages, chain), name, ext) == FirstMatch(Entries(pages, chain, n), name, ext)
  {
    var es, all := Entries(pages, chain, n), Listing(pages, chain);
    EntriesGrow(pages, chain, n);
    assert all == es + all[|es|..];
    FirstMatchOfConcat(es, all[|es|..], name, ext);
  }

  /** What a search finds out about an entry. */
  datatype FileInfo = FileInfo(ext: Octet, spage: Octet, numPgs: Octet, attrib: Octet, dpage: Octet, offset: nat,
                               pdpage: Octet)

  /** The read-only or hidden flag of an entry. */
  function AttribOf(e: Entry): Octet {
    if e[4] < 128 then 0 else if e[4] % 128 == DIR_EXT then 2 else 1
  }

  /** The entry at an offset of page k is the P-th of the listing. */
  predicate LocatedAt(pages: seq<Page>, chain: seq<nat>, k: nat, off: nat, P: nat)
    requires ValidPages(pages) && IsDirectory(pages, chain)
  {
    && k < |chain| && DirPageAt(pages, chain, k) && Base(k == 0) <= off && off % ENTRY == 0
    && off + ENTRY < |pages[chain[k]].bytes|
    && P == |Entries(pages, chain, k)| + (off - Base(k == 0)) / ENTRY
  }

  /** The entries of a page, one by one. */
  lemma EntryStep(bytes: seq<Octet>, i: nat)
    requires |bytes| % ENTRY == 1 && i % ENTRY == 0 && i < |bytes|
    ensures if i + 1 == |bytes| then EntriesFrom(bytes, i) == []
            else i + ENTRY < |bytes| && EntriesFrom(bytes, i) == [bytes[i..i + ENTRY]] + EntriesFrom(bytes, i + ENTRY)
  {
  }

  /** A page that can be read and begins like a directory. */
  predicate HasHeader(pages: seq<Page>, p: nat) {
    p < |pages| && pages[p].Holding? && |pages[p].bytes| >= 2 && pages[p].bytes[0] == 0xAA && pages[p].bytes[1] == 0
  }

  /** What a successful search reports about the entry found. */
  predicate Reports(info: FileInfo, pages: seq<Page>, chain: seq<nat>, k: nat, P: nat)
    requires ValidPages(pages) && IsDirectory(pages, chain)
  {
    && P < |Listing(pages, chain)| && LocatedAt(pages, chain, k, info.offset, P)
    && var e := Listing(pages, chain)[P];
    && info.ext as nat == e[4] % 128 && info.spage == e[5] && info.numPgs == e[6] && info.attrib == AttribOf(e)
    && info.dpage as nat == chain[k] && info.pdpage as nat == chain[if k == 0 then 0 else k - 1]
  }

  lemma OffsetOfEntry(base: nat, m: nat, off: nat)
    requires off == base + ENTRY * m && base % ENTRY == 0
    ensures off % ENTRY == 0 && (off - base) / ENTRY == m
  {
  }

  /** An entry among those of page k is one of the listing. */
  lemma EntryInListing(pages: seq<Page>, chain: seq<nat>, k: nat, m: nat)
    requires ValidPages(pages) && IsDirectory(pages, chain) && k < |chain| && m < |PageEntries(pages, chain, k)|
    ensures var P := |Entries(pages, chain, k)| + m;
            P < |Listing(pages, chain)| && Listing(pages, chain)[P] == PageEntries(pages, chain, k)[m]
  {
    EntriesGrow(pages, chain, k + 1);
    assert Entries(pages, chain, k + 1) == Entries(pages, chain, k) + PageEntries(pages, chain, k);
  }
}
