/** What lies where, byte by byte: entries, lists of entries, files over pages, and the bitmap. */
module Layouts {
  import opened Octets
  import opened BitmapFile
  import opened Directory
  import opened DirectoryEdits
  import opened DirectoryFile
  import opened FileChain
  import opened FileWrite
  import opened PageBitmap
  import opened StoredPart

  // ----- entries

  /** The bytes of a new entry: the name, the extension, the start page, and how many times 28 bytes the data
      takes, at least once. */
  lemma NewEntryByByte(name: seq<Octet>, ext: Octet, spage: Octet, len: nat)
    requires |name| == 4 && len <= 7140
    ensures var e := NewEntry(name, ext, spage, len);
            && e[0] == name[0] && e[1] == name[1] && e[2] == name[2] && e[3] == name[3] && e[4] == ext && e[5] == spage
            && len <= 28 * (e[6] as nat) && (if len <= 28 then e[6] == 1 else 28 * (e[6] as nat - 1) < len)
  {
  }

  /** The number of pages put into the entry of a file written again: none without data. */
  lemma NumPgsByNumber(len: nat)
    requires len <= 7140
    ensures len <= 28 * (NumPgs(len) as nat)
            && (if len == 0 then NumPgs(len) == 0 else 28 * (NumPgs(len) as nat) < len + 28)
  {
  }

  /** The entries of a page lie one behind the other, seven bytes each, up to the continuation byte. */
  lemma {:induction false} EntriesByByte(bytes: seq<Octet>, i: nat)
    requires |bytes| % 7 == 1 && i % 7 == 0 && i < |bytes|
    ensures 7 * |EntriesFrom(bytes, i)| == |bytes| - 1 - i
    ensures forall m: nat | m < |EntriesFrom(bytes, i)| :: EntriesFrom(bytes, i)[m] == bytes[i + 7 * m..i + 7 * m + 7]
    decreases |bytes| - i
  {
    EntryStep(bytes, i);
    if i + 1 < |bytes| {
      EntriesByByte(bytes, i + 7);
      forall m: nat | m < |EntriesFrom(bytes, i)|
        ensures EntriesFrom(bytes, i)[m] == bytes[i + 7 * m..i + 7 * m + 7]
      {
        if m > 0 {
          assert EntriesFrom(bytes, i)[m] == EntriesFrom(bytes, i + 7)[m - 1];
        }
      }
    }
  }

  /** Those of the first page of a directory begin behind its header, those of the others at once. */
  lemma EntryAt(pages: seq<Page>, chain: seq<nat>, k: nat, m: nat)
    requires ValidPages(pages) && IsDirectory(pages, chain) && k < |chain| && m < |PageEntries(pages, chain, k)|
    ensures var at := (if k == 0 then 7 else 0) + 7 * m;
            && at + 7 < |PageBytes(pages, chain, k)|
            && PageEntries(pages, chain, k)[m] == PageBytes(pages, chain, k)[at..at + 7]
  {
    EntriesByByte(PageBytes(pages, chain, k), if k == 0 then 7 else 0);
  }

  // ----- lists of entries

  /** What is in a list after an entry has been put in, taken out, or given another number of pages. */
  lemma InsertedByIndex(es: seq<Entry>, at: nat, e: Entry, i: nat)
    requires at <= |es| && i <= |es|
    ensures |Inserted(es, at, e)| == |es| + 1
    ensures Inserted(es, at, e)[i] == if i < at then es[i] else if i == at then e else es[i - 1]
  {
  }

  lemma RemovedByIndex(es: seq<Entry>, at: nat, i: nat)
    requires at < |es| && i < |es| - 1
    ensures |Removed(es, at)| == |es| - 1 && Removed(es, at)[i] == if i < at then es[i] else es[i + 1]
  {
  }

  lemma RenumberedByIndex(es: seq<Entry>, P: nat, n: Octet, i: nat, j: nat)
    requires P < |es| && i < |es| && j < 7
    ensures |NumberReplaced(es, P, n)| == |es|
    ensures NumberReplaced(es, P, n)[i][j] == if i == P && j == 6 then n else es[i][j]
  {
  }

  // ----- files

  /** A file on pages 2 and 3: what comes before the last byte of each page is its data, and the last byte names
      the next page. */
  lemma TwoPageFile(pages: seq<Page>, a: seq<Octet>, b: seq<Octet>)
    requires ValidPages(pages) && |pages| > 3 && |a| == 28 && 0 < |b| <= 28
    requires pages[2] == Holding(a + [3]) && pages[3] == Holding(b + [0])
    ensures ReadsBackAs(pages, 2, a + b)
  {
    assert LinkAt(pages, [2, 3], 0) && LinkAt(pages, [2, 3], 1);
    assert (a + [3])[..28] == a && (b + [0])[..|b|] == b;
    assert Content(pages, [2, 3], 0) == [] && Content(pages, [2, 3], 1) == a && Content(pages, [2, 3], 2) == a + b;
    assert IsFileAt(pages, [2, 3], 2, a + b);
  }

  // ----- the bitmap

  /** Where the bit of a page lies: in the fourth to seventh byte of the root page, if the top bit of its third
      is set; else on the page named by its sixth byte, and from the 29th byte of a bitmap on, on the page named
      at the end of that one. */
  function BitmapByte(pages: seq<Page>, maxP: nat, chain: seq<nat>, p: nat): Octet
    requires Placed(pages, maxP, chain) && p <= maxP
  {
    var root := pages[0].bytes;
    if root[2] >= 128 then root[3 + p / 8]
    else if maxP <= 224 || p / 8 < 28 then
      assert p / 8 < |pages[root[5]].bytes|;
      pages[root[5]].bytes[p / 8]
    else
      pages[pages[root[5]].bytes[28]].bytes[p / 8 - 28]
  }

  lemma StoredByBit(pages: seq<Page>, maxP: nat, chain: seq<nat>, p: nat)
    requires Placed(pages, maxP, chain) && p <= maxP
    ensures p < |StoredTaken(pages, maxP)|
    ensures StoredTaken(pages, maxP)[p] <==> Bit(BitmapByte(pages, maxP, chain, p), p % 8)
  {
    StoredCount(pages, maxP);
    TakenAt(ReadAs(pages, maxP).bytes, p / 8, p % 8);
  }
}
