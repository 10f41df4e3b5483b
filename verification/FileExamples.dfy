/** Parts on which creating and writing files comes to something else than one would expect. */
module FileExamples {
  import opened Octets
  import opened BitmapFile
  import opened Directory
  import opened DirectoryEdits
  import opened DirectoryFile
  import opened DirectorySearch
  import opened FileChain
  import opened FileCreate
  import opened FileDelete
  import opened FileNames
  import opened FileWrite
  import opened PageBitmap
  import opened RootScanning
  import opened StoredPart

  // ----- a name that only the root directory has

  const AAAA: seq<Octet> := [0x41, 0x41, 0x41, 0x41]

  /** A part of eight pages: the root directory on page 0, with AAAA.1 and the directory SUBD, which is
      on page 1 and empty. */
  function TwoDirectories(p: nat): Page {
    if p == 0 then
      Holding([0xAA, 0, 0x80, 0x07, 0, 0, 0, 0x41, 0x41, 0x41, 0x41, 1, 2, 1, 0x53, 0x55, 0x42, 0x44, 0x7F, 1, 0, 0])
    else if p == 1 then Holding([0xAA, 0, 0x52, 0x4F, 0x4F, 0x54, 0, 0])
    else Unreadable
  }

  predicate IsExample(pages: seq<Page>) {
    |pages| == 8 && forall p | 0 <= p < 8 :: pages[p] == TwoDirectories(p)
  }

  lemma ExampleDirectories(pages: seq<Page>)
    requires IsExample(pages)
    ensures ValidPages(pages) && RootShape(pages) && IsDirectory(pages, [0]) && IsDirectory(pages, [1])
    ensures PageBytes(pages, [0], 0) == TwoDirectories(0).bytes && PageBytes(pages, [1], 0) == TwoDirectories(1).bytes
  {
    assert DirPageAt(pages, [0], 0) && DirPageAt(pages, [1], 0);
  }

  lemma ExampleMarks(pages: seq<Page>)
    requires IsExample(pages)
    ensures RootShape(pages) && StoredTaken(pages, 7) == [true, true, true, false, false, false, false, false]
  {
    ExampleDirectories(pages);
    var root := PageBytes(pages, [0], 0);
    assert ReadAs(pages, 7) == Bitmap([7]) by {
      assert root[3..4] == [7];
    }
    assert [7][..0] == [] && Taken([]) == [];
    assert OctetBits(7) == [true, true, true, false, false, false, false, false];
  }

  lemma ExampleInOrder(pages: seq<Page>)
    requires IsExample(pages)
    ensures Part(pages, 7, 1, [1], [0])
  {
    ExampleDirectories(pages);
    ExampleMarks(pages);
  }

  lemma ExampleRoom(u: seq<bool>)
    requires u == [true, true, true, false, false, false, false, false]
    ensures MaxWrite(u, 7) == 168
  {
    assert FreePages(u, 8, 7) == [];
    assert FreePages(u, 5, 7) == [5, 6, 7];
    assert FreePages(u, 2, 7) == [3, 4, 5, 6, 7];
  }

  lemma ExampleWrites(pages: seq<Page>, h: Hit)
    requires IsExample(pages) && h.Hit? && h.e[5] == 2
    ensures Part(pages, 7, 1, [1], [0]) && Writes(pages, 7, [1], h, AAAA, 0) && Writes(pages, 7, [1], h, AAAA, 29)
  {
    ExampleInOrder(pages);
    ExampleMarks(pages);
    ExampleRoom(StoredTaken(pages, 7));
  }

  lemma ExampleSearch(pages: seq<Page>, b: seq<Octet>, stale: Memory)
    requires ValidPages(pages) && IsDirectory(pages, [1]) && b == PageBytes(pages, [1], 0)
             && b == TwoDirectories(1).bytes
    ensures Search(pages, [1], 0, stale, AAAA, 1).Miss?
  {
    assert EntriesFrom(b, 7) == [];
    ScanOfPage(b, stale, 7, AAAA, 1);
    assert !CharMatches(Phantom(b, stale)[0], AAAA[0]);
    assert ScanHit(Over(b, stale), |b|, 7, AAAA, 1) == |b|;
  }

  lemma ExampleScan(pages: seq<Page>, a: seq<Octet>, stale: Memory, pgs: Octet)
    requires ValidPages(pages) && IsDirectory(pages, [0]) && a == PageBytes(pages, [0], 0)
             && a == TwoDirectories(0).bytes
    ensures InRoot(pages, [0], stale, AAAA, 1, pgs) == Hit(0, 7, [0x41, 0x41, 0x41, 0x41, 1, 2, 1])
  {
    OverAt(a, stale, 7);
    assert a[7..14] == [0x41, 0x41, 0x41, 0x41, 1, 2, 1];
    assert EntryMatches(a[7..14], AAAA, 1);
    assert ScanHit(Over(a, stale), |a|, 7, AAAA, 1) == 7;
    assert RootScan(pages, [0], 0, stale, AAAA, 1, pgs) == Scan(Miss, stale);
  }

  /** Creating AAAA.1 in SUBD, on that part in order: the search there misses, and the scan of the root
      directory hits, so the call succeeds, no entry is made in SUBD, and the one in the root directory
      gets a page count of 0. */
  lemma ShadowedByRoot(pages: seq<Page>, stale: Memory, stale': Memory, h: Hit)
    requires IsExample(pages) && h == Hit(0, 7, [0x41, 0x41, 0x41, 0x41, 1, 2, 1])
    ensures Part(pages, 7, 1, [1], [0]) && Creatable(AAAA, 1) && UpperName(AAAA) == AAAA
    ensures Search(pages, [1], 0, stale, AAAA, 1).Miss? && Shadow(pages, [0], stale', AAAA, 1) == h
    ensures Writes(pages, 7, [1], h, AAAA, 0)
  {
    ExampleDirectories(pages);
    ExampleSearch(pages, PageBytes(pages, [1], 0), stale);
    ExampleScan(pages, PageBytes(pages, [0], 0), stale', NumPgs(0));
    ExampleWrites(pages, h);
    PlainName();
  }

  lemma PlainName()
    ensures Creatable(AAAA, 1) && UpperName(AAAA) == AAAA
  {
  }

  // ----- marks that are lost

  lemma ExamplePages(u: seq<bool>)
    requires u == [true, true, true, false, false, false, false, false]
    ensures FreePages(u, 0, 7) == [3, 4, 5, 6, 7] && Rest(u, 2, 7) == [3, 4, 5, 6, 7] && Laid(u, 2, 7, 2) == [2, 3]
  {
    assert FreePages(u, 8, 7) == [];
    assert FreePages(u, 5, 7) == [5, 6, 7];
    assert FreePages(u, 2, 7) == [3, 4, 5, 6, 7];
    assert u[2 := true] == u;
  }

  lemma ExampleOverwritten(pages: seq<Page>, h: Hit, data: seq<Octet>, dpg: nat, pgs: Octet, final: seq<Page>)
    requires IsExample(pages) && |data| == 29 && h == Hit(0, 7, [0x41, 0x41, 0x41, 0x41, 1, 2, 1])
    requires StoredSound(pages, 7, [0]) && HitPlace(pages, [0], h)
    requires Overwritten(pages, 7, [0], h, dpg, data, pgs, final)
    ensures ReadsBackAs(final, 2, data) && StoredSound(final, 7, [0])
    ensures Agree(StoredTaken(final, 7), StoredTaken(pages, 7), 7)
  {
    ExampleMarks(pages);
    ExamplePages(StoredTaken(pages, 7));
  }

  /** Writing 29 bytes over AAAA.1 there, from SUBD: they go to pages 2 and 3 and read back, but page 3 is
      not marked as taken, and is the next to be given out. */
  lemma MarksLost(pages: seq<Page>, stale: Memory, h: Hit, data: seq<Octet>)
    requires IsExample(pages) && |data| == 29 && h == Hit(0, 7, [0x41, 0x41, 0x41, 0x41, 1, 2, 1])
    ensures Part(pages, 7, 1, [1], [0]) && IsRoom(pages, [1], 0)
    ensures InRoot(pages, [0], stale, AAAA, 1, NumPgs(|data|)) == h && Apart(pages, 7, [0], [h.e[5] as nat])
    ensures HitPlace(pages, [0], h) && Writes(pages, 7, [1], h, AAAA, |data|)
    ensures DataPages(StoredTaken(pages, 7), 2, 7, |data|) == [2, 3]
    ensures forall ok, final, chain' | OldFile(pages, 7, [1], 0, [0], h, data, ok, final, chain') ::
              ok && ReadsBackAs(final, 2, data) && StoredSound(final, 7, [0])
              && First(FreePages(StoredTaken(final, 7), 0, 7)) == 3
  {
    ExampleDirectories(pages);
    ExampleScan(pages, PageBytes(pages, [0], 0), stale, NumPgs(|data|));
    ExampleWrites(pages, h);
    ExampleMarks(pages);
    ExamplePages(StoredTaken(pages, 7));
    forall ok, final, chain' | OldFile(pages, 7, [1], 0, [0], h, data, ok, final, chain')
      ensures ok && ReadsBackAs(final, 2, data) && StoredSound(final, 7, [0])
      ensures First(FreePages(StoredTaken(final, 7), 0, 7)) == 3
    {
      ExampleOverwritten(pages, h, data, 1, NumPgs(|data|), final);
      SameFree(StoredTaken(final, 7), StoredTaken(pages, 7), 0, 7);
    }
  }

  // ----- an empty root directory

  /** A part with an empty root directory, which keeps the bitmap: its first three bytes are given. */
  predicate IsEmptyPart(pages: seq<Page>, maxP: nat, a: Octet, b: Octet, c: Octet) {
    ValidPages(pages) && |pages| == maxP + 1 && maxP <= 254 && pages[0] == Holding([0xAA, 0, 0x80, a, b, c, 0, 0])
  }

  lemma EmptyDirectory(pages: seq<Page>, maxP: nat, a: Octet, b: Octet, c: Octet)
    requires IsEmptyPart(pages, maxP, a, b, c)
    ensures RootShape(pages) && IsDirectory(pages, [0]) && PageBytes(pages, [0], 0) == [0xAA, 0, 0x80, a, b, c, 0, 0]
    ensures IsRoom(pages, [0], 0) && |Entries(pages, [0], 1)| == 0 && Listing(pages, [0]) == []
            && !AllFull(pages, [0])
  {
    assert DirPageAt(pages, [0], 0);
    assert EntriesFrom(PageBytes(pages, [0], 0), 7) == [];
    assert PageEntries(pages, [0], 0) == [] && Entries(pages, [0], 0) == [];
  }

  lemma EmptyScan(page: seq<Octet>, stale: Memory)
    requires |page| == 8 && page[7] == 0
    ensures ScanHit(Over(page, stale), |page|, 7, AAAA, 1) == |page|
  {
    assert EntriesFrom(page, 7) == [];
    ScanOfPage(page, stale, 7, AAAA, 1);
    assert !CharMatches(Phantom(page, stale)[0], AAAA[0]);
  }

  lemma EmptySearch(pages: seq<Page>, maxP: nat, a: Octet, b: Octet, c: Octet, stale: Memory)
    requires IsEmptyPart(pages, maxP, a, b, c)
    ensures ValidPages(pages) && IsDirectory(pages, [0])
    ensures Search(pages, [0], 0, stale, AAAA, 1).Miss? && Shadow(pages, [0], stale, AAAA, 1).Miss?
  {
    EmptyDirectory(pages, maxP, a, b, c);
    EmptyScan(PageBytes(pages, [0], 0), stale);
    assert RootScan(pages, [0], 0, stale, AAAA, 1, NumPgs(0)) == Scan(Miss, stale);
    PlainName();
  }

  /** On such a part in order AAAA.1 can be created, however few pages are free. */
  lemma EmptyCreates(pages: seq<Page>, maxP: nat, a: Octet, b: Octet, c: Octet, stale: Memory, stale': Memory)
    requires IsEmptyPart(pages, maxP, a, b, c) && StoredSound(pages, maxP, [0]) && maxP > 0
    ensures Part(pages, maxP, 0, [0], [0]) && IsRoom(pages, [0], 0)
    ensures UpperName(AAAA) == AAAA && Creates(pages, maxP, [0], stale, AAAA, 1)
    ensures Shadow(pages, [0], stale', AAAA, 1).Miss? && Writes(pages, maxP, [0], Miss, AAAA, 0)
    ensures forall ok, final, chain' | NewFile(pages, maxP, [0], 0, AAAA, 1, [], ok, final, chain') ::
              ok && Created(pages, maxP, [0], 0, AAAA, 1, [], final, chain')
  {
    EmptyDirectory(pages, maxP, a, b, c);
    EmptySearch(pages, maxP, a, b, c, stale);
    EmptySearch(pages, maxP, a, b, c, stale');
    PlainName();
    AllowedExactly(StoredTaken(pages, maxP), maxP, 0, false);
  }

  // ----- no page is free

  /** A part of eight pages, all of them taken. */
  predicate IsFullPart(pages: seq<Page>) {
    IsEmptyPart(pages, 7, 0xFF, 0, 0)
  }

  lemma FullPartMarks(pages: seq<Page>)
    requires IsFullPart(pages)
    ensures StoredSound(pages, 7, [0]) && FreePages(StoredTaken(pages, 7), 0, 7) == []
  {
    EmptyDirectory(pages, 7, 0xFF, 0, 0);
    var root: seq<Octet> := PageBytes(pages, [0], 0);
    assert ReadAs(pages, 7) == Bitmap([0xFF]) by {
      assert root[3..4] == [0xFF];
    }
    assert [0xFF][..0] == [] && Taken([]) == [];
    assert OctetBits(0xFF) == [true, true, true, true, true, true, true, true];
    NoneFree(StoredTaken(pages, 7), 7);
  }

  lemma NoneFree(u: seq<bool>, maxP: nat)
    requires maxP < |u| && forall p | 0 <= p <= maxP :: u[p]
    ensures FreePages(u, 0, maxP) == []
  {
    if FreePages(u, 0, maxP) != [] {
      FreePagesAreTheFree(u, 0, maxP, FreePages(u, 0, maxP)[0]);
    }
  }

  lemma FullPartEntry(pages: seq<Page>, maxP: nat, ok: bool, final: seq<Page>, chain': seq<nat>)
    requires StoredSound(pages, maxP, [0]) && IsRoom(pages, [0], 0) && !AllFull(pages, [0])
    requires FreePages(StoredTaken(pages, maxP), 0, maxP) == [] && Listing(pages, [0]) == []
    requires NewFile(pages, maxP, [0], 0, AAAA, 1, [], ok, final, chain')
    ensures ok && chain' == [0] && Placed(final, maxP, [0])
    ensures Listing(final, [0]) == [[0x41, 0x41, 0x41, 0x41, 1, 0, 1]]
  {
    assert Enters(StoredTaken(pages, maxP), maxP, 0, false);
    EntryOnPageZero(pages, maxP, [0], 0, AAAA, 1, final, chain');
    OnlyEntry();
  }

  lemma OnlyEntry()
    ensures Inserted([], 0, NewEntry(AAAA, 1, 0, 0)) == [[0x41, 0x41, 0x41, 0x41, 1, 0, 1]]
  {
    assert NewEntry(AAAA, 1, 0, 0) == [0x41, 0x41, 0x41, 0x41, 1, 0, 1];
  }

  /** A file created without data while no page is free starts on page 0. */
  lemma EntryOnPageZero(pages: seq<Page>, maxP: nat, chain: seq<nat>, k: nat, name: seq<Octet>, ext: Octet,
                        final: seq<Page>, chain': seq<nat>)
    requires StoredSound(pages, maxP, chain) && IsRoom(pages, chain, k) && |name| == 4
    requires Created(pages, maxP, chain, k, name, ext, [], final, chain')
    requires FreePages(StoredTaken(pages, maxP), 0, maxP) == []
    ensures chain' == chain && Placed(final, maxP, chain)
    ensures var at := |Entries(pages, chain, k + 1)|;
            && at <= |Listing(pages, chain)|
            && Listing(final, chain) == Inserted(Listing(pages, chain), at, NewEntry(name, ext, 0, 0))
  {
    if chain' != chain {
      FreePagesAreTheFree(StoredTaken(pages, maxP), 0, maxP, chain'[|chain|]);
    }
  }

  /** There a file can be created all the same: it gets an entry with start page 0, the root page. */
  lemma CreatedOnFullPart(pages: seq<Page>, stale: Memory, stale': Memory)
    requires IsFullPart(pages)
    ensures Part(pages, 7, 0, [0], [0]) && IsRoom(pages, [0], 0)
    ensures FreePages(StoredTaken(pages, 7), 0, 7) == [] && Creates(pages, 7, [0], stale, AAAA, 1)
    ensures UpperName(AAAA) == AAAA && Shadow(pages, [0], stale', AAAA, 1).Miss?
            && Writes(pages, 7, [0], Miss, AAAA, 0)
    ensures forall ok, final, chain' | NewFile(pages, 7, [0], 0, AAAA, 1, [], ok, final, chain') ::
              ok && chain' == [0] && Placed(final, 7, [0])
              && Listing(final, [0]) == [[0x41, 0x41, 0x41, 0x41, 1, 0, 1]]
  {
    EmptyDirectory(pages, 7, 0xFF, 0, 0);
    FullPartMarks(pages);
    EmptyCreates(pages, 7, 0xFF, 0, 0, stale, stale');
    forall ok, final, chain' | NewFile(pages, 7, [0], 0, AAAA, 1, [], ok, final, chain')
      ensures ok && chain' == [0] && Placed(final, 7, [0])
      ensures Listing(final, [0]) == [[0x41, 0x41, 0x41, 0x41, 1, 0, 1]]
    {
      FullPartEntry(pages, 7, ok, final, chain');
    }
  }

  // ----- bits that are lost

  /** A part of 24 pages, of which the root page and page 16 are taken. */
  predicate IsLongPart(pages: seq<Page>) {
    IsEmptyPart(pages, 23, 1, 0, 1)
  }

  lemma LongPartMarks(pages: seq<Page>)
    requires IsLongPart(pages)
    ensures StoredSound(pages, 23, [0]) && LosesBits(pages, 23, 0) && StoredTaken(pages, 23)[16]
  {
    EmptyDirectory(pages, 23, 1, 0, 1);
    var root: seq<Octet> := PageBytes(pages, [0], 0);
    assert ReadAs(pages, 23) == Bitmap([1, 0, 1]) by {
      assert root[3..6] == [1, 0, 1];
    }
    TakenAt([1, 0, 1], 0, 0);
    TakenAt([1, 0, 1], 2, 0);
  }

  /** Creating AAAA.1 there, in the root directory, succeeds, and page 16 is free then. */
  lemma BitsLost(pages: seq<Page>, stale: Memory, stale': Memory)
    requires IsLongPart(pages)
    ensures Part(pages, 23, 0, [0], [0]) && StoredTaken(pages, 23)[16]
    ensures UpperName(AAAA) == AAAA && Creates(pages, 23, [0], stale, AAAA, 1)
    ensures Shadow(pages, [0], stale', AAAA, 1).Miss? && IsRoom(pages, [0], 0)
    ensures forall ok, final, chain' | NewFile(pages, 23, [0], 0, AAAA, 1, [], ok, final, chain') ::
              ok && Placed(final, 23, chain') && 16 < |StoredTaken(final, 23)| && !StoredTaken(final, 23)[16]
  {
    LongPartMarks(pages);
    EmptyCreates(pages, 23, 1, 0, 1, stale, stale');
  }
}
