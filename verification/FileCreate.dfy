/** owCreateFile of owfile.c for a regular file on read-write memory, and what it means that the file is
    looked for in the current directory but entered or not by what the root directory has. */
module FileCreate {
  import opened Octets
  import opened BitmapFile
  import opened Directory
  import opened DirectoryEdits
  import opened DirectoryFile
  import opened DirectorySearch
  import opened FileChain
  import opened FileDelete
  import opened FileNames
  import opened FileWrite
  import opened PageBitmap
  import opened RootScanning
  import opened StoredPart

  /** A file that may be created: its name is one, and so is its extension; those of 100 and 101 are for
      other parts. */
  predicate Creatable(name: seq<Octet>, ext: Octet) {
    ValidName(name) && UpperName(name)[0] != 0 && ext <= 102 && ext != 100 && ext != 101
  }

  /** By numbers: extensions up to 99, and 102. */
  lemma CreatableByNumber(name: seq<Octet>, ext: Octet)
    requires |name| == 4
    ensures Creatable(name, ext) <==>
              && (forall j | 0 <= j < 4 :: ValidChar(name[j])) && name[0] != 0 && (ext < 100 || ext == 102)
  {
  }

  /** What the scan of the root directory comes to for a file without data. */
  function Shadow(pages: seq<Page>, root: seq<nat>, stale: Memory, name: seq<Octet>, ext: Octet): (h: Hit)
    requires ValidPages(pages) && IsDirectory(pages, root) && |name| == 4
    ensures h.Hit? ==> HitPlace(pages, root, h)
  {
    InRoot(pages, root, stale, UpperName(name), ext, NumPgs(0))
  }

  /** The room reported for a part with so many free pages: 28 bytes for each, and for one more unless the part
      has no more; and of those one less if there are two or more. */
  function RoomAfter(free: nat, maxP: nat): nat {
    var pages := if free + 1 <= maxP then free + 1 else free;
    if pages > 1 then 28 * (pages - 1) else 28 * pages
  }

  /** The tests that come before anything is written: the name, that the current directory has no such
      file, and those of owWriteFile. `stale` is what is in memory before the search. */
  predicate Creates(pages: seq<Page>, maxP: nat, chain: seq<nat>, stale: Memory, flname: seq<Octet>, ext: Octet)
    requires StoredSound(pages, maxP, chain) && |flname| == 4
  {
    && Creatable(flname, ext) && Search(pages, chain, 0, stale, UpperName(flname), ext).Miss?
    && Tried(pages, maxP, chain, UpperName(flname), 0)
  }

  /** owCreateFile, for extensions other than 102. The file must not be found in the current directory;
      then owWriteFile is called without data. If the scan of the root directory misses, a new file is
      made in the current directory; if it hits, no entry is made, and the call succeeds all the same.
      `stale` and `stale'` are what is in memory before the two searches. */
  method CreateFile(medium: Medium, start: Octet, flname: seq<Octet>, ext: Octet, stale: Memory, stale': Memory,
                    bm: array<Octet>, maxP: nat, ghost chain: seq<nat>, ghost root: seq<nat>)
      returns (ok: bool, maxwrite: nat, ghost chain': seq<nat>, ghost k: nat)
    requires medium.Valid() && bm.Length == BM_SIZE && |flname| == 4 && Part(medium.pages, maxP, start, chain, root)
    requires ext != 102
    modifies medium, bm
    ensures medium.Valid()
    ensures var h := Shadow(old(medium.pages), root, stale', flname, ext);
            ok <==>
              && Creates(old(medium.pages), maxP, chain, stale, flname, ext)
              && Writes(old(medium.pages), maxP, chain, h, UpperName(flname), 0)
    ensures var h := Shadow(old(medium.pages), root, stale', flname, ext);
            if Creates(old(medium.pages), maxP, chain, stale, flname, ext) then
              Outcome(old(medium.pages), maxP, chain, k, root, h, UpperName(flname), ext, [], ok, medium.pages, chain')
            else !ok && medium.pages == old(medium.pages)
    ensures ok ==>
              && maxP < |StoredTaken(old(medium.pages), maxP)|
              && maxwrite == RoomAfter(|FreePages(StoredTaken(old(medium.pages), maxP), 0, maxP)|, maxP)
  {
    ghost var pages := medium.pages;
    chain', k, maxwrite := chain, 0, 0;
    var name;
    ok, name := ValidFileName(flname);
    if !ok || ext > 102 || ext == 100 || ext == 101 {
      return false, 0, chain, 0;
    }
    assert DirPageAt(pages, chain, 0);
    var found, info := FindDirectoryInfo(medium, start, name, ext, stale, chain);
    if found {
      return false, 0, chain, 0;
    }
    maxwrite := ReportRoom(medium, bm, maxP, chain);
    NameIsNoMark(flname);
    ok, chain', k := WriteFile(medium, start, name, ext, [], stale', bm, maxP, chain, root);
  }

  method ReportRoom(medium: Medium, bm: array<Octet>, maxP: nat, ghost chain: seq<nat>) returns (maxwrite: nat)
    requires medium.Valid() && bm.Length == BM_SIZE && Placed(medium.pages, maxP, chain)
    modifies bm
    ensures maxP < |StoredTaken(medium.pages, maxP)|
    ensures maxwrite == RoomAfter(|FreePages(StoredTaken(medium.pages, maxP), 0, maxP)|, maxP)
  {
    var ok := LoadBitmap(medium, bm, maxP, chain);
    SameFree(Taken(bm[..]), StoredTaken(medium.pages, maxP), 0, maxP);
    maxwrite := GetMaxWrite(bm, maxP);
    if maxwrite > PAYLOAD {
      maxwrite := maxwrite - PAYLOAD;
    }
  }

  lemma NameIsNoMark(flname: seq<Octet>)
    requires ValidName(flname)
    ensures !LooksLikeRoot(UpperName(flname))
  {
    assert ValidChar(flname[0]);
  }

  /** Without data a new file gets its entry, unless the directory has no room and just one page is free:
      then that page is marked as taken and the call reports success, if the directory is only the root
      page and the bitmap is there, and otherwise the root page is lost. */
  lemma CreatedUnlessFull(pages: seq<Page>, maxP: nat, chain: seq<nat>, k: nat, name: seq<Octet>, ext: Octet, ok: bool,
                          final: seq<Page>, chain': seq<nat>)
    requires StoredSound(pages, maxP, chain) && IsRoom(pages, chain, k) && |name| == 4 && !LooksLikeRoot(name)
    requires Tried(pages, maxP, chain, name, 0)
    requires NewFile(pages, maxP, chain, k, name, ext, [], ok, final, chain')
    ensures var one := AllFull(pages, chain) && |FreePages(StoredTaken(pages, maxP), 0, maxP)| == 1;
            if !one then ok && Created(pages, maxP, chain, k, name, ext, [], final, chain')
            else if OnlyRootPage(pages, chain) then ok && Unentered(pages, maxP, chain, [], final)
            else !ok && RootLost(pages, maxP, chain, name, ext, [], final)
  {
    AllowedExactly(StoredTaken(pages, maxP), maxP, 0, AllFull(pages, chain));
  }

  /** In the root directory itself the scan agrees with the search, where that is right: for a file it has
      not, a new entry is made. In another directory, a file that is not there is entered exactly when the
      root directory has none of that name either. */
  lemma EnteredExactlyWhen(pages: seq<Page>, maxP: nat, start: nat, chain: seq<nat>, root: seq<nat>, stale: Memory,
                           stale': Memory, flname: seq<Octet>, ext: Octet)
    requires Part(pages, maxP, start, chain, root) && |flname| == 4
    requires Harmless(pages, chain, UpperName(flname), ext) && Harmless(pages, root, UpperName(flname), ext)
    ensures var name, here, there := UpperName(flname), Listing(pages, chain), Listing(pages, root);
            && (Search(pages, chain, 0, stale, name, ext).Miss? <==> FirstMatch(here, name, ext) == |here|)
            && (Shadow(pages, root, stale', flname, ext).Miss? <==> FirstMatch(there, name, ext) == |there|)
            && (Search(pages, chain, 0, stale, name, ext).Miss? ==>
                  (Shadow(pages, root, stale', flname, ext).Miss? <==>
                   start == 0 || FirstMatch(there, name, ext) == |there|))
  {
    if start == 0 {
      OneChain(pages, chain, root);
    }
    HarmlessSearch(pages, chain, stale, UpperName(flname), ext);
    RootScanDecides(pages, root, stale', UpperName(flname), ext, NumPgs(0));
  }

  /** A directory is known by its first page. */
  lemma OneChain(pages: seq<Page>, a: seq<nat>, b: seq<nat>)
    requires ValidPages(pages) && IsDirectory(pages, a) && IsDirectory(pages, b) && a[0] == b[0]
    ensures a == b
  {
    DirectoryIsChain(pages, a);
    DirectoryIsChain(pages, b);
    ChainIsRun(pages, a, -1);
    ChainIsRun(pages, b, -1);
    NoneIsLonger(pages, a[0], a, b);
    NoneIsLonger(pages, a[0], b, a);
  }

  /** A directory that has no page in common with what was edited is as it was. */
  lemma OtherDirectoryKept(pages: seq<Page>, final: seq<Page>, maxP: nat, edited: seq<nat>, chain: seq<nat>)
    requires Placed(pages, maxP, chain) && ValidPages(final) && Untouched(pages, final, maxP, edited)
    requires forall p | p in chain :: p !in edited
    ensures IsDirectory(final, chain) && Listing(final, chain) == Listing(pages, chain)
  {
    forall j | 0 <= j < |chain|
      ensures SameToSearch(pages, final, chain, j)
    {
      assert DirPageAt(pages, chain, j) && chain[j] in chain;
      assert UntouchedAt(pages, final, chain[j]);
      SearchIgnoresBitmap(pages, final, chain, j);
    }
    HeaderTouched(pages, final, chain);
  }
}
