/** owWriteFile of owfile.c for a regular file on read-write memory. Whether an entry is added depends on
    a scan of the root directory, whatever the current directory is. */
module FileWrite {
  import opened Octets
  import opened BitmapFile
  import opened Directory
  import opened DirectoryEdits
  import opened DirectoryFile
  import opened DirectorySearch
  import opened FileChain
  import opened FileDelete
  import opened PageBitmap
  import opened RootScanning
  import opened StoredPart

  // ----- how much may be written

  /** GetMaxWrite, as a function of the pages taken. */
  function MaxWrite(u: seq<bool>, maxP: nat): nat
    requires maxP < |u|
  {
    var cnt := |FreePages(u, 0, maxP)|;
    if (cnt + 1) * PAYLOAD > maxP * PAYLOAD then cnt * PAYLOAD else (cnt + 1) * PAYLOAD
  }

  /** GetMaxWrite: counts the pages not taken, and allows for one page more than that, unless that is
      more than there can be. */
  method GetMaxWrite(bm: array<Octet>, maxP: nat) returns (max: nat)
    requires maxP <= 254 && maxP < 8 * bm.Length
    ensures max == MaxWrite(Taken(bm[..]), maxP)
  {
    var t, bcnt, cnt := 0, 0, 0;
    ghost var u := Taken(bm[..]);
    for i := 0 to maxP + 1
      invariant AtPage(bm[..], i, t, bcnt) && cnt + |FreePages(u, i, maxP)| == |FreePages(u, 0, maxP)|
    {
      t, bcnt := Fetch(bm, i, t, bcnt);
      AdvancePage(bm[..], i, t);
      FreeStep(u, i, maxP);
      if t % 2 == 0 {
        cnt := cnt + 1;
      }
      t := t / 2;
    }
    max := if (cnt + 1) * PAYLOAD > maxP * PAYLOAD then cnt * PAYLOAD else (cnt + 1) * PAYLOAD;
  }

  /** The two tests of owWriteFile for the length of the data; `full` says that the directory page the
      entry would go to has no room. */
  predicate Allowed(u: seq<bool>, maxP: nat, len: nat, full: bool)
    requires maxP < |u|
  {
    var m := MaxWrite(u, maxP);
    m != 0 && len <= m && (full ==> m > PAYLOAD && len <= m - PAYLOAD)
  }

  /** There are pages for the data and for the entry. */
  predicate Enough(u: seq<bool>, maxP: nat, len: nat, full: bool)
    requires maxP < |u|
  {
    |FreePages(u, 0, maxP)| >= PagesFor(len) + if full then 1 else 0
  }

  /** Then the tests are passed. They are also passed by what takes just one page more than are free,
      unless there is none and the directory has no room, or all pages but one are free; and by nothing
      else. */
  lemma AllowedExactly(u: seq<bool>, maxP: nat, len: nat, full: bool)
    requires maxP < |u|
    ensures Enough(u, maxP, len, full) ==> Allowed(u, maxP, len, full)
    ensures var cnt := |FreePages(u, 0, maxP)|;
            Allowed(u, maxP, len, full) && !Enough(u, maxP, len, full) <==>
              && cnt + 1 <= maxP && PagesFor(len) + (if full then 1 else 0) == cnt + 1 && (full ==> cnt > 0)
  {
  }

  /** A new file gets its entry: there are pages enough, or it has no data, which takes no page to be
      free, and the directory has room. */
  predicate Enters(u: seq<bool>, maxP: nat, len: nat, full: bool)
    requires maxP < |u|
  {
    Enough(u, maxP, len, full) || (len == 0 && !full)
  }

  /** What passes the tests and does not get its entry: where the directory has room, the data cannot be
      laid out; where it has none, the data takes the last free page, and page 0 is taken for the
      directory to go on to. */
  lemma AllowedWithoutEntry(u: seq<bool>, maxP: nat, len: nat, full: bool)
    requires maxP < |u| && u[0] && Allowed(u, maxP, len, full) && !Enters(u, maxP, len, full)
    ensures var free := FreePages(u, 0, maxP);
            && (!full ==> len > 0 && !CanLay(u, First(free), maxP, len))
            && (full ==> free != [] && free[0] <= maxP && CanLay(u, free[0], maxP, len)
                         && |Rest(u, free[0], maxP)| == PagesFor(len) - 1)
  {
    AllowedExactly(u, maxP, len, full);
    if FreePages(u, 0, maxP) != [] {
      ClaimFirst(u, maxP);
    }
  }

  // ----- laying out the data

  /** The data is on the pages found for it, which are newly taken; no other page has changed. Without
      data just the start page is taken. */
  predicate DataLaid(pages: seq<Page>, maxP: nat, u: seq<bool>, spage: nat, data: seq<Octet>, pages1: seq<Page>,
                     u1: seq<bool>)
    requires maxP < |u|
  {
    && spage <= maxP && PagesFor(|data|) <= |Rest(u, spage, maxP)| + 1
    && if data == [] then pages1 == pages && u1 == u[spage := true]
       else Between(pages, pages1, data, u, u1, spage, maxP, PagesFor(|data|))
  }

  /** The pages the data goes to. */
  function DataPages(u: seq<bool>, spage: nat, maxP: nat, len: nat): seq<nat>
    requires spage <= maxP < |u| && PagesFor(len) <= |Rest(u, spage, maxP)| + 1
  {
    Laid(u, spage, maxP, PagesFor(len))
  }

  /** Of those, the ones that are written. */
  function WrittenPages(u: seq<bool>, spage: nat, maxP: nat, len: nat): seq<nat>
    requires spage <= maxP < |u| && PagesFor(len) <= |Rest(u, spage, maxP)| + 1
  {
    if len == 0 then [] else DataPages(u, spage, maxP, len)
  }

  /** ExtWrite has a start page on the part and, for data, what it needs. */
  predicate CanLay(u: seq<bool>, spage: nat, maxP: nat, len: nat)
    requires maxP < |u|
  {
    spage <= maxP && (len > 0 ==> CanWrite(u, spage, maxP, PagesFor(len)))
  }

  method LayData(medium: Medium, spage: Octet, data: seq<Octet>, bm: array<Octet>, maxP: nat) returns (ok: bool)
    requires medium.Valid() && maxP + 1 == |medium.pages| && maxP <= 254 && maxP < 8 * bm.Length
    modifies medium, bm
    ensures medium.Valid() && maxP < |Taken(old(bm[..]))| && (ok <==> CanLay(Taken(old(bm[..])), spage, maxP, |data|))
    ensures ok ==> DataLaid(old(medium.pages), maxP, Taken(old(bm[..])), spage, data, medium.pages, Taken(bm[..]))
    ensures !ok ==> OthersKept(old(medium.pages), medium.pages, Taken(old(bm[..])), spage)
    ensures data == [] ==> medium.pages == old(medium.pages)
  {
    ok := ExtWrite(medium, spage, data, bm, maxP);
  }

  lemma LaidWereFree(u: seq<bool>, spage: nat, maxP: nat, len: nat)
    requires spage <= maxP < |u| && PagesFor(len) <= |Rest(u, spage, maxP)| + 1
    ensures var laid := DataPages(u, spage, maxP, len);
            spage in laid && forall p | p in laid && p != spage :: p <= maxP && !u[p]
  {
    var rest, laid := Rest(u, spage, maxP), DataPages(u, spage, maxP, len);
    assert laid[0] == spage;
    forall p | p in laid && p != spage
      ensures p <= maxP && !u[p]
    {
      var i :| 0 <= i < |laid| && laid[i] == p;
      assert p == rest[i - 1];
      FreePagesAreTheFree(u[spage := true], 0, maxP, p);
    }
  }

  /** What the data has been laid over: pages free until then, and the start page. */
  lemma LaidMarks(pages: seq<Page>, maxP: nat, u: seq<bool>, spage: nat, data: seq<Octet>, pages1: seq<Page>,
                  u1: seq<bool>)
    requires maxP < |u| && DataLaid(pages, maxP, u, spage, data, pages1, u1)
    ensures u1 == MarkAll(u, DataPages(u, spage, maxP, |data|), true)
    ensures FreePages(u1, 0, maxP) == Rest(u, spage, maxP)[PagesFor(|data|) - 1..]
  {
    if data == [] {
      MarkOne(u, spage);
    }
  }

  lemma MarkOne(u: seq<bool>, p: nat)
    requires p < |u|
    ensures MarkAll(u, [p], true) == u[p := true]
  {
    assert [p][..0] == [];
  }

  lemma LaidFacts(pages: seq<Page>, maxP: nat, u: seq<bool>, spage: nat, data: seq<Octet>, pages1: seq<Page>,
                  u1: seq<bool>)
    requires maxP < |u| && DataLaid(pages, maxP, u, spage, data, pages1, u1)
    ensures var laid := DataPages(u, spage, maxP, |data|);
            && spage in laid && (forall p | p in laid && p != spage :: p <= maxP && !u[p])
            && |u1| == |u| && forall p | 0 <= p < |u| :: u1[p] == (u[p] || p in laid)
    ensures FreePages(u1, 0, maxP) == Rest(u, spage, maxP)[PagesFor(|data|) - 1..]
    ensures |pages1| == |pages|
    ensures forall p | 0 <= p < |pages| && p !in WrittenPages(u, spage, maxP, |data|) :: pages1[p] == pages[p]
  {
    LaidWereFree(u, spage, maxP, |data|);
    LaidMarks(pages, maxP, u, spage, data, pages1, u1);
  }

  /** Laying out data leaves a sound part and its directory as they were, if the start page was free, or
      apart from both, or is not written. */
  lemma LayingKeepsSound(pages: seq<Page>, maxP: nat, chain: seq<nat>, u: seq<bool>, spage: nat, data: seq<Octet>,
                         pages1: seq<Page>, u1: seq<bool>)
    requires Sound(pages, maxP, chain, u) && DataLaid(pages, maxP, u, spage, data, pages1, u1) && ValidPages(pages1)
    requires data == [] || !u[spage] || Apart(pages, maxP, chain, [spage])
    ensures Sound(pages1, maxP, chain, u1) && SameDirectory(pages, pages1, chain)
            && Listing(pages1, chain) == Listing(pages, chain)
    ensures BitmapPages(pages1, maxP) == BitmapPages(pages, maxP)
  {
    var written := WrittenPages(u, spage, maxP, |data|);
    LaidFacts(pages, maxP, u, spage, data, pages1, u1);
    assert spage in [spage];
    forall j | 0 <= j < |chain|
      ensures SameToSearch(pages, pages1, chain, j)
    {
      assert DirPageAt(pages, chain, j) && chain[j] in chain && chain[j] !in written;
    }
    HeaderTouched(pages, pages1, chain);
    assert 0 !in written;
    EditKeepsPlaced(pages, maxP, chain, pages1, chain);
  }

  /** Pages that keep the data as it was laid out read back as they did. */
  lemma LaidReadsBack(pages: seq<Page>, maxP: nat, u: seq<bool>, spage: nat, data: seq<Octet>, pages1: seq<Page>,
                      u1: seq<bool>, final: seq<Page>)
    requires maxP < |u| && u[0] && DataLaid(pages, maxP, u, spage, data, pages1, u1) && data != []
    requires FreePages(u, 0, maxP) != [] && ValidPages(final) && |final| == |pages1|
    requires forall p | p in DataPages(u, spage, maxP, |data|) && p < |final| :: final[p] == pages1[p]
    ensures ReadsBackAs(final, spage, data) <==> PagesFor(|data|) == 1 || First(FreePages(u, 0, maxP)) != spage
  {
    var laid := DataPages(u, spage, maxP, |data|);
    forall k | 0 <= k < |laid|
      ensures PageIs(final, laid[k], data, k, Continuation(u, spage, maxP, PagesFor(|data|), k))
    {
      assert PageIs(pages1, laid[k], data, k, Continuation(u, spage, maxP, PagesFor(|data|), k));
      assert laid[k] in laid;
    }
    FileReadsBack(final, final, data, u, u1, spage, maxP);
  }

  // ----- a new file

  /** The entry of a new file: the name, the extension, the page found for it, and the number of its
      pages, at least one. */
  function NewEntry(name: seq<Octet>, ext: Octet, spage: Octet, len: nat): (e: Entry)
    requires |name| == 4
  {
    name + [ext, spage, PagesFor(len) % 256]
  }

  /** The short way of storing the bitmap loses the bits of pages 16 and above. */
  predicate LosesBits(pages: seq<Page>, maxP: nat, dpg: nat)
    requires RootShape(pages) && pages[0].Holding?
  {
    dpg == 0 && maxP >= 16 && IsLocal(pages[0].bytes)
  }

  /** A file takes the pages its data is laid over, and those its directory has grown by; no other. If
      bits are lost, no page from 16 on is taken then. */
  predicate Claimed(u: seq<bool>, v: seq<bool>, maxP: nat, laid: seq<nat>, chain: seq<nat>, chain': seq<nat>,
                    lost: bool) {
    && maxP < |u| && maxP < |v|
    && forall p | 0 <= p <= maxP ::
         v[p] == ((u[p] || p in laid || (p in chain' && p !in chain)) && !(lost && p >= 16))
  }

  /** The chain has grown by at most one page, free until then and not one the data is on. */
  predicate GrownBy(u: seq<bool>, maxP: nat, laid: seq<nat>, chain: seq<nat>, chain': seq<nat>) {
    || chain' == chain
    || (|chain'| == |chain| + 1 && chain' == chain + [chain'[|chain|]]
        && var p := chain'[|chain|]; p <= maxP < |u| && !u[p] && p !in laid)
  }

  /** Exactly one entry has been added to the directory, at the page with room, and no page outside the
      directory, the bitmap and the given pages has been touched. */
  predicate EntryMade(pages: seq<Page>, maxP: nat, chain: seq<nat>, k: nat, entry: Entry, written: seq<nat>,
                      final: seq<Page>, chain': seq<nat>)
    requires Placed(pages, maxP, chain) && k < |chain|
  {
    var at := |Entries(pages, chain, k + 1)|;
    && Placed(final, maxP, chain') && BitmapPages(final, maxP) == BitmapPages(pages, maxP)
    && Untouched(pages, final, maxP, chain' + written)
    && at <= |Listing(pages, chain)| && Listing(final, chain') == Inserted(Listing(pages, chain), at, entry)
    && NewPlace(final, chain, k, chain', at)
  }

  /** A file has been created with the data, on the first free page and the next ones, or without data on
      page 0 if there is none: an entry for it has been made; the data reads back exactly when it fits on
      one page; the stored bitmap has just the pages of the file and those the directory has grown by
      newly taken, as far as no bits have been lost; and the part is in order by it exactly when none of
      the directory's have. */
  ghost predicate Created(pages: seq<Page>, maxP: nat, chain: seq<nat>, k: nat, name: seq<Octet>, ext: Octet,
                          data: seq<Octet>, final: seq<Page>, chain': seq<nat>)
    requires StoredSound(pages, maxP, chain) && IsRoom(pages, chain, k) && |name| == 4
  {
    var u := StoredTaken(pages, maxP);
    var spage, lost := First(FreePages(u, 0, maxP)), LosesBits(pages, maxP, chain[k]);
    && (FreePages(u, 0, maxP) == [] ==> data == [])
    && spage < 256 && spage <= maxP && PagesFor(|data|) <= |Rest(u, spage, maxP)| + 1
    && var laid, written := DataPages(u, spage, maxP, |data|), WrittenPages(u, spage, maxP, |data|);
    && EntryMade(pages, maxP, chain, k, NewEntry(name, ext, spage, |data|), written, final, chain')
    && GrownBy(u, maxP, laid, chain, chain')
    && (data != [] ==> (ReadsBackAs(final, spage, data) <==> PagesFor(|data|) == 1))
    && Claimed(u, StoredTaken(final, maxP), maxP, laid, chain, chain', lost)
    && (StoredSound(final, maxP, chain') <==> !lost || forall p | p in chain' :: p < 16)
  }

  /** The part is in order by its own bitmap, with just the pages of the file and those the directory
      has grown by newly taken. */
  predicate TakenFor(u: seq<bool>, maxP: nat, laid: seq<nat>, chain: seq<nat>, final: seq<Page>, chain': seq<nat>)
  {
    StoredSound(final, maxP, chain') && Claimed(u, StoredTaken(final, maxP), maxP, laid, chain, chain', false)
  }

  /** So it is exactly when no bits are lost, or there was none to lose. */
  lemma TakenExactly(pages: seq<Page>, maxP: nat, chain: seq<nat>, k: nat, name: seq<Octet>, ext: Octet,
                     data: seq<Octet>, final: seq<Page>, chain': seq<nat>)
    requires StoredSound(pages, maxP, chain) && IsRoom(pages, chain, k) && |name| == 4
    requires Created(pages, maxP, chain, k, name, ext, data, final, chain')
    ensures var u := StoredTaken(pages, maxP);
            var laid := DataPages(u, First(FreePages(u, 0, maxP)), maxP, |data|);
            TakenFor(u, maxP, laid, chain, final, chain') <==>
              || !LosesBits(pages, maxP, chain[k])
              || forall p | 16 <= p <= maxP :: !u[p] && p !in laid && p !in chain'
  {
    var u, v := StoredTaken(pages, maxP), StoredTaken(final, maxP);
    var laid := DataPages(u, First(FreePages(u, 0, maxP)), maxP, |data|);
    if LosesBits(pages, maxP, chain[k]) {
      ChainInRange(final, maxP, chain');
      if Claimed(u, v, maxP, laid, chain, chain', false) {
        forall p | 16 <= p <= maxP
          ensures !u[p] && p !in laid && (p in chain' ==> p in chain)
        {
          assert !v[p];
        }
        MarkedInChain(pages, maxP, chain, u);
      }
    }
  }

  lemma ChainInRange(pages: seq<Page>, maxP: nat, chain: seq<nat>)
    requires Placed(pages, maxP, chain)
    ensures forall p | p in chain :: p <= maxP
  {
    forall p | p in chain
      ensures p <= maxP
    {
      var j :| 0 <= j < |chain| && chain[j] == p;
      assert DirPageAt(pages, chain, j);
    }
  }

  lemma MarkedInChain(pages: seq<Page>, maxP: nat, chain: seq<nat>, u: seq<bool>)
    requires Sound(pages, maxP, chain, u)
    ensures forall p | p in chain :: p < |u| && u[p]
  {
  }

  /** The two halves: the data laid out from the buffer's view u of the bitmap, and the entry added. */
  predicate WrittenNew(pages: seq<Page>, maxP: nat, chain: seq<nat>, k: nat, name: seq<Octet>, ext: Octet,
                       data: seq<Octet>, u: seq<bool>, pages1: seq<Page>, u1: seq<bool>, final: seq<Page>,
                       chain': seq<nat>, bm: seq<Octet>)
    requires |name| == 4 && |bm| == BM_SIZE
  {
    && Sound(pages, maxP, chain, u) && IsRoom(pages, chain, k) && ValidPages(pages1)
    && var spage := First(FreePages(u, 0, maxP));
    && (FreePages(u, 0, maxP) == [] ==> data == [])
    && spage < 256 && DataLaid(pages, maxP, u, spage, data, pages1, u1)
    && Sound(pages1, maxP, chain, u1) && IsRoom(pages1, chain, k)
    && EntryAdded(pages1, maxP, chain, k, u1, NewEntry(name, ext, spage, |data|), final, chain', Taken(bm))
    && (|pages1[chain[k]].bytes| == MAX_PACKET ==> FreePages(u1, 0, maxP) != [])
    && ReadAs(final, maxP) == Bitmap(StoredBytes(bm, maxP, chain[k] == 0 && IsLocal(pages1[0].bytes)))
  }

  /** The data has taken the last free page, and the entry has no page to go to. */
  predicate WrittenWithoutEntry(pages: seq<Page>, maxP: nat, chain: seq<nat>, k: nat, name: seq<Octet>, ext: Octet,
                                data: seq<Octet>, u: seq<bool>, pages1: seq<Page>, u1: seq<bool>, ok: bool,
                                final: seq<Page>, bm: seq<Octet>)
    requires |name| == 4 && |bm| == BM_SIZE
  {
    && Sound(pages, maxP, chain, u) && IsRoom(pages, chain, k) && ValidPages(pages1)
    && var spage := First(FreePages(u, 0, maxP));
    && spage < 256 && DataLaid(pages, maxP, u, spage, data, pages1, u1)
    && Sound(pages1, maxP, chain, u1) && Taken(bm) == u1
    && EntryLost(pages1, chain, k, NewEntry(name, ext, spage, |data|), bm, ok, final)
  }

  /** The data and the entry of a new file. */
  method WriteNew(medium: Medium, dpg: Octet, name: seq<Octet>, ext: Octet, data: seq<Octet>, bm: array<Octet>,
                  maxP: nat, ghost chain: seq<nat>, ghost k: nat)
      returns (ok: bool, ghost chain': seq<nat>, ghost pages1: seq<Page>, ghost u1: seq<bool>)
    requires medium.Valid() && bm.Length == BM_SIZE && Sound(medium.pages, maxP, chain, Taken(bm[..])) && |name| == 4
    requires IsRoom(medium.pages, chain, k) && dpg as nat == chain[k]
    requires Allowed(Taken(bm[..]), maxP, |data|, |PageBytes(medium.pages, chain, k)| == MAX_PACKET)
    modifies medium, bm
    ensures medium.Valid() && maxP < |Taken(old(bm[..]))|
    ensures var u, full := Taken(old(bm[..])), |PageBytes(old(medium.pages), chain, k)| == MAX_PACKET;
            && (Enters(u, maxP, |data|, full) ==>
                  && ok && WrittenNew(old(medium.pages), maxP, chain, k, name, ext, data, u, pages1, u1, medium.pages,
                                      chain', bm[..]))
            && (!Enters(u, maxP, |data|, full) && full ==>
                  WrittenWithoutEntry(old(medium.pages), maxP, chain, k, name, ext, data, u, pages1, u1, ok,
                                      medium.pages, bm[..]))
            && (!Enters(u, maxP, |data|, full) && !full ==>
                  && !ok && data != []
                  && OthersKept(old(medium.pages), medium.pages, u, First(FreePages(u, 0, maxP))))
  {
    ghost var pages, u := medium.pages, Taken(bm[..]);
    ghost var full := |PageBytes(pages, chain, k)| == MAX_PACKET;
    chain' := chain;
    var spage, next := FindEmpties(bm, maxP);
    PlaceForData(u, maxP, |data|, full);
    ok := LayData(medium, spage, data, bm, maxP);
    pages1, u1 := medium.pages, Taken(bm[..]);
    if !ok {
      return;
    }
    ReadyForEntry(pages, maxP, chain, k, u, spage, data, pages1, u1);
    ok, chain' := AddEntry(medium, dpg, NewEntry(name, ext, spage, |data|), bm, maxP, chain, k);
  }

  /** Where a new file goes, and what is left for the directory. */
  lemma PlaceForData(u: seq<bool>, maxP: nat, len: nat, full: bool)
    requires maxP < |u| && u[0] && Allowed(u, maxP, len, full)
    ensures var free := FreePages(u, 0, maxP); var spage := First(free);
            && spage <= maxP && (free == [] ==> spage == 0) && (free != [] ==> !u[spage] && spage != 0)
            && (CanLay(u, spage, maxP, len) <==> full || Enters(u, maxP, len, full))
            && (CanLay(u, spage, maxP, len) ==>
                  && (free == [] ==> len == 0) && PagesFor(len) <= |Rest(u, spage, maxP)| + 1
                  && (full ==> (Enters(u, maxP, len, full) <==> Rest(u, spage, maxP)[PagesFor(len) - 1..] != [])))
  {
    AllowedExactly(u, maxP, len, full);
    if FreePages(u, 0, maxP) != [] {
      ClaimFirst(u, maxP);
    } else {
      assert u[0 := true] == u;
    }
  }

  /** After the data has been laid out the part is still in order and the page with room the same. */
  lemma ReadyForEntry(pages: seq<Page>, maxP: nat, chain: seq<nat>, k: nat, u: seq<bool>, spage: nat, data: seq<Octet>,
                      pages1: seq<Page>, u1: seq<bool>)
    requires Sound(pages, maxP, chain, u) && IsRoom(pages, chain, k) && ValidPages(pages1)
    requires DataLaid(pages, maxP, u, spage, data, pages1, u1) && (data == [] || !u[spage])
    ensures Sound(pages1, maxP, chain, u1) && IsRoom(pages1, chain, k)
    ensures |PageBytes(pages1, chain, k)| == |PageBytes(pages, chain, k)|
    ensures FreePages(u1, 0, maxP) == Rest(u, spage, maxP)[PagesFor(|data|) - 1..]
  {
    LayingKeepsSound(pages, maxP, chain, u, spage, data, pages1, u1);
    LaidFacts(pages, maxP, u, spage, data, pages1, u1);
    RoomKept(pages, chain, k, pages1);
  }

  /** The page with room is still the same after the data has been laid out. */
  lemma RoomKept(pages: seq<Page>, chain: seq<nat>, k: nat, pages1: seq<Page>)
    requires ValidPages(pages) && IsDirectory(pages, chain) && ValidPages(pages1) && IsDirectory(pages1, chain)
    requires IsRoom(pages, chain, k) && SameDirectory(pages, pages1, chain)
    ensures IsRoom(pages1, chain, k) && |PageBytes(pages1, chain, k)| == |PageBytes(pages, chain, k)|
  {
    forall j | 0 <= j <= k
      ensures DirPageAt(pages1, chain, j) && |PageBytes(pages1, chain, j)| == |PageBytes(pages, chain, j)|
      ensures j < k ==> FullPage(pages1, chain, j)
    {
      assert SameToSearch(pages, pages1, chain, j) && DirPageAt(pages1, chain, j);
      assert j < k ==> FullPage(pages, chain, j);
    }
  }

  /** The stored bitmap and the buffer show the same free pages, and lead to the same places. */
  lemma SameDataPages(u: seq<bool>, v: seq<bool>, spage: nat, maxP: nat)
    requires Agree(u, v, maxP) && spage <= maxP
    ensures FreePages(u, 0, maxP) == FreePages(v, 0, maxP) && Rest(u, spage, maxP) == Rest(v, spage, maxP)
  {
    SameFree(u, v, 0, maxP);
    SameFree(u[spage := true], v[spage := true], 0, maxP);
  }

  lemma GrownPage(pages: seq<Page>, maxP: nat, chain: seq<nat>, k: nat, u: seq<bool>, e: Entry, final: seq<Page>,
                  chain': seq<nat>, u': seq<bool>)
    requires Sound(pages, maxP, chain, u) && IsRoom(pages, chain, k)
             && EntryAdded(pages, maxP, chain, k, u, e, final, chain', u')
    requires |pages[chain[k]].bytes| == MAX_PACKET ==> FreePages(u, 0, maxP) != []
    ensures |u'| == |u| && forall p | 0 <= p < |u| :: u'[p] == (u[p] || (p in chain' && p !in chain))
    ensures chain' != chain ==> |chain'| == |chain| + 1 && chain' == chain + [chain'[|chain|]]
    ensures chain' != chain ==> chain'[|chain|] <= maxP && !u[chain'[|chain|]]
  {
    if |pages[chain[k]].bytes| == MAX_PACKET {
      FreePagesAreTheFree(u, 0, maxP, First(FreePages(u, 0, maxP)));
      assert chain[k] in chain;
    }
  }

  /** The pages of the data are none of the directory's, the bitmap's or the root page. */
  lemma DataStays(pages: seq<Page>, maxP: nat, chain: seq<nat>, u: seq<bool>, spage: nat, data: seq<Octet>,
                  pages1: seq<Page>, u1: seq<bool>, final: seq<Page>, chain': seq<nat>)
    requires Sound(pages, maxP, chain, u) && DataLaid(pages, maxP, u, spage, data, pages1, u1)
    requires data == [] || !u[spage]
    requires Placed(pages1, maxP, chain) && BitmapPages(pages1, maxP) == BitmapPages(pages, maxP)
    requires Untouched(pages1, final, maxP, chain') && ValidPages(final)
    requires forall q | q in chain' && q !in chain :: q < |u1| && !u1[q]
    ensures forall p | p in WrittenPages(u, spage, maxP, |data|) :: p < |final| && final[p] == pages1[p]
    ensures Untouched(pages, final, maxP, chain' + WrittenPages(u, spage, maxP, |data|))
  {
    LaidFacts(pages, maxP, u, spage, data, pages1, u1);
    var written := WrittenPages(u, spage, maxP, |data|);
    forall p | p in written
      ensures p < |final| && final[p] == pages1[p]
    {
      assert p <= maxP && !u[p] && u1[p];
      assert UntouchedAt(pages1, final, p);
    }
    forall p | 0 <= p < |pages| && p !in chain' + written && p !in BitmapPages(pages, maxP)
      ensures UntouchedAt(pages, final, p)
    {
      assert UntouchedAt(pages1, final, p) && pages1[p] == pages[p];
    }
  }

  lemma ClaimedByWriting(u0: seq<bool>, u: seq<bool>, maxP: nat, laid: seq<nat>, u1: seq<bool>, u': seq<bool>,
                         v: seq<bool>, chain: seq<nat>, chain': seq<nat>, lost: bool)
    requires Agree(u, u0, maxP) && maxP < |v| && |u1| == |u| && |u'| == |u|
    requires forall p | 0 <= p <= maxP :: v[p] == (u'[p] && !(lost && p >= 16))
    requires forall p | 0 <= p < |u| :: u1[p] == (u[p] || p in laid)
    requires forall p | 0 <= p < |u| :: u'[p] == (u1[p] || (p in chain' && p !in chain))
    ensures Claimed(u0, v, maxP, laid, chain, chain', lost)
  {
  }

  /** A part that is in order by the buffer is so by the stored bitmap exactly when no bits of its
      directory are lost. */
  lemma SoundAsStored(final: seq<Page>, maxP: nat, chain: seq<nat>, u: seq<bool>, lost: bool)
    requires Sound(final, maxP, chain, u) && maxP < |StoredTaken(final, maxP)|
    requires forall p | 0 <= p <= maxP :: StoredTaken(final, maxP)[p] == (u[p] && !(lost && p >= 16))
    requires lost ==> BitmapPages(final, maxP) == []
    ensures StoredSound(final, maxP, chain) <==> !lost || forall p | p in chain :: p < 16
  {
    ChainInRange(final, maxP, chain);
    forall p | p in BitmapPages(final, maxP)
      ensures p <= maxP
    {
      BitmapPageInRange(final, maxP, p);
    }
  }

  lemma GrownAside(u: seq<bool>, u1: seq<bool>, maxP: nat, laid: seq<nat>, chain: seq<nat>, chain': seq<nat>)
    requires maxP < |u| == |u1| && forall p | 0 <= p < |u| :: u1[p] == (u[p] || p in laid)
    requires chain' != chain ==> |chain'| == |chain| + 1 && chain' == chain + [chain'[|chain|]]
    requires chain' != chain ==> chain'[|chain|] <= maxP && !u1[chain'[|chain|]]
    ensures GrownBy(u, maxP, laid, chain, chain')
    ensures forall q | q in chain' && q !in chain :: q < |u1| && !u1[q]
  {
  }

  lemma NewEntryStays(pages: seq<Page>, maxP: nat, chain: seq<nat>, k: nat, entry: Entry, data: seq<Octet>, spage: nat,
                      u: seq<bool>, pages1: seq<Page>, u1: seq<bool>, final: seq<Page>, chain': seq<nat>, u': seq<bool>)
    requires Sound(pages, maxP, chain, u) && DataLaid(pages, maxP, u, spage, data, pages1, u1)
    requires Sound(pages1, maxP, chain, u1) && IsRoom(pages1, chain, k) && (data == [] || !u[spage])
    requires BitmapPages(pages1, maxP) == BitmapPages(pages, maxP)
    requires ValidPages(final) && EntryAdded(pages1, maxP, chain, k, u1, entry, final, chain', u')
    requires |pages1[chain[k]].bytes| == MAX_PACKET ==> FreePages(u1, 0, maxP) != []
    ensures Untouched(pages, final, maxP, chain' + WrittenPages(u, spage, maxP, |data|))
    ensures GrownBy(u, maxP, DataPages(u, spage, maxP, |data|), chain, chain')
    ensures |final| == |pages1|
            && forall p | p in WrittenPages(u, spage, maxP, |data|) && p < |final| :: final[p] == pages1[p]
  {
    LaidFacts(pages, maxP, u, spage, data, pages1, u1);
    GrownPage(pages1, maxP, chain, k, u1, entry, final, chain', u');
    GrownAside(u, u1, maxP, DataPages(u, spage, maxP, |data|), chain, chain');
    DataStays(pages, maxP, chain, u, spage, data, pages1, u1, final, chain');
  }

  /** What the two halves come to: the entry, */
  lemma NewEntryMade(pages: seq<Page>, maxP: nat, chain: seq<nat>, k: nat, entry: Entry, data: seq<Octet>, spage: nat,
                     u: seq<bool>, pages1: seq<Page>, u1: seq<bool>, final: seq<Page>, chain': seq<nat>, u': seq<bool>)
    requires Sound(pages, maxP, chain, u) && IsRoom(pages, chain, k)
             && DataLaid(pages, maxP, u, spage, data, pages1, u1)
    requires ValidPages(pages1) && Sound(pages1, maxP, chain, u1) && IsRoom(pages1, chain, k)
    requires data == [] || !u[spage]
    requires EntryAdded(pages1, maxP, chain, k, u1, entry, final, chain', u')
    requires |pages1[chain[k]].bytes| == MAX_PACKET ==> FreePages(u1, 0, maxP) != []
    ensures EntryMade(pages, maxP, chain, k, entry, WrittenPages(u, spage, maxP, |data|), final, chain')
    ensures GrownBy(u, maxP, DataPages(u, spage, maxP, |data|), chain, chain')
    ensures |final| == |pages1|
            && forall p | p in WrittenPages(u, spage, maxP, |data|) && p < |final| :: final[p] == pages1[p]
  {
    LayingKeepsSound(pages, maxP, chain, u, spage, data, pages1, u1);
    NewEntryStays(pages, maxP, chain, k, entry, data, spage, u, pages1, u1, final, chain', u');
    SameEntriesToRoom(pages, pages1, chain, k);
  }

  lemma NewStored(final: seq<Page>, maxP: nat, chain': seq<nat>, u': seq<bool>, bm: seq<Octet>, short: bool)
    requires Sound(final, maxP, chain', u') && |bm| == BM_SIZE && Taken(bm) == u' && (short ==> maxP < 32)
    requires short ==> BitmapPages(final, maxP) == []
    requires ReadAs(final, maxP) == Bitmap(StoredBytes(bm, maxP, short))
    ensures var lost, v := short && maxP >= 16, StoredTaken(final, maxP);
            && maxP < |v| && (forall p | 0 <= p <= maxP :: v[p] == (u'[p] && !(lost && p >= 16)))
            && (StoredSound(final, maxP, chain') <==> !lost || forall p | p in chain' :: p < 16)
  {
    ShortTaken(bm, maxP, short);
    SoundAsStored(final, maxP, chain', u', short && maxP >= 16);
  }

  lemma LocalIsSmall(pages: seq<Page>, maxP: nat, chain: seq<nat>)
    requires Placed(pages, maxP, chain) && IsLocal(pages[0].bytes)
    ensures maxP < 32 && BitmapPages(pages, maxP) == []
  {
  }

  /** and the marks. */
  lemma NewMarks(pages: seq<Page>, maxP: nat, chain: seq<nat>, k: nat, entry: Entry, laid: seq<nat>, u0: seq<bool>,
                 u: seq<bool>, pages1: seq<Page>, u1: seq<bool>, final: seq<Page>, chain': seq<nat>, bm: seq<Octet>)
    requires Sound(pages1, maxP, chain, u1) && IsRoom(pages1, chain, k) && |bm| == BM_SIZE && Agree(u, u0, maxP)
             && |u1| == |u|
    requires forall p | 0 <= p < |u| :: u1[p] == (u[p] || p in laid)
    requires EntryAdded(pages1, maxP, chain, k, u1, entry, final, chain', Taken(bm))
    requires |pages1[chain[k]].bytes| == MAX_PACKET ==> FreePages(u1, 0, maxP) != []
    requires ReadAs(final, maxP) == Bitmap(StoredBytes(bm, maxP, chain[k] == 0 && IsLocal(pages1[0].bytes)))
    ensures Claimed(u0, StoredTaken(final, maxP), maxP, laid, chain, chain', LosesBits(pages1, maxP, chain[k]))
    ensures StoredSound(final, maxP, chain') <==>
              !LosesBits(pages1, maxP, chain[k]) || forall p | p in chain' :: p < 16
  {
    if IsLocal(pages1[0].bytes) {
      LocalIsSmall(pages1, maxP, chain);
    }
    GrownPage(pages1, maxP, chain, k, u1, entry, final, chain', Taken(bm));
    NewStored(final, maxP, chain', Taken(bm), bm, chain[k] == 0 && IsLocal(pages1[0].bytes));
    ClaimedByWriting(u0, u, maxP, laid, u1, Taken(bm), StoredTaken(final, maxP), chain, chain',
                     LosesBits(pages1, maxP, chain[k]));
  }

  lemma NewIsCreated(pages: seq<Page>, maxP: nat, chain: seq<nat>, k: nat, name: seq<Octet>, ext: Octet,
                     data: seq<Octet>, u: seq<bool>, pages1: seq<Page>, u1: seq<bool>, final: seq<Page>,
                     chain': seq<nat>, bm: seq<Octet>)
    requires StoredSound(pages, maxP, chain) && |name| == 4 && |bm| == BM_SIZE && IsRoom(pages, chain, k)
    requires Agree(u, StoredTaken(pages, maxP), maxP)
    requires WrittenNew(pages, maxP, chain, k, name, ext, data, u, pages1, u1, final, chain', bm)
    ensures Created(pages, maxP, chain, k, name, ext, data, final, chain')
  {
    var spage := First(FreePages(u, 0, maxP));
    var entry := NewEntry(name, ext, spage, |data|);
    if FreePages(u, 0, maxP) != [] {
      ClaimFirst(u, maxP);
    }
    SameDataPages(u, StoredTaken(pages, maxP), spage, maxP);
    LaidFacts(pages, maxP, u, spage, data, pages1, u1);
    NewEntryMade(pages, maxP, chain, k, entry, data, spage, u, pages1, u1, final, chain', Taken(bm));
    if data != [] {
      LaidReadsBack(pages, maxP, u, spage, data, pages1, u1, final);
    }
    assert 0 !in WrittenPages(u, spage, maxP, |data|);
    NewMarks(pages, maxP, chain, k, entry, DataPages(u, spage, maxP, |data|), StoredTaken(pages, maxP), u, pages1,
             u1, final, chain', bm);
    GrownByAgrees(u, StoredTaken(pages, maxP), maxP, DataPages(u, spage, maxP, |data|), chain, chain');
    AllOfIt(pages, maxP, chain, k, name, ext, data, StoredTaken(pages, maxP), spage, final, chain');
  }

  lemma AllOfIt(pages: seq<Page>, maxP: nat, chain: seq<nat>, k: nat, name: seq<Octet>, ext: Octet, data: seq<Octet>,
                u: seq<bool>, spage: Octet, final: seq<Page>, chain': seq<nat>)
    requires StoredSound(pages, maxP, chain) && IsRoom(pages, chain, k) && |name| == 4
    requires u == StoredTaken(pages, maxP) && spage as nat == First(FreePages(u, 0, maxP))
    requires FreePages(u, 0, maxP) == [] ==> data == []
    requires spage <= maxP && PagesFor(|data|) <= |Rest(u, spage, maxP)| + 1
    requires EntryMade(pages, maxP, chain, k, NewEntry(name, ext, spage, |data|),
                       WrittenPages(u, spage, maxP, |data|), final, chain')
    requires GrownBy(u, maxP, DataPages(u, spage, maxP, |data|), chain, chain')
    requires data != [] ==> (ReadsBackAs(final, spage, data) <==> PagesFor(|data|) == 1)
    requires Claimed(u, StoredTaken(final, maxP), maxP, DataPages(u, spage, maxP, |data|), chain, chain',
                     LosesBits(pages, maxP, chain[k]))
    requires StoredSound(final, maxP, chain') <==>
               !LosesBits(pages, maxP, chain[k]) || forall p | p in chain' :: p < 16
    ensures Created(pages, maxP, chain, k, name, ext, data, final, chain')
  {
  }

  lemma GrownByAgrees(u: seq<bool>, v: seq<bool>, maxP: nat, laid: seq<nat>, chain: seq<nat>, chain': seq<nat>)
    requires Agree(u, v, maxP) && GrownBy(u, maxP, laid, chain, chain')
    ensures GrownBy(v, maxP, laid, chain, chain')
  {
  }

  lemma SameEntriesToRoom(pages: seq<Page>, pages1: seq<Page>, chain: seq<nat>, k: nat)
    requires ValidPages(pages) && IsDirectory(pages, chain) && ValidPages(pages1) && k < |chain|
    requires SameDirectory(pages, pages1, chain)
    ensures IsDirectory(pages1, chain) && Entries(pages1, chain, k + 1) == Entries(pages, chain, k + 1)
  {
    HeaderTouched(pages, pages1, chain);
  }

  // ----- a new file the directory has no room for

  /** The directory is the root page alone, and that page keeps the bitmap. */
  predicate OnlyRootPage(pages: seq<Page>, chain: seq<nat>)
    requires RootShape(pages) && pages[0].Holding?
  {
    chain == [0] && IsLocal(pages[0].bytes)
  }

  /** The data has been laid out and its pages are marked, as far as no bits have been lost, but there is no
      entry for it. */
  ghost predicate Unentered(pages: seq<Page>, maxP: nat, chain: seq<nat>, data: seq<Octet>, final: seq<Page>)
    requires StoredSound(pages, maxP, chain)
  {
    var u := StoredTaken(pages, maxP);
    var spage := First(FreePages(u, 0, maxP));
    && spage <= maxP && PagesFor(|data|) <= |Rest(u, spage, maxP)| + 1
    && StoredSound(final, maxP, chain) && Listing(final, chain) == Listing(pages, chain)
    && BitmapPages(final, maxP) == BitmapPages(pages, maxP)
    && Untouched(pages, final, maxP, WrittenPages(u, spage, maxP, |data|))
    && (data != [] ==> (ReadsBackAs(final, spage, data) <==> PagesFor(|data|) == 1))
    && Claimed(u, StoredTaken(final, maxP), maxP, DataPages(u, spage, maxP, |data|), chain, chain,
               LosesBits(pages, maxP, 0))
  }

  /** The data has been laid out, and the entry been written over the root page: no directory begins there
      any more, and no bitmap can be read. */
  ghost predicate RootLost(pages: seq<Page>, maxP: nat, chain: seq<nat>, name: seq<Octet>, ext: Octet,
                           data: seq<Octet>, final: seq<Page>)
    requires StoredSound(pages, maxP, chain) && |name| == 4
  {
    var u := StoredTaken(pages, maxP);
    var spage := First(FreePages(u, 0, maxP));
    && spage < 256 && spage <= maxP && PagesFor(|data|) <= |Rest(u, spage, maxP)| + 1
    && |final| == |pages| && final[0] == Holding(NewEntry(name, ext, spage, |data|) + [0])
    && (forall p | 0 < p < |pages| && p !in WrittenPages(u, spage, maxP, |data|) :: final[p] == pages[p])
    && RootShape(final) && !HasHeader(final, 0) && ReadAs(final, maxP) == Refused
    && (data != [] ==> (ReadsBackAs(final, spage, data) <==> PagesFor(|data|) == 1))
  }

  /** What becomes of a new file whose length is allowed: it gets its entry if there are pages enough, or if
      it has no data and the directory has room. Otherwise the data cannot be laid out, and only free pages
      have been written; or it can, and the last free page has gone to it. Then the entry is dropped
      without notice, or, if the directory is more than the root page or the bitmap is elsewhere, the root
      page is lost. */
  ghost predicate NewFile(pages: seq<Page>, maxP: nat, chain: seq<nat>, k: nat, name: seq<Octet>, ext: Octet,
                          data: seq<Octet>, ok: bool, final: seq<Page>, chain': seq<nat>)
    requires StoredSound(pages, maxP, chain) && IsRoom(pages, chain, k) && |name| == 4
  {
    var u, full := StoredTaken(pages, maxP), AllFull(pages, chain);
    if Enters(u, maxP, |data|, full) then
      ok && Created(pages, maxP, chain, k, name, ext, data, final, chain')
    else if !full then
      !ok && data != [] && OthersKept(pages, final, u, First(FreePages(u, 0, maxP)))
    else if OnlyRootPage(pages, chain) then
      ok && Unentered(pages, maxP, chain, data, final)
    else
      LooksLikeRoot(name) || (!ok && RootLost(pages, maxP, chain, name, ext, data, final))
  }

  lemma FullIsRootPage(pages: seq<Page>, chain: seq<nat>, k: nat)
    requires RootShape(pages) && IsDirectory(pages, chain) && IsRoom(pages, chain, k) && pages[0].Holding?
    requires |PageBytes(pages, chain, k)| == MAX_PACKET
    ensures OnlyRootPage(pages, chain) <==> chain[k] == 0 && IsLocal(pages[0].bytes)
  {
    assert k > 0 ==> DirPageAt(pages, chain, k - 1);
  }

  /** The data of a file without entry, by the stored bitmap. */
  lemma UnenteredData(pages: seq<Page>, maxP: nat, spage: nat, data: seq<Octet>, u0: seq<bool>, u: seq<bool>,
                      pages1: seq<Page>, u1: seq<bool>, final: seq<Page>)
    requires Agree(u, u0, maxP) && u[0] && DataLaid(pages, maxP, u, spage, data, pages1, u1)
    requires FreePages(u, 0, maxP) != [] && spage == First(FreePages(u, 0, maxP)) && !u[spage]
    requires ValidPages(final) && |final| == |pages| == |pages1|
    requires forall p | 0 < p < |pages| :: final[p] == pages1[p]
    ensures spage == First(FreePages(u0, 0, maxP)) && PagesFor(|data|) <= |Rest(u0, spage, maxP)| + 1
    ensures DataPages(u0, spage, maxP, |data|) == DataPages(u, spage, maxP, |data|)
    ensures forall p | 0 < p < |pages| && p !in WrittenPages(u0, spage, maxP, |data|) :: final[p] == pages[p]
    ensures data != [] ==> (ReadsBackAs(final, spage, data) <==> PagesFor(|data|) == 1)
  {
    SameDataPages(u, u0, spage, maxP);
    LaidFacts(pages, maxP, u, spage, data, pages1, u1);
    if data != [] {
      LaidReadsBack(pages, maxP, u, spage, data, pages1, u1, final);
    }
  }

  lemma UnenteredStored(pages: seq<Page>, maxP: nat, chain: seq<nat>, spage: nat, data: seq<Octet>, u: seq<bool>,
                        pages1: seq<Page>, u1: seq<bool>, final: seq<Page>, bm: seq<Octet>)
    requires Sound(pages, maxP, chain, u) && |bm| == BM_SIZE && IsLocal(pages[0].bytes)
    requires spage < |u| && !u[spage]
    requires DataLaid(pages, maxP, u, spage, data, pages1, u1) && ValidPages(pages1) && Taken(bm) == u1
    requires |pages1| == |pages| && pages1[0] == pages[0]
             && final == pages1[0 := Holding(ShortStored(pages[0].bytes, bm))]
    ensures Placed(final, maxP, chain) && BitmapPages(final, maxP) == BitmapPages(pages, maxP)
    ensures Listing(final, chain) == Listing(pages, chain) && SameButBitmap(pages[0], final[0])
    ensures var v := StoredTaken(final, maxP);
            && maxP < |v| && (forall p | 0 <= p <= maxP :: v[p] == (u1[p] && !(maxP >= 16 && p >= 16)))
            && (StoredSound(final, maxP, chain) <==> maxP < 16 || forall p | p in chain :: p < 16)
  {
    LayingKeepsSound(pages, maxP, chain, u, spage, data, pages1, u1);
    ShortKeepsSound(pages1, bm, maxP, chain, u1);
    LocalIsSmall(pages, maxP, chain);
    NewStored(final, maxP, chain, u1, bm, true);
  }

  lemma NewIsUnentered(pages: seq<Page>, maxP: nat, chain: seq<nat>, spage: nat, data: seq<Octet>, u: seq<bool>,
                       pages1: seq<Page>, u1: seq<bool>, final: seq<Page>, bm: seq<Octet>)
    requires StoredSound(pages, maxP, chain) && Sound(pages, maxP, chain, u) && Agree(u, StoredTaken(pages, maxP), maxP)
    requires OnlyRootPage(pages, chain) && |bm| == BM_SIZE && Taken(bm) == u1
    requires FreePages(u, 0, maxP) != [] && spage == First(FreePages(u, 0, maxP))
    requires DataLaid(pages, maxP, u, spage, data, pages1, u1) && ValidPages(pages1) && |pages1| == |pages|
    requires pages1[0] == pages[0] && final == pages1[0 := Holding(ShortStored(pages[0].bytes, bm))]
    ensures Unentered(pages, maxP, chain, data, final)
  {
    var u0 := StoredTaken(pages, maxP);
    RootNotLaid(pages, maxP, chain, spage, data, u, pages1, u1);
    UnenteredStored(pages, maxP, chain, spage, data, u, pages1, u1, final, bm);
    UnenteredData(pages, maxP, spage, data, u0, u, pages1, u1, final);
    LaidFacts(pages, maxP, u, spage, data, pages1, u1);
    ClaimedByWriting(u0, u, maxP, DataPages(u, spage, maxP, |data|), u1, u1, StoredTaken(final, maxP), chain, chain,
                     LosesBits(pages, maxP, 0));
  }

  lemma RootNotLaid(pages: seq<Page>, maxP: nat, chain: seq<nat>, spage: nat, data: seq<Octet>, u: seq<bool>,
                    pages1: seq<Page>, u1: seq<bool>)
    requires Sound(pages, maxP, chain, u) && DataLaid(pages, maxP, u, spage, data, pages1, u1)
    requires FreePages(u, 0, maxP) != [] && spage == First(FreePages(u, 0, maxP))
    ensures !u[spage] && spage != 0 && |pages1| == |pages| && pages1[0] == pages[0]
  {
    ClaimFirst(u, maxP);
    LaidFacts(pages, maxP, u, spage, data, pages1, u1);
  }

  lemma NewLosesRoot(pages: seq<Page>, maxP: nat, chain: seq<nat>, name: seq<Octet>, ext: Octet, spage: Octet,
                     data: seq<Octet>, u: seq<bool>, pages1: seq<Page>, u1: seq<bool>, final: seq<Page>)
    requires StoredSound(pages, maxP, chain) && Sound(pages, maxP, chain, u) && Agree(u, StoredTaken(pages, maxP), maxP)
    requires |name| == 4 && !LooksLikeRoot(name)
    requires FreePages(u, 0, maxP) != [] && spage as nat == First(FreePages(u, 0, maxP))
    requires DataLaid(pages, maxP, u, spage, data, pages1, u1) && ValidPages(pages1) && |pages1| == |pages|
    requires final == pages1[0 := Holding(NewEntry(name, ext, spage, |data|) + [0])]
    ensures RootLost(pages, maxP, chain, name, ext, data, final)
  {
    RootNotLaid(pages, maxP, chain, spage, data, u, pages1, u1);
    UnenteredData(pages, maxP, spage, data, StoredTaken(pages, maxP), u, pages1, u1, final);
  }

  // ----- a file the root directory has

  /** The new marks get onto the part, unless the bitmap is in the root page and that page is the one
      with room, or the one that is rewritten from what was read before. */
  predicate Records(pages: seq<Page>, dpg: nat, prefpg: nat)
    requires RootShape(pages) && pages[0].Holding?
  {
    !(IsLocal(pages[0].bytes) && (dpg == 0 || prefpg == 0))
  }

  /** What rewriting page h.k of the root directory does to it. */
  ghost predicate EntryChanged(pages: seq<Page>, root: seq<nat>, h: Hit, pgs: Octet, final: seq<Page>)
    requires ValidPages(pages) && IsDirectory(pages, root) && ValidPages(final) && IsDirectory(final, root)
  {
    && (IsPhantom(pages, root, h) ==> Listing(final, root) == Listing(pages, root))
    && forall P: nat | h.Hit? && LocatedAt(pages, root, h.k, h.off, P) ::
         P < |Listing(pages, root)| && Listing(final, root) == NumberReplaced(Listing(pages, root), P, pgs)
  }

  lemma RenumberKeepsSound(pages: seq<Page>, maxP: nat, root: seq<nat>, u: seq<bool>, h: Hit, pgs: Octet,
                           after: seq<Page>)
    requires Sound(pages, maxP, root, u) && HitPlace(pages, root, h)
    requires after == pages[root[h.k] := Holding(Renumbered(PageBytes(pages, root, h.k), h.off, pgs))]
    ensures Sound(after, maxP, root, u) && BitmapPages(after, maxP) == BitmapPages(pages, maxP)
    ensures EntryChanged(pages, root, h, pgs, after)
  {
    var bytes := PageBytes(pages, root, h.k);
    if h.off + ENTRY - 1 < |bytes| {
      var b := bytes[h.off + ENTRY - 1 := pgs];
      PageReplaced(pages, root, h.k, b, after);
      assert root[h.k] in root;
      if root[h.k] == 0 {
        StartMetOnce(pages, root, h.k);
        RootHeaderKept(pages, root, h, pgs);
      }
      EditKeepsPlaced(pages, maxP, root, after, root);
      forall P: nat | LocatedAt(pages, root, h.k, h.off, P)
        ensures P < |Listing(pages, root)| && Listing(after, root) == NumberReplaced(Listing(pages, root), P, pgs)
      {
        RenumberedOnPage(pages, root, h.k, h.off, P, pgs, after);
      }
    } else {
      assert after == pages;
    }
  }

  lemma RootHeaderKept(pages: seq<Page>, root: seq<nat>, h: Hit, pgs: Octet)
    requires ValidPages(pages) && IsDirectory(pages, root) && HitPlace(pages, root, h) && root[h.k] == 0
    requires h.off + ENTRY - 1 < |PageBytes(pages, root, h.k)|
    ensures var bytes := PageBytes(pages, root, h.k); bytes[h.off + ENTRY - 1 := pgs][..7] == bytes[..7]
  {
    StartMetOnce(pages, root, h.k);
    assert h.k > 0 ==> DirPageAt(pages, root, h.k - 1);
    var bytes := PageBytes(pages, root, h.k);
    assert h.k == 0;
  }

  /** The three steps: the data laid out, the bitmap stored or not, and the page rewritten. */
  predicate WrittenOver(pages: seq<Page>, maxP: nat, root: seq<nat>, h: Hit, dpg: nat, data: seq<Octet>, pgs: Octet,
                        u: seq<bool>, pages1: seq<Page>, u1: seq<bool>, bm: seq<Octet>, final: seq<Page>)
    requires |bm| == BM_SIZE
  {
    && Sound(pages, maxP, root, u) && HitPlace(pages, root, h)
    && DataLaid(pages, maxP, u, h.e[5], data, pages1, u1) && Taken(bm) == u1 && ValidPages(pages1)
    && var newpg := Renumbered(PageBytes(pages, root, h.k), h.off, pgs);
    && |pages1| == |pages| && var after := pages1[root[h.k] := Holding(newpg)];
    && RootShape(after)
    && if Records(pages, dpg, root[h.k]) then WriteAs(after, bm, maxP) == Pages(final) else final == after
  }

  method WriteOver(medium: Medium, spage: Octet, newpg: seq<Octet>, prefpg: Octet, dpg: Octet, dbuf: seq<Octet>,
                   data: seq<Octet>, bm: array<Octet>, maxP: nat, ghost root: seq<nat>, ghost h: Hit, ghost pgs: Octet)
      returns (ok: bool, ghost pages1: seq<Page>, ghost u1: seq<bool>)
    requires medium.Valid() && bm.Length == BM_SIZE && Sound(medium.pages, maxP, root, Taken(bm[..]))
    requires HitPlace(medium.pages, root, h) && spage == h.e[5] && prefpg as nat == root[h.k]
    requires newpg == Renumbered(PageBytes(medium.pages, root, h.k), h.off, pgs)
    requires |dbuf| >= 3 && (dpg == 0 ==> medium.pages[0] == Holding(dbuf))
    requires data != [] ==> Apart(medium.pages, maxP, root, [spage])
    modifies medium, bm
    ensures medium.Valid() && maxP < |Taken(old(bm[..]))| && (ok <==> CanLay(Taken(old(bm[..])), spage, maxP, |data|))
    ensures ok ==>
              WrittenOver(old(medium.pages), maxP, root, h, dpg, data, pgs, Taken(old(bm[..])), pages1, u1, bm[..],
                          medium.pages)
    ensures !ok ==> OthersKept(old(medium.pages), medium.pages, Taken(old(bm[..])), spage)
    ensures !ok && data == [] ==> medium.pages == old(medium.pages)
  {
    ghost var pages, u := medium.pages, Taken(bm[..]);
    pages1, u1 := pages, u;
    ok := LayData(medium, spage, data, bm, maxP);
    if !ok {
      return;
    }
    pages1, u1 := medium.pages, Taken(bm[..]);
    LayingKeepsSound(pages, maxP, root, u, spage, data, pages1, u1);
    LaidFacts(pages, maxP, u, spage, data, pages1, u1);
    SameOnPage(pages, maxP, root, h, u, spage, data, pages1, u1);
    RewriteLast(pages1, maxP, root, u1, h, pgs, newpg, bm[..], dpg);
    if !(dpg == 0 && dbuf[2] >= 0x80) {
      ok := WriteBitMap(medium, bm, maxP);
    }
    ok := medium.WritePage(newpg, prefpg);
  }

  /** The page with the hit is not written with the data, nor is the root page. */
  lemma SameOnPage(pages: seq<Page>, maxP: nat, root: seq<nat>, h: Hit, u: seq<bool>, spage: nat, data: seq<Octet>,
                   pages1: seq<Page>, u1: seq<bool>)
    requires Sound(pages, maxP, root, u) && DataLaid(pages, maxP, u, spage, data, pages1, u1) && ValidPages(pages1)
    requires data == [] || Apart(pages, maxP, root, [spage])
    requires HitPlace(pages, root, h) && IsDirectory(pages1, root)
    ensures HitPlace(pages1, root, h) && PageBytes(pages1, root, h.k) == PageBytes(pages, root, h.k)
    ensures |pages1| == |pages| && pages1[0] == pages[0]
  {
    LaidFacts(pages, maxP, u, spage, data, pages1, u1);
    assert root[h.k] in root && spage in [spage];
  }

  /** Storing the bitmap and then rewriting the page comes to rewriting it and then storing the bitmap, or
      to rewriting it alone. */
  lemma RewriteLast(pages1: seq<Page>, maxP: nat, root: seq<nat>, u1: seq<bool>, h: Hit, pgs: Octet, newpg: seq<Octet>,
                    bm: seq<Octet>, dpg: nat)
    requires Sound(pages1, maxP, root, u1) && HitPlace(pages1, root, h) && |bm| == BM_SIZE
    requires newpg == Renumbered(PageBytes(pages1, root, h.k), h.off, pgs)
    ensures WriteAs(pages1, bm, maxP).Pages? && |WriteAs(pages1, bm, maxP).pages| == |pages1|
    ensures var after, stored := pages1[root[h.k] := Holding(newpg)], WriteAs(pages1, bm, maxP).pages;
            && RootShape(after)
            && if Records(pages1, dpg, root[h.k]) then
               WriteAs(after, bm, maxP) == Pages(stored[root[h.k] := Holding(newpg)])
               else dpg != 0 ==> stored[root[h.k] := Holding(newpg)] == after
  {
    assert root[h.k] in root;
    StoredKeepsPlaced(pages1, bm, maxP, root);
    RenumberKeepsSound(pages1, maxP, root, u1, h, pgs, pages1[root[h.k] := Holding(newpg)]);
    if root[h.k] == 0 && h.off + ENTRY - 1 < |PageBytes(pages1, root, h.k)| {
      RootHeaderKept(pages1, root, h, pgs);
    }
    if Records(pages1, dpg, root[h.k]) && !(root[h.k] == 0 && IsLocal(pages1[0].bytes)) {
      WriteCommutes(pages1, root[h.k], newpg, bm, maxP);
    }
  }

  /** A file that the root directory has was written again, and no entry has been added anywhere: of the
      directory page with the hit just the number of pages has changed; the data is on the file's start
      page and on pages free until then, and reads back exactly when it fits on one page or the start
      page was not the first free one; and the part is in order by its own bitmap, which has the marks
      of the new pages, or not. */
  ghost predicate Overwritten(pages: seq<Page>, maxP: nat, root: seq<nat>, h: Hit, dpg: nat, data: seq<Octet>,
                              pgs: Octet, final: seq<Page>)
    requires StoredSound(pages, maxP, root) && HitPlace(pages, root, h)
  {
    var u, spage := StoredTaken(pages, maxP), h.e[5] as nat;
    && spage <= maxP && PagesFor(|data|) <= |Rest(u, spage, maxP)| + 1
    && var laid, written := DataPages(u, spage, maxP, |data|), WrittenPages(u, spage, maxP, |data|);
    && StoredSound(final, maxP, root) && BitmapPages(final, maxP) == BitmapPages(pages, maxP)
    && Untouched(pages, final, maxP, [root[h.k]] + written) && EntryChanged(pages, root, h, pgs, final)
    && Agree(StoredTaken(final, maxP), if Records(pages, dpg, root[h.k]) then MarkAll(u, laid, true) else u, maxP)
    && (data != [] ==>
          (ReadsBackAs(final, spage, data) <==> PagesFor(|data|) == 1 || First(FreePages(u, 0, maxP)) != spage))
  }

  /** What the steps come to: the directory, */
  lemma OverListing(pages: seq<Page>, maxP: nat, root: seq<nat>, h: Hit, dpg: nat, data: seq<Octet>, pgs: Octet,
                    u: seq<bool>, pages1: seq<Page>, u1: seq<bool>, bm: seq<Octet>, final: seq<Page>)
    requires |bm| == BM_SIZE && WrittenOver(pages, maxP, root, h, dpg, data, pgs, u, pages1, u1, bm, final)
    requires data == [] || Apart(pages, maxP, root, [h.e[5] as nat])
    ensures Sound(final, maxP, root, u1) && BitmapPages(final, maxP) == BitmapPages(pages, maxP)
    ensures EntryChanged(pages, root, h, pgs, final) && |final| == |pages1| == |pages|
    ensures Records(pages, dpg, root[h.k]) ==> ReadAs(final, maxP) == Bitmap(bm[..maxP / 8 + 1])
    ensures !Records(pages, dpg, root[h.k]) ==> ReadAs(final, maxP) == ReadAs(pages, maxP)
  {
    var newpg := Renumbered(PageBytes(pages, root, h.k), h.off, pgs);
    var after := pages1[root[h.k] := Holding(newpg)];
    LayingKeepsSound(pages, maxP, root, u, h.e[5], data, pages1, u1);
    SameOnPage(pages, maxP, root, h, u, h.e[5], data, pages1, u1);
    RenumberKeepsSound(pages1, maxP, root, u1, h, pgs, after);
    OverChanged(pages, root, h, pgs, pages1, after);
    if Records(pages, dpg, root[h.k]) {
      StoredKeepsPlaced(after, bm, maxP, root);
    } else {
      LocalReadsSame(pages, after, maxP, root, h, pgs);
    }
  }

  lemma OverChanged(pages: seq<Page>, root: seq<nat>, h: Hit, pgs: Octet, pages1: seq<Page>, after: seq<Page>)
    requires ValidPages(pages) && IsDirectory(pages, root) && HitPlace(pages, root, h)
    requires ValidPages(pages1) && IsDirectory(pages1, root) && SameDirectory(pages, pages1, root)
    requires ValidPages(after) && IsDirectory(after, root) && EntryChanged(pages1, root, h, pgs, after)
    ensures EntryChanged(pages, root, h, pgs, after)
  {
    HeaderTouched(pages, pages1, root);
    assert SameToSearch(pages, pages1, root, h.k) && DirPageAt(pages1, root, h.k);
    forall P: nat | LocatedAt(pages, root, h.k, h.off, P)
      ensures LocatedAt(pages1, root, h.k, h.off, P)
    {
    }
  }

  lemma LocalReadsSame(pages: seq<Page>, after: seq<Page>, maxP: nat, root: seq<nat>, h: Hit, pgs: Octet)
    requires Placed(pages, maxP, root) && IsLocal(pages[0].bytes) && HitPlace(pages, root, h)
             && Placed(after, maxP, root)
    requires |after| == |pages|
    requires after[0] == if root[h.k] == 0 then Holding(Renumbered(PageBytes(pages, root, h.k), h.off, pgs))
             else pages[0]
    ensures ReadAs(after, maxP) == ReadAs(pages, maxP)
  {
    if root[h.k] == 0 && h.off + ENTRY - 1 < |PageBytes(pages, root, h.k)| {
      RootHeaderKept(pages, root, h, pgs);
    }
    ReadAsFrame(pages, after, maxP);
  }

  /** the pages that stay as they are, */
  lemma OverStays(pages: seq<Page>, maxP: nat, written: seq<nat>, pages1: seq<Page>, rp: nat, page: Page,
                  after: seq<Page>, bm: seq<Octet>, stored: bool, final: seq<Page>)
    requires RootShape(pages) && maxP <= 254 && BitmapInPlace(pages, maxP) && |pages1| == |pages| && |bm| == BM_SIZE
    requires rp < |pages1| && after == pages1[rp := page]
    requires RootShape(after) && BitmapInPlace(after, maxP) && BitmapPages(after, maxP) == BitmapPages(pages, maxP)
    requires forall r | 0 <= r < |pages| && r !in written :: pages1[r] == pages[r]
    requires if stored then WriteAs(after, bm, maxP) == Pages(final) else final == after
    ensures Untouched(pages, final, maxP, [rp] + written)
    ensures forall r | 0 < r < |pages| && r !in BitmapPages(pages, maxP) && r != rp :: final[r] == pages1[r]
  {
    BitmapWriteUntouched(after, bm, maxP, []);
    SamePagesUntouched(after, maxP, []);
    forall r | 0 <= r < |pages| && r !in BitmapPages(pages, maxP)
      ensures UntouchedAt(after, final, r)
    {
      assert UntouchedAt(after, WriteAs(after, bm, maxP).pages, r);
    }
  }

  lemma OverAfter(pages: seq<Page>, maxP: nat, root: seq<nat>, h: Hit, pgs: Octet, u: seq<bool>, data: seq<Octet>,
                  pages1: seq<Page>, u1: seq<bool>, after: seq<Page>)
    requires Sound(pages, maxP, root, u) && HitPlace(pages, root, h)
             && DataLaid(pages, maxP, u, h.e[5], data, pages1, u1)
    requires data == [] || Apart(pages, maxP, root, [h.e[5] as nat])
    requires ValidPages(pages1) && |pages1| == |pages|
    requires after == pages1[root[h.k] := Holding(Renumbered(PageBytes(pages, root, h.k), h.off, pgs))]
    ensures RootShape(after) && BitmapInPlace(after, maxP) && BitmapPages(after, maxP) == BitmapPages(pages, maxP)
  {
    LayingKeepsSound(pages, maxP, root, u, h.e[5], data, pages1, u1);
    SameOnPage(pages, maxP, root, h, u, h.e[5], data, pages1, u1);
    RenumberKeepsSound(pages1, maxP, root, u1, h, pgs, after);
  }

  /** the data, */
  lemma OverReadsBack(pages: seq<Page>, maxP: nat, root: seq<nat>, k: nat, data: seq<Octet>, spage: nat, u: seq<bool>,
                      pages1: seq<Page>, u1: seq<bool>, final: seq<Page>)
    requires Sound(pages, maxP, root, u) && k < |root| && DataLaid(pages, maxP, u, spage, data, pages1, u1)
    requires data != [] && Apart(pages, maxP, root, [spage]) && FreePages(u, 0, maxP) != []
    requires ValidPages(final) && |final| == |pages| == |pages1|
    requires forall r | 0 < r < |pages| && r !in BitmapPages(pages, maxP) && r != root[k] :: final[r] == pages1[r]
    ensures ReadsBackAs(final, spage, data) <==> PagesFor(|data|) == 1 || First(FreePages(u, 0, maxP)) != spage
  {
    LaidFacts(pages, maxP, u, spage, data, pages1, u1);
    assert root[k] in root && spage in [spage];
    forall p | p in DataPages(u, spage, maxP, |data|) && p < |final|
      ensures final[p] == pages1[p]
    {
      assert p != 0 && p !in root && p !in BitmapPages(pages, maxP);
    }
    LaidReadsBack(pages, maxP, u, spage, data, pages1, u1, final);
  }

  /** and the marks. */
  lemma OverMarks(pages: seq<Page>, maxP: nat, root: seq<nat>, u: seq<bool>, u0: seq<bool>, laid: seq<nat>,
                  u1: seq<bool>, bm: seq<Octet>, records: bool, final: seq<Page>)
    requires |bm| == BM_SIZE && Taken(bm) == u1 && StoredSound(pages, maxP, root) && u0 == StoredTaken(pages, maxP)
    requires Agree(u, u0, maxP) && u1 == MarkAll(u, laid, true) && Sound(final, maxP, root, u1)
    requires BitmapPages(final, maxP) == BitmapPages(pages, maxP)
    requires if records then ReadAs(final, maxP) == Bitmap(bm[..maxP / 8 + 1])
             else ReadAs(final, maxP) == ReadAs(pages, maxP)
    ensures StoredSound(final, maxP, root)
    ensures Agree(StoredTaken(final, maxP), if records then MarkAll(u0, laid, true) else u0, maxP)
  {
    if records {
      StoredAgain(final, maxP, root, bm);
    }
  }

  lemma OverIsOverwritten(pages: seq<Page>, maxP: nat, root: seq<nat>, h: Hit, dpg: nat, data: seq<Octet>, pgs: Octet,
                          u: seq<bool>, pages1: seq<Page>, u1: seq<bool>, bm: seq<Octet>, final: seq<Page>)
    requires |bm| == BM_SIZE && WrittenOver(pages, maxP, root, h, dpg, data, pgs, u, pages1, u1, bm, final)
    requires StoredSound(pages, maxP, root) && Agree(u, StoredTaken(pages, maxP), maxP)
    requires data != [] ==> Apart(pages, maxP, root, [h.e[5] as nat]) && FreePages(u, 0, maxP) != []
    ensures Overwritten(pages, maxP, root, h, dpg, data, pgs, final)
  {
    var spage, u0 := h.e[5] as nat, StoredTaken(pages, maxP);
    SameDataPages(u, u0, spage, maxP);
    LaidMarks(pages, maxP, u, spage, data, pages1, u1);
    OverListing(pages, maxP, root, h, dpg, data, pgs, u, pages1, u1, bm, final);
    var newpg := Holding(Renumbered(PageBytes(pages, root, h.k), h.off, pgs));
    var after := pages1[root[h.k] := newpg];
    LaidFacts(pages, maxP, u, spage, data, pages1, u1);
    OverAfter(pages, maxP, root, h, pgs, u, data, pages1, u1, after);
    OverStays(pages, maxP, WrittenPages(u, spage, maxP, |data|), pages1, root[h.k], newpg, after, bm,
              Records(pages, dpg, root[h.k]), final);
    if data != [] {
      OverReadsBack(pages, maxP, root, h.k, data, spage, u, pages1, u1, final);
    }
    OverMarks(pages, maxP, root, u, u0, DataPages(u, spage, maxP, |data|), u1, bm, Records(pages, dpg, root[h.k]),
              final);
  }

  // ----- owWriteFile

  /** No page of the directory has room. */
  predicate AllFull(pages: seq<Page>, chain: seq<nat>)
    requires ValidPages(pages) && IsDirectory(pages, chain)
  {
    forall j | 0 <= j < |chain| :: |PageBytes(pages, chain, j)| == MAX_PACKET
  }

  lemma FullRoom(pages: seq<Page>, chain: seq<nat>, k: nat)
    requires ValidPages(pages) && IsDirectory(pages, chain) && IsRoom(pages, chain, k)
    ensures |PageBytes(pages, chain, k)| == MAX_PACKET <==> AllFull(pages, chain)
  {
    if |PageBytes(pages, chain, k)| == MAX_PACKET {
      forall j | 0 <= j < |chain|
        ensures |PageBytes(pages, chain, j)| == MAX_PACKET
      {
        assert j < k ==> FullPage(pages, chain, j);
      }
    }
  }

  /** The number of pages the scan puts into a hit: none for a file without data. */
  function NumPgs(len: nat): (n: Octet) {
    (len / PAYLOAD + if len % PAYLOAD != 0 then 1 else 0) % 256
  }

  /** The part, its current directory on page `start`, and its root directory. */
  predicate Part(pages: seq<Page>, maxP: nat, start: nat, chain: seq<nat>, root: seq<nat>) {
    && StoredSound(pages, maxP, chain) && chain[0] == start
    && StoredSound(pages, maxP, root) && root[0] == 0
  }

  /** The tests that come before anything is written. */
  predicate Tried(pages: seq<Page>, maxP: nat, chain: seq<nat>, name: seq<Octet>, len: nat)
    requires StoredSound(pages, maxP, chain) && |name| == 4
  {
    name[0] != 0 && Allowed(StoredTaken(pages, maxP), maxP, len, AllFull(pages, chain))
  }

  /** What becomes of a file the root directory has: written over if its data can be laid out; if not, no
      page that is taken has changed but its start page, and without data none at all. */
  ghost predicate OldFile(pages: seq<Page>, maxP: nat, chain: seq<nat>, k: nat, root: seq<nat>, h: Hit,
                          data: seq<Octet>, ok: bool, final: seq<Page>, chain': seq<nat>)
    requires StoredSound(pages, maxP, chain) && StoredSound(pages, maxP, root) && HitPlace(pages, root, h)
             && IsRoom(pages, chain, k)
  {
    var u := StoredTaken(pages, maxP);
    && (ok <==> CanLay(u, h.e[5], maxP, |data|))
    && if ok then Overwritten(pages, maxP, root, h, chain[k], data, NumPgs(|data|), final) && chain' == chain
       else OthersKept(pages, final, u, h.e[5]) && (data == [] ==> final == pages)
  }

  /** When owWriteFile reports success: the name is set, the length is allowed, and if the root directory
      has the name, ExtWrite can lay the data out from the start page given there; if it has not, the new
      file gets its entry, or loses it without notice. */
  predicate Writes(pages: seq<Page>, maxP: nat, chain: seq<nat>, h: Hit, name: seq<Octet>, len: nat)
    requires StoredSound(pages, maxP, chain) && |name| == 4
  {
    var u, full := StoredTaken(pages, maxP), AllFull(pages, chain);
    && Tried(pages, maxP, chain, name, len)
    && match h
       case Hit(_, _, e) => CanLay(u, e[5], maxP, len)
       case Miss => Enters(u, maxP, len, full) || (full && OnlyRootPage(pages, chain))
  }

  /** What owWriteFile comes to: a refusal that changes nothing, a new file, or one the root directory has. */
  ghost predicate Outcome(pages: seq<Page>, maxP: nat, chain: seq<nat>, k: nat, root: seq<nat>, h: Hit,
                          name: seq<Octet>, ext: Octet, data: seq<Octet>, ok: bool, final: seq<Page>, chain': seq<nat>)
    requires StoredSound(pages, maxP, chain) && StoredSound(pages, maxP, root) && |name| == 4
    requires h.Hit? ==> HitPlace(pages, root, h)
  {
    if !Tried(pages, maxP, chain, name, |data|) then !ok && final == pages
    else
      && IsRoom(pages, chain, k)
      && if h.Miss? then NewFile(pages, maxP, chain, k, name, ext, data, ok, final, chain')
         else OldFile(pages, maxP, chain, k, root, h, data, ok, final, chain')
  }

  /** owWriteFile for a file that is not of extension 100 to 102. Whether it is new is decided by the
      scan of the root directory; if it is, an entry is added to the current one, as far as there are
      pages. Data is only written over a file whose start page is apart from the root directory and the
      bitmap. */
  method WriteFile(medium: Medium, start: Octet, name: seq<Octet>, ext: Octet, data: seq<Octet>, stale: Memory,
                   bm: array<Octet>, maxP: nat, ghost chain: seq<nat>, ghost root: seq<nat>)
      returns (ok: bool, ghost chain': seq<nat>, ghost k: nat)
    requires medium.Valid() && bm.Length == BM_SIZE && |name| == 4 && Part(medium.pages, maxP, start, chain, root)
    requires var h := InRoot(medium.pages, root, stale, name, ext, NumPgs(|data|));
             h.Hit? && data != [] ==> Apart(medium.pages, maxP, root, [h.e[5] as nat])
    modifies medium, bm
    ensures medium.Valid()
    ensures var h := InRoot(old(medium.pages), root, stale, name, ext, NumPgs(|data|));
            && (LooksLikeRoot(name) || (ok <==> Writes(old(medium.pages), maxP, chain, h, name, |data|)))
            && Outcome(old(medium.pages), maxP, chain, k, root, h, name, ext, data, ok, medium.pages, chain')
  {
    chain', k := chain, 0;
    ok := name[0] != 0;
    if !ok {
      return;
    }
    ok := LoadBitmap(medium, bm, maxP, chain);
    BufferSound(medium.pages, maxP, chain, Taken(bm[..]));
    var mavail := GetMaxWrite(bm, maxP);
    if mavail == 0 || |data| > mavail {
      return false, chain, 0;
    }
    ok, chain', k := WriteAvailable(medium, start, name, ext, data, stale, bm, maxP, mavail, chain, root);
  }

  /** owWriteFile once the first of the two tests is passed. */
  method WriteAvailable(medium: Medium, start: Octet, name: seq<Octet>, ext: Octet, data: seq<Octet>, stale: Memory,
                        bm: array<Octet>, maxP: nat, mavail: nat, ghost chain: seq<nat>, ghost root: seq<nat>)
      returns (ok: bool, ghost chain': seq<nat>, ghost k: nat)
    requires medium.Valid() && bm.Length == BM_SIZE && |name| == 4 && Part(medium.pages, maxP, start, chain, root)
    requires var h := InRoot(medium.pages, root, stale, name, ext, NumPgs(|data|));
             h.Hit? && data != [] ==> Apart(medium.pages, maxP, root, [h.e[5] as nat])
    requires Agree(Taken(bm[..]), StoredTaken(medium.pages, maxP), maxP) && name[0] != 0
    requires mavail == MaxWrite(StoredTaken(medium.pages, maxP), maxP) && mavail != 0 && |data| <= mavail
    modifies medium, bm
    ensures medium.Valid()
    ensures var h := InRoot(old(medium.pages), root, stale, name, ext, NumPgs(|data|));
            && (LooksLikeRoot(name) || (ok <==> Writes(old(medium.pages), maxP, chain, h, name, |data|)))
            && Outcome(old(medium.pages), maxP, chain, k, root, h, name, ext, data, ok, medium.pages, chain')
  {
    ghost var pages := medium.pages;
    ghost var h := InRoot(pages, root, stale, name, ext, NumPgs(|data|));
    BufferSound(pages, maxP, chain, Taken(bm[..]));
    var dpg, dbuf;
    assert DirPageAt(pages, chain, 0);
    ok, dpg, k := FindRoom(medium, start, chain);
    FullRoom(pages, chain, k);
    ok, dbuf := medium.ReadPage(dpg);
    var newEntry, spage, newpg, prefpg;
    ok, newEntry, spage, newpg, prefpg := ScanRoot(medium, name, ext, NumPgs(|data|), stale, root);
    if |dbuf| == 29 {
      if mavail - 28 <= 0 || |data| > mavail - 28 {
        return false, chain, k;
      }
    }
    assert Tried(pages, maxP, chain, name, |data|);
    ok, chain' := WriteEither(medium, dpg, dbuf, newEntry, spage, newpg, prefpg, name, ext, data, bm, maxP, chain,
                              root, k, h);
    OutcomeOf(pages, maxP, chain, k, root, h, name, ext, data, ok, medium.pages, chain');
  }

  lemma OutcomeOf(pages: seq<Page>, maxP: nat, chain: seq<nat>, k: nat, root: seq<nat>, h: Hit, name: seq<Octet>,
                  ext: Octet, data: seq<Octet>, ok: bool, final: seq<Page>, chain': seq<nat>)
    requires StoredSound(pages, maxP, chain) && StoredSound(pages, maxP, root) && |name| == 4
    requires h.Hit? ==> HitPlace(pages, root, h)
    requires Tried(pages, maxP, chain, name, |data|) && IsRoom(pages, chain, k)
    requires if h.Miss? then NewFile(pages, maxP, chain, k, name, ext, data, ok, final, chain')
             else OldFile(pages, maxP, chain, k, root, h, data, ok, final, chain')
    ensures Outcome(pages, maxP, chain, k, root, h, name, ext, data, ok, final, chain')
    ensures LooksLikeRoot(name) || (ok <==> Writes(pages, maxP, chain, h, name, |data|))
  {
  }

  /** The second half of owWriteFile. */
  method WriteEither(medium: Medium, dpg: Octet, dbuf: seq<Octet>, newEntry: bool, spage: Octet, newpg: seq<Octet>,
                     prefpg: Octet, name: seq<Octet>, ext: Octet, data: seq<Octet>, bm: array<Octet>, maxP: nat,
                     ghost chain: seq<nat>, ghost root: seq<nat>, ghost k: nat, ghost h: Hit)
      returns (ok: bool, ghost chain': seq<nat>)
    requires medium.Valid() && bm.Length == BM_SIZE && |name| == 4
    requires StoredSound(medium.pages, maxP, chain) && StoredSound(medium.pages, maxP, root)
    requires Agree(Taken(bm[..]), StoredTaken(medium.pages, maxP), maxP)
    requires IsRoom(medium.pages, chain, k) && dpg as nat == chain[k] && dbuf == PageBytes(medium.pages, chain, k)
    requires h.Hit? ==> HitPlace(medium.pages, root, h)
    requires Noted(medium.pages, root, h, NumPgs(|data|), newEntry, spage, newpg, prefpg)
    requires Allowed(Taken(bm[..]), maxP, |data|, |dbuf| == MAX_PACKET)
    requires h.Hit? && data != [] ==> Apart(medium.pages, maxP, root, [spage])
    modifies medium, bm
    ensures medium.Valid()
    ensures if h.Miss? then NewFile(old(medium.pages), maxP, chain, k, name, ext, data, ok, medium.pages, chain')
            else OldFile(old(medium.pages), maxP, chain, k, root, h, data, ok, medium.pages, chain')
  {
    ghost var pages, u := medium.pages, Taken(bm[..]);
    chain' := chain;
    ghost var pages1, u1;
    BufferSound(pages, maxP, chain, u);
    BufferSound(pages, maxP, root, u);
    if newEntry {
      ok, chain', pages1, u1 := WriteNew(medium, dpg, name, ext, data, bm, maxP, chain, k);
      NewIsNewFile(pages, maxP, chain, k, name, ext, data, u, pages1, u1, ok, medium.pages, chain', bm[..]);
    } else {
      ok, pages1, u1 := WriteOver(medium, spage, newpg, prefpg, dpg, dbuf, data, bm, maxP, root, h, NumPgs(|data|));
      OldIsOldFile(pages, maxP, chain, k, root, h, data, u, pages1, u1, ok, medium.pages, bm[..]);
    }
  }

  /** What the two halves come to, */
  lemma NewIsNewFile(pages: seq<Page>, maxP: nat, chain: seq<nat>, k: nat, name: seq<Octet>, ext: Octet,
                     data: seq<Octet>, u: seq<bool>, pages1: seq<Page>, u1: seq<bool>, ok: bool, final: seq<Page>,
                     chain': seq<nat>, bm: seq<Octet>)
    requires StoredSound(pages, maxP, chain) && |name| == 4 && |bm| == BM_SIZE && IsRoom(pages, chain, k)
    requires Agree(u, StoredTaken(pages, maxP), maxP)
    requires var full := |PageBytes(pages, chain, k)| == MAX_PACKET;
             && Allowed(u, maxP, |data|, full)
             && (Enters(u, maxP, |data|, full) ==>
                   ok && WrittenNew(pages, maxP, chain, k, name, ext, data, u, pages1, u1, final, chain', bm))
             && (!Enters(u, maxP, |data|, full) && full ==>
                   WrittenWithoutEntry(pages, maxP, chain, k, name, ext, data, u, pages1, u1, ok, final, bm))
             && (!Enters(u, maxP, |data|, full) && !full ==>
                   !ok && data != [] && OthersKept(pages, final, u, First(FreePages(u, 0, maxP))))
    ensures NewFile(pages, maxP, chain, k, name, ext, data, ok, final, chain')
  {
    BufferSound(pages, maxP, chain, u);
    FullRoom(pages, chain, k);
    var full := |PageBytes(pages, chain, k)| == MAX_PACKET;
    if Enters(u, maxP, |data|, full) {
      NewIsCreated(pages, maxP, chain, k, name, ext, data, u, pages1, u1, final, chain', bm);
    } else if full {
      AllowedWithoutEntry(u, maxP, |data|, full);
      NoEntryCases(pages, maxP, chain, k, name, ext, data, u, pages1, u1, ok, final, bm);
    } else {
      OthersKeptAgrees(pages, final, u, StoredTaken(pages, maxP), maxP, First(FreePages(u, 0, maxP)));
    }
  }

  lemma NoEntryCases(pages: seq<Page>, maxP: nat, chain: seq<nat>, k: nat, name: seq<Octet>, ext: Octet,
                     data: seq<Octet>, u: seq<bool>, pages1: seq<Page>, u1: seq<bool>, ok: bool, final: seq<Page>,
                     bm: seq<Octet>)
    requires StoredSound(pages, maxP, chain) && |name| == 4 && |bm| == BM_SIZE && IsRoom(pages, chain, k)
    requires Agree(u, StoredTaken(pages, maxP), maxP) && FreePages(u, 0, maxP) != []
    requires |PageBytes(pages, chain, k)| == MAX_PACKET
    requires WrittenWithoutEntry(pages, maxP, chain, k, name, ext, data, u, pages1, u1, ok, final, bm)
    ensures if OnlyRootPage(pages, chain) then ok && Unentered(pages, maxP, chain, data, final)
            else LooksLikeRoot(name) || (!ok && RootLost(pages, maxP, chain, name, ext, data, final))
  {
    var spage := First(FreePages(u, 0, maxP));
    FullIsRootPage(pages, chain, k);
    RootNotLaid(pages, maxP, chain, spage, data, u, pages1, u1);
    if OnlyRootPage(pages, chain) {
      NewIsUnentered(pages, maxP, chain, spage, data, u, pages1, u1, final, bm);
    } else if !LooksLikeRoot(name) {
      NewLosesRoot(pages, maxP, chain, name, ext, spage as Octet, data, u, pages1, u1, final);
    }
  }

  lemma OthersKeptAgrees(pages: seq<Page>, final: seq<Page>, u: seq<bool>, v: seq<bool>, maxP: nat, strt: nat)
    requires |pages| == maxP + 1 && Agree(u, v, maxP) && OthersKept(pages, final, u, strt)
    ensures OthersKept(pages, final, v, strt)
  {
  }

  /** and what writing over a file does. */
  lemma OldIsOldFile(pages: seq<Page>, maxP: nat, chain: seq<nat>, k: nat, root: seq<nat>, h: Hit, data: seq<Octet>,
                     u: seq<bool>, pages1: seq<Page>, u1: seq<bool>, ok: bool, final: seq<Page>, bm: seq<Octet>)
    requires StoredSound(pages, maxP, chain) && StoredSound(pages, maxP, root) && HitPlace(pages, root, h)
             && IsRoom(pages, chain, k) && |bm| == BM_SIZE
    requires Agree(u, StoredTaken(pages, maxP), maxP)
    requires data != [] ==> Apart(pages, maxP, root, [h.e[5] as nat])
    requires ok <==> CanLay(u, h.e[5], maxP, |data|)
    requires ok ==> WrittenOver(pages, maxP, root, h, chain[k], data, NumPgs(|data|), u, pages1, u1, bm, final)
    requires !ok ==> OthersKept(pages, final, u, h.e[5]) && (data == [] ==> final == pages)
    ensures OldFile(pages, maxP, chain, k, root, h, data, ok, final, chain)
  {
    BufferSound(pages, maxP, root, u);
    if ok {
      OverIsOverwritten(pages, maxP, root, h, chain[k], data, NumPgs(|data|), u, pages1, u1, bm, final);
    } else {
      OthersKeptAgrees(pages, final, u, StoredTaken(pages, maxP), maxP, h.e[5]);
    }
  }

  /** The buffer that has been read serves for the stored bitmap. */
  lemma BufferSound(pages: seq<Page>, maxP: nat, chain: seq<nat>, u: seq<bool>)
    requires StoredSound(pages, maxP, chain) && Agree(u, StoredTaken(pages, maxP), maxP)
    ensures Sound(pages, maxP, chain, u)
    ensures FreePages(u, 0, maxP) == FreePages(StoredTaken(pages, maxP), 0, maxP)
    ensures MaxWrite(u, maxP) == MaxWrite(StoredTaken(pages, maxP), maxP)
    ensures forall len: nat, full :: Allowed(u, maxP, len, full) == Allowed(StoredTaken(pages, maxP), maxP, len, full)
    ensures forall len: nat, full :: Enters(u, maxP, len, full) == Enters(StoredTaken(pages, maxP), maxP, len, full)
    ensures forall spage: nat, len: nat ::
            CanLay(u, spage, maxP, len) == CanLay(StoredTaken(pages, maxP), spage, maxP, len)
  {
    MarkedAgrees(pages, maxP, chain, StoredTaken(pages, maxP), u);
    SameFree(u, StoredTaken(pages, maxP), 0, maxP);
    forall spage: nat, len: nat
      ensures CanLay(u, spage, maxP, len) == CanLay(StoredTaken(pages, maxP), spage, maxP, len)
    {
      if spage <= maxP {
        SameDataPages(u, StoredTaken(pages, maxP), spage, maxP);
      }
    }
  }
}
