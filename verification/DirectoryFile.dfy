/** The directory edits of owWriteFile and owDeleteFile on read-write memory: finding room, adding
    an entry, removing one, and storing the bitmap with them. */
module DirectoryFile {
  import opened Octets
  import opened BitmapFile
  import opened Directory
  import opened DirectoryEdits
  import opened FileChain
  import opened PageBitmap

  /** ReadNumEntry when it is asked for room (entry number -1): the first page of the directory that
      is not full, or else the last. */
  method FindRoom(medium: Medium, start: Octet, ghost chain: seq<nat>) returns (ok: bool, pg: Octet, ghost k: nat)
    requires medium.Valid() && (HasHeader(medium.pages, start) ==>
                                IsDirectory(medium.pages, chain) && chain[0] == start)
    requires start < |medium.pages| && medium.pages[start].Holding? ==> |medium.pages[start].bytes| >= 2
    ensures ok <==> HasHeader(medium.pages, start)
    ensures ok ==> IsRoom(medium.pages, chain, k) && pg as nat == chain[k]
  {
    pg, k := start, 0;
    var firstpg, pgbuf := true, [];
    while true
      invariant HasHeader(medium.pages, start) ==>
                  k < |chain| && pg as nat == chain[k] && forall j | 0 <= j < k :: FullPage(medium.pages, chain, j)
      invariant firstpg ==> k == 0 && pg == start
      invariant !firstpg ==> HasHeader(medium.pages, start)
      decreases |chain| - k
    {
      assert HasHeader(medium.pages, start) ==> DirPageAt(medium.pages, chain, k);
      ok, pgbuf := medium.ReadPage(pg);
      if !ok {
        return;
      }
      if firstpg {
        firstpg := false;
        if pgbuf[0] != 0xAA || pgbuf[1] != 0 || |pgbuf| < 7 {
          return false, pg, k;
        }
      }
      if |pgbuf| < 29 || pgbuf[|pgbuf| - 1] == 0 {
        return;
      }
      assert FullPage(medium.pages, chain, k);
      pg := pgbuf[|pgbuf| - 1];
      k := k + 1;
    }
  }

  predicate FullPage(pages: seq<Page>, chain: seq<nat>, j: nat)
    requires ValidPages(pages) && j < |chain|
  {
    DirPageAt(pages, chain, j) && |pages[chain[j]].bytes| == MAX_PACKET
  }

  /** Page k is the first that is not full, or the last. */
  predicate IsRoom(pages: seq<Page>, chain: seq<nat>, k: nat)
    requires ValidPages(pages) && IsDirectory(pages, chain)
  {
    && k < |chain| && DirPageAt(pages, chain, k) && (|pages[chain[k]].bytes| < MAX_PACKET || k == |chain| - 1)
    && forall j | 0 <= j < k :: FullPage(pages, chain, j)
  }

  // ----- the bitmap beside the directory

  /** The pages that hold a bitmap kept outside the root page. */
  function BitmapPages(pages: seq<Page>, maxP: nat): seq<nat>
    requires RootShape(pages) && maxP <= 254 && BitmapInPlace(pages, maxP)
  {
    var root := pages[0].bytes;
    if IsLocal(root) then [] else if maxP <= 224 then [root[5] as nat]
        else [root[5] as nat, pages[root[5]].bytes[28] as nat]
  }

  /** Writing the bitmap changes its own pages, or four bytes of the root page's header. */
  lemma BitmapWriteFrame(pages: seq<Page>, bm: seq<Octet>, maxP: nat, p: nat)
    requires RootShape(pages) && maxP <= 254 && |bm| == BM_SIZE && BitmapInPlace(pages, maxP) && p < |pages|
    requires p !in BitmapPages(pages, maxP)
    ensures WriteAs(pages, bm, maxP).Pages? && |WriteAs(pages, bm, maxP).pages| == |pages|
    ensures var after := WriteAs(pages, bm, maxP).pages;
            if p == 0 then SameButBitmap(pages[0], after[0]) else after[p] == pages[p]
  {
  }

  /** The same page but for the four bitmap bytes of its header. */
  predicate SameButBitmap(a: Page, b: Page) {
    && a.Holding? && b.Holding? && |a.bytes| == |b.bytes| >= 8
    && a.bytes[..3] == b.bytes[..3] && a.bytes[7..] == b.bytes[7..]
  }

  /** Pages outside a directory and the bitmap are as they were; of the root page only the bitmap
      bytes may differ. */
  predicate Untouched(pages: seq<Page>, after: seq<Page>, maxP: nat, chain: seq<nat>)
    requires RootShape(pages) && maxP <= 254 && BitmapInPlace(pages, maxP)
  {
    |after| == |pages| &&
    forall p | 0 <= p < |pages| && p !in chain && p !in BitmapPages(pages, maxP) :: UntouchedAt(pages, after, p)
  }

  predicate UntouchedAt(pages: seq<Page>, after: seq<Page>, p: nat)
    requires p < |pages| == |after|
  {
    if p == 0 then SameButBitmap(pages[0], after[0]) else after[p] == pages[p]
  }

  /** Writing the bitmap touches nothing else. */
  lemma BitmapWriteUntouched(pages: seq<Page>, bm: seq<Octet>, maxP: nat, chain: seq<nat>)
    requires RootShape(pages) && maxP <= 254 && |bm| == BM_SIZE && BitmapInPlace(pages, maxP)
    ensures WriteAs(pages, bm, maxP).Pages? && Untouched(pages, WriteAs(pages, bm, maxP).pages, maxP, chain)
  {
    BitmapRoundTrip(pages, bm, maxP);
    forall p | 0 <= p < |pages| && p !in BitmapPages(pages, maxP)
      ensures |WriteAs(pages, bm, maxP).pages| == |pages| && UntouchedAt(pages, WriteAs(pages, bm, maxP).pages, p)
    {
      BitmapWriteFrame(pages, bm, maxP, p);
    }
  }

  lemma SamePagesUntouched(pages: seq<Page>, maxP: nat, chain: seq<nat>)
    requires RootShape(pages) && maxP <= 254 && BitmapInPlace(pages, maxP)
    ensures Untouched(pages, pages, maxP, chain)
  {
  }

  /** A page of the directory may change in between. */
  lemma UntouchedBut(pages: seq<Page>, half: seq<Page>, after: seq<Page>, final: seq<Page>, maxP: nat, chain: seq<nat>,
                     p: nat, q: nat)
    requires RootShape(pages) && maxP <= 254 && BitmapInPlace(pages, maxP) && RootShape(half)
             && BitmapInPlace(half, maxP) && |half| == |pages|
    requires BitmapPages(half, maxP) == BitmapPages(pages, maxP) && p in chain && q in chain
    requires forall r | 0 <= r < |pages| && r != p :: half[r] == pages[r]
    requires Untouched(half, after, maxP, chain) && |final| == |after|
             && forall r | 0 <= r < |after| && r != q :: final[r] == after[r]
    ensures Untouched(pages, final, maxP, chain)
  {
    forall r | 0 <= r < |pages| && r !in chain && r !in BitmapPages(pages, maxP)
      ensures UntouchedAt(pages, final, r)
    {
      assert UntouchedAt(half, after, r);
    }
  }

  /** Page counts for which every page has a bit that is stored and found again. */
  predicate WholeBytes(pages: seq<Page>, maxP: nat)
    requires RootShape(pages) && RootIsDirectory(pages)
  {
    maxP % 8 == 7 || (IsLocal(pages[0].bytes) && maxP % 8 != 0)
  }

  /** The bitmap can be read, and its pages and those of the directory are apart. */
  predicate Placed(pages: seq<Page>, maxP: nat, chain: seq<nat>) {
    && RootShape(pages) && maxP + 1 == |pages| && maxP <= 254
    && BitmapInPlace(pages, maxP) && WholeBytes(pages, maxP) && IsDirectory(pages, chain)
    && forall p | p in BitmapPages(pages, maxP) :: p !in chain
  }

  /** The root page, the pages of the bitmap and those of the directory are marked as taken. */
  predicate Marked(pages: seq<Page>, maxP: nat, chain: seq<nat>, u: seq<bool>)
    requires RootShape(pages) && maxP <= 254 && BitmapInPlace(pages, maxP)
  {
    && maxP < |u| && u[0]
    && (forall p | p in BitmapPages(pages, maxP) :: p < |u| && u[p])
    && (forall p | p in chain :: p < |u| && u[p])
  }

  /** A part in order. */
  predicate Sound(pages: seq<Page>, maxP: nat, chain: seq<nat>, u: seq<bool>) {
    Placed(pages, maxP, chain) && Marked(pages, maxP, chain, u)
  }

  /** The bitmap a later reader finds: in the root page, an edit of that very page stores only the
      first two bytes. */
  function StoredBytes(bm: seq<Octet>, maxP: nat, twoOnly: bool): seq<Octet>
    requires |bm| == BM_SIZE && maxP <= 254
  {
    if twoOnly && maxP < 32 then [bm[0], bm[1], 0, 0][..maxP / 8 + 1] else bm[..maxP / 8 + 1]
  }

  /** Nothing is lost by that exactly when no page from 16 on is taken. */
  lemma ShortStoreIsExact(bm: seq<Octet>, maxP: nat)
    requires |bm| == BM_SIZE && maxP < 32
    ensures StoredBytes(bm, maxP, true) == bm[..maxP / 8 + 1] <==> forall i | 2 <= i <= maxP / 8 :: bm[i] == 0
  {
    var short, all := StoredBytes(bm, maxP, true), bm[..maxP / 8 + 1];
    assert forall i | 2 <= i <= maxP / 8 :: short[i] == 0 && all[i] == bm[i];
  }

  /** What reading the bitmap depends on: the root page up to the bitmap bytes, and its own pages. */
  lemma ReadAsFrame(pages: seq<Page>, pages': seq<Page>, maxP: nat)
    requires RootShape(pages) && RootShape(pages') && maxP <= 254 && BitmapInPlace(pages, maxP)
             && WholeBytes(pages, maxP)
    requires |pages'| == |pages| && pages'[0].Holding? && pages'[0].bytes[..7] == pages[0].bytes[..7]
    requires forall p | p in BitmapPages(pages, maxP) && p < |pages| :: pages'[p] == pages[p]
    ensures ReadAs(pages', maxP) == ReadAs(pages, maxP)
    ensures BitmapInPlace(pages', maxP) && BitmapPages(pages', maxP) == BitmapPages(pages, maxP)
            && WholeBytes(pages', maxP)
  {
    var a, b := pages[0].bytes, pages'[0].bytes;
    assert forall i | 0 <= i < 7 :: a[i] == a[..7][i] == b[..7][i] == b[i];
    if IsLocal(a) {
      assert a[3..4 + maxP / 8] == b[3..4 + maxP / 8];
    } else {
      assert a[5] as nat in BitmapPages(pages, maxP);
    }
  }

  /** The bytes of the root page with the first two bitmap bytes stored the short way. */
  function ShortStored(root: seq<Octet>, bm: seq<Octet>): (r: seq<Octet>)
    requires |root| >= 8 && |bm| == BM_SIZE
    ensures |r| == |root|
  {
    root[3 := bm[0]][4 := bm[1]][5 := 0][6 := 0]
  }

  /** The step of owWriteFile that stores the bitmap: into the root page's buffer when that is the
      page being edited and the bitmap is kept there, else through WriteBitMap. */
  method StoreBitmap(medium: Medium, dpg: Octet, buf: seq<Octet>, bm: array<Octet>, maxP: nat)
      returns (ok: bool, dbuf: seq<Octet>)
    requires medium.Valid() && RootShape(medium.pages) && maxP <= 254 && bm.Length == BM_SIZE
    requires |buf| >= 8
    modifies medium
    ensures medium.Valid() && |medium.pages| == |old(medium.pages)|
    ensures dpg == 0 && IsLocal(buf) ==> ok && medium.pages == old(medium.pages) && dbuf == ShortStored(buf, bm[..])
    ensures !(dpg == 0 && IsLocal(buf)) ==>
              && dbuf == buf && (ok <==> WriteAs(old(medium.pages), bm[..], maxP).Pages?)
              && (ok ==> medium.pages == WriteAs(old(medium.pages), bm[..], maxP).pages)
    ensures !ok && !RootIsDirectory(old(medium.pages)) ==> medium.pages == old(medium.pages)
  {
    dbuf := buf;
    if dpg == 0 && dbuf[2] >= 0x80 {
      for i := 0 to 2
        invariant |dbuf| == |buf|
                  && dbuf == (if i == 0 then buf else if i == 1 then buf[3 := bm[0]] else buf[3 := bm[0]][4 := bm[1]])
      {
        dbuf := dbuf[3 + i := bm[i]];
      }
      dbuf := dbuf[5 := 0];
      dbuf := dbuf[6 := 0];
      return true, dbuf;
    }
    ok := WriteBitMap(medium, bm, maxP);
  }

  /** Editing a page that is none of the bitmap's and storing the bitmap can be swapped. */
  lemma WriteCommutes(pages: seq<Page>, dpg: nat, dbuf: seq<Octet>, bm: seq<Octet>, maxP: nat)
    requires RootShape(pages) && maxP <= 254 && |bm| == BM_SIZE && BitmapInPlace(pages, maxP)
    requires dpg < |pages| && dpg !in BitmapPages(pages, maxP) && 8 <= |dbuf| <= MAX_PACKET
    requires dpg == 0 ==> !IsLocal(pages[0].bytes) && dbuf[..7] == pages[0].bytes[..7]
    ensures RootShape(pages[dpg := Holding(dbuf)])
    ensures WriteAs(pages, bm, maxP).Pages? && |WriteAs(pages, bm, maxP).pages| == |pages|
    ensures WriteAs(pages[dpg := Holding(dbuf)], bm, maxP)
            == Pages(WriteAs(pages, bm, maxP).pages[dpg := Holding(dbuf)])
  {
    var v := pages[dpg := Holding(dbuf)];
    if dpg == 0 {
      assert forall i | 0 <= i < 7 :: dbuf[i] == dbuf[..7][i] == pages[0].bytes[..7][i] == pages[0].bytes[i];
    }
  }

  /** Storing the bitmap leaves a part and its directory as they were, and the bitmap is found. */
  lemma StoredKeepsPlaced(pages: seq<Page>, bm: seq<Octet>, maxP: nat, chain: seq<nat>)
    requires Placed(pages, maxP, chain) && |bm| == BM_SIZE
    ensures WriteAs(pages, bm, maxP).Pages?
    ensures var after := WriteAs(pages, bm, maxP).pages;
            && Placed(after, maxP, chain) && Listing(after, chain) == Listing(pages, chain)
            && BitmapPages(after, maxP) == BitmapPages(pages, maxP) && SameDirectory(pages, after, chain)
            && ReadAs(after, maxP) == Bitmap(bm[..maxP / 8 + 1])
  {
    var after := WriteAs(pages, bm, maxP).pages;
    BitmapRoundTrip(pages, bm, maxP);
    forall j | 0 <= j < |chain|
      ensures SameToSearch(pages, after, chain, j)
    {
      assert DirPageAt(pages, chain, j) && chain[j] in chain;
      BitmapWriteFrame(pages, bm, maxP, chain[j]);
      SearchIgnoresBitmap(pages, after, chain, j);
    }
    HeaderTouched(pages, after, chain);
    RootKept(pages, bm, maxP);
  }

  lemma StoredKeepsSound(pages: seq<Page>, bm: seq<Octet>, maxP: nat, chain: seq<nat>, u: seq<bool>)
    requires Sound(pages, maxP, chain, u) && |bm| == BM_SIZE
    ensures WriteAs(pages, bm, maxP).Pages?
    ensures var after := WriteAs(pages, bm, maxP).pages;
            && Sound(after, maxP, chain, u) && Listing(after, chain) == Listing(pages, chain)
            && SameDirectory(pages, after, chain) && BitmapPages(after, maxP) == BitmapPages(pages, maxP)
            && ReadAs(after, maxP) == Bitmap(bm[..maxP / 8 + 1])
  {
    StoredKeepsPlaced(pages, bm, maxP, chain);
  }

  /** A page that differs in bitmap bytes only is the same to a search if it is the first of its
      directory; the root page is. */
  lemma SearchIgnoresBitmap(pages: seq<Page>, after: seq<Page>, chain: seq<nat>, j: nat)
    requires ValidPages(pages) && ValidPages(after) && |after| == |pages| && IsDirectory(pages, chain) && j < |chain|
             && DirPageAt(pages, chain, j)
    requires if chain[j] == 0 then SameButBitmap(pages[0], after[0]) else after[chain[j]] == pages[chain[j]]
    ensures SameToSearch(pages, after, chain, j)
  {
    assert j > 0 ==> DirPageAt(pages, chain, j - 1);
    if chain[j] == 0 {
      var a, b := pages[0].bytes, after[0].bytes;
      assert a[..3][0] == b[..3][0] && a[..3][1] == b[..3][1];
    }
  }

  lemma RootKept(pages: seq<Page>, bm: seq<Octet>, maxP: nat)
    requires RootShape(pages) && maxP <= 254 && |bm| == BM_SIZE && BitmapInPlace(pages, maxP) && WholeBytes(pages, maxP)
    ensures WriteAs(pages, bm, maxP).Pages?
    ensures var after := WriteAs(pages, bm, maxP).pages;
            && |after| == |pages| && RootShape(after)
            && BitmapInPlace(after, maxP) && WholeBytes(after, maxP)
            && BitmapPages(after, maxP) == BitmapPages(pages, maxP)
  {
    BitmapRoundTrip(pages, bm, maxP);
  }

  /** Storing the bitmap the short way, in the root page's own buffer. */
  lemma ShortKeepsSound(pages: seq<Page>, bm: seq<Octet>, maxP: nat, chain: seq<nat>, u: seq<bool>)
    requires Sound(pages, maxP, chain, u) && |bm| == BM_SIZE && IsLocal(pages[0].bytes)
    ensures var after := pages[0 := Holding(ShortStored(pages[0].bytes, bm))];
            && Sound(after, maxP, chain, u) && Listing(after, chain) == Listing(pages, chain)
            && SameDirectory(pages, after, chain) && BitmapPages(after, maxP) == BitmapPages(pages, maxP)
            && ReadAs(after, maxP) == Bitmap(StoredBytes(bm, maxP, true))
  {
    var root := pages[0].bytes;
    var after := pages[0 := Holding(ShortStored(root, bm))];
    assert SameButBitmap(pages[0], after[0]);
    forall j | 0 <= j < |chain|
      ensures SameToSearch(pages, after, chain, j)
    {
      assert DirPageAt(pages, chain, j);
      SearchIgnoresBitmap(pages, after, chain, j);
    }
    HeaderTouched(pages, after, chain);
    assert after[0].bytes[3..4 + maxP / 8] == [bm[0], bm[1], 0, 0][..maxP / 8 + 1];
  }

  /** The pages after an entry has been added in the buffers: the edited page, and the new one if
      the directory has grown. */
  predicate Grown(pages: seq<Page>, chain: seq<nat>, k: nat, u: seq<bool>, e: Entry, maxP: nat, after: seq<Page>,
                  chain': seq<nat>, u': seq<bool>)
    requires ValidPages(pages) && IsDirectory(pages, chain) && maxP < |u|
  {
    && k < |chain| && DirPageAt(pages, chain, k)
    && var bytes := pages[chain[k]].bytes;
    if |bytes| < MAX_PACKET then
      chain' == chain && u' == u && after == pages[chain[k] := Holding(bytes[..|bytes| - 1] + e + [Last(bytes)])]
    else
      && k == |chain| - 1 && FreePages(u, 0, maxP) != []
      && var p := First(FreePages(u, 0, maxP));
      p < 256 && u' == (if p < |u| then u[p := true] else u) && Continued(pages, chain, p, e, after, chain')
  }

  /** Changing pages of a directory other than in the header of the root page keeps a part in place. */
  lemma EditKeepsPlaced(pages: seq<Page>, maxP: nat, chain: seq<nat>, after: seq<Page>, chain': seq<nat>)
    requires Placed(pages, maxP, chain) && ValidPages(after) && IsDirectory(after, chain') && |after| == |pages|
    requires after[0].Holding? && |after[0].bytes| >= 8 && after[0].bytes[..7] == pages[0].bytes[..7]
    requires forall p | p in BitmapPages(pages, maxP) :: (p < |pages| ==> after[p] == pages[p]) && p !in chain'
    ensures Placed(after, maxP, chain') && BitmapPages(after, maxP) == BitmapPages(pages, maxP)
  {
    ReadAsFrame(pages, after, maxP);
  }

  /** So does taking free pages into it, if they are marked. */
  lemma EditKeepsSound(pages: seq<Page>, maxP: nat, chain: seq<nat>, u: seq<bool>, after: seq<Page>, chain': seq<nat>,
                       u': seq<bool>)
    requires Sound(pages, maxP, chain, u) && ValidPages(after) && IsDirectory(after, chain') && |after| == |pages|
             && |u'| == |u|
    requires after[0].Holding? && |after[0].bytes| >= 8 && after[0].bytes[..7] == pages[0].bytes[..7]
    requires forall p | p in BitmapPages(pages, maxP) ::
             (p < |pages| ==> after[p] == pages[p]) && p !in chain' && p < |u'| && u'[p]
    requires forall p | p in chain' :: p < |u'| && u'[p]
    requires u'[0]
    ensures Sound(after, maxP, chain', u')
  {
    EditKeepsPlaced(pages, maxP, chain, after, chain');
  }

  /** Where the new entry is: last on the edited page, or alone on the new one. */
  predicate NewPlace(after: seq<Page>, chain: seq<nat>, k: nat, chain': seq<nat>, P: nat)
    requires ValidPages(after) && IsDirectory(after, chain')
  {
    var kk := if chain' == chain then k else |chain|;
    LastOnPage(after, chain', kk, P) && (|PageBytes(after, chain', kk)| == 8 <==> chain' != chain)
  }

  lemma GrownOnPage(pages: seq<Page>, maxP: nat, chain: seq<nat>, k: nat, u: seq<bool>, e: Entry, after: seq<Page>,
                    chain': seq<nat>, u': seq<bool>)
    requires Sound(pages, maxP, chain, u) && Grown(pages, chain, k, u, e, maxP, after, chain', u')
             && |pages[chain[k]].bytes| < MAX_PACKET
    ensures Sound(after, maxP, chain', u') && |Entries(pages, chain, k + 1)| <= |Listing(pages, chain)|
    ensures Listing(after, chain') == Inserted(Listing(pages, chain), |Entries(pages, chain, k + 1)|, e)
    ensures NewPlace(after, chain, k, chain', |Entries(pages, chain, k + 1)|)
  {
    var bytes := pages[chain[k]].bytes;
    assert chain[k] in chain;
    assert (bytes[..|bytes| - 1] + e + [Last(bytes)])[..7] == bytes[..7];
    AddedOnPage(pages, chain, k, e, after);
    AddedIsLast(pages, chain, k, e, after);
    EditKeepsSound(pages, maxP, chain, u, after, chain', u');
  }

  lemma GrownByPage(pages: seq<Page>, maxP: nat, chain: seq<nat>, k: nat, u: seq<bool>, e: Entry, after: seq<Page>,
                    chain': seq<nat>, u': seq<bool>)
    requires Sound(pages, maxP, chain, u) && Grown(pages, chain, k, u, e, maxP, after, chain', u')
             && |pages[chain[k]].bytes| == MAX_PACKET
    ensures Sound(after, maxP, chain', u') && Listing(after, chain') == Listing(pages, chain) + [e]
    ensures NewPlace(after, chain, k, chain', |Listing(pages, chain)|)
  {
    var bytes, p := pages[chain[k]].bytes, First(FreePages(u, 0, maxP));
    assert chain[k] in chain;
    FreePagesAreTheFree(u, 0, maxP, p);
    AddedOnNewPage(pages, chain, p, e, after, chain');
    assert (bytes[..|bytes| - 1] + [p as Octet])[..7] == bytes[..7];
    assert forall q | q in chain' :: q in chain || q == p;
    EditKeepsSound(pages, maxP, chain, u, after, chain', u');
  }

  /** Adding an entry puts it behind the entries of the pages up to the edited one. */
  lemma GrownIsSound(pages: seq<Page>, maxP: nat, chain: seq<nat>, k: nat, u: seq<bool>, e: Entry, after: seq<Page>,
                     chain': seq<nat>, u': seq<bool>)
    requires Sound(pages, maxP, chain, u) && Grown(pages, chain, k, u, e, maxP, after, chain', u')
    ensures Sound(after, maxP, chain', u')
    ensures |Entries(pages, chain, k + 1)| <= |Listing(pages, chain)|
    ensures Listing(after, chain') == Inserted(Listing(pages, chain), |Entries(pages, chain, k + 1)|, e)
    ensures NewPlace(after, chain, k, chain', |Entries(pages, chain, k + 1)|)
  {
    if |pages[chain[k]].bytes| < MAX_PACKET {
      GrownOnPage(pages, maxP, chain, k, u, e, after, chain', u');
    } else {
      GrownByPage(pages, maxP, chain, k, u, e, after, chain', u');
      InsertedLast(Listing(pages, chain), e);
    }
  }

  lemma InsertedLast(es: seq<Entry>, e: Entry)
    ensures Inserted(es, |es|, e) == es + [e]
  {
  }

  /** The first half of the new-entry edit of owWriteFile: a full directory page is continued on a
      new page, any other takes the entry itself. The edited page is not yet written. */
  method EditBuffer(medium: Medium, dbuf: seq<Octet>, entry: Entry, bm: array<Octet>, maxP: nat)
      returns (ok: bool, buf: seq<Octet>)
    requires medium.Valid() && maxP + 1 == |medium.pages| && maxP <= 254 && maxP < 8 * bm.Length
             && 8 <= |dbuf| <= MAX_PACKET
    modifies medium, bm
    ensures medium.Valid() && ok
    ensures if |dbuf| == MAX_PACKET then
              var avail := First(FreePages(Taken(old(bm[..])), 0, maxP));
              && avail <= maxP && medium.pages == old(medium.pages)[avail := Holding(entry + [0])]
              && buf == dbuf[..|dbuf| - 1] + [avail]
              && Taken(bm[..]) == Taken(old(bm[..]))[avail := true]
            else
              && medium.pages == old(medium.pages) && bm[..] == old(bm[..])
              && buf == dbuf[..|dbuf| - 1] + entry + [Last(dbuf)]
  {
    var avail, next := FindEmpties(bm, maxP);
    buf, ok := dbuf, true;
    if |dbuf| == 29 {
      FirstInRange(Taken(bm[..]), maxP);
      ok := medium.WritePage(entry + [0], avail);
      ok := BitMapChange(bm, maxP, avail, 1);
      buf := buf[|buf| - 1 := avail];
    } else {
      var pg := dbuf[|dbuf| - 1];
      buf := dbuf[..|dbuf| - 1];
      for i := 0 to ENTRY
        invariant buf == dbuf[..|dbuf| - 1] + entry[..i]
      {
        buf := buf + [entry[i]];
      }
      buf := buf + [pg];
      assert entry[..ENTRY] == entry;
    }
  }

  lemma FirstInRange(u: seq<bool>, maxP: nat)
    requires maxP < |u|
    ensures First(FreePages(u, 0, maxP)) <= maxP
  {
    if FreePages(u, 0, maxP) != [] {
      FreePagesAreTheFree(u, 0, maxP, FreePages(u, 0, maxP)[0]);
    }
  }

  /** What the two writes at the end of the edit come to: the edited directory with the bitmap stored. */
  lemma EditCommitted(pages: seq<Page>, after: seq<Page>, dpg: nat, buf: seq<Octet>, bm: seq<Octet>, maxP: nat,
                      chain: seq<nat>, u: seq<bool>, final: seq<Page>)
    requires RootShape(pages) && maxP <= 254 && |bm| == BM_SIZE && BitmapInPlace(pages, maxP)
             && WholeBytes(pages, maxP) && 8 <= |buf| <= MAX_PACKET
    requires dpg in chain && dpg < |pages| && after == pages[dpg := Holding(buf)] && Sound(after, maxP, chain, u)
    requires BitmapPages(pages, maxP) == BitmapPages(after, maxP) && (dpg == 0 ==> buf[..7] == pages[0].bytes[..7])
    requires Commits(pages, dpg, buf, bm, maxP).Pages? ==> final == Commits(pages, dpg, buf, bm, maxP).pages
    ensures Commits(pages, dpg, buf, bm, maxP).Pages? && Untouched(pages, final, maxP, chain)
    ensures Sound(final, maxP, chain, u) && Listing(final, chain) == Listing(after, chain)
            && SameDirectory(after, final, chain)
    ensures BitmapPages(final, maxP) == BitmapPages(after, maxP)
    ensures ReadAs(final, maxP) == Bitmap(StoredBytes(bm, maxP, dpg == 0 && IsLocal(buf)))
  {
    if dpg == 0 && IsLocal(buf) {
      ShortKeepsSound(after, bm, maxP, chain, u);
      assert final == after[0 := Holding(ShortStored(after[0].bytes, bm))];
    } else {
      assert dpg == 0 ==> buf[2] == buf[..7][2] == pages[0].bytes[..7][2] == pages[0].bytes[2];
      WriteCommutes(pages, dpg, buf, bm, maxP);
      StoredKeepsSound(after, bm, maxP, chain, u);
      assert final == WriteAs(after, bm, maxP).pages;
    }
    EditTouchesOne(pages, dpg, buf, bm, maxP, chain);
  }

  lemma EditTouchesOne(pages: seq<Page>, dpg: nat, buf: seq<Octet>, bm: seq<Octet>, maxP: nat, chain: seq<nat>)
    requires RootShape(pages) && maxP <= 254 && |bm| == BM_SIZE && BitmapInPlace(pages, maxP)
    requires dpg in chain && dpg < |pages| && |buf| >= 8
    ensures Commits(pages, dpg, buf, bm, maxP).Pages? ==>
              Untouched(pages, Commits(pages, dpg, buf, bm, maxP).pages, maxP, chain)
  {
    BitmapWriteUntouched(pages, bm, maxP, chain);
    SamePagesUntouched(pages, maxP, chain);
    var r := Commits(pages, dpg, buf, bm, maxP);
    if r.Pages? {
      var stored := if dpg == 0 && IsLocal(buf) then pages else WriteAs(pages, bm, maxP).pages;
      forall q | 0 <= q < |pages| && q !in chain && q !in BitmapPages(pages, maxP)
        ensures UntouchedAt(pages, r.pages, q)
      {
        assert UntouchedAt(pages, stored, q) && q != dpg;
      }
    }
  }

  /** The state between the two halves of the edit. */
  predicate HalfWay(pages: seq<Page>, maxP: nat, chain: seq<nat>, k: nat, u: seq<bool>, e: Entry, half: seq<Page>,
                    buf: seq<Octet>, chain': seq<nat>, u': seq<bool>)
    requires ValidPages(pages) && IsDirectory(pages, chain) && maxP < |u| && IsRoom(pages, chain, k)
  {
    var bytes := pages[chain[k]].bytes;
    if |bytes| == MAX_PACKET then
      var free := FreePages(u, 0, maxP);
      && free != [] && free[0] <= maxP < |pages| && free[0] < 256 && half == pages[free[0] := Holding(e + [0])]
      && buf == bytes[..|bytes| - 1] + [free[0]] && u' == u[free[0] := true] && chain' == chain + [free[0]]
    else
      half == pages && buf == bytes[..|bytes| - 1] + e + [Last(bytes)] && u' == u && chain' == chain
  }

  /** After the first half of the edit the bitmap is where it was, and finishing the edit in the
      buffers would give the grown directory. */
  lemma HalfEdited(pages: seq<Page>, maxP: nat, chain: seq<nat>, k: nat, u: seq<bool>, e: Entry, half: seq<Page>,
                   buf: seq<Octet>, chain': seq<nat>, u': seq<bool>)
    requires Sound(pages, maxP, chain, u) && IsRoom(pages, chain, k)
    requires HalfWay(pages, maxP, chain, k, u, e, half, buf, chain', u')
    ensures RootShape(half) && BitmapInPlace(half, maxP) && WholeBytes(half, maxP)
            && BitmapPages(half, maxP) == BitmapPages(pages, maxP)
    ensures 8 <= |buf| <= MAX_PACKET && (chain[k] == 0 ==> buf[..7] == half[0].bytes[..7])
    ensures Grown(pages, chain, k, u, e, maxP, half[chain[k] := Holding(buf)], chain', u')
  {
    var bytes := pages[chain[k]].bytes;
    assert chain[k] in chain;
    assert buf[..7] == bytes[..7];
    if |bytes| == MAX_PACKET {
      var p := FreePages(u, 0, maxP)[0];
      FreePagesAreTheFree(u, 0, maxP, p);
      OneEntryPage(e, 0);
      ReadAsFrame(pages, half, maxP);
    }
  }

  /** What has been edited is a sound part with the entry added, once the edited page is written. */
  lemma EditedIsSound(pages: seq<Page>, maxP: nat, chain: seq<nat>, k: nat, u: seq<bool>, e: Entry, half: seq<Page>,
                      buf: seq<Octet>, chain': seq<nat>, u': seq<bool>)
    requires Sound(pages, maxP, chain, u) && IsRoom(pages, chain, k)
    requires HalfWay(pages, maxP, chain, k, u, e, half, buf, chain', u')
    ensures RootShape(half) && BitmapInPlace(half, maxP) && WholeBytes(half, maxP)
            && BitmapPages(half, maxP) == BitmapPages(pages, maxP)
    ensures 8 <= |buf| <= MAX_PACKET && chain[k] in chain' && (chain[k] == 0 ==> buf[..7] == half[0].bytes[..7])
    ensures IsLocal(half[0].bytes) == IsLocal(pages[0].bytes)
            && (chain[k] == 0 ==> IsLocal(buf) == IsLocal(pages[0].bytes))
    ensures var after := half[chain[k] := Holding(buf)];
            && Sound(after, maxP, chain', u') && BitmapPages(half, maxP) == BitmapPages(after, maxP)
            && |Entries(pages, chain, k + 1)| <= |Listing(pages, chain)|
            && Listing(after, chain') == Inserted(Listing(pages, chain), |Entries(pages, chain, k + 1)|, e)
            && NewPlace(after, chain, k, chain', |Entries(pages, chain, k + 1)|)
  {
    HalfEdited(pages, maxP, chain, k, u, e, half, buf, chain', u');
    GrownIsSound(pages, maxP, chain, k, u, e, half[chain[k] := Holding(buf)], chain', u');
    assert chain[k] in chain;
    SameFlag(buf, half[0].bytes);
    ReadAsFrame(half, half[chain[k] := Holding(buf)], maxP);
  }

  /** The second half of the edit: the bitmap is stored, and the edited page written. */
  method CommitEdit(medium: Medium, dpg: Octet, buf: seq<Octet>, bm: array<Octet>, maxP: nat) returns (ok: bool)
    requires medium.Valid() && RootShape(medium.pages) && maxP <= 254 && bm.Length == BM_SIZE
    requires dpg < |medium.pages| && 8 <= |buf| <= MAX_PACKET
    modifies medium
    ensures medium.Valid() && (ok <==> Commits(old(medium.pages), dpg, buf, bm[..], maxP).Pages?)
    ensures ok ==> medium.pages == Commits(old(medium.pages), dpg, buf, bm[..], maxP).pages
    ensures !ok && !RootIsDirectory(old(medium.pages)) ==> medium.pages == old(medium.pages)
  {
    var dbuf;
    ok, dbuf := StoreBitmap(medium, dpg, buf, bm, maxP);
    if !ok {
      return;
    }
    ok := medium.WritePage(dbuf, dpg);
  }

  /** What is on the part then. */
  function Commits(pages: seq<Page>, dpg: nat, buf: seq<Octet>, bm: seq<Octet>, maxP: nat): Stored
    requires RootShape(pages) && maxP <= 254 && |bm| == BM_SIZE && dpg < |pages| && |buf| >= 8
  {
    if dpg == 0 && IsLocal(buf) then Pages(pages[dpg := Holding(ShortStored(buf, bm))])
    else
      match WriteAs(pages, bm, maxP)
      case Failed => Failed
      case Pages(stored) => Pages(stored[dpg := Holding(buf)])
  }

  /** Exactly one entry has been added, behind those of the pages up to the one with room; the chain
      has grown by at most one page, until then free; what is no page of it is untouched. */
  predicate EntryAdded(pages: seq<Page>, maxP: nat, chain: seq<nat>, k: nat, u: seq<bool>, e: Entry, final: seq<Page>,
                       chain': seq<nat>, u': seq<bool>)
    requires Sound(pages, maxP, chain, u) && IsRoom(pages, chain, k)
  {
    var at := |Entries(pages, chain, k + 1)|;
    && Sound(final, maxP, chain', u') && Untouched(pages, final, maxP, chain')
    && BitmapPages(final, maxP) == BitmapPages(pages, maxP)
    && at <= |Listing(pages, chain)| && Listing(final, chain') == Inserted(Listing(pages, chain), at, e)
    && NewPlace(final, chain, k, chain', at)
    && if |pages[chain[k]].bytes| == MAX_PACKET then
         var p := First(FreePages(u, 0, maxP)); p < |u| && chain' == chain + [p] && u' == u[p := true]
       else
         chain' == chain && u' == u
  }

  lemma AddCommitted(pages: seq<Page>, maxP: nat, chain: seq<nat>, k: nat, u: seq<bool>, e: Entry, half: seq<Page>,
                     buf: seq<Octet>, chain': seq<nat>, u': seq<bool>, bm: seq<Octet>, final: seq<Page>)
    requires Sound(pages, maxP, chain, u) && IsRoom(pages, chain, k) && |bm| == BM_SIZE && Taken(bm) == u'
    requires HalfWay(pages, maxP, chain, k, u, e, half, buf, chain', u')
    requires RootShape(half) && 8 <= |buf| <= MAX_PACKET && chain[k] < |half|
    requires Commits(half, chain[k], buf, bm, maxP).Pages? ==> final == Commits(half, chain[k], buf, bm, maxP).pages
    ensures Commits(half, chain[k], buf, bm, maxP).Pages?
    ensures EntryAdded(pages, maxP, chain, k, u, e, final, chain', u')
    ensures ReadAs(final, maxP) == Bitmap(StoredBytes(bm, maxP, chain[k] == 0 && IsLocal(pages[0].bytes)))
  {
    EditedIsSound(pages, maxP, chain, k, u, e, half, buf, chain', u');
    EditCommitted(half, half[chain[k] := Holding(buf)], chain[k], buf, bm, maxP, chain', u', final);
    var full := |pages[chain[k]].bytes| == MAX_PACKET;
    PlaceKept(half[chain[k] := Holding(buf)], final, chain, k, chain', |Entries(pages, chain, k + 1)|);
    UntouchedBut(pages, half, final, final, maxP, chain',
                 if full then First(FreePages(u, 0, maxP)) else chain[k], chain[k]);
  }

  /** A name that passes for the mark of a directory. */
  predicate LooksLikeRoot(name: seq<Octet>)
    requires |name| >= 2
  {
    name[0] == 0xAA && name[1] == 0
  }

  /** A directory without room, and no page for it to go on to: the entry is taken to page 0 instead. If
      page 0 is then written back, because it is the one edited and keeps the bitmap, the edit comes to
      storing the bitmap; otherwise the root page is lost, and the bitmap cannot be stored any more. */
  predicate EntryLost(pages: seq<Page>, chain: seq<nat>, k: nat, e: Entry, bm: seq<Octet>, ok: bool, final: seq<Page>)
    requires RootShape(pages) && IsDirectory(pages, chain) && k < |chain| && |bm| == BM_SIZE && pages[0].Holding?
  {
    if chain[k] == 0 && IsLocal(pages[0].bytes) then
      ok && final == pages[0 := Holding(ShortStored(pages[0].bytes, bm))]
    else
      LooksLikeRoot(e) || (!ok && final == pages[0 := Holding(e + [0])])
  }

  lemma LostCommitted(pages: seq<Page>, maxP: nat, chain: seq<nat>, k: nat, u: seq<bool>, e: Entry, buf: seq<Octet>,
                      bm: seq<Octet>)
    requires Sound(pages, maxP, chain, u) && IsRoom(pages, chain, k) && |bm| == BM_SIZE
    requires |pages[chain[k]].bytes| == MAX_PACKET && buf == pages[chain[k]].bytes[..MAX_PACKET - 1] + [0]
    ensures var half := pages[0 := Holding(e + [0])];
            && RootShape(half)
            && if chain[k] == 0 && IsLocal(pages[0].bytes) then
                 Commits(half, chain[k], buf, bm, maxP)
                 == Pages(pages[0 := Holding(ShortStored(pages[0].bytes, bm))])
               else LooksLikeRoot(e) || (Commits(half, chain[k], buf, bm, maxP).Failed? && !RootIsDirectory(half))
    ensures u[0 := true] == u
  {
    assert buf == pages[chain[k]].bytes;
  }

  /** The new-entry edit of owWriteFile. On a directory page with room, or a full last page while some
      page is free, the entry is added and the bitmap stored. */
  method AddEntry(medium: Medium, dpg: Octet, entry: Entry, bm: array<Octet>, maxP: nat, ghost chain: seq<nat>,
                  ghost k: nat)
      returns (ok: bool, ghost chain': seq<nat>)
    requires medium.Valid() && bm.Length == BM_SIZE && Sound(medium.pages, maxP, chain, Taken(bm[..]))
    requires IsRoom(medium.pages, chain, k) && dpg as nat == chain[k]
    modifies medium, bm
    ensures medium.Valid()
    ensures |old(medium.pages)[dpg].bytes| < MAX_PACKET || FreePages(Taken(old(bm[..])), 0, maxP) != [] ==>
              && ok
              && EntryAdded(old(medium.pages), maxP, chain, k, Taken(old(bm[..])), entry, medium.pages, chain',
                            Taken(bm[..]))
              && ReadAs(medium.pages, maxP)
                 == Bitmap(StoredBytes(bm[..], maxP, dpg == 0 && IsLocal(old(medium.pages)[0].bytes)))
    ensures |old(medium.pages)[dpg].bytes| == MAX_PACKET && FreePages(Taken(old(bm[..])), 0, maxP) == [] ==>
              && EntryLost(old(medium.pages), chain, k, entry, bm[..], ok, medium.pages)
              && Taken(bm[..]) == Taken(old(bm[..]))
  {
    ghost var pages, u := medium.pages, Taken(bm[..]);
    var dbuf, buf;
    ok, dbuf := medium.ReadPage(dpg);
    ok, buf := EditBuffer(medium, dbuf, entry, bm, maxP);
    ghost var v, half := Taken(bm[..]), medium.pages;
    chain' := if |dbuf| == MAX_PACKET then chain + [First(FreePages(u, 0, maxP))] else chain;
    if |dbuf| == MAX_PACKET && FreePages(u, 0, maxP) == [] {
      LostCommitted(pages, maxP, chain, k, u, entry, buf, bm[..]);
    } else {
      EditedIsSound(pages, maxP, chain, k, u, entry, half, buf, chain', v);
      AddCommitted(pages, maxP, chain, k, u, entry, half, buf, chain', v, bm[..],
                   match Commits(half, dpg, buf, bm[..], maxP) case Failed => half case Pages(p) => p);
    }
    ok := CommitEdit(medium, dpg, buf, bm, maxP);
  }

  lemma PlaceKept(after: seq<Page>, final: seq<Page>, chain: seq<nat>, k: nat, chain': seq<nat>, P: nat)
    requires ValidPages(after) && IsDirectory(after, chain') && ValidPages(final) && IsDirectory(final, chain')
    requires SameDirectory(after, final, chain') && NewPlace(after, chain, k, chain', P)
    ensures NewPlace(final, chain, k, chain', P)
  {
    SamePlace(after, final, chain', if chain' == chain then k else |chain|, P);
  }

  lemma SameFlag(a: seq<Octet>, b: seq<Octet>)
    requires |a| >= 8 && |b| >= 8
    ensures a[..7] == b[..7] ==> IsLocal(a) == IsLocal(b)
  {
    assert a[..7][2] == a[2] && b[..7][2] == b[2];
  }

  // ----- removing an entry

  /** The pages after an entry has been taken out: its page without it, or, when it was the only one
      there, the page before linked past it. */
  predicate Shrunk(pages: seq<Page>, chain: seq<nat>, k: nat, off: nat, u: seq<bool>, after: seq<Page>,
                   chain': seq<nat>, u': seq<bool>)
    requires ValidPages(pages) && IsDirectory(pages, chain)
  {
    && k < |chain| && DirPageAt(pages, chain, k) && chain[k] < |u|
    && var bytes := pages[chain[k]].bytes;
    if |bytes| == 8 then
      k > 0 && Unlinked(pages, chain, k, after, chain') && u' == u[chain[k] := false]
    else
      off + ENTRY < |bytes| && chain' == chain && u' == u
          && after == pages[chain[k] := Holding(bytes[..off] + bytes[off + ENTRY..])]
  }

  lemma ShrunkOnPage(pages: seq<Page>, maxP: nat, chain: seq<nat>, k: nat, off: nat, P: nat, u: seq<bool>,
                     after: seq<Page>, chain': seq<nat>, u': seq<bool>)
    requires Placed(pages, maxP, chain) && LocatedAt(pages, chain, k, off, P)
             && Shrunk(pages, chain, k, off, u, after, chain', u')
    requires |pages[chain[k]].bytes| > 8
    ensures Placed(after, maxP, chain') && BitmapPages(after, maxP) == BitmapPages(pages, maxP)
            && P < |Listing(pages, chain)| && Listing(after, chain') == Removed(Listing(pages, chain), P)
  {
    var bytes := pages[chain[k]].bytes;
    assert chain[k] in chain;
    assert k > 0 ==> DirPageAt(pages, chain, k - 1);
    if chain[k] == 0 {
      assert (bytes[..off] + bytes[off + ENTRY..])[..7] == bytes[..7];
    }
    RemovedOnPage(pages, chain, k, off, P, after);
    EditKeepsPlaced(pages, maxP, chain, after, chain');
  }

  /** The chain without a page has all the others. */
  lemma LeftOut(pages: seq<Page>, chain: seq<nat>, k: nat)
    requires ValidPages(pages) && IsDirectory(pages, chain) && k < |chain|
    ensures forall q :: q in chain[..k] + chain[k + 1..] <==> q in chain && q != chain[k]
  {
    DirectoryIsChain(pages, chain);
    forall i | 0 <= i < |chain| && i != k
      ensures chain[i] != chain[k]
    {
      if i < k {
        NoPageTwice(pages, chain, i, k);
      } else {
        NoPageTwice(pages, chain, k, i);
      }
    }
    var rest := chain[..k] + chain[k + 1..];
    forall q | q in chain && q != chain[k]
      ensures q in rest
    {
      var i :| 0 <= i < |chain| && chain[i] == q;
      assert rest[if i < k then i else i - 1] == q;
    }
  }

  lemma ShrunkByPage(pages: seq<Page>, maxP: nat, chain: seq<nat>, k: nat, off: nat, P: nat, u: seq<bool>,
                     after: seq<Page>, chain': seq<nat>, u': seq<bool>)
    requires Placed(pages, maxP, chain) && LocatedAt(pages, chain, k, off, P)
             && Shrunk(pages, chain, k, off, u, after, chain', u')
    requires |pages[chain[k]].bytes| == 8
    ensures Placed(after, maxP, chain') && BitmapPages(after, maxP) == BitmapPages(pages, maxP)
            && P < |Listing(pages, chain)| && Listing(after, chain') == Removed(Listing(pages, chain), P)
  {
    var prev := pages[chain[k - 1]].bytes;
    assert chain[k] in chain && chain[k - 1] in chain;
    assert (prev[..|prev| - 1] + [Last(pages[chain[k]].bytes)])[..7] == prev[..7];
    RemovedWithPage(pages, chain, k, off, P, after, chain');
    LeftOut(pages, chain, k);
    EditKeepsPlaced(pages, maxP, chain, after, chain');
  }

  /** Where an entry lies and which page comes before. */
  predicate EntryPlace(info: FileInfo, pages: seq<Page>, chain: seq<nat>, k: nat)
    requires ValidPages(pages) && IsDirectory(pages, chain)
  {
    && k < |chain| && DirPageAt(pages, chain, k) && (k > 0 ==> DirPageAt(pages, chain, k - 1))
    && Base(k == 0) <= info.offset && info.offset + ENTRY < |pages[chain[k]].bytes|
    && info.dpage as nat == chain[k] && info.pdpage as nat == chain[if k == 0 then 0 else k - 1]
  }

  /** The directory page to be written when an entry is taken out, and its number. An emptied page
      is marked as free. */
  method CutEntry(medium: Medium, info: FileInfo, bm: array<Octet>, maxP: nat, ghost chain: seq<nat>, ghost k: nat)
      returns (ok: bool, pg: Octet, buf: seq<Octet>, ghost chain': seq<nat>)
    requires medium.Valid() && bm.Length == BM_SIZE && Placed(medium.pages, maxP, chain)
             && EntryPlace(info, medium.pages, chain, k)
    modifies bm
    ensures ok && pg < |medium.pages| && pg as nat in chain && 1 <= |buf| <= MAX_PACKET
    ensures Shrunk(medium.pages, chain, k, info.offset, Taken(old(bm[..])), medium.pages[pg as nat := Holding(buf)],
                   chain', Taken(bm[..]))
  {
    chain' := chain;
    assert chain[k] in chain && (k > 0 ==> chain[k - 1] in chain);
    ok, buf := medium.ReadPage(info.dpage);
    pg := info.dpage;
    if (|buf| - 1) % 7 != 0 {
      return false, pg, buf, chain;
    }
    var p := buf[|buf| - 1];
    if |buf| / 7 == 1 {
      ok, buf := medium.ReadPage(info.pdpage);
      buf := buf[|buf| - 1 := p];
      ok := BitMapChange(bm, maxP, info.dpage, 0);
      pg := info.pdpage;
      chain' := chain[..k] + chain[k + 1..];
      ghost var prev := medium.pages[pg].bytes;
      assert buf == prev[..|prev| - 1] + [p];
    } else {
      buf := ShiftOver(buf, info.offset);
    }
  }

  /** The loop that shifts the rest of a page over an entry, and the continuation after it. */
  method ShiftOver(page: seq<Octet>, off: nat) returns (buf: seq<Octet>)
    requires off + ENTRY < |page|
    ensures buf == page[..off] + page[off + ENTRY..]
  {
    var p, len := page[|page| - 1], |page|;
    buf := page;
    for i := off to len - 7
      invariant |buf| == len && buf[..i] == page[..off] + page[off + ENTRY..i + ENTRY] && buf[i..] == page[i..]
    {
      var moved := buf[i + 7];
      assert moved == buf[i..][7] == page[i..][7] == page[i + 7];
      ghost var before := buf;
      buf := buf[i := moved];
      assert buf[..i + 1] == before[..i] + [moved];
      assert buf[i + 1..] == before[i..][1..];
    }
    buf := buf[..len - 7];
    buf := buf[len - 8 := p];
  }

  /** Taking an entry out removes just that entry, and the page it was alone on. */
  lemma ShrunkIsPlaced(pages: seq<Page>, maxP: nat, chain: seq<nat>, k: nat, off: nat, P: nat, u: seq<bool>,
                       after: seq<Page>, chain': seq<nat>, u': seq<bool>)
    requires Placed(pages, maxP, chain) && LocatedAt(pages, chain, k, off, P)
             && Shrunk(pages, chain, k, off, u, after, chain', u')
    ensures Placed(after, maxP, chain') && BitmapPages(after, maxP) == BitmapPages(pages, maxP)
            && P < |Listing(pages, chain)| && Listing(after, chain') == Removed(Listing(pages, chain), P)
  {
    if |pages[chain[k]].bytes| == 8 {
      ShrunkByPage(pages, maxP, chain, k, off, P, u, after, chain', u');
    } else {
      ShrunkOnPage(pages, maxP, chain, k, off, P, u, after, chain', u');
    }
  }

  /** Which pages are free once entry P is gone. */
  function FreedWith(u: seq<bool>, alone: bool, dpage: nat, spage: nat): seq<bool>
    requires dpage < |u| && spage < |u|
  {
    (if alone then u[dpage := false] else u)[spage := false]
  }

  /** Exactly entry P has gone, with its page if it was alone there, and the page and the start page
      of its file are free; no page outside the directory and the bitmap has been touched. */
  predicate EntryGone(pages: seq<Page>, maxP: nat, chain: seq<nat>, k: nat, P: nat, u: seq<bool>, spage: nat,
                      final: seq<Page>, chain': seq<nat>, u': seq<bool>)
    requires Placed(pages, maxP, chain) && k < |chain| && maxP < |u| && spage <= maxP
  {
    var alone := |PageBytes(pages, chain, k)| == 8;
    && Placed(final, maxP, chain') && Untouched(pages, final, maxP, chain)
    && BitmapPages(final, maxP) == BitmapPages(pages, maxP)
    && P < |Listing(pages, chain)| && Listing(final, chain') == Removed(Listing(pages, chain), P)
    && chain' == (if alone then chain[..k] + chain[k + 1..] else chain)
    && u' == FreedWith(u, alone, chain[k], spage)
  }

  lemma GoneCommitted(pages: seq<Page>, maxP: nat, chain: seq<nat>, k: nat, off: nat, P: nat, u: seq<bool>, spage: nat,
                      pg: nat, buf: seq<Octet>, chain': seq<nat>, half: seq<bool>, final: seq<Page>, u': seq<bool>)
    requires Placed(pages, maxP, chain) && LocatedAt(pages, chain, k, off, P) && maxP < |u| && spage <= maxP
    requires pg < |pages| && pg in chain && 1 <= |buf| <= MAX_PACKET
    requires var after := pages[pg := Holding(buf)];
             && Shrunk(pages, chain, k, off, u, after, chain', half) && Placed(after, maxP, chain')
             && Placed(final, maxP, chain') && BitmapPages(final, maxP) == BitmapPages(after, maxP)
             && Listing(final, chain') == Listing(after, chain') && Untouched(after, final, maxP, [])
    requires |half| == |u| && u' == half[spage := false]
    ensures EntryGone(pages, maxP, chain, k, P, u, spage, final, chain', u')
  {
    var after := pages[pg := Holding(buf)];
    ShrunkIsPlaced(pages, maxP, chain, k, off, P, u, after, chain', half);
    MoreUntouched(after, final, maxP, chain);
    UntouchedBut(pages, after, final, final, maxP, chain, pg, pg);
  }

  /** The entry-removing edit of owDeleteFile, once the entry has been found: it goes, the start page
      of the file is given back, and the bitmap stored. */
  method RemoveEntry(medium: Medium, info: FileInfo, bm: array<Octet>, maxP: nat, ghost chain: seq<nat>, ghost k: nat,
                     ghost P: nat)
      returns (ok: bool, ghost chain': seq<nat>)
    requires medium.Valid() && bm.Length == BM_SIZE && Placed(medium.pages, maxP, chain)
             && Reports(info, medium.pages, chain, k, P)
    requires info.spage <= maxP
    modifies medium, bm
    ensures ok && medium.Valid() && maxP < |Taken(old(bm[..]))|
    ensures EntryGone(old(medium.pages), maxP, chain, k, P, Taken(old(bm[..])), info.spage, medium.pages, chain',
                      Taken(bm[..]))
    ensures ReadAs(medium.pages, maxP) == Bitmap(bm[..maxP / 8 + 1])
  {
    ghost var pages, u := medium.pages, Taken(bm[..]);
    var pg, buf;
    assert k > 0 ==> DirPageAt(pages, chain, k - 1);
    ok, pg, buf, chain' := CutEntry(medium, info, bm, maxP, chain, k);
    ghost var half := Taken(bm[..]);
    ShrunkIsPlaced(pages, maxP, chain, k, info.offset, P, u, pages[pg as nat := Holding(buf)], chain', half);
    ok := medium.WritePage(buf, pg);
    ok := GiveBack(medium, info.spage, bm, maxP, chain');
    GoneCommitted(pages, maxP, chain, k, info.offset, P, u, info.spage, pg, buf, chain', half, medium.pages,
                  Taken(bm[..]));
  }

  lemma MoreUntouched(pages: seq<Page>, after: seq<Page>, maxP: nat, chain: seq<nat>)
    requires RootShape(pages) && maxP <= 254 && BitmapInPlace(pages, maxP) && Untouched(pages, after, maxP, [])
    ensures Untouched(pages, after, maxP, chain)
  {
  }

  /** The end of owDeleteFile: the start page is marked as free and the bitmap stored. */
  method GiveBack(medium: Medium, spage: Octet, bm: array<Octet>, maxP: nat, ghost chain: seq<nat>) returns (ok: bool)
    requires medium.Valid() && bm.Length == BM_SIZE && Placed(medium.pages, maxP, chain) && spage <= maxP
    modifies medium, bm
    ensures ok && medium.Valid() && Placed(medium.pages, maxP, chain)
            && BitmapPages(medium.pages, maxP) == BitmapPages(old(medium.pages), maxP)
    ensures Listing(medium.pages, chain) == Listing(old(medium.pages), chain)
            && Untouched(old(medium.pages), medium.pages, maxP, [])
    ensures ReadAs(medium.pages, maxP) == Bitmap(bm[..maxP / 8 + 1]) && spage < |Taken(old(bm[..]))|
    ensures Taken(bm[..]) == Taken(old(bm[..]))[spage as nat := false]
  {
    ok := BitMapChange(bm, maxP, spage, 0);
    BitmapWriteUntouched(medium.pages, bm[..], maxP, []);
    StoredKeepsPlaced(medium.pages, bm[..], maxP, chain);
    ok := WriteBitMap(medium, bm, maxP);
  }
}
