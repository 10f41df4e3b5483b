/** The scan of the root directory in owWriteFile (owfile.c), which decides whether a file is taken for
    a new one, whatever the current directory is. */
module RootScanning {
  import opened Octets
  import opened Directory
  import opened DirectorySearch
  import opened FileChain

  // ----- the scan of the root directory

  /** The last page of those scanned that has a hit, and the memory then. */
  datatype Scan = Scan(hit: Hit, mem: Memory)

  /** A hit lies on a page of the directory, where an entry might begin. */
  predicate HitPlace(pages: seq<Page>, root: seq<nat>, h: Hit)
    requires ValidPages(pages) && IsDirectory(pages, root)
  {
    h.Hit? && h.k < |root| && Base(h.k == 0) <= h.off < |PageBytes(pages, root, h.k)| && h.off % ENTRY == 0
  }

  /** The scan of the first n pages of the root directory. A hit does not end it; the number of pages
      is put into the buffer at the place of the hit. */
  function RootScan(pages: seq<Page>, root: seq<nat>, n: nat, mem: Memory, name: seq<Octet>, ext: Octet,
                    pgs: Octet): (s: Scan)
    requires ValidPages(pages) && IsDirectory(pages, root) && n <= |root| && |name| == 4
    ensures s.hit.Hit? ==> s.hit.k < n && HitPlace(pages, root, s.hit)
  {
    if n == 0 then Scan(Miss, mem)
    else
      var before := RootScan(pages, root, n - 1, mem, name, ext, pgs);
      var bytes := PageBytes(pages, root, n - 1);
      var m := Over(bytes, before.mem);
      var off := ScanHit(m, |bytes|, Base(n == 1), name, ext);
      if off < |bytes| then Scan(Hit(n - 1, off, m[off..off + ENTRY]), m[off + ENTRY - 1 := pgs])
          else Scan(before.hit, m)
  }

  /** What the whole scan comes to. */
  function InRoot(pages: seq<Page>, root: seq<nat>, mem: Memory, name: seq<Octet>, ext: Octet, pgs: Octet): (h: Hit)
    requires ValidPages(pages) && IsDirectory(pages, root) && |name| == 4
    ensures h.Hit? ==> HitPlace(pages, root, h)
  {
    RootScan(pages, root, |root|, mem, name, ext, pgs).hit
  }

  /** The bytes of a page with the number of pages of an entry replaced, as far as that is on the page. */
  function Renumbered(bytes: seq<Octet>, off: nat, pgs: Octet): (b: seq<Octet>)
    ensures |b| == |bytes|
  {
    if off + ENTRY - 1 < |bytes| then bytes[off + ENTRY - 1 := pgs] else bytes
  }

  /** What the scan leaves behind about its hit: the start page of the file, and the page to be written. */
  predicate Noted(pages: seq<Page>, root: seq<nat>, h: Hit, pgs: Octet, newEntry: bool, spage: Octet,
                  newpg: seq<Octet>, prefpg: Octet)
    requires ValidPages(pages) && IsDirectory(pages, root)
  {
    && (newEntry <==> h.Miss?)
    && (h.Hit? ==>
          && h.k < |root| && spage == h.e[5] && prefpg as nat == root[h.k]
          && newpg == Renumbered(PageBytes(pages, root, h.k), h.off, pgs))
  }

  lemma RenumberedInBuffer(bytes: seq<Octet>, mem: Memory, off: nat, pgs: Octet)
    requires |bytes| <= MAX_PACKET
    ensures off < |bytes| ==> Over(bytes, mem)[off + ENTRY - 1 := pgs][..|bytes|] == Renumbered(bytes, off, pgs)
  {
  }

  /** The state of the scan after k pages. */
  predicate Scanned(pages: seq<Page>, root: seq<nat>, s: Scan, pgs: Octet, pgbuf: Memory,
                    newEntry: bool, spage: Octet, newpg: seq<Octet>, prefpg: Octet)
    requires ValidPages(pages) && IsDirectory(pages, root)
  {
    pgbuf == s.mem && Noted(pages, root, s.hit, pgs, newEntry, spage, newpg, prefpg)
  }

  /** What the scan of page k adds. */
  predicate ScansPage(pages: seq<Page>, root: seq<nat>, k: nat, s: Scan, name: seq<Octet>, ext: Octet, pgs: Octet,
                      s': Scan)
    requires ValidPages(pages) && IsDirectory(pages, root) && k < |root| && |name| == 4
  {
    var bytes := PageBytes(pages, root, k);
    var m := Over(bytes, s.mem);
    var off := ScanHit(m, |bytes|, Base(k == 0), name, ext);
    s' == if off < |bytes| then Scan(Hit(k, off, m[off..off + ENTRY]), m[off + ENTRY - 1 := pgs]) else Scan(s.hit, m)
  }

  predicate AfterPages(pages: seq<Page>, root: seq<nat>, k: nat, mem: Memory, name: seq<Octet>, ext: Octet,
                       pgs: Octet, s: Scan)
    requires ValidPages(pages) && IsDirectory(pages, root) && k <= |root| && |name| == 4
  {
    s == RootScan(pages, root, k, mem, name, ext, pgs)
  }

  lemma ScanGoesOn(pages: seq<Page>, root: seq<nat>, k: nat, mem: Memory, name: seq<Octet>, ext: Octet, pgs: Octet,
                   s: Scan)
      returns (s': Scan)
    requires ValidPages(pages) && IsDirectory(pages, root) && k < |root| && |name| == 4
    requires AfterPages(pages, root, k, mem, name, ext, pgs, s)
    ensures ScansPage(pages, root, k, s, name, ext, pgs, s') && AfterPages(pages, root, k + 1, mem, name, ext, pgs, s')
  {
    s' := RootScan(pages, root, k + 1, mem, name, ext, pgs);
  }

  /** The states of a scan, one after each page. */
  predicate AreScans(pages: seq<Page>, root: seq<nat>, n: nat, mem: Memory, name: seq<Octet>, ext: Octet, pgs: Octet,
                     ss: seq<Scan>)
    requires ValidPages(pages) && IsDirectory(pages, root) && n <= |root| && |name| == 4
  {
    && |ss| == n + 1 && ss[0] == Scan(Miss, mem)
    && forall k | 0 <= k < n :: ScansPage(pages, root, k, ss[k], name, ext, pgs, ss[k + 1])
  }

  lemma {:induction false} ScanStates(pages: seq<Page>, root: seq<nat>, n: nat, mem: Memory, name: seq<Octet>,
                                      ext: Octet, pgs: Octet)
      returns (ss: seq<Scan>)
    requires ValidPages(pages) && IsDirectory(pages, root) && n <= |root| && |name| == 4
    ensures AreScans(pages, root, n, mem, name, ext, pgs, ss) && AfterPages(pages, root, n, mem, name, ext, pgs, ss[n])
  {
    ss := [Scan(Miss, mem)];
    if n > 0 {
      ss := ScanStates(pages, root, n - 1, mem, name, ext, pgs);
      var s := ScanGoesOn(pages, root, n - 1, mem, name, ext, pgs, ss[n - 1]);
      OneScanMore(pages, root, n - 1, mem, name, ext, pgs, ss, s);
      ss := ss + [s];
    }
  }

  lemma OneScanMore(pages: seq<Page>, root: seq<nat>, n: nat, mem: Memory, name: seq<Octet>, ext: Octet, pgs: Octet,
                    ss: seq<Scan>, s: Scan)
    requires ValidPages(pages) && IsDirectory(pages, root) && n < |root| && |name| == 4
    requires AreScans(pages, root, n, mem, name, ext, pgs, ss) && ScansPage(pages, root, n, ss[n], name, ext, pgs, s)
    ensures AreScans(pages, root, n + 1, mem, name, ext, pgs, ss + [s])
  {
    var more := ss + [s];
    forall k | 0 <= k < n + 1
      ensures ScansPage(pages, root, k, more[k], name, ext, pgs, more[k + 1])
    {
      assert more[k] == ss[k] && more[k + 1] == if k < n then ss[k + 1] else s;
    }
  }

  lemma WholeScan(pages: seq<Page>, root: seq<nat>, mem: Memory, name: seq<Octet>, ext: Octet, pgs: Octet)
      returns (ss: seq<Scan>)
    requires ValidPages(pages) && IsDirectory(pages, root) && |name| == 4
    ensures AreScans(pages, root, |root|, mem, name, ext, pgs, ss)
            && ss[|root|].hit == InRoot(pages, root, mem, name, ext, pgs)
  {
    ss := ScanStates(pages, root, |root|, mem, name, ext, pgs);
  }

  /** The scan of one page, once it is in the buffer, and what it leaves behind. */
  method ScanBuffer(buff: seq<Octet>, fpg: Octet, mem: Memory, name: seq<Octet>, ext: Octet, pgs: Octet,
                    new0: bool, spage0: Octet, newpg0: seq<Octet>, prefpg0: Octet)
      returns (newEntry: bool, spage: Octet, newpg: seq<Octet>, prefpg: Octet, pgbuf: Memory)
    requires |name| == 4 && |buff| <= MAX_PACKET
    ensures var m := Over(buff, mem);
            var off := ScanHit(m, |buff|, Base(fpg == 0), name, ext);
            if off < |buff| then
              && !newEntry && spage == m[off..off + ENTRY][5] && newpg == Renumbered(buff, off, pgs) && prefpg == fpg
              && pgbuf == m[off + ENTRY - 1 := pgs]
            else
              (newEntry, spage, newpg, prefpg, pgbuf) == (new0, spage0, newpg0, prefpg0, m)
  {
    newEntry, spage, newpg, prefpg, pgbuf := new0, spage0, newpg0, prefpg0, Over(buff, mem);
    var found, off := ScanPage(pgbuf, |buff|, if fpg == 0 then 7 else 0, name, ext);
    if found {
      RenumberedInBuffer(buff, mem, off, pgs);
      spage := pgbuf[off + 5];
      pgbuf := pgbuf[off + 6 := pgs];
      newEntry := false;
      newpg := pgbuf[..|buff|];
      prefpg := fpg;
    }
  }

  /** One turn of the loop of owWriteFile over the pages of the root directory. */
  method ScanTurn(medium: Medium, fpg: Octet, mem: Memory, name: seq<Octet>, ext: Octet, pgs: Octet,
                  new0: bool, spage0: Octet, newpg0: seq<Octet>, prefpg0: Octet,
                  ghost root: seq<nat>, ghost k: nat, ghost s: Scan, ghost s': Scan)
      returns (ok: bool, newEntry: bool, spage: Octet, newpg: seq<Octet>, prefpg: Octet, pgbuf: Memory, next: Octet)
    requires medium.Valid() && IsDirectory(medium.pages, root) && root[0] == 0 && |name| == 4
    requires k < |root| && fpg == root[k] && Scanned(medium.pages, root, s, pgs, mem, new0, spage0, newpg0, prefpg0)
    requires ScansPage(medium.pages, root, k, s, name, ext, pgs, s')
    ensures ok && Scanned(medium.pages, root, s', pgs, pgbuf, newEntry, spage, newpg, prefpg)
    ensures next as nat == (if k + 1 < |root| then root[k + 1] else 0) && (k + 1 < |root| ==> next != 0)
  {
    StartMetOnce(medium.pages, root, k);
    ghost var bytes := PageBytes(medium.pages, root, k);
    newEntry, spage, newpg, prefpg, pgbuf := new0, spage0, newpg0, prefpg0, mem;
    var buff;
    ok, buff := medium.ReadPage(fpg);
    assert buff == bytes;
    next := buff[|buff| - 1];
    if fpg == 0 && (buff[0] != 0xAA || buff[1] != 0) {
      return false, newEntry, spage, newpg, prefpg, pgbuf, next;
    }
    newEntry, spage, newpg, prefpg, pgbuf := ScanBuffer(buff, fpg, mem, name, ext, pgs, new0, spage0, newpg0, prefpg0);
  }

  /** The loop of owWriteFile over the pages of the root directory. */
  method ScanRoot(medium: Medium, name: seq<Octet>, ext: Octet, pgs: Octet, stale: Memory, ghost root: seq<nat>)
      returns (ok: bool, newEntry: bool, spage: Octet, newpg: seq<Octet>, prefpg: Octet)
    requires medium.Valid() && IsDirectory(medium.pages, root) && root[0] == 0 && |name| == 4
    ensures ok && Noted(medium.pages, root, InRoot(medium.pages, root, stale, name, ext, pgs), pgs, newEntry, spage,
                        newpg, prefpg)
  {
    newEntry, spage, newpg, prefpg := true, 0, [], 0;
    var fpg, pgbuf := 0, stale;
    ghost var ss := WholeScan(medium.pages, root, stale, name, ext, pgs);
    ghost var k := 0;
    while true
      invariant k < |root| && fpg == root[k]
                && Scanned(medium.pages, root, ss[k], pgs, pgbuf, newEntry, spage, newpg, prefpg)
      decreases |root| - k
    {
      ok, newEntry, spage, newpg, prefpg, pgbuf, fpg :=
        ScanTurn(medium, fpg, pgbuf, name, ext, pgs, newEntry, spage, newpg, prefpg, root, k, ss[k], ss[k + 1]);
      k := k + 1;
      if fpg == 0 {
        return;
      }
    }
  }

  // ----- what the scan means

  /** The scan so far has a hit exactly when some entry matches; until then it is the plain search. */
  predicate ScanKnows(pages: seq<Page>, root: seq<nat>, n: nat, mem: Memory, name: seq<Octet>, ext: Octet, s: Scan)
    requires ValidPages(pages) && IsDirectory(pages, root) && n <= |root| && |name| == 4
  {
    if NoneBefore(pages, root, n, name, ext) then s == Scan(Miss, MemAfter(pages, root, n, mem)) else s.hit.Hit?
  }

  lemma ScanKnowsMore(pages: seq<Page>, root: seq<nat>, n: nat, mem: Memory, name: seq<Octet>, ext: Octet,
                      pgs: Octet, s: Scan, s': Scan)
    requires ValidPages(pages) && IsDirectory(pages, root) && n < |root| && |name| == 4
             && Harmless(pages, root, name, ext)
    requires ScanKnows(pages, root, n, mem, name, ext, s) && ScansPage(pages, root, n, s, name, ext, pgs, s')
    ensures ScanKnows(pages, root, n + 1, mem, name, ext, s')
  {
    NoneOnPage(pages, root, n, name, ext);
    ScanOfPage(PageBytes(pages, root, n), s.mem, Base(n == 0), name, ext);
    if NoneBefore(pages, root, n + 1, name, ext) {
      HarmlessPhantom(pages, root, n, mem, name, ext);
      assert MemAfter(pages, root, n + 1, mem) == Over(PageBytes(pages, root, n), MemAfter(pages, root, n, mem));
    }
  }

  lemma {:induction false} ScanOfRoot(pages: seq<Page>, root: seq<nat>, n: nat, mem: Memory, name: seq<Octet>,
                                      ext: Octet, pgs: Octet, ss: seq<Scan>)
    requires ValidPages(pages) && IsDirectory(pages, root) && n <= |root| && |name| == 4
             && Harmless(pages, root, name, ext)
    requires AreScans(pages, root, n, mem, name, ext, pgs, ss)
    ensures ScanKnows(pages, root, n, mem, name, ext, ss[n])
  {
    if n > 0 {
      ScanOfRoot(pages, root, n - 1, mem, name, ext, pgs, ss[..n]);
      ScanKnowsMore(pages, root, n - 1, mem, name, ext, pgs, ss[n - 1], ss[n]);
    }
  }

  /** Where all is harmless, the scan of the root directory finds the name exactly when an entry of it
      has it. */
  lemma RootScanDecides(pages: seq<Page>, root: seq<nat>, mem: Memory, name: seq<Octet>, ext: Octet, pgs: Octet)
    requires ValidPages(pages) && IsDirectory(pages, root) && |name| == 4 && Harmless(pages, root, name, ext)
    ensures InRoot(pages, root, mem, name, ext, pgs).Miss?
            <==> FirstMatch(Listing(pages, root), name, ext) == |Listing(pages, root)|
  {
    var ss := WholeScan(pages, root, mem, name, ext, pgs);
    ScanOfRoot(pages, root, |root|, mem, name, ext, pgs, ss);
  }

  /** A hit of the scan that is an entry: which one it is, and that it matches. */
  predicate IsMatch(pages: seq<Page>, root: seq<nat>, h: Hit, P: nat, name: seq<Octet>, ext: Octet)
    requires ValidPages(pages) && IsDirectory(pages, root) && |name| == 4
  {
    && h.Hit? && LocatedAt(pages, root, h.k, h.off, P) && P < |Listing(pages, root)|
    && h.e == Listing(pages, root)[P] && EntryMatches(h.e, name, ext)
  }

  lemma {:induction false} HitIsMatch(pages: seq<Page>, root: seq<nat>, n: nat, mem: Memory, name: seq<Octet>,
                                      ext: Octet, pgs: Octet, ss: seq<Scan>)
      returns (P: nat)
    requires ValidPages(pages) && IsDirectory(pages, root) && n <= |root| && |name| == 4
    requires AreScans(pages, root, n, mem, name, ext, pgs, ss)
    ensures ss[n].hit.Hit? && !IsPhantom(pages, root, ss[n].hit) ==> IsMatch(pages, root, ss[n].hit, P, name, ext)
  {
    P := 0;
    if n > 0 {
      P := HitIsMatch(pages, root, n - 1, mem, name, ext, pgs, ss[..n]);
      if ss[n].hit != ss[n - 1].hit && !IsPhantom(pages, root, ss[n].hit) {
        P := NewHitIsMatch(pages, root, n - 1, ss[n - 1], name, ext, pgs, ss[n]);
      }
    }
  }

  /** No page behind that of the hit has an entry that matches. */
  predicate NoneBehind(pages: seq<Page>, root: seq<nat>, n: nat, h: Hit, name: seq<Octet>, ext: Octet)
    requires ValidPages(pages) && IsDirectory(pages, root) && n <= |root| && |name| == 4
  {
    forall l | 0 <= l < n && (h.Hit? ==> h.k < l) :: NoneOn(pages, root, l, name, ext)
  }

  lemma {:induction false} NoneBehindHit(pages: seq<Page>, root: seq<nat>, n: nat, mem: Memory, name: seq<Octet>,
                                         ext: Octet, pgs: Octet, ss: seq<Scan>)
    requires ValidPages(pages) && IsDirectory(pages, root) && n <= |root| && |name| == 4
    requires AreScans(pages, root, n, mem, name, ext, pgs, ss)
    ensures NoneBehind(pages, root, n, ss[n].hit, name, ext) && (ss[n].hit.Hit? ==> ss[n].hit.k < n)
  {
    if n > 0 {
      NoneBehindHit(pages, root, n - 1, mem, name, ext, pgs, ss[..n]);
      assert ScansPage(pages, root, n - 1, ss[n - 1], name, ext, pgs, ss[n]);
      ScanOfPage(PageBytes(pages, root, n - 1), ss[n - 1].mem, Base(n == 1), name, ext);
    }
  }

  /** The hit of the whole scan is on the last page that has an entry that matches, or behind it; without a hit
      no page has one. */
  lemma RootHitIsLast(pages: seq<Page>, root: seq<nat>, mem: Memory, name: seq<Octet>, ext: Octet, pgs: Octet)
    requires ValidPages(pages) && IsDirectory(pages, root) && |name| == 4
    ensures NoneBehind(pages, root, |root|, InRoot(pages, root, mem, name, ext, pgs), name, ext)
  {
    var ss := WholeScan(pages, root, mem, name, ext, pgs);
    NoneBehindHit(pages, root, |root|, mem, name, ext, pgs, ss);
  }

  lemma NewHitIsMatch(pages: seq<Page>, root: seq<nat>, k: nat, s: Scan, name: seq<Octet>, ext: Octet, pgs: Octet,
                      s': Scan) returns (P: nat)
    requires ValidPages(pages) && IsDirectory(pages, root) && k < |root| && |name| == 4
    requires ScansPage(pages, root, k, s, name, ext, pgs, s') && s'.hit != s.hit && !IsPhantom(pages, root, s'.hit)
    ensures IsMatch(pages, root, s'.hit, P, name, ext)
  {
    var bytes := PageBytes(pages, root, k);
    var es := PageEntries(pages, root, k);
    var f := FirstMatch(es, name, ext);
    ScanOfPage(bytes, s.mem, Base(k == 0), name, ext);
    assert f < |es|;
    OverAt(bytes, s.mem, s'.hit.off);
    FirstMatchIsFirst(es, name, ext);
    EntryInListing(pages, root, k, f);
    OffsetOfEntry(Base(k == 0), f, s'.hit.off);
    assert DirPageAt(pages, root, k);
    P := |Entries(pages, root, k)| + f;
  }

  /** A hit of the whole scan, if no phantom, is an entry that matches. */
  lemma RootHitIsMatch(pages: seq<Page>, root: seq<nat>, mem: Memory, name: seq<Octet>, ext: Octet, pgs: Octet)
      returns (P: nat)
    requires ValidPages(pages) && IsDirectory(pages, root) && |name| == 4
    ensures var h := InRoot(pages, root, mem, name, ext, pgs);
            h.Hit? && !IsPhantom(pages, root, h) ==> IsMatch(pages, root, h, P, name, ext)
  {
    var ss := WholeScan(pages, root, mem, name, ext, pgs);
    P := HitIsMatch(pages, root, |root|, mem, name, ext, pgs, ss);
  }
}
