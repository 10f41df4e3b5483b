/** Creating, writing and deleting a file one after the other: what the calls of owfile.c come to
    together. */
module FileLife {
  import opened Octets
  import opened BitmapFile
  import opened Directory
  import opened DirectoryEdits
  import opened DirectoryFile
  import opened DirectorySearch
  import opened FileChain
  import opened FileDelete
  import opened FileNames
  import opened FileWrite
  import opened PageBitmap
  import opened RootScanning
  import opened StoredPart

  // ----- the entry of a new file

  /** How many entries match. */
  function Matches(es: seq<Entry>, name: seq<Octet>, ext: Octet): nat
    requires |name| == 4
  {
    if es == [] then 0 else Matches(es[..|es| - 1], name, ext) + if EntryMatches(es[|es| - 1], name, ext) then 1 else 0
  }

  lemma {:induction false} MatchesOfConcat(a: seq<Entry>, b: seq<Entry>, name: seq<Octet>, ext: Octet)
    requires |name| == 4
    ensures Matches(a + b, name, ext) == Matches(a, name, ext) + Matches(b, name, ext)
    decreases |b|
  {
    if b == [] {
      assert a + b == a;
    } else {
      assert (a + b)[..|a + b| - 1] == a + b[..|b| - 1];
      MatchesOfConcat(a, b[..|b| - 1], name, ext);
    }
  }

  lemma {:induction false} NoneMatches(es: seq<Entry>, name: seq<Octet>, ext: Octet)
    requires |name| == 4
    ensures FirstMatch(es, name, ext) == |es| <==> Matches(es, name, ext) == 0
    decreases |es|
  {
    if es != [] {
      var init, last := es[..|es| - 1], es[|es| - 1];
      NoneMatches(init, name, ext);
      assert es == init + [last];
      FirstMatchOfConcat(init, [last], name, ext);
    }
  }

  lemma InsertedMatches(es: seq<Entry>, at: nat, e: Entry, name: seq<Octet>, ext: Octet)
    requires |name| == 4 && at <= |es|
    ensures Matches(Inserted(es, at, e), name, ext) == Matches(es, name, ext) + if EntryMatches(e, name, ext) then 1
            else 0
  {
    var a, b := es[..at], es[at..];
    assert es == a + b;
    MatchesOfConcat(a, b, name, ext);
    MatchesOfConcat(a + [e], b, name, ext);
    MatchesOfConcat(a, [e], name, ext);
    OneMatches(e, name, ext);
  }

  lemma OneMatches(e: Entry, name: seq<Octet>, ext: Octet)
    requires |name| == 4
    ensures Matches([e], name, ext) == if EntryMatches(e, name, ext) then 1 else 0
  {
    assert [e][..0] == [];
  }

  lemma NewEntryMatches(name: seq<Octet>, ext: Octet, spage: Octet, len: nat)
    requires IsName(name) && ext < 128
    ensures EntryMatches(NewEntry(name, ext, spage, len), name, ext)
  {
  }

  /** Where none matched before, the new entry is the one that matches, and taking it out undoes the
      insertion. */
  lemma OnlyTheNewMatches(es: seq<Entry>, at: nat, e: Entry, name: seq<Octet>, ext: Octet)
    requires |name| == 4 && at <= |es| && FirstMatch(es, name, ext) == |es| && EntryMatches(e, name, ext)
    ensures var more := Inserted(es, at, e);
            && FirstMatch(more, name, ext) == at && at < |more| && more[at] == e && Removed(more, at) == es
            && forall P | 0 <= P < |more| && EntryMatches(more[P], name, ext) :: P == at
  {
    var more := Inserted(es, at, e);
    FirstMatchIsFirst(es, name, ext);
    FirstMatchIsFirst(more, name, ext);
    assert more[at] == e;
    assert forall j | 0 <= j < at :: more[j] == es[j];
    assert forall j | at < j < |more| :: more[j] == es[j - 1];
  }

  /** Two files of different names or extensions, put into a directory that had neither: each is found as
      itself. */
  lemma EachFound(es: seq<Entry>, at: nat, e: Entry, a: seq<Octet>, x: Octet, at': nat, e': Entry, b: seq<Octet>,
                  y: Octet)
    requires ValidName(a) && ValidName(b) && NamedSo(e, a, x) && NamedSo(e', b, y) && at <= |es| && at' <= |es| + 1
    requires x != y || exists j :: 0 <= j < 4 && !SameUpToCase(a[j], b[j])
    requires FirstMatch(es, UpperName(a), x) == |es|
    requires FirstMatch(Inserted(es, at, e), UpperName(b), y) == |es| + 1
    ensures var more := Inserted(Inserted(es, at, e), at', e');
            var P, Q := FirstMatch(more, UpperName(a), x), FirstMatch(more, UpperName(b), y);
            P < |more| && more[P] == e && Q < |more| && more[Q] == e'
  {
    var one := Inserted(es, at, e);
    var more := Inserted(one, at', e');
    MatchByBytes(e, a, x);
    MatchByBytes(e', a, x);
    MatchByBytes(e', b, y);
    if NamedSo(e', a, x) {
      OneNameEach(e', a, x, b, y);
    }
    OnlyTheNewMatches(one, at', e', UpperName(b), y);
    OnlyTheNewMatches(es, at, e, UpperName(a), x);
    FirstMatchIsFirst(more, UpperName(a), x);
    assert more[if at < at' then at else at + 1] == e;
    var P := FirstMatch(more, UpperName(a), x);
    assert P != at' && more[P] == one[if P < at' then P else P - 1];
  }

  // ----- creating and deleting

  /** A file without data that was not there before has been created on a part in order. */
  ghost predicate CreatedEmpty(p0: seq<Page>, maxP: nat, c0: seq<nat>, k: nat, name: seq<Octet>, ext: Octet,
                               p1: seq<Page>, c1: seq<nat>) {
    && StoredSound(p0, maxP, c0) && IsRoom(p0, c0, k) && IsName(name) && ext < 128
    && FirstMatch(Listing(p0, c0), name, ext) == |Listing(p0, c0)|
    && Created(p0, maxP, c0, k, name, ext, [], p1, c1)
  }

  /** The page found for a new file, or 0. */
  function StartPage(pages: seq<Page>, maxP: nat): nat
    requires RootShape(pages) && maxP <= 254 && maxP < |StoredTaken(pages, maxP)|
  {
    First(FreePages(StoredTaken(pages, maxP), 0, maxP))
  }

  lemma EmptyTakesOne(u: seq<bool>, spage: nat, maxP: nat)
    requires spage <= maxP < |u|
    ensures DataPages(u, spage, maxP, 0) == [spage] && WrittenPages(u, spage, maxP, 0) == []
  {
  }

  /** The marks after creating: the start page, and the page the directory has grown by, as far as no
      bits have been lost. */
  lemma MarksOfNew(p0: seq<Page>, maxP: nat, c0: seq<nat>, k: nat, name: seq<Octet>, ext: Octet, p1: seq<Page>,
                   c1: seq<nat>)
    requires CreatedEmpty(p0, maxP, c0, k, name, ext, p1, c1)
    ensures var u, f := StoredTaken(p0, maxP), StartPage(p0, maxP);
            && f <= maxP && (f != 0 ==> !u[f] && f !in c0 && f !in c1)
            && (f == 0 <==> FreePages(u, 0, maxP) == [])
            && Claimed(u, StoredTaken(p1, maxP), maxP, [f], c0, c1, LosesBits(p0, maxP, c0[k]))
            && GrownBy(u, maxP, [f], c0, c1)
  {
    var u, f := StoredTaken(p0, maxP), StartPage(p0, maxP);
    if FreePages(u, 0, maxP) != [] {
      ClaimFirst(u, maxP);
    }
    EmptyTakesOne(u, f, maxP);
    assert f in [f];
  }

  /** Creating a file does not touch its start page. */
  lemma StartPageKept(p0: seq<Page>, maxP: nat, c0: seq<nat>, k: nat, name: seq<Octet>, ext: Octet, p1: seq<Page>,
                      c1: seq<nat>)
    requires CreatedEmpty(p0, maxP, c0, k, name, ext, p1, c1) && StartPage(p0, maxP) != 0
    ensures var f := StartPage(p0, maxP); f < |p1| == |p0| && p1[f] == p0[f]
  {
    var f := StartPage(p0, maxP);
    MarksOfNew(p0, maxP, c0, k, name, ext, p1, c1);
    EmptyTakesOne(StoredTaken(p0, maxP), f, maxP);
    assert UntouchedAt(p0, p1, f);
  }

  /** What the start page holds decides what deleting gives back. */
  lemma StartPageDecides(pages: seq<Page>, maxP: nat, spage: nat, run: seq<nat>)
    requires ValidPages(pages) && |pages| == maxP + 1 && spage <= maxP && Reads(pages, spage, run, -1)
    ensures pages[spage].BadLength? ==> run == [] && GivesBack(pages, maxP, spage, run)
    ensures pages[spage].Unreadable? ==> run == [] && !GivesBack(pages, maxP, spage, run)
    ensures pages[spage].Holding? && Last(pages[spage].bytes) == 0 ==>
            run == [spage] && GivesBack(pages, maxP, spage, run)
  {
    if run != [] {
      assert RunAt(pages, spage, run, 0);
      assert |run| > 1 ==> RunAt(pages, spage, run, 1);
    }
  }

  /** The listing after creating, and where the new entry is. */
  lemma ListingOfNew(p0: seq<Page>, maxP: nat, c0: seq<nat>, k: nat, name: seq<Octet>, ext: Octet, p1: seq<Page>,
                     c1: seq<nat>)
      returns (at: nat, entry: Entry)
    requires CreatedEmpty(p0, maxP, c0, k, name, ext, p1, c1)
    ensures StartPage(p0, maxP) < 256 && entry == NewEntry(name, ext, StartPage(p0, maxP), 0)
            && EntryMatches(entry, name, ext)
    ensures at <= |Listing(p0, c0)| && Listing(p1, c1) == Inserted(Listing(p0, c0), at, entry)
            && NewPlace(p1, c0, k, c1, at)
  {
    at, entry := |Entries(p0, c0, k + 1)|, NewEntry(name, ext, StartPage(p0, maxP), 0);
    NewEntryMatches(name, ext, StartPage(p0, maxP), 0);
  }

  predicate StartsAt(pages: seq<Page>, maxP: nat, s: nat) {
    RootShape(pages) && maxP <= 254 && maxP < |StoredTaken(pages, maxP)| && s == StartPage(pages, maxP)
  }

  /** The first match for a name and extension is an entry of just that name and extension, with this start
      page. */
  predicate FoundAs(pages: seq<Page>, chain: seq<nat>, flname: seq<Octet>, ext: Octet, spage: nat) {
    && ValidPages(pages) && IsDirectory(pages, chain) && |flname| == 4
    && var es := Listing(pages, chain);
    var P := FirstMatch(es, UpperName(flname), ext);
    P < |es| && IsFile(es[P], flname, ext) && es[P][5] as nat == spage
  }

  /** So it is for two files created one after the other in the same directory. */
  lemma CreatedTwice(p0: seq<Page>, maxP: nat, c0: seq<nat>, k: nat, a: seq<Octet>, x: Octet, p1: seq<Page>,
                     c1: seq<nat>, k2: nat, b: seq<Octet>, y: Octet, p2: seq<Page>, c2: seq<nat>, s: nat, t: nat)
    requires StartsAt(p0, maxP, s) && StartsAt(p1, maxP, t)
    requires ValidName(a) && CreatedEmpty(p0, maxP, c0, k, UpperName(a), x, p1, c1)
    requires ValidName(b) && CreatedEmpty(p1, maxP, c1, k2, UpperName(b), y, p2, c2)
    requires x != y || exists j :: 0 <= j < 4 && !SameUpToCase(a[j], b[j])
    ensures FoundAs(p2, c2, a, x, s) && FoundAs(p2, c2, b, y, t)
  {
    var at, e := ListingOfNew(p0, maxP, c0, k, UpperName(a), x, p1, c1);
    var at', e' := ListingOfNew(p1, maxP, c1, k2, UpperName(b), y, p2, c2);
    MatchByBytes(e, a, x);
    MatchByBytes(e', b, y);
    EachFound(Listing(p0, c0), at, e, a, x, at', e', b, y);
  }

  /** The new entry alone makes a page of its own exactly when the directory has grown. */
  lemma NewEntryPage(p1: seq<Page>, c0: seq<nat>, k: nat, c1: seq<nat>, k2: nat, at: nat)
    requires ValidPages(p1) && IsDirectory(p1, c1) && NewPlace(p1, c0, k, c1, at) && OnPage(p1, c1, k2, at)
    ensures k2 < |c1| && (|PageBytes(p1, c1, k2)| == 8 <==> c1 != c0) && k2 == if c1 == c0 then k else |c0|
  {
    var kk := if c1 == c0 then k else |c0|;
    var off: nat :| LocatedAt(p1, c1, k2, off, at);
    LocatedOnce(p1, c1, k2, off, kk, |PageBytes(p1, c1, kk)| - 8, at);
  }

  lemma ChainBack(c0: seq<nat>, c1: seq<nat>, k2: nat, alone: bool, c2: seq<nat>)
    requires c1 == c0 || (|c1| == |c0| + 1 && c1 == c0 + [c1[|c0|]])
    requires k2 < |c1| && (alone <==> c1 != c0) && (alone ==> k2 == |c0|)
    requires c2 == if alone then c1[..k2] + c1[k2 + 1..] else c1
    ensures c2 == c0
  {
  }

  /** Creating a file and deleting it again leads back to the same listing on the same chain. In the stored
      bitmap the pages taken then are those taken before, except those that reading the file has got
      through, its start page, and those whose bits were lost. So it is as before exactly when there was a
      free page to start on, what reading got through was free, and no bits were lost: what a new file's
      start page happens to hold is taken for its data. */
  lemma CreateThenDelete(p0: seq<Page>, maxP: nat, c0: seq<nat>, k: nat, name: seq<Octet>, ext: Octet, p1: seq<Page>,
                         c1: seq<nat>, k2: nat, P: nat, run: seq<nat>, p2: seq<Page>, c2: seq<nat>)
    requires CreatedEmpty(p0, maxP, c0, k, name, ext, p1, c1)
    requires P == FirstMatch(Listing(p1, c1), name, ext) < |Listing(p1, c1)|
    requires OnPage(p1, c1, k2, P) && Deleted(p1, maxP, c1, k2, P, run, p2, c2)
    ensures Placed(p2, maxP, c2) && c2 == c0 && Listing(p2, c2) == Listing(p0, c0)
    ensures var u, w, f := StoredTaken(p0, maxP), StoredTaken(p2, maxP), StartPage(p0, maxP);
            var lost := LosesBits(p0, maxP, c0[k]);
            && LeftTaken(u, w, maxP, run + [f], lost)
            && (Agree(w, u, maxP) <==>
                  && f != 0 && (forall q | q in run && q <= maxP :: !u[q])
                  && (lost ==> forall q | 16 <= q <= maxP :: !u[q]))
  {
    var u, v, w, f := StoredTaken(p0, maxP), StoredTaken(p1, maxP), StoredTaken(p2, maxP), StartPage(p0, maxP);
    MarksOfNew(p0, maxP, c0, k, name, ext, p1, c1);
    var at, entry := ListingOfNew(p0, maxP, c0, k, name, ext, p1, c1);
    OnlyTheNewMatches(Listing(p0, c0), at, entry, name, ext);
    NewEntryPage(p1, c0, k, c1, k2, at);
    ChainBack(c0, c1, k2, |PageBytes(p1, c1, k2)| == 8, c2);
    MarksLeft(u, v, w, maxP, f, c0, c1, run, LosesBits(p0, maxP, c0[k]));
    MarksUndone(u, w, maxP, f, run, LosesBits(p0, maxP, c0[k]));
  }

  /** The pages taken are those taken before that are not on the list, and not lost. */
  predicate LeftTaken(u: seq<bool>, w: seq<bool>, maxP: nat, list: seq<nat>, lost: bool) {
    && maxP < |u| && maxP < |w|
    && forall p | 0 <= p <= maxP :: w[p] == (u[p] && p !in list && !(lost && p >= 16))
  }

  lemma MarksLeft(u: seq<bool>, v: seq<bool>, w: seq<bool>, maxP: nat, f: nat, c0: seq<nat>, c1: seq<nat>,
                  run: seq<nat>, lost: bool)
    requires f <= maxP < |u| && Claimed(u, v, maxP, [f], c0, c1, lost) && GrownBy(u, maxP, [f], c0, c1)
    requires forall p | p in c0 :: p < |u| && u[p]
    requires Freed(v, w, maxP, run + [f], c1 != c0, if c1 == c0 then 0 else c1[|c0|])
    ensures LeftTaken(u, w, maxP, run + [f], lost)
  {
    forall p | 0 <= p <= maxP
      ensures w[p] == (u[p] && p !in run + [f] && !(lost && p >= 16))
    {
      assert p in c1 && p !in c0 ==> c1 != c0 && p == c1[|c0|];
    }
  }

  lemma MarksUndone(u: seq<bool>, w: seq<bool>, maxP: nat, f: nat, run: seq<nat>, lost: bool)
    requires LeftTaken(u, w, maxP, run + [f], lost) && f <= maxP && u[0] && (f != 0 ==> !u[f])
    ensures Agree(w, u, maxP) <==>
              && f != 0 && (forall q | q in run && q <= maxP :: !u[q])
              && (lost ==> forall q | 16 <= q <= maxP :: !u[q])
  {
    assert f in run + [f];
    if Agree(w, u, maxP) {
      forall q | q in run && q <= maxP
        ensures !u[q]
      {
        assert q in run + [f] && w[q] == u[q];
      }
    }
  }

  // ----- creating and writing

  /** Data written over a file whose start page is marked as taken reads back. Its pages are taken in the
      stored bitmap exactly when the marks get onto the part or the data fits on one page. */
  lemma WrittenOverReadsBack(p1: seq<Page>, maxP: nat, root: seq<nat>, h: Hit, dpg: nat, data: seq<Octet>, pgs: Octet,
                             p2: seq<Page>)
    requires StoredSound(p1, maxP, root) && HitPlace(p1, root, h) && Overwritten(p1, maxP, root, h, dpg, data, pgs, p2)
    requires data != [] && h.e[5] != 0 && h.e[5] <= maxP && StoredTaken(p1, maxP)[h.e[5]]
    ensures var u, f := StoredTaken(p1, maxP), h.e[5] as nat;
            && ReadsBackAs(p2, f, data) && PagesFor(|data|) <= |Rest(u, f, maxP)| + 1
            && ((forall p | p in DataPages(u, f, maxP, |data|) ::
                 p < |StoredTaken(p2, maxP)| && StoredTaken(p2, maxP)[p])
                <==> Records(p1, dpg, root[h.k]) || PagesFor(|data|) == 1)
  {
    var u, f := StoredTaken(p1, maxP), h.e[5] as nat;
    if FreePages(u, 0, maxP) != [] {
      NotFirstFree(u, maxP, f);
    }
    MarksOfData(u, f, maxP, |data|, StoredTaken(p2, maxP), Records(p1, dpg, root[h.k]));
  }

  /** A file created in the root directory and then written, if the scan finds its entry, reads back
      exactly when the data fits on one page or the bit of the start page has not been lost in such a way
      that it is the first free one again. */
  lemma CreateThenWrite(p0: seq<Page>, maxP: nat, c0: seq<nat>, k: nat, name: seq<Octet>, ext: Octet, p1: seq<Page>,
                        root: seq<nat>, stale: Memory, h: Hit, data: seq<Octet>, dpg: nat, p2: seq<Page>)
    requires CreatedEmpty(p0, maxP, c0, k, name, ext, p1, root) && StoredSound(p1, maxP, root) && data != []
    requires h == InRoot(p1, root, stale, name, ext, NumPgs(|data|)) && HitPlace(p1, root, h) && !IsPhantom(p1, root, h)
    requires Overwritten(p1, maxP, root, h, dpg, data, NumPgs(|data|), p2) && StartPage(p0, maxP) != 0
    ensures h.e[5] as nat == StartPage(p0, maxP)
    ensures ReadsBackAs(p2, StartPage(p0, maxP), data) <==>
              PagesFor(|data|) == 1 || !(LosesBits(p0, maxP, c0[k]) && StartPage(p0, maxP) == 16)
  {
    MarksOfNew(p0, maxP, c0, k, name, ext, p1, root);
    HitIsNewEntry(p0, maxP, c0, k, name, ext, p1, root, stale, NumPgs(|data|));
    FirstFreeAgain(StoredTaken(p0, maxP), StoredTaken(p1, maxP), maxP, StartPage(p0, maxP), c0, root,
                   LosesBits(p0, maxP, c0[k]));
  }

  /** The page just claimed is the first free one again only if it is page 16 and bits are lost. */
  lemma FirstFreeAgain(u: seq<bool>, v: seq<bool>, maxP: nat, f: nat, c0: seq<nat>, c1: seq<nat>, lost: bool)
    requires Claimed(u, v, maxP, [f], c0, c1, lost) && f <= maxP && f != 0 && f == First(FreePages(u, 0, maxP))
    ensures First(FreePages(v, 0, maxP)) == f <==> lost && f == 16
  {
    assert f in [f];
    FirstIsLeast(u, maxP);
    FirstIsLeast(v, maxP);
    assert lost && f >= 16 ==> !v[f] && !v[16];
  }

  /** The first free page is the least of those not taken. */
  lemma FirstIsLeast(u: seq<bool>, maxP: nat)
    requires maxP < |u|
    ensures var f := First(FreePages(u, 0, maxP));
            && (FreePages(u, 0, maxP) != [] ==> f <= maxP && !u[f])
            && forall p | 0 <= p <= maxP && !u[p] :: FreePages(u, 0, maxP) != [] && f <= p
  {
    var free := FreePages(u, 0, maxP);
    FreePagesIncrease(u, 0, maxP);
    forall p | 0 <= p <= maxP
      ensures p in free <==> !u[p]
    {
      FreePagesAreTheFree(u, 0, maxP, p);
    }
    if free != [] {
      FreePagesAreTheFree(u, 0, maxP, free[0]);
    }
  }

  lemma MarkedNow(u: seq<bool>, v: seq<bool>, maxP: nat, f: nat, c0: seq<nat>, c1: seq<nat>)
    requires Claimed(u, v, maxP, [f], c0, c1, false) && f <= maxP
    ensures v[f]
  {
    assert f in [f];
  }

  lemma HitIsNewEntry(p0: seq<Page>, maxP: nat, c0: seq<nat>, k: nat, name: seq<Octet>, ext: Octet, p1: seq<Page>,
                      root: seq<nat>, stale: Memory, pgs: Octet)
    requires CreatedEmpty(p0, maxP, c0, k, name, ext, p1, root)
    requires var h := InRoot(p1, root, stale, name, ext, pgs); h.Hit? && !IsPhantom(p1, root, h)
    ensures InRoot(p1, root, stale, name, ext, pgs).e[5] as nat == StartPage(p0, maxP)
  {
    var at, entry := ListingOfNew(p0, maxP, c0, k, name, ext, p1, root);
    var P := RootHitIsMatch(p1, root, stale, name, ext, pgs);
    OnlyTheNewMatches(Listing(p0, c0), at, entry, name, ext);
  }

  lemma NotFirstFree(u: seq<bool>, maxP: nat, f: nat)
    requires f <= maxP < |u| && u[f] && FreePages(u, 0, maxP) != []
    ensures First(FreePages(u, 0, maxP)) != f
  {
    FreePagesAreTheFree(u, 0, maxP, FreePages(u, 0, maxP)[0]);
  }

  lemma MarksOfData(u: seq<bool>, f: nat, maxP: nat, len: nat, v: seq<bool>, records: bool)
    requires f <= maxP < |u| && u[f] && PagesFor(len) <= |Rest(u, f, maxP)| + 1
    requires Agree(v, if records then MarkAll(u, DataPages(u, f, maxP, len), true) else u, maxP)
    ensures (forall p | p in DataPages(u, f, maxP, len) :: p < |v| && v[p]) <==> records || PagesFor(len) == 1
  {
    var laid := DataPages(u, f, maxP, len);
    LaidWereFree(u, f, maxP, len);
    if PagesFor(len) == 1 {
      assert laid == [f];
    } else if !records {
      var p := laid[1];
      assert p == Rest(u, f, maxP)[0] && p in laid;
      FreePagesAreTheFree(u[f := true], 0, maxP, p);
    }
  }

  /** A file created in a directory other than the root directory, and then written with data while the
      scan of the root directory misses: the directory then has two entries of that name, and the data
      reads back from the new one exactly when it fits on one page. */
  lemma CreateThenWriteElsewhere(p0: seq<Page>, maxP: nat, c0: seq<nat>, k: nat, name: seq<Octet>, ext: Octet,
                                 p1: seq<Page>, c1: seq<nat>, k2: nat, data: seq<Octet>, p2: seq<Page>, c2: seq<nat>)
    requires CreatedEmpty(p0, maxP, c0, k, name, ext, p1, c1) && c0[0] != 0 && StoredSound(p1, maxP, c1)
             && IsRoom(p1, c1, k2)
    requires data != [] && Created(p1, maxP, c1, k2, name, ext, data, p2, c2)
    ensures Matches(Listing(p2, c2), name, ext) == 2
    ensures ReadsBackAs(p2, StartPage(p1, maxP), data) <==> PagesFor(|data|) == 1
    ensures StartPage(p1, maxP) != StartPage(p0, maxP)
  {
    NewStaysTaken(p0, maxP, c0, k, name, ext, p1, c1);
    NewMatchesOnce(p0, maxP, c0, k, name, ext, p1, c1);
    var at, entry := ListingOfWritten(p1, maxP, c1, k2, name, ext, data, p2, c2);
    InsertedMatches(Listing(p1, c1), at, entry, name, ext);
    NotFirstFree(StoredTaken(p1, maxP), maxP, StartPage(p0, maxP));
  }

  lemma NewStaysTaken(p0: seq<Page>, maxP: nat, c0: seq<nat>, k: nat, name: seq<Octet>, ext: Octet, p1: seq<Page>,
                      c1: seq<nat>)
    requires CreatedEmpty(p0, maxP, c0, k, name, ext, p1, c1) && c0[0] != 0
    ensures StoredSound(p1, maxP, c1) && StartPage(p0, maxP) <= maxP < |StoredTaken(p1, maxP)|
            && StoredTaken(p1, maxP)[StartPage(p0, maxP)]
  {
    NothingLostElsewhere(p0, maxP, c0, k, name, ext, p1, c1);
    MarksOfNew(p0, maxP, c0, k, name, ext, p1, c1);
    MarkedNow(StoredTaken(p0, maxP), StoredTaken(p1, maxP), maxP, StartPage(p0, maxP), c0, c1);
  }

  lemma NewMatchesOnce(p0: seq<Page>, maxP: nat, c0: seq<nat>, k: nat, name: seq<Octet>, ext: Octet, p1: seq<Page>,
                       c1: seq<nat>)
    requires CreatedEmpty(p0, maxP, c0, k, name, ext, p1, c1)
    ensures ValidPages(p1) && IsDirectory(p1, c1) && Matches(Listing(p1, c1), name, ext) == 1
  {
    var at, entry := ListingOfNew(p0, maxP, c0, k, name, ext, p1, c1);
    NoneMatches(Listing(p0, c0), name, ext);
    InsertedMatches(Listing(p0, c0), at, entry, name, ext);
  }

  /** Outside the root directory no bits are lost, so the part is in order after creating. */
  lemma NothingLostElsewhere(p0: seq<Page>, maxP: nat, c0: seq<nat>, k: nat, name: seq<Octet>, ext: Octet,
                             p1: seq<Page>, c1: seq<nat>)
    requires CreatedEmpty(p0, maxP, c0, k, name, ext, p1, c1) && c0[0] != 0
    ensures !LosesBits(p0, maxP, c0[k]) && StoredSound(p1, maxP, c1)
  {
    assert k > 0 ==> DirPageAt(p0, c0, k - 1);
  }

  lemma ListingOfWritten(pages: seq<Page>, maxP: nat, chain: seq<nat>, k: nat, name: seq<Octet>, ext: Octet,
                         data: seq<Octet>, final: seq<Page>, chain': seq<nat>)
      returns (at: nat, entry: Entry)
    requires StoredSound(pages, maxP, chain) && IsRoom(pages, chain, k) && IsName(name) && ext < 128 && data != []
    requires Created(pages, maxP, chain, k, name, ext, data, final, chain')
    ensures ValidPages(final) && IsDirectory(final, chain') && EntryMatches(entry, name, ext)
    ensures at <= |Listing(pages, chain)| && Listing(final, chain') == Inserted(Listing(pages, chain), at, entry)
    ensures FreePages(StoredTaken(pages, maxP), 0, maxP) != []
    ensures ReadsBackAs(final, StartPage(pages, maxP), data) <==> PagesFor(|data|) == 1
  {
    at, entry := |Entries(pages, chain, k + 1)|, NewEntry(name, ext, StartPage(pages, maxP), |data|);
    NewEntryMatches(name, ext, StartPage(pages, maxP), |data|);
  }
}
