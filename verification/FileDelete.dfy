/** owDeleteFile of owfile.c for a regular file on read-write memory. */
module FileDelete {
  import opened Octets
  import opened BitmapFile
  import opened Directory
  import opened DirectoryEdits
  import opened DirectoryFile
  import opened DirectorySearch
  import opened FileChain
  import opened FileNames
  import opened PageBitmap
  import opened StoredPart

  // ----- giving the pages back

  /** The pages of a list have been freed, and the directory page the entry was alone on; no other. */
  predicate Freed(u: seq<bool>, v: seq<bool>, maxP: nat, list: seq<nat>, alone: bool, dpage: nat) {
    && maxP < |u| && maxP < |v|
    && forall p | 0 <= p <= maxP :: v[p] == (u[p] && p !in list && !(alone && p == dpage))
  }

  /** Reading the file got to its end, or to a page without a valid length; in the second case its start
      page must be one of the part. */
  predicate GivesBack(pages: seq<Page>, maxP: nat, spage: nat, run: seq<nat>)
    requires ValidPages(pages)
  {
    var stop := StopOf(pages, spage, run, -1);
    stop.AtEnd? || (stop == Stopped(InvalidPacketLength) && spage <= maxP)
  }

  /** A start page beyond the part gives nothing back. */
  lemma BeyondThePart(pages: seq<Page>, maxP: nat, spage: nat, run: seq<nat>)
    requires ValidPages(pages) && |pages| == maxP + 1 && spage > maxP && Reads(pages, spage, run, -1)
    ensures !GivesBack(pages, maxP, spage, run)
  {
    assert run != [] ==> !RunAt(pages, spage, run, 0);
  }

  /** The middle of owDeleteFile: the bitmap is read, and the file read to eliminate its bits. A file
      that cannot be read to its end loses the bits of what has been read and of its start page; it
      is only given up for an invalid packet length. */
  method FreeFile(medium: Medium, spage: Octet, bm: array<Octet>, maxP: nat, ghost chain: seq<nat>, ghost run: seq<nat>)
      returns (ok: bool)
    requires medium.Valid() && bm.Length == BM_SIZE && Placed(medium.pages, maxP, chain)
    requires Reads(medium.pages, spage, run, -1)
    modifies bm
    ensures ok <==> GivesBack(medium.pages, maxP, spage, run)
    ensures ok ==> spage <= maxP && Freed(StoredTaken(medium.pages, maxP), Taken(bm[..]), maxP, run + [spage], false, 0)
  {
    ok := LoadBitmap(medium, bm, maxP, chain);
    var content, flLen, err;
    ok, content, flLen, err := ExtRead(medium, spage, -1, bm, maxP, run);
    assert ok ==> RunAt(medium.pages, spage, run, 0);
    if !ok {
      ok := BitMapChange(bm, maxP, spage, 0);
      if !ok {
        return;
      }
      if err != InvalidPacketLength {
        return false;
      }
    }
  }

  // ----- what deleting does

  /** Pages that belong neither to the directory nor to the bitmap, and not the root page. */
  predicate Apart(pages: seq<Page>, maxP: nat, chain: seq<nat>, list: seq<nat>)
    requires RootShape(pages) && maxP <= 254 && BitmapInPlace(pages, maxP)
  {
    forall p | p in list :: p != 0 && p !in chain && p !in BitmapPages(pages, maxP)
  }

  /** Entry P, on page k, has been deleted with the pages of its file: just it has gone from the
      directory, just those pages (and its directory page, if it was alone there) are free in the
      stored bitmap, and no page outside the directory and the bitmap has been touched. A part in order
      by its bitmap is so again exactly when none of the pages given back was one of the directory or
      the bitmap, or the root page. */
  predicate Deleted(pages: seq<Page>, maxP: nat, chain: seq<nat>, k: nat, P: nat, run: seq<nat>, final: seq<Page>,
                    chain': seq<nat>)
    requires Placed(pages, maxP, chain) && k < |chain| && P < |Listing(pages, chain)|
  {
    var alone, list := |PageBytes(pages, chain, k)| == 8, run + [Listing(pages, chain)[P][5] as nat];
    && Placed(final, maxP, chain') && Untouched(pages, final, maxP, chain)
    && BitmapPages(final, maxP) == BitmapPages(pages, maxP)
    && Listing(final, chain') == Removed(Listing(pages, chain), P)
    && chain' == (if alone then chain[..k] + chain[k + 1..] else chain)
    && Freed(StoredTaken(pages, maxP), StoredTaken(final, maxP), maxP, list, alone, chain[k])
    && (StoredSound(pages, maxP, chain) ==> (StoredSound(final, maxP, chain') <==> Apart(pages, maxP, chain', list)))
  }

  /** The entry at its place among the listing. */
  ghost predicate OnPage(pages: seq<Page>, chain: seq<nat>, k: nat, P: nat)
    requires ValidPages(pages) && IsDirectory(pages, chain)
  {
    k < |chain| && exists off: nat :: LocatedAt(pages, chain, k, off, P)
  }

  lemma FreedOnRecord(u0: seq<bool>, u2: seq<bool>, u3: seq<bool>, v: seq<bool>, maxP: nat, run: seq<nat>, alone: bool,
                      dpage: nat, spage: nat)
    requires Freed(u0, u2, maxP, run + [spage], false, 0) && dpage < |u2| && spage < |u2|
    requires u3 == FreedWith(u2, alone, dpage, spage) && Agree(v, u3, maxP)
    ensures Freed(u0, v, maxP, run + [spage], alone, dpage)
  {
  }

  /** What is left of the marks once pages have been given back. */
  lemma MarksLeft(pages: seq<Page>, maxP: nat, chain: seq<nat>, k: nat, u: seq<bool>, list: seq<nat>, alone: bool,
                  chain': seq<nat>, v: seq<bool>)
    requires Sound(pages, maxP, chain, u) && k < |chain| && Freed(u, v, maxP, list, alone, chain[k])
             && (alone ==> k > 0)
    requires chain' == if alone then chain[..k] + chain[k + 1..] else chain
    ensures Marked(pages, maxP, chain', v) <==> Apart(pages, maxP, chain', list)
  {
    LeftOut(pages, chain, k);
    if alone {
      StartMetOnce(pages, chain, k - 1);
      assert DirPageAt(pages, chain, k - 1);
    }
    forall p | p in chain'
      ensures p in chain && p <= maxP && u[p] && !(alone && p == chain[k])
    {
      var j :| 0 <= j < |chain| && chain[j] == p;
      assert DirPageAt(pages, chain, j);
    }
    forall p | p in BitmapPages(pages, maxP)
      ensures p <= maxP && u[p] && p != chain[k]
    {
      BitmapPageInRange(pages, maxP, p);
      assert chain[k] in chain;
    }
    if Apart(pages, maxP, chain', list) {
      assert 0 !in list;
    }
    if Marked(pages, maxP, chain', v) {
      forall p | p in list
        ensures p != 0 && p !in chain' && p !in BitmapPages(pages, maxP)
      {
      }
    }
  }

  lemma BitmapPageInRange(pages: seq<Page>, maxP: nat, p: nat)
    requires RootShape(pages) && maxP <= 254 && maxP + 1 == |pages| && BitmapInPlace(pages, maxP)
             && p in BitmapPages(pages, maxP)
    ensures p <= maxP
  {
  }

  /** What the edit and the storing of the bitmap come to. */
  lemma EditIsDeletion(pages: seq<Page>, maxP: nat, chain: seq<nat>, k: nat, off: nat, P: nat, run: seq<nat>,
                       u2: seq<bool>, final: seq<Page>, chain': seq<nat>, bm: seq<Octet>)
    requires Placed(pages, maxP, chain) && LocatedAt(pages, chain, k, off, P) && P < |Listing(pages, chain)|
    requires |bm| == BM_SIZE && maxP < |u2|
    requires var spage := Listing(pages, chain)[P][5];
             && spage <= maxP && Freed(StoredTaken(pages, maxP), u2, maxP, run + [spage as nat], false, 0)
             && EntryGone(pages, maxP, chain, k, P, u2, spage, final, chain', Taken(bm))
    requires ReadAs(final, maxP) == Bitmap(bm[..maxP / 8 + 1])
    ensures Deleted(pages, maxP, chain, k, P, run, final, chain')
  {
    var spage, alone := Listing(pages, chain)[P][5], |PageBytes(pages, chain, k)| == 8;
    assert DirPageAt(pages, chain, k);
    StoredAgain(final, maxP, chain', bm);
    FreedOnRecord(StoredTaken(pages, maxP), u2, Taken(bm), StoredTaken(final, maxP), maxP, run, alone, chain[k], spage);
    if StoredSound(pages, maxP, chain) {
      MarksLeft(pages, maxP, chain, k, StoredTaken(pages, maxP), run + [spage as nat], alone, chain',
                StoredTaken(final, maxP));
    }
  }

  /** When the file of an entry can be deleted: its name is one, it is no directory and not one of
      extension 100, it is there and not read-only, and its pages can be given back. */
  predicate CanDelete(pages: seq<Page>, maxP: nat, chain: seq<nat>, name: seq<Octet>, ext: Octet, run: seq<nat>)
    requires ValidPages(pages) && IsDirectory(pages, chain) && |name| == 4
  {
    && ValidName(name) && ext % 128 != DIR_EXT && ext != 100
    && var es := Listing(pages, chain);
    var P := FirstMatch(es, UpperName(name), ext);
    P < |es| && AttribOf(es[P]) != 1 && GivesBack(pages, maxP, es[P][5], run)
  }

  /** owDeleteFile: it succeeds exactly when the file can be deleted, and then does just that. A
      refusal changes nothing on the part. The directory searched starts on page `start`; `run` is
      what reading the file gets through. */
  method DeleteFile(medium: Medium, start: Octet, flname: seq<Octet>, ext: Octet, stale: Memory, bm: array<Octet>,
                    maxP: nat, ghost chain: seq<nat>, ghost run: seq<nat>)
      returns (ok: bool, ghost chain': seq<nat>, ghost k: nat)
    requires medium.Valid() && bm.Length == BM_SIZE && |flname| == 4
    requires Placed(medium.pages, maxP, chain) && chain[0] == start
    requires !Misled(medium.pages, chain, stale, UpperName(flname), ext)
    requires var es := Listing(medium.pages, chain);
             var P := FirstMatch(es, UpperName(flname), ext);
             P < |es| ==> Reads(medium.pages, es[P][5], run, -1)
    modifies medium, bm
    ensures medium.Valid() && (ok <==> CanDelete(old(medium.pages), maxP, chain, flname, ext, run))
    ensures !ok ==> medium.pages == old(medium.pages) && chain' == chain
    ensures var P := FirstMatch(Listing(old(medium.pages), chain), UpperName(flname), ext);
            ok ==>
              && OnPage(old(medium.pages), chain, k, P)
              && Deleted(old(medium.pages), maxP, chain, k, P, run, medium.pages, chain')
              && ext < 127 && ext != 100 && IsFile(Listing(old(medium.pages), chain)[P], flname, ext)
              && forall i | 0 <= i < P :: !NamedSo(Listing(old(medium.pages), chain)[i], flname, ext)
  {
    ghost var pages := medium.pages;
    chain', k := chain, 0;
    var name;
    ok, name := ValidFileName(flname);
    if !ok || ext % 128 == DIR_EXT || ext == 100 {
      return false, chain, 0;
    }
    ghost var h := Search(pages, chain, 0, stale, name, ext);
    ghost var P := FirstMatch(Listing(pages, chain), name, ext);
    NotMisled(pages, chain, stale, name, ext);
    FoundByBytes(Listing(pages, chain), flname, ext);
    assert DirPageAt(pages, chain, 0);
    var found, info := FindDirectoryInfo(medium, start, name, ext, stale, chain);
    if !found {
      return false, chain, 0;
    }
    k := h.k;
    TellsFirstMatch(info, pages, chain, h, name, ext);
    if info.attrib == 0x01 && info.ext != DIR_EXT {
      return false, chain, k;
    }
    ok := FreeFile(medium, info.spage, bm, maxP, chain, run);
    if !ok {
      return false, chain, k;
    }
    ghost var u2 := Taken(bm[..]);
    ok, chain' := RemoveEntry(medium, info, bm, maxP, chain, k, P);
    EditIsDeletion(pages, maxP, chain, k, info.offset, P, run, u2, medium.pages, chain', bm[..]);
  }
}
