/** Formatting read-write memory (owFormat): the state every run of the file layer starts from. */
module Formatting {
  import opened Octets
  import opened BitmapFile
  import opened Directory
  import opened DirectoryFile
  import opened FileChain
  import opened PageBitmap
  import opened StoredPart

  const ROOT: Octet := 0xAA

  /** The pages a formatted part has taken: the root page, the pages of a bitmap of its own, and page
      225, for which the continuation pointer of a two-page bitmap is left in the bitmap buffer. */
  predicate TakenByFormat(maxP: nat, p: nat) {
    p == 0 || (maxP > 32 && p == 1) || (maxP > 223 && (p == 2 || p == 225))
  }

  function Blank(): (bm: seq<Octet>)
    ensures |bm| == BM_SIZE
  {
    seq(BM_SIZE, _ => 0)
  }

  /** The bitmap buffer of a part with a bitmap of its own, once the pages for it have been laid out. */
  function FormatBitmap(maxP: nat): (bm: seq<Octet>)
    ensures |bm| == BM_SIZE
  {
    if maxP <= 32 then Blank() else if maxP <= 223 then Blank()[0 := 3] else Blank()[0 := 7][28 := 2]
  }

  /** A view of the bitmap in which just the pages taken by formatting are taken. */
  predicate FormatView(u: seq<bool>, maxP: nat) {
    |u| == 8 * BM_SIZE && forall p | 0 <= p < |u| :: u[p] <==> TakenByFormat(maxP, p)
  }

  lemma SmallBits(k: nat)
    ensures Bit(1, k) <==> k == 0
    ensures Bit(3, k) <==> k <= 1
    ensures Bit(7, k) <==> k <= 2
    ensures Bit(2, k) <==> k == 1
  {
    if k > 0 {
      if k > 1 {
        if k > 2 {
          BitOfZero(k - 3);
        }
        BitOfZero(k - 2);
      }
      BitOfZero(k - 1);
    }
  }

  lemma FormatBitmapTakes(maxP: nat)
    ensures FormatView(Taken(FormatBitmap(maxP))[0 := true], maxP)
  {
    forall p | 0 <= p < 8 * BM_SIZE
      ensures Taken(FormatBitmap(maxP))[0 := true][p] <==> TakenByFormat(maxP, p)
    {
      var q, k := p / 8, p % 8;
      TakenAt(FormatBitmap(maxP), q, k);
      SmallBits(k);
      BitOfZero(k);
    }
  }

  /** The root page written: no entries, and the bitmap in it or on page 1. */
  function NewRoot(maxP: nat): seq<Octet> {
    if maxP <= 32 then [ROOT, 0, 0x80, 0x01, 0, 0, 0, 0] else [ROOT, 0, 0, 0, 0, 1, if maxP > 223 then 2 else 1, 0]
  }

  /** Page counts formatting gets right: every page has a bit that is stored and found again. */
  predicate Formattable(maxP: nat) {
    maxP <= 254 && (maxP % 8 == 7 || (maxP < 32 && maxP % 8 != 0))
  }

  /** A part with the new root page, and the bitmap pages laid out for it. */
  predicate Prepared(pages: seq<Page>, maxP: nat) {
    && ValidPages(pages) && |pages| == maxP + 1 && pages[0] == Holding(NewRoot(maxP))
    && (32 < maxP <= 223 ==> pages[1].Holding? && |pages[1].bytes| == (maxP + 1) / 8 + 1 && Last(pages[1].bytes) == 0)
    && (maxP > 223 ==>
          && pages[1].Holding? && |pages[1].bytes| == 29 && Last(pages[1].bytes) == 2
          && pages[2].Holding? && |pages[2].bytes| == (maxP + 1) / 8 - 27)
  }

  lemma PreparedIsSound(pages: seq<Page>, maxP: nat, u: seq<bool>)
    requires Formattable(maxP) && Prepared(pages, maxP) && FormatView(u, maxP)
    ensures Sound(pages, maxP, [0], u) && Listing(pages, [0]) == []
  {
    assert NewRoot(maxP)[7] == 0;
    assert DirPageAt(pages, [0], 0);
    assert EntriesFrom(NewRoot(maxP), ENTRY) == [];
    assert Entries(pages, [0], 0) == [];
    assert u[0] && (maxP > 32 ==> u[1]) && (maxP > 223 ==> u[2]);
  }

  lemma FormattedIsSound(pages: seq<Page>, maxP: nat, bm: seq<Octet>)
    requires Formattable(maxP) && Prepared(pages, maxP) && |bm| == BM_SIZE && FormatView(Taken(bm), maxP)
    ensures RootShape(pages) && WriteAs(pages, bm, maxP).Pages?
    ensures Formatted(WriteAs(pages, bm, maxP).pages, maxP)
  {
    PreparedIsSound(pages, maxP, Taken(bm));
    StoredKeepsSound(pages, bm, maxP, [0], Taken(bm));
    StoredAgain(WriteAs(pages, bm, maxP).pages, maxP, [0], bm);
  }

  /** A part in order by its own bitmap, with an empty root directory and no page taken but for it. */
  predicate Formatted(pages: seq<Page>, maxP: nat) {
    && StoredSound(pages, maxP, [0]) && Listing(pages, [0]) == []
    && forall p: nat | p <= maxP :: StoredTaken(pages, maxP)[p] <==> TakenByFormat(maxP, p)
  }

  /** owFormat on read-write memory, for the families that keep a large bitmap on page 1: whatever the
      part held, it is then in order by its own bitmap, with an empty root directory. */
  method Format(medium: Medium, maxP: nat, bm: array<Octet>) returns (ok: bool)
    requires medium.Valid() && |medium.pages| == maxP + 1 && Formattable(maxP) && bm.Length == BM_SIZE
    modifies medium, bm
    ensures ok && medium.Valid() && Formatted(medium.pages, maxP)
    ensures RootByByte(medium.pages, maxP)
  {
    ok := Prepare(medium, maxP, bm);
    FormatBitmapTakes(maxP);
    ok := BitMapChange(bm, maxP, 0, 1);
    FormattedIsSound(medium.pages, maxP, bm[..]);
    RootAfterStore(medium.pages, maxP, bm[..], WriteAs(medium.pages, bm[..], maxP).pages);
    ok := WriteBitMap(medium, bm, maxP);
  }

  /** The new root page, and before it the bitmap pages of a part that needs them. */
  method Prepare(medium: Medium, maxP: nat, bm: array<Octet>) returns (ok: bool)
    requires medium.Valid() && |medium.pages| == maxP + 1 && Formattable(maxP) && bm.Length == BM_SIZE
    modifies medium, bm
    ensures ok && medium.Valid() && Prepared(medium.pages, maxP) && bm[..] == FormatBitmap(maxP)
  {
    Clear(bm);
    var nwdir: seq<Octet> := [ROOT, 0, 0x80, 0x01, 0, 0, 0, 0];
    if maxP > 32 {
      nwdir := nwdir[2 := 0x00];
      nwdir := nwdir[3 := 0x00];
      nwdir := nwdir[5 := 1];
      nwdir := nwdir[6 := if maxP > 223 then 2 else 1];
      bm[0] := if nwdir[6] == 1 then 0x03 else 0x07;
      assert bm[..] == Blank()[0 := if maxP > 223 then 7 else 3];
      ok := LayBitmapPages(medium, maxP, bm);
    }
    assert nwdir == NewRoot(maxP);
    ok := medium.WritePage(nwdir, 0);
  }

  /** The root page: the mark of a directory, then the flag and the bitmap, or no flag, and the page of the
      bitmap and how many there are; no entries, and no page after it. */
  predicate RootByByte(pages: seq<Page>, maxP: nat) {
    && pages != [] && pages[0].Holding? && |pages[0].bytes| == 8
    && var b := pages[0].bytes;
    && b[0] == 0xAA && b[1] == 0 && b[7] == 0
    && if maxP <= 32 then b[2] == 0x80
       else b[2] == 0 && b[3] == 0 && b[4] == 0 && b[5] == 1 && b[6] == if maxP > 223 then 2 else 1
  }

  lemma RootAfterStore(pages: seq<Page>, maxP: nat, bm: seq<Octet>, final: seq<Page>)
    requires RootShape(pages) && pages[0] == Holding(NewRoot(maxP)) && maxP <= 254 && |bm| == BM_SIZE
    requires WriteAs(pages, bm, maxP) == Pages(final)
    requires maxP > 223 ==> |pages| > 2 && pages[1].Holding? && Last(pages[1].bytes) == 2
    ensures RootByByte(final, maxP)
  {
    var root := NewRoot(maxP);
    assert root[7..] == [0] && root[..3] == [root[0], root[1], root[2]];
  }

  method Clear(bm: array<Octet>)
    requires bm.Length == BM_SIZE
    modifies bm
    ensures bm[..] == Blank()
  {
    for i := 0 to BM_SIZE
      invariant forall j | 0 <= j < i :: bm[j] == 0
    {
      bm[i] := 0;
    }
  }

  /** The bitmap pages of a part with more than 33 pages, all but empty. The buffer is two bytes longer
      than a bitmap, and keeps the continuation pointer of the first of two pages. */
  method LayBitmapPages(medium: Medium, maxP: nat, bm: array<Octet>) returns (ok: bool)
    requires medium.Valid() && |medium.pages| == maxP + 1 && 32 < maxP <= 254 && maxP % 8 == 7 && bm.Length == BM_SIZE
    requires bm[..] == Blank()[0 := if maxP > 223 then 7 else 3]
    modifies medium, bm
    ensures ok && medium.Valid() && |medium.pages| == maxP + 1 && bm[..] == FormatBitmap(maxP)
    ensures Prepared(medium.pages[0 := Holding(NewRoot(maxP))], maxP)
  {
    ok := medium.WritePage([], 0);
    var i := (maxP + 1) / 8 + 1;
    if bm[0] == 0x07 {
      bm[28] := 2;
      i := 29;
    }
    ok := medium.WritePage(bm[..i], 1);
    if bm[0] == 0x07 {
      i := (maxP + 1) / 8 - 27;
      ok := medium.WritePage((bm[29..] + [0, 0])[..i], 2);
    }
  }
}
