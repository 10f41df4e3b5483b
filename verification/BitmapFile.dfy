/** Where the page bitmap is kept: ReadBitMap and WriteBitMap of owfile.c on read-write memory.
    A small part keeps it in four bytes of the root page; a larger one on a page of its own, named
    in the root page; the largest on two pages. */
module BitmapFile {
  import opened Octets
  import opened FileChain

  const BM_SIZE := 32

  datatype Found = Refused | Bitmap(bytes: seq<Octet>)
  datatype Stored = Failed | Pages(pages: seq<Page>)

  /** A root page that can be read has its seven-byte header and at least a continuation. */
  predicate RootShape(pages: seq<Page>) {
    ValidPages(pages) && (pages[0].Holding? ==> |pages[0].bytes| >= 8)
  }

  predicate RootIsDirectory(pages: seq<Page>)
    requires RootShape(pages)
  {
    pages[0].Holding? && pages[0].bytes[0] == 0xAA && pages[0].bytes[1] == 0
  }

  /** The flag bit of the root page: the bitmap is in the root page itself. */
  predicate IsLocal(root: seq<Octet>)
    requires |root| >= 8
  {
    root[2] >= 0x80
  }

  /** Bytes the writer puts out for pages 0 to maxP. */
  function ByteCount(maxP: nat): (b: nat)
    ensures maxP <= 254 ==> b <= BM_SIZE
  {
    maxP / 8 + (if maxP % 8 != 0 then 1 else 0)
  }

  /** The bitmap a reader finds. */
  function ReadAs(pages: seq<Page>, maxP: nat): (f: Found)
    requires RootShape(pages) && maxP <= 254
    ensures f.Bitmap? ==> |f.bytes| <= BM_SIZE
  {
    if !RootIsDirectory(pages) then Refused
    else
      var root := pages[0].bytes;
      if IsLocal(root) then
        if maxP > 32 then Refused else Bitmap(root[3..4 + maxP / 8])
      else ReadRemote(pages, maxP, root[5])
  }

  function ReadRemote(pages: seq<Page>, maxP: nat, pg: Octet): (f: Found)
    requires ValidPages(pages) && maxP <= 254
    ensures f.Bitmap? ==> |f.bytes| <= BM_SIZE
  {
    if !(pg < |pages| && pages[pg].Holding?) then Refused
    else
      var first := pages[pg].bytes;
      var len, cont := |first|, first[|first| - 1];
      if maxP <= 224 then
        if (maxP + 1) / 8 == len - 1 && cont == 0 then Bitmap(first[..len - 1]) else Refused
      else if len != 29 || cont == 0 || !(cont < |pages| && pages[cont].Holding?) then Refused
      else
        var second := pages[cont].bytes;
        if 27 + |second| == (maxP + 1) / 8 then Bitmap(first[..28] + second[..|second| - 1]) else Refused
  }

  /** What writing a bitmap leaves on the pages. */
  function WriteAs(pages: seq<Page>, bm: seq<Octet>, maxP: nat): (r: Stored)
    requires RootShape(pages) && |bm| == BM_SIZE && maxP <= 254
  {
    if !RootIsDirectory(pages) then Failed
    else
      var root, b := pages[0].bytes, ByteCount(maxP);
      if IsLocal(root) then
        if maxP > 32 then Failed
        else Pages(pages[0 := Holding(root[..3] + bm[..b] + seq(4 - b, _ => 0) + root[7..])])
      else if maxP <= 224 then
        if root[5] < |pages| then Pages(pages[root[5] as nat := Holding(bm[..b] + [0])]) else Failed
      else if !(root[5] < |pages| && pages[root[5]].Holding? && |pages[root[5]].bytes| == 29) then Failed
      else
        var cont := pages[root[5]].bytes[28];
        if cont < |pages| then
          Pages(pages[root[5] as nat := Holding(bm[..28] + [cont])][cont as nat := Holding(bm[28..b] + [0])])
        else Failed
  }

  /** Copies n bytes one by one to the front of a bitmap buffer. */
  method CopyTo(bmap: array<Octet>, at: nat, data: seq<Octet>)
    requires at + |data| <= bmap.Length
    modifies bmap
    ensures bmap[..] == old(bmap[..at]) + data + old(bmap[at + |data|..])
  {
    for i := 0 to |data|
      invariant forall j | 0 <= j < bmap.Length :: bmap[j] == if at <= j < at + i then data[j - at] else old(bmap[j])
    {
      bmap[at + i] := data[i];
    }
  }

  /** ReadBitMap. A failure on the second page of a two-page bitmap comes after the first has been
      copied to the buffer. */
  method ReadBitMap(medium: Medium, bmap: array<Octet>, maxP: nat) returns (ok: bool)
    requires medium.Valid() && RootShape(medium.pages) && maxP <= 254 && bmap.Length == BM_SIZE
    modifies bmap
    ensures ok <==> ReadAs(medium.pages, maxP).Bitmap?
    ensures ok ==> var bytes := ReadAs(medium.pages, maxP).bytes; bmap[..|bytes|] == bytes
  {
    var pgbuf;
    ok, pgbuf := medium.ReadPage(0);
    if !ok {
      return;
    }
    if pgbuf[0] != 0xAA || pgbuf[1] != 0 {
      return false;
    }
    if pgbuf[2] >= 0x80 {
      if maxP > 32 {
        return false;
      }
      for i := 0 to |pgbuf| {
        bmap[i] := 0;
      }
      CopyTo(bmap, 0, pgbuf[3..4 + maxP / 8]);
      return true;
    }
    ok := ReadRemoteBitMap(medium, bmap, maxP, pgbuf[5]);
  }

  /** The part of ReadBitMap for a bitmap outside the root page. */
  method ReadRemoteBitMap(medium: Medium, bmap: array<Octet>, maxP: nat, pg: Octet) returns (ok: bool)
    requires medium.Valid() && maxP <= 254 && bmap.Length == BM_SIZE
    modifies bmap
    ensures ok <==> ReadRemote(medium.pages, maxP, pg).Bitmap?
    ensures ok ==> var bytes := ReadRemote(medium.pages, maxP, pg).bytes; bmap[..|bytes|] == bytes
  {
    var pgbuf;
    ok, pgbuf := medium.ReadPage(pg);
    if !ok {
      return;
    }
    var len, cont := |pgbuf|, pgbuf[|pgbuf| - 1];
    if (maxP > 224 && (len != 29 || cont == 0)) || (maxP <= 224 && ((maxP + 1) / 8 != len - 1 || cont != 0)) {
      return false;
    }
    CopyTo(bmap, 0, pgbuf[..len - 1]);
    if cont != 0 {
      ok, pgbuf := medium.ReadPage(cont);
      if !ok {
        return;
      }
      if 27 + |pgbuf| != (maxP + 1) / 8 {
        return false;
      }
      ghost var first := bmap[..28];
      CopyTo(bmap, 28, pgbuf[..|pgbuf| - 1]);
      assert bmap[..28] == first;
    }
  }

  /** The first b bytes of the bitmap buffer from one on, with an end mark. */
  method Collect(bmap: array<Octet>, from: nat, to: nat) returns (pgbuf: seq<Octet>)
    requires from <= to <= bmap.Length
    ensures pgbuf == bmap[from..to] + [0]
  {
    pgbuf := [];
    for i := from to to
      invariant pgbuf == bmap[from..i]
    {
      pgbuf := pgbuf + [bmap[i]];
    }
    pgbuf := pgbuf + [0];
  }

  /** The bytes of the root page with its four bitmap bytes replaced. */
  method PutLocal(root: seq<Octet>, bmap: array<Octet>, b: nat) returns (pgbuf: seq<Octet>)
    requires |root| >= 8 && b <= 4 <= bmap.Length
    ensures pgbuf == root[..3] + bmap[..b] + seq(4 - b, _ => 0) + root[7..]
  {
    pgbuf := root;
    for i := 3 to 7
      invariant |pgbuf| == |root| && forall j | 0 <= j < |root| :: pgbuf[j] == if 3 <= j < i then 0 else root[j]
    {
      pgbuf := pgbuf[i := 0];
    }
    for i := 0 to b
      invariant |pgbuf| == |root|
      invariant forall j | 0 <= j < |root| :: pgbuf[j] == if 3 <= j < 3 + i then bmap[j - 3]
                else if 3 <= j < 7 then 0 else root[j]
    {
      pgbuf := pgbuf[i + 3 := bmap[i]];
    }
  }

  /** The first page of a two-page bitmap, compared with the buffer and changed where they differ. */
  method MergeFirst(page: seq<Octet>, bmap: array<Octet>) returns (flag: bool, pgbuf: seq<Octet>)
    requires |page| == 29 && bmap.Length == BM_SIZE
    ensures pgbuf == bmap[..28] + [page[28]] && (!flag ==> pgbuf == page)
  {
    flag, pgbuf := false, page;
    for i := 0 to |page| - 1
      invariant |pgbuf| == |page| && (!flag ==> pgbuf == page)
      invariant forall j | 0 <= j < |page| :: pgbuf[j] == if j < i then bmap[j] else page[j]
    {
      if pgbuf[i] != bmap[i] {
        flag := true;
        pgbuf := pgbuf[i := bmap[i]];
      }
    }
  }

  /** WriteBitMap. If it fails, at most the first page of a two-page bitmap has been rewritten. */
  method WriteBitMap(medium: Medium, bmap: array<Octet>, maxP: nat) returns (ok: bool)
    requires medium.Valid() && RootShape(medium.pages) && maxP <= 254 && bmap.Length == BM_SIZE
    modifies medium
    ensures medium.Valid() && (ok <==> WriteAs(old(medium.pages), bmap[..], maxP).Pages?)
    ensures ok ==> medium.pages == WriteAs(old(medium.pages), bmap[..], maxP).pages
    ensures |medium.pages| == |old(medium.pages)|
    ensures !ok && medium.pages != old(medium.pages) ==>
              && RootIsDirectory(old(medium.pages)) && maxP > 224
              && forall p | 0 <= p < |medium.pages| && p != old(medium.pages[0].bytes[5]) ::
                 medium.pages[p] == old(medium.pages[p])
  {
    var pgbuf;
    ok, pgbuf := medium.ReadPage(0);
    if !ok {
      return;
    }
    if pgbuf[0] != 0xAA || pgbuf[1] != 0 {
      return false;
    }
    var b := maxP / 8;
    b := b + if maxP % 8 != 0 then 1 else 0;
    if pgbuf[2] >= 0x80 {
      if maxP > 32 {
        return false;
      }
      pgbuf := PutLocal(pgbuf, bmap, b);
      ok := medium.WritePage(pgbuf, 0);
    } else if maxP > 224 {
      ok := WriteTwoPages(medium, bmap, b, pgbuf[5]);
    } else {
      var pg := pgbuf[5];
      pgbuf := Collect(bmap, 0, b);
      ok := medium.WritePage(pgbuf, pg);
    }
  }

  /** The part of WriteBitMap for a bitmap of two pages, the first of which is tpg. */
  method WriteTwoPages(medium: Medium, bmap: array<Octet>, b: nat, tpg: Octet) returns (ok: bool)
    requires medium.Valid() && bmap.Length == BM_SIZE && 29 <= b <= 32
    modifies medium
    ensures medium.Valid() && |medium.pages| == |old(medium.pages)|
    ensures var pages := old(medium.pages);
            ok <==> tpg < |pages| && pages[tpg].Holding? && |pages[tpg].bytes| == 29 && pages[tpg].bytes[28] < |pages|
    ensures ok ==>
              var cont, pages := old(medium.pages)[tpg].bytes[28], old(medium.pages);
              var first := pages[tpg as nat := Holding(bmap[..28] + [cont])];
              medium.pages == first[cont as nat := Holding(bmap[28..b] + [0])]
    ensures !ok ==> forall p | 0 <= p < |medium.pages| && p != tpg as int :: medium.pages[p] == old(medium.pages[p])
  {
    var pgbuf;
    ok, pgbuf := medium.ReadPage(tpg);
    if !ok {
      return;
    }
    if |pgbuf| != 29 {
      return false;
    }
    var pg, flag := pgbuf[28], false;
    flag, pgbuf := MergeFirst(pgbuf, bmap);
    if flag {
      ok := medium.WritePage(pgbuf, tpg);
      if !ok {
        return;
      }
    }
    pgbuf := Collect(bmap, 28, b);
    ok := medium.WritePage(pgbuf, pg);
  }

  /** A readable bitmap outside the root page, not itself on the root page. */
  predicate BitmapInPlace(pages: seq<Page>, maxP: nat)
    requires RootShape(pages) && maxP <= 254
  {
    ReadAs(pages, maxP).Bitmap? && (IsLocal(pages[0].bytes) || pages[0].bytes[5] != 0)
  }

  /** What a reader finds after a bitmap has been written. */
  predicate ReadsBack(pages: seq<Page>, bm: seq<Octet>, maxP: nat, found: Found)
    requires RootShape(pages) && maxP <= 254 && |bm| == BM_SIZE
  {
    var w := WriteAs(pages, bm, maxP);
    w.Pages? && RootShape(w.pages) && ReadAs(w.pages, maxP) == found
  }

  lemma LocalRoundTrip(pages: seq<Page>, bm: seq<Octet>, maxP: nat)
    requires RootShape(pages) && maxP <= 32 && |bm| == BM_SIZE && RootIsDirectory(pages) && IsLocal(pages[0].bytes)
    ensures ReadsBack(pages, bm, maxP,
              Bitmap(if maxP % 8 != 0 then bm[..maxP / 8 + 1]
                     else bm[..maxP / 8] + [if maxP == 32 then pages[0].bytes[7] else 0]))
  {
    var root, b := pages[0].bytes, ByteCount(maxP);
    var after := root[..3] + bm[..b] + seq(4 - b, _ => 0) + root[7..];
    assert |after| == |root| && after[0] == root[0] && after[1] == root[1] && after[2] == root[2]
           && after[7] == root[7];
    assert after[3..3 + b] == bm[..b];
  }

  lemma OnePageRoundTrip(pages: seq<Page>, bm: seq<Octet>, maxP: nat)
    requires RootShape(pages) && maxP <= 224 && |bm| == BM_SIZE && RootIsDirectory(pages) && !IsLocal(pages[0].bytes)
    requires 0 < pages[0].bytes[5] < |pages|
    ensures ReadsBack(pages, bm, maxP, if maxP % 8 == 7 || maxP % 8 == 0 then Bitmap(bm[..(maxP + 1) / 8]) else Refused)
  {
    var b := ByteCount(maxP);
    var page := bm[..b] + [0];
    assert page[|page| - 1] == 0 && page[..|page| - 1] == bm[..b];
    assert b == (maxP + 1) / 8 <==> maxP % 8 == 7 || maxP % 8 == 0;
  }

  lemma TwoPageRoundTrip(pages: seq<Page>, bm: seq<Octet>, maxP: nat)
    requires RootShape(pages) && 224 < maxP <= 254 && |bm| == BM_SIZE && BitmapInPlace(pages, maxP)
             && !IsLocal(pages[0].bytes)
    ensures ReadsBack(pages, bm, maxP, if maxP % 8 == 7 || maxP % 8 == 0 then Bitmap(bm[..(maxP + 1) / 8]) else Refused)
  {
    var b, tpg := ByteCount(maxP), pages[0].bytes[5];
    var cont := pages[tpg].bytes[28];
    var first, second := bm[..28] + [cont], bm[28..b] + [0];
    assert first[28] == cont && first[..28] == bm[..28];
    assert second[..|second| - 1] == bm[28..b] && bm[..28] + bm[28..b] == bm[..b];
    assert cont as nat != tpg as nat;
    assert b == (maxP + 1) / 8 <==> maxP % 8 == 7 || maxP % 8 == 0;
  }

  /** Writing a bitmap over a readable one succeeds, and reading it again gives back every byte
      written when the number of pages is a multiple of eight. Otherwise: a bitmap in the root page
      has no bit for the last page when there is one page more; one on its own page or pages has
      none either then, and in every other case cannot be read any more. */
  lemma BitmapRoundTrip(pages: seq<Page>, bm: seq<Octet>, maxP: nat)
    requires RootShape(pages) && maxP <= 254 && |bm| == BM_SIZE && BitmapInPlace(pages, maxP)
    ensures maxP % 8 == 7 ==> ReadsBack(pages, bm, maxP, Bitmap(bm[..(maxP + 1) / 8]))
    ensures maxP % 8 != 7 && maxP % 8 != 0 ==>
              ReadsBack(pages, bm, maxP, if IsLocal(pages[0].bytes) then Bitmap(bm[..maxP / 8 + 1]) else Refused)
    ensures maxP % 8 == 0 ==>
              ReadsBack(pages, bm, maxP,
                        Bitmap(bm[..maxP / 8] + (if !IsLocal(pages[0].bytes) then []
                                                 else [if maxP == 32 then pages[0].bytes[7] else 0])))
  {
    if IsLocal(pages[0].bytes) {
      LocalRoundTrip(pages, bm, maxP);
    } else if maxP <= 224 {
      OnePageRoundTrip(pages, bm, maxP);
    } else {
      TwoPageRoundTrip(pages, bm, maxP);
    }
    assert bm[..maxP / 8] + [] == bm[..maxP / 8];
    assert maxP % 8 == 7 ==> maxP / 8 + 1 == (maxP + 1) / 8;
    assert maxP % 8 == 0 ==> maxP / 8 == (maxP + 1) / 8;
  }
}
