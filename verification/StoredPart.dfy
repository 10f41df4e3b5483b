/** A part as its own stored bitmap has it. */
module StoredPart {
  import opened Octets
  import opened BitmapFile
  import opened DirectoryFile
  import opened FileChain
  import opened PageBitmap

  /** Which pages the bitmap stored on a part marks as taken. */
  function StoredTaken(pages: seq<Page>, maxP: nat): seq<bool>
    requires RootShape(pages) && maxP <= 254
  {
    var f := ReadAs(pages, maxP);
    if f.Bitmap? then Taken(f.bytes) else []
  }

  /** A part in order by its own bitmap. */
  predicate StoredSound(pages: seq<Page>, maxP: nat, chain: seq<nat>) {
    RootShape(pages) && maxP <= 254 && Sound(pages, maxP, chain, StoredTaken(pages, maxP))
  }

  lemma {:induction false} TakenPrefix(bm: seq<Octet>, n: nat)
    requires n <= |bm|
    ensures Taken(bm[..n]) == Taken(bm)[..8 * n]
    decreases |bm|
  {
    if n < |bm| {
      var init := bm[..|bm| - 1];
      TakenPrefix(init, n);
      assert init[..n] == bm[..n];
    } else {
      assert bm[..n] == bm;
    }
  }

  /** Two views of the bitmap that agree on the pages of the part. */
  predicate Agree(u: seq<bool>, v: seq<bool>, maxP: nat) {
    maxP < |u| && maxP < |v| && forall p | 0 <= p <= maxP :: u[p] == v[p]
  }

  lemma MarkedAgrees(pages: seq<Page>, maxP: nat, chain: seq<nat>, u: seq<bool>, v: seq<bool>)
    requires Placed(pages, maxP, chain) && Agree(u, v, maxP) && Marked(pages, maxP, chain, u)
    ensures Marked(pages, maxP, chain, v)
  {
    forall p | p in chain
      ensures p < |v| && v[p]
    {
      var j :| 0 <= j < |chain| && chain[j] == p;
      assert Directory.DirPageAt(pages, chain, j);
    }
  }

  /** Views that agree have the same free pages. */
  lemma {:induction false} SameFree(u: seq<bool>, v: seq<bool>, i: nat, maxP: nat)
    requires Agree(u, v, maxP)
    ensures FreePages(u, i, maxP) == FreePages(v, i, maxP)
    decreases maxP + 1 - i
  {
    if i <= maxP {
      SameFree(u, v, i + 1, maxP);
    }
  }

  /** A buffer that holds the stored bytes shows the stored bitmap. */
  lemma BufferAgrees(bm: seq<Octet>, bytes: seq<Octet>, maxP: nat)
    requires |bytes| == maxP / 8 + 1 <= |bm| && bm[..|bytes|] == bytes
    ensures Agree(Taken(bm), Taken(bytes), maxP)
  {
    TakenPrefix(bm, |bytes|);
    assert forall p | 0 <= p <= maxP :: Taken(bm)[..8 * |bytes|][p] == Taken(bm)[p];
  }

  lemma StoredCount(pages: seq<Page>, maxP: nat)
    requires RootShape(pages) && maxP <= 254 && BitmapInPlace(pages, maxP) && WholeBytes(pages, maxP)
    ensures |ReadAs(pages, maxP).bytes| == maxP / 8 + 1
  {
  }

  /** Reads the stored bitmap into the buffer. */
  method LoadBitmap(medium: Medium, bm: array<Octet>, maxP: nat, ghost chain: seq<nat>) returns (ok: bool)
    requires medium.Valid() && bm.Length == BM_SIZE && Placed(medium.pages, maxP, chain)
    modifies bm
    ensures ok && Agree(Taken(bm[..]), StoredTaken(medium.pages, maxP), maxP)
  {
    ok := ReadBitMap(medium, bm, maxP);
    StoredCount(medium.pages, maxP);
    BufferAgrees(bm[..], ReadAs(medium.pages, maxP).bytes, maxP);
  }

  /** What a later reader takes for marked: stored the short way, no page from 16 on. */
  lemma ShortTaken(bm: seq<Octet>, maxP: nat, twoOnly: bool)
    requires |bm| == BM_SIZE && maxP <= 254 && (twoOnly ==> maxP < 32)
    ensures var v := Taken(StoredBytes(bm, maxP, twoOnly));
            maxP < |v| && forall p | 0 <= p <= maxP :: v[p] == (Taken(bm)[p] && !(twoOnly && p >= 16))
  {
    var b := StoredBytes(bm, maxP, twoOnly);
    if twoOnly {
      forall p: nat | p <= maxP
        ensures Taken(b)[p] == (Taken(bm)[p] && p < 16)
      {
        TakenAt(b, p / 8, p % 8);
        TakenAt(bm, p / 8, p % 8);
        BitOfZero(p % 8);
      }
    } else {
      BufferAgrees(bm, b, maxP);
    }
  }

  /** A part whose bitmap has been stored from a buffer is in order by its own bitmap exactly when it
      is by the buffer. */
  lemma StoredAgain(pages: seq<Page>, maxP: nat, chain: seq<nat>, bm: seq<Octet>)
    requires |bm| == BM_SIZE && Placed(pages, maxP, chain) && ReadAs(pages, maxP) == Bitmap(bm[..maxP / 8 + 1])
    ensures Agree(StoredTaken(pages, maxP), Taken(bm), maxP)
    ensures StoredSound(pages, maxP, chain) <==> Marked(pages, maxP, chain, Taken(bm))
  {
    BufferAgrees(bm, bm[..maxP / 8 + 1], maxP);
    if Marked(pages, maxP, chain, Taken(bm)) {
      MarkedAgrees(pages, maxP, chain, Taken(bm), StoredTaken(pages, maxP));
    }
    if Marked(pages, maxP, chain, StoredTaken(pages, maxP)) {
      MarkedAgrees(pages, maxP, chain, StoredTaken(pages, maxP), Taken(bm));
    }
  }
}
