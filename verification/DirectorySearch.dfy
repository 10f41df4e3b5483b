/** FindDirectoryInfo of owfile.c: the search for an entry. It looks at the continuation byte of every
    page as if an entry began there, and so at what an earlier page, or whatever used the memory
    before, has left behind the page in the buffer. */
module DirectorySearch {
  import opened Octets
  import opened FileChain
  import opened Directory

  /** The page buffer, and the memory behind it as far as an entry that begins at the continuation
      byte of a full page would reach. */
  const REACH := MAX_PACKET - 1 + ENTRY

  type Memory = m: seq<Octet> | |m| == REACH witness seq(REACH, _ => 0)

  /** A page read into the buffer. */
  function Over(bytes: seq<Octet>, mem: Memory): (m: Memory)
    requires |bytes| <= MAX_PACKET
  {
    bytes + mem[|bytes|..]
  }

  /** The offset at which the scan of a page of len bytes stops: that of a match, or len. */
  function ScanHit(mem: Memory, len: nat, i: nat, name: seq<Octet>, ext: Octet): (off: nat)
    requires len <= MAX_PACKET && |name| == 4
    ensures off <= len && (off < len ==> i <= off && (off - i) % ENTRY == 0)
    decreases len - i
  {
    if i >= len then len
    else if EntryMatches(mem[i..i + ENTRY], name, ext) then i
    else ScanHit(mem, len, i + ENTRY, name, ext)
  }

  /** What a search comes up with: nothing, or an offset on a page and the seven bytes there. */
  datatype Hit = Miss | Hit(k: nat, off: nat, e: Entry)

  /** The search from page k on, with the given buffer. */
  function Search(pages: seq<Page>, chain: seq<nat>, k: nat, mem: Memory, name: seq<Octet>, ext: Octet): (h: Hit)
    requires ValidPages(pages) && IsDirectory(pages, chain) && k <= |chain| && |name| == 4
    ensures h.Hit? ==> k <= h.k < |chain| && h.off < |PageBytes(pages, chain, h.k)|
    decreases |chain| - k
  {
    if k == |chain| then Miss
    else
      var bytes := PageBytes(pages, chain, k);
      var m := Over(bytes, mem);
      var off := ScanHit(m, |bytes|, Base(k == 0), name, ext);
      if off < |bytes| then Hit(k, off, m[off..off + ENTRY]) else Search(pages, chain, k + 1, m, name, ext)
  }

  /** What was found is no entry: it begins with the continuation byte of its page. */
  predicate IsPhantom(pages: seq<Page>, chain: seq<nat>, h: Hit)
    requires ValidPages(pages) && IsDirectory(pages, chain)
  {
    h.Hit? && h.k < |chain| && h.off + ENTRY >= |PageBytes(pages, chain, h.k)|
  }

  /** The seven bytes the scan takes for an entry at the continuation byte. */
  function Phantom(bytes: seq<Octet>, mem: Memory): (e: Entry)
    requires 1 <= |bytes| <= MAX_PACKET
  {
    [Last(bytes)] + mem[|bytes|..|bytes| + ENTRY - 1]
  }

  lemma OverAt(bytes: seq<Octet>, mem: Memory, i: nat)
    requires |bytes| <= MAX_PACKET && i + ENTRY <= |bytes|
    ensures Over(bytes, mem)[i..i + ENTRY] == bytes[i..i + ENTRY]
  {
  }

  lemma OverAtEnd(bytes: seq<Octet>, mem: Memory)
    requires 1 <= |bytes| <= MAX_PACKET
    ensures Over(bytes, mem)[|bytes| - 1..|bytes| - 1 + ENTRY] == Phantom(bytes, mem)
  {
    var a, b := Over(bytes, mem)[|bytes| - 1..|bytes| - 1 + ENTRY], Phantom(bytes, mem);
    assert forall i | 0 <= i < ENTRY :: a[i] == b[i];
  }

  /** What the scan of a page comes to: its first match; if there is none, the continuation byte decides. */
  predicate Scans(bytes: seq<Octet>, mem: Memory, i: nat, name: seq<Octet>, ext: Octet, off: nat)
    requires |name| == 4 && 1 <= |bytes| <= MAX_PACKET
  {
    var es := EntriesFrom(bytes, i);
    var f := FirstMatch(es, name, ext);
    if f < |es| then off == i + ENTRY * f && off + ENTRY < |bytes| && bytes[off..off + ENTRY] == es[f]
    else off == if EntryMatches(Phantom(bytes, mem), name, ext) then |bytes| - 1 else |bytes|
  }

  lemma {:induction false} ScanOfPage(bytes: seq<Octet>, mem: Memory, i: nat, name: seq<Octet>, ext: Octet)
    requires |name| == 4 && |bytes| <= MAX_PACKET && |bytes| % ENTRY == 1 && i % ENTRY == 0 && i < |bytes|
    ensures Scans(bytes, mem, i, name, ext, ScanHit(Over(bytes, mem), |bytes|, i, name, ext))
    decreases |bytes| - i
  {
    EntryStep(bytes, i);
    if i + 1 == |bytes| {
      OverAtEnd(bytes, mem);
    } else {
      OverAt(bytes, mem, i);
      ScanOfPage(bytes, mem, i + ENTRY, name, ext);
      ScansOn(bytes, mem, i, name, ext, ScanHit(Over(bytes, mem), |bytes|, i + ENTRY, name, ext));
    }
  }

  lemma ScansOn(bytes: seq<Octet>, mem: Memory, i: nat, name: seq<Octet>, ext: Octet, off: nat)
    requires |name| == 4 && 1 <= |bytes| <= MAX_PACKET && i + ENTRY < |bytes|
    requires Scans(bytes, mem, i + ENTRY, name, ext, off)
    ensures Scans(bytes, mem, i, name, ext, if EntryMatches(bytes[i..i + ENTRY], name, ext) then i else off)
  {
    MatchFromHere(bytes[i..i + ENTRY], EntriesFrom(bytes, i + ENTRY), name, ext);
  }

  lemma MatchFromHere(e: Entry, rest: seq<Entry>, name: seq<Octet>, ext: Octet)
    requires |name| == 4
    ensures FirstMatch([e] + rest, name, ext) == if EntryMatches(e, name, ext) then 0
            else 1 + FirstMatch(rest, name, ext)
  {
    assert ([e] + rest)[1..] == rest;
  }

  // ----- when the search is right

  /** No entry of the first n pages matches. */
  predicate NoneBefore(pages: seq<Page>, chain: seq<nat>, n: nat, name: seq<Octet>, ext: Octet)
    requires ValidPages(pages) && IsDirectory(pages, chain) && n <= |chain| && |name| == 4
  {
    FirstMatch(Entries(pages, chain, n), name, ext) == |Entries(pages, chain, n)|
  }

  lemma NoneOnPage(pages: seq<Page>, chain: seq<nat>, k: nat, name: seq<Octet>, ext: Octet)
    requires ValidPages(pages) && IsDirectory(pages, chain) && k < |chain| && |name| == 4
    ensures NoneBefore(pages, chain, k + 1, name, ext) <==>
            NoneBefore(pages, chain, k, name, ext) && NoneOn(pages, chain, k, name, ext)
  {
    FirstMatchOfConcat(Entries(pages, chain, k), PageEntries(pages, chain, k), name, ext);
  }

  /** What the buffer and the memory behind it hold after n pages. */
  function MemAfter(pages: seq<Page>, chain: seq<nat>, n: nat, mem: Memory): Memory
    requires ValidPages(pages) && IsDirectory(pages, chain) && n <= |chain|
  {
    if n == 0 then mem else Over(PageBytes(pages, chain, n - 1), MemAfter(pages, chain, n - 1, mem))
  }

  /** A hit that is an entry, and the first match of the listing. */
  predicate IsFirstMatch(pages: seq<Page>, chain: seq<nat>, h: Hit, name: seq<Octet>, ext: Octet)
    requires ValidPages(pages) && IsDirectory(pages, chain) && |name| == 4
  {
    var P := FirstMatch(Listing(pages, chain), name, ext);
    h.Hit? && P < |Listing(pages, chain)| && LocatedAt(pages, chain, h.k, h.off, P) && h.e == Listing(pages, chain)[P]
  }

  lemma HitOnPage(pages: seq<Page>, chain: seq<nat>, k: nat, off: nat, m: nat, name: seq<Octet>, ext: Octet)
    requires ValidPages(pages) && IsDirectory(pages, chain) && k < |chain| && |name| == 4
    requires NoneBefore(pages, chain, k, name, ext)
    requires m == FirstMatch(PageEntries(pages, chain, k), name, ext) < |PageEntries(pages, chain, k)|
    requires off == Base(k == 0) + ENTRY * m && off + ENTRY < |PageBytes(pages, chain, k)|
    ensures IsFirstMatch(pages, chain, Hit(k, off, PageEntries(pages, chain, k)[m]), name, ext)
  {
    assert DirPageAt(pages, chain, k);
    FirstMatchOfConcat(Entries(pages, chain, k), PageEntries(pages, chain, k), name, ext);
    MatchOfPrefix(pages, chain, k + 1, name, ext);
    EntryInListing(pages, chain, k, m);
    OffsetOfEntry(Base(k == 0), m, off);
  }

  /** What the search may come to: nothing when no entry matches, the first entry that does, or a phantom. */
  predicate Finds(pages: seq<Page>, chain: seq<nat>, mem: Memory, name: seq<Octet>, ext: Octet, h: Hit)
    requires ValidPages(pages) && IsDirectory(pages, chain) && |name| == 4
  {
    if h.Miss? then NoneBefore(pages, chain, |chain|, name, ext)
    else
      h.k < |chain| &&
      if IsPhantom(pages, chain, h) then
        PhantomMatches(pages, chain, h.k, mem, name, ext) && NoneBefore(pages, chain, h.k + 1, name, ext)
      else IsFirstMatch(pages, chain, h, name, ext)
  }

  lemma {:induction false} SearchFinds(pages: seq<Page>, chain: seq<nat>, k: nat, mem: Memory, name: seq<Octet>,
                                       ext: Octet, h: Hit)
    requires ValidPages(pages) && IsDirectory(pages, chain) && k <= |chain| && |name| == 4
    requires NoneBefore(pages, chain, k, name, ext) && ComesTo(pages, chain, k, mem, name, ext, h)
    ensures Finds(pages, chain, mem, name, ext, h)
    decreases |chain| - k
  {
    if k < |chain| {
      SearchStep(pages, chain, k, mem, name, ext, h);
      if !Finds(pages, chain, mem, name, ext, h) {
        SearchFinds(pages, chain, k + 1, mem, name, ext, h);
      }
    }
  }

  /** The search has come to its end on page k, or no entry there matches and it goes on. */
  lemma SearchStep(pages: seq<Page>, chain: seq<nat>, k: nat, mem: Memory, name: seq<Octet>, ext: Octet, h: Hit)
    requires ValidPages(pages) && IsDirectory(pages, chain) && k < |chain| && |name| == 4
    requires NoneBefore(pages, chain, k, name, ext) && ComesTo(pages, chain, k, mem, name, ext, h)
    ensures || Finds(pages, chain, mem, name, ext, h)
            || (NoneBefore(pages, chain, k + 1, name, ext) && ComesTo(pages, chain, k + 1, mem, name, ext, h))
  {
    if !NoneOn(pages, chain, k, name, ext) {
      StepHits(pages, chain, k, mem, name, ext, h);
      HitOnPage(pages, chain, k, h.off, FirstMatch(PageEntries(pages, chain, k), name, ext), name, ext);
      FindsEntry(pages, chain, mem, name, ext, h);
    } else {
      NoneOnPage(pages, chain, k, name, ext);
      if PhantomMatches(pages, chain, k, mem, name, ext) {
        StepMisled(pages, chain, k, mem, name, ext, h);
        FindsPhantom(pages, chain, mem, name, ext, h);
      } else {
        StepGoesOn(pages, chain, k, mem, name, ext, h);
      }
    }
  }

  lemma FindsEntry(pages: seq<Page>, chain: seq<nat>, mem: Memory, name: seq<Octet>, ext: Octet, h: Hit)
    requires ValidPages(pages) && IsDirectory(pages, chain) && |name| == 4
    requires IsFirstMatch(pages, chain, h, name, ext) && h.off + ENTRY < |PageBytes(pages, chain, h.k)|
    ensures Finds(pages, chain, mem, name, ext, h)
  {
  }

  lemma FindsPhantom(pages: seq<Page>, chain: seq<nat>, mem: Memory, name: seq<Octet>, ext: Octet, h: Hit)
    requires ValidPages(pages) && IsDirectory(pages, chain) && |name| == 4
    requires IsPhantom(pages, chain, h)
    requires PhantomMatches(pages, chain, h.k, mem, name, ext) && NoneBefore(pages, chain, h.k + 1, name, ext)
    ensures Finds(pages, chain, mem, name, ext, h)
  {
  }

  /** No entry of page k matches. */
  predicate NoneOn(pages: seq<Page>, chain: seq<nat>, k: nat, name: seq<Octet>, ext: Octet)
    requires ValidPages(pages) && IsDirectory(pages, chain) && k < |chain| && |name| == 4
  {
    FirstMatch(PageEntries(pages, chain, k), name, ext) == |PageEntries(pages, chain, k)|
  }

  /** The search comes to h after page k - 1. */
  predicate ComesTo(pages: seq<Page>, chain: seq<nat>, k: nat, mem: Memory, name: seq<Octet>, ext: Octet, h: Hit)
    requires ValidPages(pages) && IsDirectory(pages, chain) && k <= |chain| && |name| == 4
  {
    h == Search(pages, chain, k, MemAfter(pages, chain, k, mem), name, ext)
  }

  /** On page k the search ends with a match, */
  lemma StepHits(pages: seq<Page>, chain: seq<nat>, k: nat, mem: Memory, name: seq<Octet>, ext: Octet, h: Hit)
    requires ValidPages(pages) && IsDirectory(pages, chain) && k < |chain| && |name| == 4
    requires !NoneOn(pages, chain, k, name, ext) && ComesTo(pages, chain, k, mem, name, ext, h)
    ensures var es := PageEntries(pages, chain, k);
            var f := FirstMatch(es, name, ext);
            var off := Base(k == 0) + ENTRY * f;
            f < |es| && off + ENTRY < |PageBytes(pages, chain, k)| && h == Hit(k, off, es[f])
  {
    var bytes, m := PageBytes(pages, chain, k), MemAfter(pages, chain, k, mem);
    ScanOfPage(bytes, m, Base(k == 0), name, ext);
    OverAt(bytes, m, Base(k == 0) + ENTRY * FirstMatch(PageEntries(pages, chain, k), name, ext));
  }

  /** or without one with the phantom, */
  lemma StepMisled(pages: seq<Page>, chain: seq<nat>, k: nat, mem: Memory, name: seq<Octet>, ext: Octet, h: Hit)
    requires ValidPages(pages) && IsDirectory(pages, chain) && k < |chain| && |name| == 4
    requires NoneOn(pages, chain, k, name, ext) && PhantomMatches(pages, chain, k, mem, name, ext)
    requires ComesTo(pages, chain, k, mem, name, ext, h)
    ensures h == PhantomHit(pages, chain, k, mem) && IsPhantom(pages, chain, h)
  {
    ScanOfPage(PageBytes(pages, chain, k), MemAfter(pages, chain, k, mem), Base(k == 0), name, ext);
    OverAtEnd(PageBytes(pages, chain, k), MemAfter(pages, chain, k, mem));
  }

  /** or it goes on. */
  lemma StepGoesOn(pages: seq<Page>, chain: seq<nat>, k: nat, mem: Memory, name: seq<Octet>, ext: Octet, h: Hit)
    requires ValidPages(pages) && IsDirectory(pages, chain) && k < |chain| && |name| == 4
    requires NoneOn(pages, chain, k, name, ext) && !PhantomMatches(pages, chain, k, mem, name, ext)
    requires ComesTo(pages, chain, k, mem, name, ext, h)
    ensures ComesTo(pages, chain, k + 1, mem, name, ext, h)
  {
    ScanOfPage(PageBytes(pages, chain, k), MemAfter(pages, chain, k, mem), Base(k == 0), name, ext);
  }

  /** The phantom of page k passes for the entry searched for. */
  predicate PhantomMatches(pages: seq<Page>, chain: seq<nat>, k: nat, mem: Memory, name: seq<Octet>, ext: Octet)
    requires ValidPages(pages) && IsDirectory(pages, chain) && k < |chain| && |name| == 4
  {
    EntryMatches(Phantom(PageBytes(pages, chain, k), MemAfter(pages, chain, k, mem)), name, ext)
  }

  function PhantomHit(pages: seq<Page>, chain: seq<nat>, k: nat, mem: Memory): Hit
    requires ValidPages(pages) && IsDirectory(pages, chain) && k < |chain|
  {
    var bytes := PageBytes(pages, chain, k);
    Hit(k, |bytes| - 1, Phantom(bytes, MemAfter(pages, chain, k, mem)))
  }

  /** A phantom that passes, behind entries that do not match, ends the search, if not another before it. */
  lemma {:induction false} PhantomStops(pages: seq<Page>, chain: seq<nat>, k: nat, j: nat, mem: Memory,
                                        name: seq<Octet>, ext: Octet, h: Hit)
    requires ValidPages(pages) && IsDirectory(pages, chain) && k <= j < |chain| && |name| == 4
    requires forall i | k <= i <= j :: NoneOn(pages, chain, i, name, ext)
    requires PhantomMatches(pages, chain, j, mem, name, ext) && ComesTo(pages, chain, k, mem, name, ext, h)
    ensures IsPhantom(pages, chain, h)
    decreases j - k
  {
    if k == j {
      StepMisled(pages, chain, k, mem, name, ext, h);
    } else {
      MisledOrOn(pages, chain, k, mem, name, ext, h);
      if !IsPhantom(pages, chain, h) {
        PhantomStops(pages, chain, k + 1, j, mem, name, ext, h);
      }
    }
  }

  lemma MisledOrOn(pages: seq<Page>, chain: seq<nat>, k: nat, mem: Memory, name: seq<Octet>, ext: Octet, h: Hit)
    requires ValidPages(pages) && IsDirectory(pages, chain) && k < |chain| && |name| == 4
    requires NoneOn(pages, chain, k, name, ext) && ComesTo(pages, chain, k, mem, name, ext, h)
    ensures IsPhantom(pages, chain, h) || ComesTo(pages, chain, k + 1, mem, name, ext, h)
  {
    if PhantomMatches(pages, chain, k, mem, name, ext) {
      StepMisled(pages, chain, k, mem, name, ext, h);
    } else {
      StepGoesOn(pages, chain, k, mem, name, ext, h);
    }
  }

  lemma {:induction false} NoneUpTo(pages: seq<Page>, chain: seq<nat>, m: nat, n: nat, name: seq<Octet>, ext: Octet)
    requires ValidPages(pages) && IsDirectory(pages, chain) && m <= n <= |chain| && |name| == 4
    requires NoneBefore(pages, chain, n, name, ext)
    ensures NoneBefore(pages, chain, m, name, ext)
    decreases n
  {
    if m < n {
      NoneOnPage(pages, chain, n - 1, name, ext);
      NoneUpTo(pages, chain, m, n - 1, name, ext);
    }
  }

  lemma NoneThere(pages: seq<Page>, chain: seq<nat>, k: nat, n: nat, name: seq<Octet>, ext: Octet)
    requires ValidPages(pages) && IsDirectory(pages, chain) && k < n <= |chain| && |name| == 4
    requires NoneBefore(pages, chain, n, name, ext)
    ensures NoneOn(pages, chain, k, name, ext)
  {
    NoneUpTo(pages, chain, k + 1, n, name, ext);
    NoneOnPage(pages, chain, k, name, ext);
  }

  /** The last of the first n pages that is longer than len. */
  function LastLonger(pages: seq<Page>, chain: seq<nat>, n: nat, len: nat): (i: int)
    requires ValidPages(pages) && IsDirectory(pages, chain) && n <= |chain|
    ensures -1 <= i < n && (i >= 0 ==> len < |PageBytes(pages, chain, i)|)
  {
    if n == 0 then -1
    else if |PageBytes(pages, chain, n - 1)| > len then n - 1
    else LastLonger(pages, chain, n - 1, len)
  }

  /** Behind a page of len bytes the buffer holds what the last longer page has left there, or what
      was there before the search. */
  lemma {:induction false} LeftBehind(pages: seq<Page>, chain: seq<nat>, n: nat, len: nat, mem: Memory, a: nat)
    requires ValidPages(pages) && IsDirectory(pages, chain) && n <= |chain| && len <= a < REACH
    ensures var i, m := LastLonger(pages, chain, n, len), MemAfter(pages, chain, n, mem);
            if i < 0 then m[a] == mem[a]
            else a < |PageBytes(pages, chain, i)| ==> m[a] == PageBytes(pages, chain, i)[a]
  {
    if n > 0 {
      LeftBehind(pages, chain, n - 1, len, mem, a);
    }
  }

  /** What a longer page has left behind a shorter one makes its phantom: an entry of the longer page
      with its first byte replaced. */
  function Leftover(bytes: seq<Octet>, longer: seq<Octet>): (e: Entry)
    requires bytes != [] && |bytes| + ENTRY <= |longer|
  {
    [Last(bytes)] + longer[|bytes|..|bytes| + ENTRY - 1]
  }

  /** The continuation byte of page k cannot be taken for an entry of this name, whatever was in
      memory before the search: it does not pass for the first character, or an earlier, longer page
      has left something else behind it. */
  predicate HarmlessAt(pages: seq<Page>, chain: seq<nat>, k: nat, name: seq<Octet>, ext: Octet)
    requires ValidPages(pages) && IsDirectory(pages, chain) && k < |chain| && |name| == 4
  {
    var bytes := PageBytes(pages, chain, k);
    var i := LastLonger(pages, chain, k, |bytes|);
    || !CharMatches(Last(bytes), name[0])
    || (i >= 0 && !EntryMatches(Leftover(bytes, PageBytes(pages, chain, i)), name, ext))
  }

  /** So for every page the search leaves without a match. */
  predicate Harmless(pages: seq<Page>, chain: seq<nat>, name: seq<Octet>, ext: Octet)
    requires ValidPages(pages) && IsDirectory(pages, chain) && |name| == 4
  {
    forall k | 0 <= k < |chain| && NoneBefore(pages, chain, k + 1, name, ext) :: HarmlessAt(pages, chain, k, name, ext)
  }

  lemma HarmlessPhantom(pages: seq<Page>, chain: seq<nat>, k: nat, mem: Memory, name: seq<Octet>, ext: Octet)
    requires ValidPages(pages) && IsDirectory(pages, chain) && k < |chain| && |name| == 4
    requires HarmlessAt(pages, chain, k, name, ext)
    ensures !PhantomMatches(pages, chain, k, mem, name, ext)
  {
    var bytes := PageBytes(pages, chain, k);
    var i, e := LastLonger(pages, chain, k, |bytes|), Phantom(bytes, MemAfter(pages, chain, k, mem));
    assert e[0] == Last(bytes);
    if i >= 0 {
      PhantomIsLeftover(pages, chain, k, mem);
    }
  }

  lemma PhantomIsLeftover(pages: seq<Page>, chain: seq<nat>, k: nat, mem: Memory)
    requires ValidPages(pages) && IsDirectory(pages, chain) && k < |chain|
    requires LastLonger(pages, chain, k, |PageBytes(pages, chain, k)|) >= 0
    ensures var bytes := PageBytes(pages, chain, k);
            var longer := PageBytes(pages, chain, LastLonger(pages, chain, k, |bytes|));
            |bytes| + ENTRY <= |longer| && Phantom(bytes, MemAfter(pages, chain, k, mem)) == Leftover(bytes, longer)
  {
    var bytes, m := PageBytes(pages, chain, k), MemAfter(pages, chain, k, mem);
    var longer := PageBytes(pages, chain, LastLonger(pages, chain, k, |bytes|));
    forall a | 0 < a < ENTRY
      ensures Phantom(bytes, m)[a] == Leftover(bytes, longer)[a]
    {
      LeftBehind(pages, chain, k, |bytes|, mem, |bytes| + a - 1);
    }
  }

  /** Memory in which the phantom of a page that is not harmless passes. */
  function Trap(len: nat, name: seq<Octet>, ext: Octet): Memory
    requires |name| == 4 && 1 <= len <= MAX_PACKET
  {
    seq(len, _ => 0) + name[1..] + [ext] + seq(REACH - len - 4, _ => 0)
  }

  lemma TrapPasses(bytes: seq<Octet>, e: Entry, mem: Memory, name: seq<Octet>, ext: Octet)
    requires 1 <= |bytes| <= MAX_PACKET && IsName(name) && ext < 128 && mem == Trap(|bytes|, name, ext)
    requires CharMatches(e[0], name[0]) && forall a | 0 < a < ENTRY :: e[a] == mem[|bytes| + a - 1]
    ensures EntryMatches(e, name, ext)
  {
    assert e[1] == name[1] && e[2] == name[2] && e[3] == name[3] && e[4] == ext;
  }

  lemma TrapWorks(pages: seq<Page>, chain: seq<nat>, k: nat, name: seq<Octet>, ext: Octet)
    requires ValidPages(pages) && IsDirectory(pages, chain) && k < |chain| && IsName(name) && ext < 128
    requires !HarmlessAt(pages, chain, k, name, ext)
    ensures PhantomMatches(pages, chain, k, Trap(|PageBytes(pages, chain, k)|, name, ext), name, ext)
  {
    var bytes := PageBytes(pages, chain, k);
    var mem := Trap(|bytes|, name, ext);
    if LastLonger(pages, chain, k, |bytes|) >= 0 {
      PhantomIsLeftover(pages, chain, k, mem);
    } else {
      var e := Phantom(bytes, MemAfter(pages, chain, k, mem));
      forall a | 0 < a < ENTRY
        ensures e[a] == mem[|bytes| + a - 1]
      {
        LeftBehind(pages, chain, k, |bytes|, mem, |bytes| + a - 1);
      }
      TrapPasses(bytes, e, mem, name, ext);
    }
  }

  /** The search reports a phantom. */
  predicate Misled(pages: seq<Page>, chain: seq<nat>, mem: Memory, name: seq<Octet>, ext: Octet)
    requires ValidPages(pages) && IsDirectory(pages, chain) && |name| == 4
  {
    IsPhantom(pages, chain, Search(pages, chain, 0, mem, name, ext))
  }

  /** The search never reports a phantom, whatever was in memory before it, exactly when every page it
      leaves without a match is harmless. */
  lemma SearchIsRight(pages: seq<Page>, chain: seq<nat>, name: seq<Octet>, ext: Octet)
    requires ValidPages(pages) && IsDirectory(pages, chain) && IsName(name) && ext < 128
    ensures (forall mem: Memory :: !Misled(pages, chain, mem, name, ext)) <==> Harmless(pages, chain, name, ext)
  {
    if Harmless(pages, chain, name, ext) {
      forall mem: Memory
        ensures !Misled(pages, chain, mem, name, ext)
      {
        HarmlessSearch(pages, chain, mem, name, ext);
      }
    } else {
      var k :| 0 <= k < |chain| && NoneBefore(pages, chain, k + 1, name, ext)
          && !HarmlessAt(pages, chain, k, name, ext);
      TrapWorks(pages, chain, k, name, ext);
      var mem := Trap(|PageBytes(pages, chain, k)|, name, ext);
      forall i | 0 <= i <= k
        ensures NoneOn(pages, chain, i, name, ext)
      {
        NoneThere(pages, chain, i, k + 1, name, ext);
      }
      PhantomStops(pages, chain, 0, k, mem, name, ext, Search(pages, chain, 0, mem, name, ext));
      assert Misled(pages, chain, mem, name, ext);
    }
  }

  /** Where all is harmless the search finds the first match, and nothing only if there is none. */
  lemma HarmlessSearch(pages: seq<Page>, chain: seq<nat>, mem: Memory, name: seq<Octet>, ext: Octet)
    requires ValidPages(pages) && IsDirectory(pages, chain) && |name| == 4 && Harmless(pages, chain, name, ext)
    ensures var h := Search(pages, chain, 0, mem, name, ext);
            && !Misled(pages, chain, mem, name, ext)
            && (h.Hit? <==> FirstMatch(Listing(pages, chain), name, ext) < |Listing(pages, chain)|)
            && (h.Hit? ==> IsFirstMatch(pages, chain, h, name, ext))
  {
    var h := Search(pages, chain, 0, mem, name, ext);
    SearchFinds(pages, chain, 0, mem, name, ext, h);
    if IsPhantom(pages, chain, h) {
      HarmlessPhantom(pages, chain, h.k, mem, name, ext);
    }
    NotMisled(pages, chain, mem, name, ext);
  }

  /** A search that reports no phantom finds the first match, and nothing only if there is none. */
  lemma NotMisled(pages: seq<Page>, chain: seq<nat>, mem: Memory, name: seq<Octet>, ext: Octet)
    requires ValidPages(pages) && IsDirectory(pages, chain) && |name| == 4 && !Misled(pages, chain, mem, name, ext)
    ensures var h := Search(pages, chain, 0, mem, name, ext);
            && (h.Hit? <==> FirstMatch(Listing(pages, chain), name, ext) < |Listing(pages, chain)|)
            && (h.Hit? ==> IsFirstMatch(pages, chain, h, name, ext))
  {
    SearchFinds(pages, chain, 0, mem, name, ext, Search(pages, chain, 0, mem, name, ext));
  }

  /** A continuation byte that does not pass for the first character is harmless. */
  lemma CleanIsHarmless(pages: seq<Page>, chain: seq<nat>, name: seq<Octet>, ext: Octet)
    requires ValidPages(pages) && IsDirectory(pages, chain) && |name| == 4
    requires forall k | 0 <= k < |chain| :: !CharMatches(Last(PageBytes(pages, chain, k)), name[0])
    ensures Harmless(pages, chain, name, ext)
  {
  }

  /** On parts of at most 32 pages every directory is harmless for every name that is a name. */
  lemma SmallPartsAreHarmless(pages: seq<Page>, chain: seq<nat>, name: seq<Octet>, ext: Octet)
    requires ValidPages(pages) && IsDirectory(pages, chain) && |name| == 4
    requires |pages| <= 0x20 && name[0] >= 0x20
    ensures Harmless(pages, chain, name, ext)
  {
    forall k | 0 <= k < |chain|
      ensures !CharMatches(Last(PageBytes(pages, chain, k)), name[0])
    {
      if k + 1 < |chain| {
        assert chain[k + 1] == Last(PageBytes(pages, chain, k));
        var next := PageBytes(pages, chain, k + 1);
      }
    }
    CleanIsHarmless(pages, chain, name, ext);
  }

  // ----- a search that goes wrong

  /** A directory of three pages: the root page, full, whose last entry is XBCD.1; page 1, shorter by
      an entry; and page 65, to which page 1 goes on. Nothing is called ABCD.1. */
  function Misleading(p: nat): Page {
    if p == 0 then
      Holding([0xAA, 0, 0, 0, 0, 2, 1, 80, 80, 80, 80, 1, 3, 1, 81, 81, 81, 81, 1, 4, 1, 0x58, 0x42, 0x43, 0x44, 1,
               5, 9, 1])
    else if p == 1 then
      Holding([82, 82, 82, 82, 1, 6, 1, 83, 83, 83, 83, 1, 7, 1, 84, 84, 84, 84, 1, 8, 1, 0x41])
    else if p == 0x41 then Holding([85, 85, 85, 85, 1, 9, 1, 0])
    else Unreadable
  }

  function MisleadingPages(): (pages: seq<Page>)
    ensures ValidPages(pages) && IsDirectory(pages, [0, 1, 0x41])
  {
    var pages := seq(0x42, p requires p >= 0 => Misleading(p));
    assert DirPageAt(pages, [0, 1, 0x41], 0) && DirPageAt(pages, [0, 1, 0x41], 1) && DirPageAt(pages, [0, 1, 0x41], 2);
    pages
  }

  const ABCD: seq<Octet> := [0x41, 0x42, 0x43, 0x44]

  lemma NoneIsABCD(k: nat)
    requires k < 3
    ensures NoneOn(MisleadingPages(), [0, 1, 0x41], k, ABCD, 1)
  {
    if k == 0 {
      NoneFrom(Misleading(0).bytes, ENTRY, ABCD, 1);
    } else if k == 1 {
      NoneFrom(Misleading(1).bytes, 0, ABCD, 1);
    } else {
      NoneFrom(Misleading(0x41).bytes, 0, ABCD, 1);
    }
  }

  lemma {:induction false} NoneFrom(bytes: seq<Octet>, i: nat, name: seq<Octet>, ext: Octet)
    requires |name| == 4 && i % ENTRY == 0
    requires forall j: nat | i <= j && j + ENTRY < |bytes| && j % ENTRY == 0 :: !CharMatches(bytes[j], name[0])
    ensures FirstMatch(EntriesFrom(bytes, i), name, ext) == |EntriesFrom(bytes, i)|
    decreases |bytes| - i
  {
    if i + ENTRY < |bytes| {
      NoneFrom(bytes, i + ENTRY, name, ext);
      MatchFromHere(bytes[i..i + ENTRY], EntriesFrom(bytes, i + ENTRY), name, ext);
      assert bytes[i..i + ENTRY][0] == bytes[i];
    }
  }

  /** The search for ABCD.1 there ends at the continuation byte of page 1, which is an A, with XBCD
      left behind it from the root page, and reports the pages of XBCD.1. */
  lemma PhantomFound(mem: Memory)
    ensures var pages, chain := MisleadingPages(), [0, 1, 0x41];
            && IsName(ABCD) && NoneBefore(pages, chain, 3, ABCD, 1)
            && Search(pages, chain, 0, mem, ABCD, 1) == Hit(1, 21, [0x41, 0x42, 0x43, 0x44, 1, 5, 9])
            && Misled(pages, chain, mem, ABCD, 1)
  {
    var pages, chain := MisleadingPages(), [0, 1, 0x41];
    NoneIsABCD(0);
    NoneIsABCD(1);
    NoneIsABCD(2);
    NoneOnPage(pages, chain, 0, ABCD, 1);
    NoneOnPage(pages, chain, 1, ABCD, 1);
    NoneOnPage(pages, chain, 2, ABCD, 1);
    PhantomOfShortPage(mem);
    var h := Search(pages, chain, 0, mem, ABCD, 1);
    StepGoesOn(pages, chain, 0, mem, ABCD, 1, h);
    StepMisled(pages, chain, 1, mem, ABCD, 1, h);
  }

  lemma PhantomOfShortPage(mem: Memory)
    ensures var pages, chain := MisleadingPages(), [0, 1, 0x41];
            && !PhantomMatches(pages, chain, 0, mem, ABCD, 1) && PhantomMatches(pages, chain, 1, mem, ABCD, 1)
            && PhantomHit(pages, chain, 1, mem) == Hit(1, 21, [0x41, 0x42, 0x43, 0x44, 1, 5, 9])
  {
    var pages, chain := MisleadingPages(), [0, 1, 0x41];
    var a, b := PageBytes(pages, chain, 0), PageBytes(pages, chain, 1);
    assert a == Misleading(0).bytes && b == Misleading(1).bytes;
    assert LastLonger(pages, chain, 1, |b|) == 0;
    PhantomIsLeftover(pages, chain, 1, mem);
    assert Leftover(b, a) == [0x41, 0x42, 0x43, 0x44, 1, 5, 9];
    assert Phantom(a, MemAfter(pages, chain, 0, mem))[0] == 1;
  }

  // ----- the search itself

  /** The comparison of one entry. */
  method CompareEntry(mem: Memory, i: nat, name: seq<Octet>, ext: Octet) returns (same: bool)
    requires |name| == 4 && i + ENTRY <= REACH
    ensures same <==> EntryMatches(mem[i..i + ENTRY], name, ext)
  {
    ghost var e := mem[i..i + ENTRY];
    var j := 0;
    while j < 4 && CharMatches(mem[i + j], name[j])
      invariant j <= 4
      invariant forall l | 0 <= l < j :: CharMatches(e[l], name[l])
    {
      j := j + 1;
    }
    if j < 4 {
      assert !CharMatches(e[j], name[j]);
      return false;
    }
    same := mem[i + 4] % 128 == ext;
  }

  /** The search loop on one page of len bytes. */
  method ScanPage(mem: Memory, len: nat, from: nat, name: seq<Octet>, ext: Octet) returns (found: bool, off: nat)
    requires |name| == 4 && len <= MAX_PACKET
    ensures found <==> ScanHit(mem, len, from, name, ext) < len
    ensures found ==> off == ScanHit(mem, len, from, name, ext)
  {
    found, off := false, from;
    while off < len
      invariant ScanHit(mem, len, off, name, ext) == ScanHit(mem, len, from, name, ext) && !found
      decreases len - off
    {
      found := CompareEntry(mem, off, name, ext);
      if found {
        return;
      }
      off := off + ENTRY;
    }
  }

  /** A start page that can be searched: if it begins like a directory, it is one. */
  predicate Searchable(pages: seq<Page>, start: nat, chain: seq<nat>)
    requires ValidPages(pages)
  {
    && (start < |pages| && pages[start].Holding? ==> |pages[start].bytes| >= 2 || pages[start].bytes[0] != 0xAA)
    && (HasHeader(pages, start) ==> IsDirectory(pages, chain) && chain[0] == start)
  }

  method InfoAt(pgbuf: Memory, off: nat, dpage: Octet, pdpage: Octet) returns (info: FileInfo)
    requires off + ENTRY <= REACH
    ensures info == InfoOf(pgbuf[off..off + ENTRY], off, dpage, pdpage)
  {
    var attrib := if pgbuf[off + 4] >= 0x80 then 1 else 0;
    var e := pgbuf[off + 4] % 128;
    if e == DIR_EXT {
      attrib := attrib * 2;
    }
    info := FileInfo(e, pgbuf[off + 5], pgbuf[off + 6], attrib, dpage, off, pdpage);
  }

  function InfoOf(e: Entry, off: nat, dpage: Octet, pdpage: Octet): FileInfo {
    FileInfo(e[4] % 128, e[5], e[6], AttribOf(e), dpage, off, pdpage)
  }

  /** What is reported about a hit. */
  predicate Tells(info: FileInfo, chain: seq<nat>, h: Hit) {
    && h.Hit? && h.k < |chain| && info.dpage as nat == chain[h.k]
    && info.pdpage as nat == chain[if h.k == 0 then 0 else h.k - 1]
    && info == InfoOf(h.e, h.off, info.dpage, info.pdpage)
  }

  /** A hit that is the first match is reported as that entry. */
  lemma TellsFirstMatch(info: FileInfo, pages: seq<Page>, chain: seq<nat>, h: Hit, name: seq<Octet>, ext: Octet)
    requires ValidPages(pages) && IsDirectory(pages, chain) && |name| == 4
    requires IsFirstMatch(pages, chain, h, name, ext) && Tells(info, chain, h)
    ensures Reports(info, pages, chain, h.k, FirstMatch(Listing(pages, chain), name, ext))
  {
  }

  /** The first page of a search is met only once, and no other page is page 0. */
  lemma StartMetOnce(pages: seq<Page>, chain: seq<nat>, k: nat)
    requires ValidPages(pages) && IsDirectory(pages, chain) && k < |chain|
    ensures chain[k] == chain[0] <==> k == 0
    ensures k + 1 < |chain| ==> chain[k + 1] != 0
  {
    DirectoryIsChain(pages, chain);
    assert DirPageAt(pages, chain, k);
    if k > 0 {
      NoPageTwice(pages, chain, 0, k);
    }
  }

  /** Before page pg is read: it is page k of the chain, and the one before it has been remembered. */
  predicate AtChainPage(chain: seq<nat>, k: nat, pg: Octet, ppage: Octet) {
    k < |chain| && pg as nat == chain[k] && ppage as nat == chain[if k == 0 then 0 else k - 1]
  }

  /** What one turn of the search comes to. */
  lemma TurnOfSearch(pages: seq<Page>, chain: seq<nat>, k: nat, mem: Memory, name: seq<Octet>, ext: Octet, pg: Octet,
                     ppage: Octet)
    requires ValidPages(pages) && IsDirectory(pages, chain) && |name| == 4 && AtChainPage(chain, k, pg, ppage)
    ensures var bytes := PageBytes(pages, chain, k);
            var m := Over(bytes, mem);
            var off := ScanHit(m, |bytes|, Base(k == 0), name, ext);
            if off < |bytes| then Tells(InfoOf(m[off..off + ENTRY], off, pg, ppage), chain,
                                        Search(pages, chain, k, mem, name, ext))
            else Search(pages, chain, k, mem, name, ext) == Search(pages, chain, k + 1, m, name, ext)
  {
  }

  /** One turn of FindDirectoryInfo: page pg is read and searched. */
  method SearchPage(medium: Medium, start: Octet, pg: Octet, ppage: Octet, mem: Memory, name: seq<Octet>, ext: Octet,
                    ghost chain: seq<nat>, ghost k: nat)
      returns (ok: bool, found: bool, info: FileInfo, next: Octet, pgbuf: Memory)
    requires medium.Valid() && |name| == 4 && Searchable(medium.pages, start, chain)
    requires if HasHeader(medium.pages, start) then AtChainPage(chain, k, pg, ppage) else pg == start
    ensures ok == HasHeader(medium.pages, start)
    ensures ok && found ==> Tells(info, chain, Search(medium.pages, chain, k, mem, name, ext))
    ensures ok && !found ==>
              && Search(medium.pages, chain, k, mem, name, ext) == Search(medium.pages, chain, k + 1, pgbuf, name, ext)
              && next as nat == (if k + 1 < |chain| then chain[k + 1] else 0) && (k + 1 < |chain| ==> next != 0)
  {
    found, info, next, pgbuf := false, FileInfo(0, 0, 0, 0, 0, 0, 0), 0, mem;
    if HasHeader(medium.pages, start) {
      StartMetOnce(medium.pages, chain, k);
      TurnOfSearch(medium.pages, chain, k, mem, name, ext, pg, ppage);
    }
    var buff;
    ok, buff := medium.ReadPage(pg);
    if !ok {
      return;
    }
    pgbuf := Over(buff, mem);
    var i := 0;
    if pg == start {
      i := 7;
      if pgbuf[0] != 0xAA || pgbuf[1] != 0 {
        return false, found, info, next, pgbuf;
      }
    }
    var off;
    found, off := ScanPage(pgbuf, |buff|, i, name, ext);
    if found {
      info := InfoAt(pgbuf, off, pg, ppage);
    } else {
      next := buff[|buff| - 1];
    }
  }

  /** FindDirectoryInfo: the entry the search comes to first, where it lies and which page comes
      before. `stale` is what is in memory beforehand. */
  method FindDirectoryInfo(medium: Medium, start: Octet, name: seq<Octet>, ext: Octet, stale: Memory,
                           ghost chain: seq<nat>)
      returns (found: bool, info: FileInfo)
    requires medium.Valid() && |name| == 4 && Searchable(medium.pages, start, chain)
    ensures found <==> HasHeader(medium.pages, start) && Search(medium.pages, chain, 0, stale, name, ext).Hit?
    ensures found ==> Tells(info, chain, Search(medium.pages, chain, 0, stale, name, ext))
  {
    var pg, ppage, next, pgbuf := start, start, start, stale;
    ghost var k := 0;
    while true
      invariant if HasHeader(medium.pages, start) then
                  && AtChainPage(chain, k, pg, ppage)
                  && Search(medium.pages, chain, k, pgbuf, name, ext)
                     == Search(medium.pages, chain, 0, stale, name, ext)
                else pg == start
      decreases |chain| - k
    {
      var ok;
      ok, found, info, next, pgbuf := SearchPage(medium, start, pg, ppage, pgbuf, name, ext, chain, k);
      if !ok {
        return false, info;
      }
      if found {
        return;
      }
      ppage := pg;
      pg := next;
      if pg == 0 {
        return;
      }
      k := k + 1;
    }
  }
}
