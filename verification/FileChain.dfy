/** Files as chains of pages, from owpgrw.c: ExtWrite lays a file out over free pages, each page
    ending in the number of the next, and ExtRead follows the chain and gives the pages back. */
module FileChain {
  import opened Octets
  import opened PageBitmap

  const PAYLOAD := 28
  const MAX_PACKET := 29

  /** What the packet layer has for a page: a packet, a length byte that cannot be one, or something
      that cannot be read for another reason. */
  datatype Page = Unreadable | BadLength | Holding(bytes: seq<Octet>)

  datatype ReadError = InvalidPacketLength | BufferTooSmall | OtherError

  predicate ValidPages(pages: seq<Page>) {
    1 <= |pages| <= 255 && forall p | 0 <= p < |pages| && pages[p].Holding? :: 1 <= |pages[p].bytes| <= MAX_PACKET
  }

  /** The pages of one device, as Read_Page and Write_Page see them: packets of 1 to 29 bytes. */
  class Medium {
    var pages: seq<Page>

    ghost predicate Valid()
      reads this
    {
      ValidPages(pages)
    }

    constructor (pages: seq<Page>)
      requires ValidPages(pages)
      ensures Valid() && this.pages == pages
    {
      this.pages := pages;
    }

    method ReadPage(pg: nat) returns (ok: bool, buff: seq<Octet>)
      requires Valid()
      ensures ok <==> pg < |pages| && pages[pg].Holding?
      ensures ok ==> buff == pages[pg].bytes
    {
      ok := pg < |pages| && pages[pg].Holding?;
      buff := if ok then pages[pg].bytes else [];
    }

    /** The same, with the error that is raised if the page cannot be read. */
    method TryReadPage(pg: nat) returns (ok: bool, buff: seq<Octet>, err: ReadError)
      requires Valid()
      ensures ok <==> pg < |pages| && pages[pg].Holding?
      ensures ok ==> buff == pages[pg].bytes
      ensures !ok ==> err == ErrorAt(pages, pg)
    {
      ok, buff := ReadPage(pg);
      err := if pg < |pages| && pages[pg].BadLength? then InvalidPacketLength else OtherError;
    }

    /** An empty packet can be written but not read. */
    method WritePage(buff: seq<Octet>, pg: nat) returns (ok: bool)
      requires Valid()
      modifies this
      ensures Valid() && (ok <==> |buff| <= MAX_PACKET && pg < |old(pages)|)
      ensures pages == if ok then old(pages)[pg := if buff == [] then Unreadable else Holding(buff)] else old(pages)
    {
      ok := |buff| <= MAX_PACKET && pg < |pages|;
      if ok {
        pages := pages[pg := if buff == [] then Unreadable else Holding(buff)];
      }
    }
  }

  /** Why a page cannot be read. */
  function ErrorAt(pages: seq<Page>, pg: nat): ReadError {
    if pg < |pages| && pages[pg].BadLength? then InvalidPacketLength else OtherError
  }

  // ----- chains

  function Last(s: seq<Octet>): Octet
    requires s != []
  {
    s[|s| - 1]
  }

  /** Page k of the chain can be read and names the next page of the chain, or 0 after the last. */
  predicate LinkAt(pages: seq<Page>, chain: seq<nat>, k: nat)
    requires ValidPages(pages) && k < |chain|
  {
    && chain[k] < |pages| && pages[chain[k]].Holding?
    && Last(pages[chain[k]].bytes) == (if k + 1 < |chain| then chain[k + 1] else 0)
    && (k + 1 < |chain| ==> chain[k + 1] != 0)
  }

  predicate IsChain(pages: seq<Page>, chain: seq<nat>)
    requires ValidPages(pages)
  {
    chain != [] && forall k | 0 <= k < |chain| :: LinkAt(pages, chain, k)
  }

  predicate ReadableAt(pages: seq<Page>, p: nat) {
    p < |pages| && pages[p].Holding?
  }

  /** What a page contributes to a file: all but its continuation byte. */
  function Payload(pages: seq<Page>, p: nat): seq<Octet>
    requires ValidPages(pages)
  {
    if ReadableAt(pages, p) then pages[p].bytes[..|pages[p].bytes| - 1] else []
  }

  /** The payloads of the first n pages of a chain. */
  function Content(pages: seq<Page>, chain: seq<nat>, n: nat): (c: seq<Octet>)
    requires ValidPages(pages) && n <= |chain|
  {
    if n == 0 then [] else Content(pages, chain, n - 1) + Payload(pages, chain[n - 1])
  }

  /** The bitmap with every page of a list marked taken or free. */
  function MarkAll(u: seq<bool>, list: seq<nat>, state: bool): (v: seq<bool>)
    ensures |v| == |u|
    ensures forall p | 0 <= p < |u| :: v[p] == if p in list then state else u[p]
  {
    if list == [] then u
    else
      var v, p := MarkAll(u, list[..|list| - 1], state), list[|list| - 1];
      if p < |v| then v[p := state] else v
  }

  /** The first k pages of the chain have been marked free. */
  predicate FreedUpTo(u: seq<bool>, chain: seq<nat>, k: nat, v: seq<bool>) {
    k <= |chain| && v == MarkAll(u, chain[..k], false)
  }

  /** The page that reading comes to after the first k pages of a run. */
  function NextPage(pages: seq<Page>, start: nat, run: seq<nat>, k: nat): nat
    requires ValidPages(pages) && k <= |run|
  {
    if k == 0 then start else if ReadableAt(pages, run[k - 1]) then Last(pages[run[k - 1]].bytes) else 0
  }

  predicate RunAt(pages: seq<Page>, start: nat, run: seq<nat>, k: nat)
    requires ValidPages(pages) && k < |run|
  {
    ReadableAt(pages, run[k]) && run[k] == NextPage(pages, start, run, k) && (k > 0 ==> run[k] != 0)
  }

  /** Pages read one after the other from a start page on. */
  predicate IsRun(pages: seq<Page>, start: nat, run: seq<nat>)
    requires ValidPages(pages)
  {
    forall k | 0 <= k < |run| :: RunAt(pages, start, run, k)
  }

  /** What reading comes to behind a run: the end of the file, an error, or one page more. A length
      of -1 stands for reading without a buffer. */
  datatype Stop = AtEnd | Stopped(err: ReadError) | GoesOn

  function StopOf(pages: seq<Page>, start: nat, run: seq<nat>, maxlen: int): Stop
    requires ValidPages(pages)
  {
    var p := NextPage(pages, start, run, |run|);
    if run != [] && p == 0 then AtEnd
    else if !ReadableAt(pages, p) then Stopped(ErrorAt(pages, p))
    else if maxlen != -1 && |Content(pages, run, |run|)| + |pages[p].bytes| > maxlen then Stopped(BufferTooSmall)
    else GoesOn
  }

  /** A run that fits into the buffer and does not go on: the pages reading gets through. */
  predicate Reads(pages: seq<Page>, start: nat, run: seq<nat>, maxlen: int)
    requires ValidPages(pages)
  {
    && IsRun(pages, start, run) && !StopOf(pages, start, run, maxlen).GoesOn?
    && (maxlen == -1 || run == [] || |Content(pages, run, |run|)| < maxlen)
  }

  /** One turn of the reading loop. */
  lemma ReadStep(pages: seq<Page>, start: nat, run: seq<nat>, i: nat, u: seq<bool>, maxlen: int)
    requires ValidPages(pages) && Reads(pages, start, run, maxlen) && i < |run|
    ensures RunAt(pages, start, run, i)
    ensures Content(pages, run, i + 1) == Content(pages, run, i) + Payload(pages, run[i])
    ensures maxlen == -1 || |Content(pages, run, i)| + |pages[run[i]].bytes| <= maxlen
    ensures i + 1 < |run| ==> run[i + 1] != 0 && run[i + 1] == NextPage(pages, start, run, i + 1)
    ensures run[i] < |u| ==> FreedUpTo(u, run, i + 1, MarkAll(u, run[..i], false)[run[i] := false])
    ensures run[..|run|] == run
  {
    ContentGrows(pages, run, i + 1);
    assert run[..i + 1][..i] == run[..i];
    assert RunAt(pages, start, run, i);
    assert i + 1 < |run| ==> RunAt(pages, start, run, i + 1);
  }

  /** What the buffer holds after n pages; without a buffer, nothing. */
  function Copied(pages: seq<Page>, run: seq<nat>, n: nat, maxlen: int): seq<Octet>
    requires ValidPages(pages) && n <= |run|
  {
    if maxlen == -1 then [] else Content(pages, run, n)
  }

  /** Before page i of a run is read, or what stops the reading: what has been copied and marked. */
  predicate Reading(pages: seq<Page>, start: nat, run: seq<nat>, i: nat, maxlen: int, pg: nat, file: seq<Octet>,
                    u: seq<bool>, v: seq<bool>)
    requires ValidPages(pages)
  {
    && i <= |run| && pg == NextPage(pages, start, run, i) && file == Copied(pages, run, i, maxlen)
    && FreedUpTo(u, run, i, v)
  }

  /** One turn of ExtRead: a page is read, copied if there is a buffer for it, and marked free. */
  method ReadTurn(medium: Medium, pg: Octet, sofar: seq<Octet>, maxlen: int, bm: array<Octet>, maxP: nat,
                  ghost start: nat, ghost run: seq<nat>, ghost u: seq<bool>, ghost i: nat)
      returns (ok: bool, file: seq<Octet>, cont: Octet, err: ReadError)
    requires medium.Valid() && maxP + 1 == |medium.pages| && maxP < 8 * bm.Length
    requires Reads(medium.pages, start, run, maxlen)
    requires Reading(medium.pages, start, run, i, maxlen, pg, sofar, u, Taken(bm[..]))
    requires i == |run| ==> StopOf(medium.pages, start, run, maxlen).Stopped?
    modifies bm
    ensures ok <==> i < |run|
    ensures ok ==>
              && Reading(medium.pages, start, run, i + 1, maxlen, cont, file, u, Taken(bm[..]))
              && (i + 1 < |run| ==> cont != 0)
    ensures !ok ==>
              && file == sofar && Taken(bm[..]) == old(Taken(bm[..]))
              && StopOf(medium.pages, start, run, maxlen) == Stopped(err)
  {
    file, cont := sofar, 0;
    if i < |run| {
      ReadStep(medium.pages, start, run, i, u, maxlen);
    }
    var pgbuf;
    ok, pgbuf, err := medium.TryReadPage(pg);
    if !ok {
      return;
    }
    if maxlen != -1 {
      if |file| + |pgbuf| > maxlen {
        return false, file, cont, BufferTooSmall;
      }
      file := file + pgbuf[..|pgbuf| - 1];
    }
    cont := pgbuf[|pgbuf| - 1];
    ok := BitMapChange(bm, maxP, pg, 0);
  }

  /** ExtRead on read-write memory, for a start page from which reading stops. It succeeds exactly
      when it gets to the end of the file; every page it has read is free in the bitmap then, and
      also when it fails. */
  method ExtRead(medium: Medium, startPage: Octet, maxlen: int, bm: array<Octet>, maxP: nat, ghost run: seq<nat>)
      returns (ok: bool, file: seq<Octet>, flLen: nat, err: ReadError)
    requires medium.Valid() && maxP + 1 == |medium.pages| && maxP < 8 * bm.Length
    requires Reads(medium.pages, startPage, run, maxlen)
    modifies bm
    ensures StopOf(medium.pages, startPage, run, maxlen) == if ok then AtEnd else Stopped(err)
    ensures file == Copied(medium.pages, run, |run|, maxlen) && flLen == if ok then |file| else 0
    ensures Taken(bm[..]) == MarkAll(Taken(old(bm[..])), run, false)
  {
    file, flLen := [], 0;
    var pg, cont := startPage, 0;
    ghost var i, u := 0, Taken(bm[..]);
    assert run[..|run|] == run;
    while true
      invariant Reading(medium.pages, startPage, run, i, maxlen, pg, file, u, Taken(bm[..])) && flLen == 0
      invariant i == |run| ==> StopOf(medium.pages, startPage, run, maxlen).Stopped?
      decreases |run| - i
    {
      ok, file, cont, err := ReadTurn(medium, pg, file, maxlen, bm, maxP, startPage, run, u, i);
      if !ok {
        return;
      }
      i := i + 1;
      if cont == 0 {
        flLen := |file|;
        return;
      }
      pg := cont;
    }
  }

  // ----- where reading stops

  lemma {:induction false} RunsAgree(pages: seq<Page>, start: nat, a: seq<nat>, b: seq<nat>, k: nat)
    requires ValidPages(pages) && IsRun(pages, start, a) && IsRun(pages, start, b) && k < |a| && k < |b|
    ensures a[k] == b[k]
  {
    assert RunAt(pages, start, a, k) && RunAt(pages, start, b, k);
    if k > 0 {
      RunsAgree(pages, start, a, b, k - 1);
    }
  }

  lemma ChainIsRun(pages: seq<Page>, chain: seq<nat>, maxlen: int)
    requires ValidPages(pages) && IsChain(pages, chain)
    ensures IsRun(pages, chain[0], chain) && StopOf(pages, chain[0], chain, maxlen) == AtEnd
  {
    forall k | 0 <= k < |chain|
      ensures RunAt(pages, chain[0], chain, k)
    {
      assert LinkAt(pages, chain, k) && (k > 0 ==> LinkAt(pages, chain, k - 1));
    }
    assert LinkAt(pages, chain, |chain| - 1);
  }

  /** No run is longer than one from which reading does not go on. */
  lemma NoneIsLonger(pages: seq<Page>, start: nat, run: seq<nat>, other: seq<nat>)
    requires ValidPages(pages) && IsRun(pages, start, run) && IsRun(pages, start, other)
    requires !StopOf(pages, start, run, -1).GoesOn?
    ensures other <= run
  {
    forall k | 0 <= k < |run| && k < |other|
      ensures run[k] == other[k]
    {
      RunsAgree(pages, start, run, other, k);
    }
    assert |other| > |run| ==> !RunAt(pages, start, other, |run|);
  }

  /** A file whose pages end is read to its end exactly when there is no buffer to fill, or room in it
      for the file and one byte more. */
  lemma ReadToTheEnd(pages: seq<Page>, chain: seq<nat>, run: seq<nat>, maxlen: int)
    requires ValidPages(pages) && IsChain(pages, chain) && Reads(pages, chain[0], run, maxlen)
    ensures run <= chain
    ensures StopOf(pages, chain[0], run, maxlen).AtEnd? <==> maxlen == -1 || |Content(pages, chain, |chain|)| < maxlen
    ensures StopOf(pages, chain[0], run, maxlen).AtEnd? <==> run == chain
  {
    ChainIsRun(pages, chain, maxlen);
    ChainIsRun(pages, chain, -1);
    NoneIsLonger(pages, chain[0], chain, run);
    SameContent(pages, run, chain, |run|);
    ContentGrows(pages, chain, |run|);
    if |run| < |chain| {
      StopsInside(pages, chain, run, maxlen);
    } else {
      assert run == chain;
    }
  }

  lemma StopsInside(pages: seq<Page>, chain: seq<nat>, run: seq<nat>, maxlen: int)
    requires ValidPages(pages) && IsChain(pages, chain) && Reads(pages, chain[0], run, maxlen)
    requires run <= chain && run != chain && IsRun(pages, chain[0], chain)
    requires Content(pages, run, |run|) == Content(pages, chain, |run|)
    ensures maxlen != -1 && |Content(pages, chain, |chain|)| >= maxlen
            && StopOf(pages, chain[0], run, maxlen) == Stopped(BufferTooSmall)
  {
    assert RunAt(pages, chain[0], chain, |run|) && LinkAt(pages, chain, |run|);
    assert NextPage(pages, chain[0], run, |run|) == NextPage(pages, chain[0], chain, |run|);
    ContentGrows(pages, chain, |run| + 1);
  }

  lemma {:induction false} SameContent(pages: seq<Page>, a: seq<nat>, b: seq<nat>, n: nat)
    requires ValidPages(pages) && n <= |a| && n <= |b| && a[..n] == b[..n]
    ensures Content(pages, a, n) == Content(pages, b, n)
  {
    if n > 0 {
      assert a[n - 1] == a[..n][n - 1] && b[n - 1] == b[..n][n - 1];
      assert a[..n - 1] == a[..n][..n - 1] && b[..n - 1] == b[..n][..n - 1];
      SameContent(pages, a, b, n - 1);
    }
  }

  /** Without a buffer, reading stops somewhere, or it goes on for any number of pages. */
  lemma {:induction false} StopsOrGoesOn(pages: seq<Page>, start: nat, n: nat) returns (run: seq<nat>)
    requires ValidPages(pages)
    ensures Reads(pages, start, run, -1) || (IsRun(pages, start, run) && |run| == n)
  {
    run := [];
    if n > 0 {
      run := StopsOrGoesOn(pages, start, n - 1);
      if StopOf(pages, start, run, -1).GoesOn? {
        var more := run + [NextPage(pages, start, run, |run|)];
        forall k | 0 <= k < |more|
          ensures RunAt(pages, start, more, k)
        {
          if k < |run| {
            assert RunAt(pages, start, run, k);
          }
        }
        run := more;
      }
    }
  }

  /** What has been read of a file is a prefix of it. */
  lemma {:induction false} ContentGrows(pages: seq<Page>, chain: seq<nat>, n: nat)
    requires ValidPages(pages) && n <= |chain|
    ensures Content(pages, chain, n) <= Content(pages, chain, |chain|)
    decreases |chain| - n
  {
    if n < |chain| {
      ContentGrows(pages, chain, n + 1);
    }
  }

  // ----- laying a file out

  /** Pages a file of n bytes needs. */
  function PagesFor(n: nat): (pgs: nat)
    ensures n > 0 ==> pgs > 0 && PAYLOAD * (pgs - 1) < n <= PAYLOAD * pgs
  {
    n / PAYLOAD + (if n % PAYLOAD != 0 || n == 0 then 1 else 0)
  }

  /** The part of a file that goes to its page k. */
  function Chunk(file: seq<Octet>, k: nat): (c: seq<Octet>)
    requires PAYLOAD * k < |file|
    ensures 0 < |c| <= PAYLOAD
  {
    file[PAYLOAD * k..if PAYLOAD * (k + 1) <= |file| then PAYLOAD * (k + 1) else |file|]
  }

  /** The free pages once the start page is taken. */
  function Rest(u: seq<bool>, strt: nat, maxP: nat): seq<nat>
    requires strt <= maxP < |u|
  {
    FreePages(u[strt := true], 0, maxP)
  }

  /** What ExtWrite needs: the root page taken, a start page on the part, some page free at all, and
      enough of them. */
  predicate CanWrite(u: seq<bool>, strt: nat, maxP: nat, pgs: nat)
    requires maxP < |u|
  {
    u[0] && FreePages(u, 0, maxP) != [] && strt <= maxP && |Rest(u, strt, maxP)| >= pgs - 1
  }

  /** The continuation ExtWrite puts into page k of the file: for the first page the page that was
      the first free one beforehand, for the others the second free one at the time. */
  function Continuation(u: seq<bool>, strt: nat, maxP: nat, pgs: nat, k: nat): nat
    requires strt <= maxP < |u|
  {
    var rest := Rest(u, strt, maxP);
    if k + 1 == pgs then 0 else if k == 0 then First(FreePages(u, 0, maxP)) else if k < |rest| then rest[k] else 0
  }

  /** Page p holds chunk k of the file and the given continuation. */
  predicate PageIs(pages: seq<Page>, p: nat, file: seq<Octet>, k: nat, cont: nat) {
    && p < |pages| && PAYLOAD * k < |file| && cont < 256
    && pages[p] == Holding(Chunk(file, k) + [cont])
  }

  /** The first n pages of the layout have been written and no other page has changed. */
  predicate LaidOut(pages0: seq<Page>, pages: seq<Page>, file: seq<Octet>, u: seq<bool>, strt: nat, maxP: nat,
                    laid: seq<nat>)
    requires strt <= maxP < |u|
  {
    && |pages| == |pages0|
    && (forall k | 0 <= k < |laid| :: PageIs(pages, laid[k], file, k, Continuation(u, strt, maxP, PagesFor(|file|), k)))
    && (forall p | 0 <= p < |pages| && p !in laid :: pages[p] == pages0[p])
  }

  method CopyChunk(file: seq<Octet>, i: nat) returns (wrStr: seq<Octet>)
    requires PAYLOAD * i < |file|
    ensures wrStr == Chunk(file, i)
  {
    var len := |file| - i * PAYLOAD;
    if len > PAYLOAD {
      len := PAYLOAD;
    }
    wrStr := [];
    for j := 0 to len
      invariant wrStr == file[i * PAYLOAD..i * PAYLOAD + j]
    {
      wrStr := wrStr + [file[i * PAYLOAD + j]];
    }
  }

  /** One turn of ExtWrite: chunk i goes to page avail with its continuation, the page is marked
      taken, and the next two free pages are looked up. */
  method WriteTurn(medium: Medium, file: seq<Octet>, i: nat, pgs: nat, page: Octet, cont: Octet, bm: array<Octet>,
                   maxP: nat)
      returns (ok: bool, avail: Octet, next: Octet)
    requires medium.Valid() && maxP + 1 == |medium.pages| && maxP < 8 * bm.Length
    requires i < pgs == PagesFor(|file|) && file != []
    modifies medium, bm
    ensures medium.Valid() && |medium.pages| == |old(medium.pages)|
    ensures page > maxP ==> !ok && medium.pages == old(medium.pages) && Taken(bm[..]) == Taken(old(bm[..]))
    ensures page <= maxP ==>
              && medium.pages == old(medium.pages)[page as nat := Holding(Chunk(file, i) + [if i + 1 == pgs then 0
                 else cont])]
              && Taken(bm[..]) == Taken(old(bm[..]))[page as nat := true]
              && avail == First(FreePages(Taken(bm[..]), 0, maxP)) && next == Second(FreePages(Taken(bm[..]), 0, maxP))
              && (ok <==> avail != 0 || i + 1 == pgs)
  {
    avail, next := 0, 0;
    var wrStr := CopyChunk(file, i);
    wrStr := wrStr + [if i + 1 == pgs then 0 else cont];
    ok := medium.WritePage(wrStr, page);
    if !ok {
      return;
    }
    ok := BitMapChange(bm, maxP, page, 1);
    avail, next := FindEmpties(bm, maxP);
    if avail == 0 && pgs - 1 != i {
      return false, avail, next;
    }
  }

  /** The first n pages of the layout, as far as there are free pages. */
  function Laid(u: seq<bool>, strt: nat, maxP: nat, n: nat): (l: seq<nat>)
    requires strt <= maxP < |u| && n <= |Rest(u, strt, maxP)| + 1
    ensures |l| == n
  {
    ([strt] + Rest(u, strt, maxP))[..n]
  }

  /** Between two turns: n pages are laid out and taken, the free pages are what is left, and the
      next page and its continuation are the first two of them. */
  predicate Between(pages0: seq<Page>, pages: seq<Page>, file: seq<Octet>, u: seq<bool>, v: seq<bool>, strt: nat,
                    maxP: nat, n: nat)
    requires strt <= maxP < |u|
  {
    var rest := Rest(u, strt, maxP);
    && 1 <= n <= |rest| + 1 && n <= PagesFor(|file|)
    && LaidOut(pages0, pages, file, u, strt, maxP, Laid(u, strt, maxP, n))
    && v == MarkAll(u, Laid(u, strt, maxP, n), true) && FreePages(v, 0, maxP) == rest[n - 1..]
  }

  lemma FirstPageLaid(pages0: seq<Page>, pages: seq<Page>, file: seq<Octet>, u: seq<bool>, strt: nat, maxP: nat,
                      cont: Octet)
    requires ValidPages(pages0) && |pages0| == maxP + 1 && strt <= maxP < |u| && file != []
    requires cont as nat == Continuation(u, strt, maxP, PagesFor(|file|), 0)
    requires pages == pages0[strt := Holding(Chunk(file, 0) + [cont])]
    ensures Between(pages0, pages, file, u, u[strt := true], strt, maxP, 1)
  {
    var laid := Laid(u, strt, maxP, 1);
    assert laid == [strt];
    assert MarkAll(u, laid, true) == u[strt := true];
  }

  /** Pages laid out are not free any more. */
  lemma NextIsNew(u: seq<bool>, v: seq<bool>, laid: seq<nat>, maxP: nat)
    requires maxP < |u| && v == MarkAll(u, laid, true) && FreePages(v, 0, maxP) != []
    ensures var p := FreePages(v, 0, maxP)[0]; p <= maxP && p !in laid && v[p := true] == MarkAll(u, laid + [p], true)
  {
    var p := FreePages(v, 0, maxP)[0];
    FreePagesAreTheFree(v, 0, maxP, p);
    assert (laid + [p])[..|laid|] == laid;
  }

  /** Writing the next chunk to a page not yet laid out extends the layout. */
  lemma LayOnto(pages0: seq<Page>, pages: seq<Page>, file: seq<Octet>, u: seq<bool>, strt: nat, maxP: nat,
                laid: seq<nat>, p: nat, cont: Octet)
    requires strt <= maxP < |u| && LaidOut(pages0, pages, file, u, strt, maxP, laid)
    requires p < |pages| && p !in laid && PAYLOAD * |laid| < |file|
    requires cont as nat == Continuation(u, strt, maxP, PagesFor(|file|), |laid|)
    ensures LaidOut(pages0, pages[p := Holding(Chunk(file, |laid|) + [cont])], file, u, strt, maxP, laid + [p])
  {
    var after, more := pages[p := Holding(Chunk(file, |laid|) + [cont])], laid + [p];
    forall k | 0 <= k < |more|
      ensures PageIs(after, more[k], file, k, Continuation(u, strt, maxP, PagesFor(|file|), k))
    {
      if k < |laid| {
        assert more[k] == laid[k] != p;
        assert PageIs(pages, laid[k], file, k, Continuation(u, strt, maxP, PagesFor(|file|), k));
      }
    }
    forall q | 0 <= q < |after| && q !in more
      ensures after[q] == pages0[q]
    {
      assert forall k | 0 <= k < |laid| :: more[k] == laid[k];
    }
  }

  lemma NextPageLaid(pages0: seq<Page>, pages: seq<Page>, file: seq<Octet>, u: seq<bool>, v: seq<bool>, strt: nat,
                     maxP: nat, n: nat, cont: Octet)
    requires ValidPages(pages0) && |pages0| == maxP + 1 && strt <= maxP < |u| && file != []
    requires Between(pages0, pages, file, u, v, strt, maxP, n) && n < PagesFor(|file|)
    requires var free := FreePages(v, 0, maxP);
             free != [] && cont as nat == (if n + 1 == PagesFor(|file|) then 0 else Second(free))
    ensures var p := FreePages(v, 0, maxP)[0];
            p <= maxP && Between(pages0, pages[p := Holding(Chunk(file, n) + [cont])], file, u, v[p := true], strt,
                                 maxP, n + 1)
  {
    var rest, laid := Rest(u, strt, maxP), Laid(u, strt, maxP, n);
    var p := FreePages(v, 0, maxP)[0];
    NextIsNew(u, v, laid, maxP);
    ClaimFirst(v, maxP);
    assert p == rest[n - 1] && Laid(u, strt, maxP, n + 1) == laid + [p];
    assert rest[n - 1..][1..] == rest[n..];
    LayOnto(pages0, pages, file, u, strt, maxP, laid, p, cont);
  }

  /** The search for a free page says 0 when there is none, or when the root page itself is free. */
  lemma RootTaken(u: seq<bool>, maxP: nat)
    requires maxP < |u|
    ensures First(FreePages(u, 0, maxP)) != 0 <==> u[0] && FreePages(u, 0, maxP) != []
  {
    FreePagesIncrease(u, 1, maxP);
    FreeStep(u, 0, maxP);
  }

  /** Pages that others use are as they were. */
  predicate OthersKept(pages0: seq<Page>, pages: seq<Page>, u: seq<bool>, strt: nat) {
    |pages| == |pages0| && forall p | 0 <= p < |pages| && p < |u| && u[p] && p != strt :: pages[p] == pages0[p]
  }

  lemma LaidKeepsOthers(pages0: seq<Page>, pages: seq<Page>, file: seq<Octet>, u: seq<bool>, v: seq<bool>, strt: nat,
                        maxP: nat, n: nat)
    requires strt <= maxP < |u| && Between(pages0, pages, file, u, v, strt, maxP, n)
    ensures OthersKept(pages0, pages, u, strt)
  {
    var rest, laid := Rest(u, strt, maxP), Laid(u, strt, maxP, n);
    forall p | 0 <= p < |pages| && p < |u| && u[p] && p != strt
      ensures p !in laid
    {
      FreePagesAreTheFree(u[strt := true], 0, maxP, p);
      assert forall k | 1 <= k < n :: laid[k] == rest[k - 1] && rest[k - 1] in rest;
    }
  }

  /** Before turn n: what has been laid out, and the page and continuation for the next turn. */
  predicate Ready(pages0: seq<Page>, pages: seq<Page>, file: seq<Octet>, u: seq<bool>, v: seq<bool>, strt: nat,
                  maxP: nat, n: nat, avail: nat, next: nat)
    requires maxP < |u| == |v|
  {
    if n == 0 then
      pages == pages0 && v == u && avail == strt && next == First(FreePages(u, 0, maxP))
    else
      && strt <= maxP && Between(pages0, pages, file, u, v, strt, maxP, n)
      && (n < PagesFor(|file|) ==> var free := FreePages(v, 0, maxP);
          free != [] && avail == free[0] && next == Second(free))
  }

  /** What a turn writes brings the layout one page further. */
  lemma TurnLays(pages0: seq<Page>, pages: seq<Page>, file: seq<Octet>, u: seq<bool>, v: seq<bool>, strt: nat,
                 maxP: nat, n: nat, page: nat, next: Octet, cont: Octet)
    requires ValidPages(pages0) && |pages0| == maxP + 1 && maxP < |u| == |v| && file != [] && n < PagesFor(|file|)
    requires Ready(pages0, pages, file, u, v, strt, maxP, n, page, next)
             && cont == if n + 1 == PagesFor(|file|) then 0 else next
    ensures n > 0 ==> page <= maxP
    ensures page <= maxP ==>
              && strt <= maxP && page < |pages|
              && Between(pages0, pages[page := Holding(Chunk(file, n) + [cont])], file, u, v[page := true], strt,
                         maxP, n + 1)
  {
    if n == 0 {
      if page <= maxP {
        FirstPageLaid(pages0, pages[page := Holding(Chunk(file, 0) + [cont])], file, u, strt, maxP, cont);
      }
    } else {
      NextPageLaid(pages0, pages, file, u, v, strt, maxP, n, cont);
    }
  }

  /** After a turn, the first two free pages are there to go on with, or the file is complete, or
      there were too few. */
  lemma TurnDecides(pages0: seq<Page>, pages: seq<Page>, file: seq<Octet>, u: seq<bool>, v: seq<bool>, strt: nat,
                    maxP: nat, n: nat, avail: nat)
    requires strt <= maxP < |u| == |v| && 0 < n <= PagesFor(|file|) && Between(pages0, pages, file, u, v, strt, maxP, n)
    requires u[0] && avail == First(FreePages(v, 0, maxP))
    ensures avail != 0 <==> FreePages(v, 0, maxP) != []
    ensures avail == 0 && n < PagesFor(|file|) ==> !CanWrite(u, strt, maxP, PagesFor(|file|))
  {
    RootTaken(v, maxP);
  }

  /** One turn of the layout. */
  method LayTurn(medium: Medium, file: seq<Octet>, i: nat, pgs: nat, page: Octet, cont: Octet, bm: array<Octet>,
                 maxP: nat, ghost pages0: seq<Page>, ghost u: seq<bool>, ghost strt: nat)
      returns (ok: bool, avail: Octet, next: Octet)
    requires medium.Valid() && maxP + 1 == |medium.pages| == |pages0| && maxP <= 254 && maxP < 8 * bm.Length
             && ValidPages(pages0)
    requires i < pgs == PagesFor(|file|) && file != [] && |u| == 8 * bm.Length && u[0]
    requires Ready(pages0, medium.pages, file, u, Taken(bm[..]), strt, maxP, i, page, cont)
    modifies medium, bm
    ensures medium.Valid() && |medium.pages| == |pages0|
    ensures ok ==> Ready(pages0, medium.pages, file, u, Taken(bm[..]), strt, maxP, i + 1, avail, next)
    ensures !ok ==> !CanWrite(u, strt, maxP, pgs) && OthersKept(pages0, medium.pages, u, strt)
  {
    TurnLays(pages0, medium.pages, file, u, Taken(bm[..]), strt, maxP, i, page, cont, if i + 1 == pgs then 0 else cont);
    ok, avail, next := WriteTurn(medium, file, i, pgs, page, cont, bm, maxP);
    if page <= maxP {
      TurnDecides(pages0, medium.pages, file, u, Taken(bm[..]), strt, maxP, i + 1, avail);
      LaidKeepsOthers(pages0, medium.pages, file, u, Taken(bm[..]), strt, maxP, i + 1);
    }
  }

  /** ExtWrite on read-write memory. It succeeds exactly when the root page is taken, some page is
      free and the start page and the free pages suffice; then the file is laid out over them and
      just they are newly taken. Whatever happens, a page in use by others keeps what it holds. */
  method ExtWrite(medium: Medium, strtPage: Octet, file: seq<Octet>, bm: array<Octet>, maxP: nat) returns (ok: bool)
    requires medium.Valid() && maxP + 1 == |medium.pages| && maxP <= 254 && maxP < 8 * bm.Length
    modifies medium, bm
    ensures medium.Valid() && OthersKept(old(medium.pages), medium.pages, Taken(old(bm[..])), strtPage)
    ensures file == [] ==>
              && medium.pages == old(medium.pages) && (ok <==> strtPage <= maxP)
              && Taken(bm[..]) == if ok then Taken(old(bm[..]))[strtPage as nat := true] else Taken(old(bm[..]))
    ensures file != [] ==> (ok <==> CanWrite(Taken(old(bm[..])), strtPage, maxP, PagesFor(|file|)))
    ensures file != [] && ok ==>
              Between(old(medium.pages), medium.pages, file, Taken(old(bm[..])), Taken(bm[..]), strtPage, maxP,
                      PagesFor(|file|))
  {
    if |file| == 0 {
      ok := BitMapChange(bm, maxP, strtPage, 1);
      return;
    }
    var pgs := |file| / PAYLOAD;
    if |file| % PAYLOAD != 0 || |file| == 0 {
      pgs := pgs + 1;
    }
    ghost var pages0, u := medium.pages, Taken(bm[..]);
    RootTaken(u, maxP);
    var avail, next := FindEmpties(bm, maxP);
    if avail == 0 {
      return false;
    }
    next := avail;
    avail := strtPage;
    ok := true;
    for i := 0 to pgs
      invariant medium.Valid() && |medium.pages| == |pages0| && ok
      invariant Ready(pages0, medium.pages, file, u, Taken(bm[..]), strtPage, maxP, i, avail, next)
    {
      ok, avail, next := LayTurn(medium, file, i, pgs, avail, next, bm, maxP, pages0, u, strtPage);
      if !ok {
        return;
      }
    }
    LaidKeepsOthers(pages0, medium.pages, file, u, Taken(bm[..]), strtPage, maxP, pgs);
  }

  // ----- reading back what was written

  /** Some chain from the start page ends, and its payloads make up the file. */
  ghost predicate ReadsBackAs(pages: seq<Page>, strt: nat, file: seq<Octet>)
    requires ValidPages(pages)
  {
    exists chain :: IsFileAt(pages, chain, strt, file)
  }

  predicate IsFileAt(pages: seq<Page>, chain: seq<nat>, strt: nat, file: seq<Octet>)
    requires ValidPages(pages)
  {
    IsChain(pages, chain) && chain[0] == strt && Content(pages, chain, |chain|) == file
  }

  /** A start page that is not the first free one leaves the first free page first in line. */
  lemma FirstOfRest(u: seq<bool>, strt: nat, maxP: nat)
    requires strt <= maxP < |u| && FreePages(u, 0, maxP) != []
    ensures First(FreePages(u, 0, maxP)) != strt ==>
            Rest(u, strt, maxP) != [] && Rest(u, strt, maxP)[0] == First(FreePages(u, 0, maxP))
  {
    TakingRemoves(u, 0, maxP, strt);
  }

  /** Every page of the layout names the next, if the start page was not the first free one. */
  lemma LayoutIsChain(pages0: seq<Page>, pages: seq<Page>, file: seq<Octet>, u: seq<bool>, v: seq<bool>, strt: nat,
                      maxP: nat, chain: seq<nat>)
    requires ValidPages(pages) && strt <= maxP < |u| && file != [] && u[0] && FreePages(u, 0, maxP) != []
    requires Between(pages0, pages, file, u, v, strt, maxP, PagesFor(|file|))
             && chain == Laid(u, strt, maxP, PagesFor(|file|))
    requires PagesFor(|file|) == 1 || First(FreePages(u, 0, maxP)) != strt
    ensures IsChain(pages, chain)
  {
    var pgs, rest := PagesFor(|file|), Rest(u, strt, maxP);
    FirstOfRest(u, strt, maxP);
    forall k | 0 <= k < |chain|
      ensures LinkAt(pages, chain, k)
    {
      var c := Continuation(u, strt, maxP, pgs, k);
      assert PageIs(pages, chain[k], file, k, c);
      assert Last(Chunk(file, k) + [c]) == c;
      if k + 1 < pgs {
        assert chain[k + 1] == rest[k] && rest[k] in rest;
        FreePagesAreTheFree(u[strt := true], 0, maxP, rest[k]);
      }
    }
  }

  function Upto(file: seq<Octet>, n: nat): seq<Octet> { file[..if PAYLOAD * n <= |file| then PAYLOAD * n else |file|] }

  lemma ChunkJoins(file: seq<Octet>, n: nat)
    requires PAYLOAD * n < |file|
    ensures Upto(file, n) + Chunk(file, n) == Upto(file, n + 1)
  {
  }

  lemma PayloadIsChunk(pages: seq<Page>, p: nat, file: seq<Octet>, k: nat, cont: nat)
    requires ValidPages(pages) && PageIs(pages, p, file, k, cont)
    ensures Payload(pages, p) == Chunk(file, k)
  {
    var c := Chunk(file, k);
    assert (c + [cont])[..|c|] == c;
  }

  lemma {:induction false} LayoutContent(pages0: seq<Page>, pages: seq<Page>, file: seq<Octet>, u: seq<bool>,
                                         v: seq<bool>, strt: nat, maxP: nat, chain: seq<nat>, n: nat)
    requires ValidPages(pages) && strt <= maxP < |u| && file != []
    requires Between(pages0, pages, file, u, v, strt, maxP, PagesFor(|file|))
             && chain == Laid(u, strt, maxP, PagesFor(|file|))
    requires IsChain(pages, chain) && n <= |chain|
    ensures Content(pages, chain, n) == Upto(file, n)
    decreases n
  {
    if n > 0 {
      LayoutContent(pages0, pages, file, u, v, strt, maxP, chain, n - 1);
      PayloadIsChunk(pages, chain[n - 1], file, n - 1, Continuation(u, strt, maxP, PagesFor(|file|), n - 1));
      ChunkJoins(file, n - 1);
    }
  }

  /** A page that names itself is on no chain that ends. */
  lemma {:induction false} SelfLinkNeverEnds(pages: seq<Page>, p: nat, chain: seq<nat>, k: nat)
    requires ValidPages(pages) && p != 0 && p < |pages| && pages[p].Holding? && Last(pages[p].bytes) == p
    requires IsChain(pages, chain) && k < |chain| && chain[k] == p
    ensures false
    decreases |chain| - k
  {
    assert LinkAt(pages, chain, k);
    if k + 1 < |chain| {
      SelfLinkNeverEnds(pages, p, chain, k + 1);
    }
  }

  /** What ExtWrite has written reads back as the file exactly when the file takes one page or its
      start page was not the first free page; otherwise the first page names itself and the file
      has no end. */
  lemma FileReadsBack(pages0: seq<Page>, pages: seq<Page>, file: seq<Octet>, u: seq<bool>, v: seq<bool>, strt: nat,
                      maxP: nat)
    requires ValidPages(pages) && strt <= maxP < |u| && file != [] && CanWrite(u, strt, maxP, PagesFor(|file|))
    requires Between(pages0, pages, file, u, v, strt, maxP, PagesFor(|file|))
    ensures ReadsBackAs(pages, strt, file) <==> PagesFor(|file|) == 1 || First(FreePages(u, 0, maxP)) != strt
  {
    var pgs, chain := PagesFor(|file|), Laid(u, strt, maxP, PagesFor(|file|));
    if pgs == 1 || First(FreePages(u, 0, maxP)) != strt {
      LayoutIsChain(pages0, pages, file, u, v, strt, maxP, chain);
      LayoutContent(pages0, pages, file, u, v, strt, maxP, chain, pgs);
      assert IsFileAt(pages, chain, strt, file);
    } else {
      var c := Continuation(u, strt, maxP, pgs, 0);
      assert PageIs(pages, chain[0], file, 0, c) && Last(Chunk(file, 0) + [c]) == c;
      RootTaken(u, maxP);
      forall other | IsFileAt(pages, other, strt, file)
        ensures false
      {
        SelfLinkNeverEnds(pages, strt, other, 0);
      }
    }
  }

  /** Writing a file and then reading it with deletion gives back every page it took, and the start
      page with them. */
  lemma ReadingGivesBack(u: seq<bool>, strt: nat, maxP: nat, pgs: nat)
    requires strt <= maxP < |u| && pgs <= |Rest(u, strt, maxP)| + 1 && pgs >= 1
    ensures MarkAll(MarkAll(u, Laid(u, strt, maxP, pgs), true), Laid(u, strt, maxP, pgs), false) == u[strt := false]
  {
    var rest, laid := Rest(u, strt, maxP), Laid(u, strt, maxP, pgs);
    forall p: nat | p < |u| && p in laid && p != strt
      ensures !u[p]
    {
      var k :| 0 <= k < |laid| && laid[k] == p;
      assert p == rest[k - 1];
      FreePagesAreTheFree(u[strt := true], 0, maxP, p);
    }
    assert laid[0] == strt;
  }
}
