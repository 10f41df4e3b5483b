/** The page cache of owcache.c: a fixed arena of entries threaded into doubly linked
    hash chains, with a slot bitmap, expiry and oldest-first eviction. */
module PageCache {
  import opened Octets
  import opened Wrappers

  const DEPTH := 254
  const NOTHING := 0xFF
  const CACHE_TIMEOUT := 8000
  const ULONG := 0x1_0000_0000

  datatype Dentry = Dentry(rom: seq<Octet>, tstamp: nat, fptr: nat, bptr: nat, hptr: nat, page: Octet, data: seq<Octet>)

  /** What identifies a cached page: serial number, page number and memory section flag. */
  datatype Key = Key(rom: seq<Octet>, page: Octet, mflag: Octet)

  /** What is cached for a key: the stored length byte, the data bytes and the time stamp. */
  datatype Item = Item(lenByte: Octet, bytes: seq<Octet>, stamp: nat)

  /** The top bit of a length byte, which tells the memory section. */
  function SectionFlag(lenByte: Octet): Octet { if lenByte >= 0x80 then 0x80 else 0 }

  /** The low five bits of a length byte. */
  function DataLength(lenByte: Octet): (n: nat)
    ensures n < 32
  {
    lenByte % 32
  }

  /** Lengths the cache can hand back. */
  predicate Readable(lenByte: Octet) { DataLength(lenByte) <= 0x1D }

  function StoredLength(lenByte: Octet): nat {
    if Readable(lenByte) then DataLength(lenByte) else 0
  }

  /** The clock reading at which an entry stored at tick `now` stops being valid. */
  function Stamp(now: nat): nat { (now + CACHE_TIMEOUT) % ULONG }

  function HashFunction(rom: seq<Octet>, page: Octet): (h: nat)
    requires |rom| == 8
    ensures h < DEPTH
  {
    var a: nat, b: nat, c: nat := rom[1], rom[2], rom[7];
    Or(Or(Or(a * 0x1000, b * 0x100), c * 0x10), page) % DEPTH
  }

  predicate EntryShape(e: Dentry) { |e.rom| == 8 && |e.data| == 32 }

  function KeyOf(e: Dentry): Key
    requires EntryShape(e)
  {
    Key(e.rom, e.page, SectionFlag(e.data[0]))
  }

  function ItemOf(e: Dentry): Item
    requires EntryShape(e)
  {
    Item(e.data[0], e.data[1..1 + StoredLength(e.data[0])], e.tstamp)
  }

  function HomeOf(e: Dentry): (h: nat)
    requires EntryShape(e)
    ensures h < DEPTH
  {
    HashFunction(e.rom, e.page)
  }

  // ----- the arena on values

  type Chain = seq<nat>

  function Head(c: Chain): nat { if c == [] then NOTHING else c[0] }

  function Next(c: Chain, k: nat): nat
    requires k < |c|
  {
    if k + 1 < |c| then c[k + 1] else NOTHING
  }

  predicate Distinct(c: Chain) {
    forall i, j | 0 <= i < j < |c| :: c[i] != c[j]
  }

  /** Position k of chain c of home h is linked the way the arrays say. */
  predicate Linked(bitmap: seq<nat>, space: seq<Dentry>, c: Chain, h: nat, k: nat)
    requires |bitmap| == |space| == DEPTH && k < |c|
  {
    var p := c[k];
    p < DEPTH && bitmap[p] == h && EntryShape(space[p]) &&
    space[p].hptr == h && HomeOf(space[p]) == h &&
    space[p].fptr == Next(c, k) && (k > 0 ==> space[p].bptr == c[k - 1])
  }

  predicate ChainLinked(bitmap: seq<nat>, space: seq<Dentry>, c: Chain, h: nat)
    requires |bitmap| == |space| == DEPTH
  {
    Distinct(c) && forall k | 0 <= k < |c| :: Linked(bitmap, space, c, h, k)
  }

  predicate Shape(hash: seq<nat>, bitmap: seq<nat>, space: seq<Dentry>, chains: seq<Chain>) {
    |hash| == |bitmap| == |space| == |chains| == DEPTH
  }

  /** The arena is well formed: every chain is linked, and every slot in use is on the
      chain the bitmap names, except slot `reserved`, which is on none. */
  ghost predicate WellFormed(hash: seq<nat>, bitmap: seq<nat>, space: seq<Dentry>, chains: seq<Chain>, reserved: nat) {
    && Shape(hash, bitmap, space, chains)
    && (forall p | 0 <= p < DEPTH :: EntryShape(space[p]))
    && (forall h | 0 <= h < DEPTH :: hash[h] == Head(chains[h]) && ChainLinked(bitmap, space, chains[h], h))
    && (forall p | 0 <= p < DEPTH && p != reserved && bitmap[p] != NOTHING ::
        bitmap[p] < DEPTH && p in chains[bitmap[p]])
    && (forall h | 0 <= h < DEPTH :: reserved !in chains[h])
    && InArena(chains)
  }

  predicate InArena(chains: seq<Chain>) {
    forall h, i | 0 <= h < |chains| && 0 <= i < |chains[h]| :: chains[h][i] < DEPTH
  }

  function Without(c: Chain, k: nat): (r: Chain)
    requires k < |c|
    ensures |r| == |c| - 1
  {
    c[..k] + c[k + 1..]
  }

  /** The chains after taking slot p off position k of chain h, the order of the rest kept. */
  predicate TakenOff(chains: seq<Chain>, h: nat, k: nat, p: nat, chains': seq<Chain>) {
    h < |chains| && k < |chains[h]| && chains[h][k] == p && chains' == chains[h := Without(chains[h], k)]
  }

  predicate SamePayload(e: Dentry, f: Dentry) {
    e.(fptr := 0, bptr := 0) == f.(fptr := 0, bptr := 0)
  }

  /** The entries after unlinking position k of chain c of home h. */
  function Unlinked(space: seq<Dentry>, c: Chain, h: nat, k: nat): (r: seq<Dentry>)
    requires k < |c| && Distinct(c) && forall i | 0 <= i < |c| :: c[i] < |space|
    ensures |r| == |space|
  {
    var s := if k == 0 then space else space[c[k - 1] := space[c[k - 1]].(fptr := Next(c, k))];
    if k + 1 == |c| then s
    else s[c[k + 1] := s[c[k + 1]].(bptr := if k == 0 then h else c[k - 1])]
  }

  lemma ChainBelow(bitmap: seq<nat>, space: seq<Dentry>, c: Chain, h: nat)
    requires |bitmap| == |space| == DEPTH && ChainLinked(bitmap, space, c, h)
    ensures forall i | 0 <= i < |c| :: c[i] < DEPTH && bitmap[c[i]] == h
  {
    forall i | 0 <= i < |c| ensures c[i] < DEPTH && bitmap[c[i]] == h {
      assert Linked(bitmap, space, c, h, i);
    }
  }

  /** The chain the slot is taken from stays linked. */
  lemma UnlinkSameChain(bitmap: seq<nat>, space: seq<Dentry>, c: Chain, h: nat, k: nat, bitmap': seq<nat>,
                        space': seq<Dentry>, c': Chain)
    requires |bitmap| == |space| == DEPTH && ChainLinked(bitmap, space, c, h) && k < |c|
    requires forall i | 0 <= i < |c| :: c[i] < DEPTH
    requires bitmap' == bitmap[c[k] := NOTHING] && space' == Unlinked(space, c, h, k) && c' == Without(c, k)
    ensures ChainLinked(bitmap', space', c', h)
  {
    forall i | 0 <= i < |c'|
      ensures Linked(bitmap', space', c', h, i)
    {
      var j := if i < k then i else i + 1;
      assert c'[i] == c[j] && Linked(bitmap, space, c, h, j);
    }
  }

  /** Every other chain keeps its links. */
  lemma UnlinkOtherChain(bitmap: seq<nat>, space: seq<Dentry>, c: Chain, h: nat, k: nat, bitmap': seq<nat>,
                         space': seq<Dentry>, d: Chain, g: nat)
    requires |bitmap| == |space| == DEPTH && ChainLinked(bitmap, space, c, h) && k < |c|
    requires forall i | 0 <= i < |c| :: c[i] < DEPTH && bitmap[c[i]] == h
    requires g != h && ChainLinked(bitmap, space, d, g)
    requires bitmap' == bitmap[c[k] := NOTHING] && space' == Unlinked(space, c, h, k)
    ensures ChainLinked(bitmap', space', d, g)
  {
    forall i | 0 <= i < |d|
      ensures Linked(bitmap', space', d, g, i)
    {
      assert Linked(bitmap, space, d, g, i);
    }
  }

  /** Every slot in use after the unlinking is still on the chain the bitmap names. */
  lemma UnlinkCovers(bitmap: seq<nat>, chains: seq<Chain>, h: nat, k: nat, q: nat)
    requires |bitmap| == |chains| == DEPTH && h < DEPTH && k < |chains[h]| && q < DEPTH
    requires q != chains[h][k] && bitmap[q] < DEPTH && q in chains[bitmap[q]]
    ensures q in chains[h := Without(chains[h], k)][bitmap[q]]
  {
    var c := chains[h];
    if bitmap[q] == h {
      var j :| 0 <= j < |c| && c[j] == q;
      assert Without(c, k)[if j < k then j else j - 1] == q;
    }
  }

  lemma UnlinkKeepsWellFormed(hash: seq<nat>, bitmap: seq<nat>, space: seq<Dentry>, chains: seq<Chain>, h: nat, k: nat,
                              hash': seq<nat>, bitmap': seq<nat>, space': seq<Dentry>, chains': seq<Chain>)
    requires WellFormed(hash, bitmap, space, chains, NOTHING) && h < DEPTH && k < |chains[h]|
    requires forall i | 0 <= i < |chains[h]| :: chains[h][i] < DEPTH && bitmap[chains[h][i]] == h
    requires hash' == if k == 0 then hash[h := Next(chains[h], 0)] else hash
    requires bitmap' == bitmap[chains[h][k] := NOTHING] && space' == Unlinked(space, chains[h], h, k)
    requires chains' == chains[h := Without(chains[h], k)]
    ensures WellFormed(hash', bitmap', space', chains', NOTHING)
  {
    var c := chains[h];
    UnlinkSameChain(bitmap, space, c, h, k, bitmap', space', chains'[h]);
    forall g | 0 <= g < DEPTH
      ensures hash'[g] == Head(chains'[g]) && ChainLinked(bitmap', space', chains'[g], g) && NOTHING !in chains'[g]
              && (forall i | 0 <= i < |chains'[g]| :: chains'[g][i] < DEPTH)
    {
      assert hash[g] == Head(chains[g]);
      if g != h {
        UnlinkOtherChain(bitmap, space, c, h, k, bitmap', space', chains[g], g);
      }
      ChainBelow(bitmap', space', chains'[g], g);
    }
    forall q | 0 <= q < DEPTH && bitmap'[q] != NOTHING
      ensures bitmap'[q] < DEPTH && q in chains'[bitmap'[q]]
    {
      UnlinkCovers(bitmap, chains, h, k, q);
    }
  }

  /** Where a slot in use sits, and what its links therefore say. */
  lemma Locate(hash: seq<nat>, bitmap: seq<nat>, space: seq<Dentry>, chains: seq<Chain>, p: nat) returns (k: nat)
    requires WellFormed(hash, bitmap, space, chains, NOTHING) && p < DEPTH && bitmap[p] != NOTHING
    ensures bitmap[p] == space[p].hptr < DEPTH && k < |chains[bitmap[p]]| && chains[bitmap[p]][k] == p
    ensures var c := chains[bitmap[p]];
            Distinct(c) && (forall i | 0 <= i < |c| :: c[i] < DEPTH && bitmap[c[i]] == bitmap[p])
    ensures var c := chains[bitmap[p]];
            space[p].fptr == Next(c, k) && (k > 0 ==> space[p].bptr == c[k - 1]) && hash[bitmap[p]] == c[0]
  {
    var c := chains[bitmap[p]];
    k :| 0 <= k < |c| && c[k] == p;
    ChainBelow(bitmap, space, c, bitmap[p]);
    assert Linked(bitmap, space, c, bitmap[p], k);
    assert hash[bitmap[p]] == Head(c);
  }

  /** The entries after putting slot p at the head of chain c of home h. */
  function Pushed(space: seq<Dentry>, c: Chain, h: nat, p: nat, e: Dentry): (r: seq<Dentry>)
    requires p < |space| && forall i | 0 <= i < |c| :: c[i] < |space|
    ensures |r| == |space|
  {
    var s := if c == [] then space else space[c[0] := space[c[0]].(bptr := p)];
    s[p := e.(fptr := Head(c), hptr := h)]
  }

  lemma PushSameChain(bitmap: seq<nat>, space: seq<Dentry>, c: Chain, h: nat, p: nat, e: Dentry, space': seq<Dentry>,
                      c': Chain)
    requires |bitmap| == |space| == DEPTH && ChainLinked(bitmap, space, c, h) && p < DEPTH && p !in c
    requires forall i | 0 <= i < |c| :: c[i] < DEPTH
    requires bitmap[p] == h < DEPTH && EntryShape(e) && HomeOf(e) == h
    requires space' == Pushed(space, c, h, p, e) && c' == [p] + c
    ensures ChainLinked(bitmap, space', c', h)
  {
    forall i | 0 <= i < |c'|
      ensures Linked(bitmap, space', c', h, i)
    {
      if i > 0 {
        assert c'[i] == c[i - 1] && Linked(bitmap, space, c, h, i - 1);
      }
    }
  }

  lemma PushOtherChain(bitmap: seq<nat>, space: seq<Dentry>, c: Chain, h: nat, p: nat, e: Dentry, space': seq<Dentry>,
                       d: Chain, g: nat)
    requires |bitmap| == |space| == DEPTH && p < DEPTH && p !in d
    requires forall i | 0 <= i < |c| :: c[i] < DEPTH && bitmap[c[i]] == h
    requires g != h && ChainLinked(bitmap, space, d, g)
    requires space' == Pushed(space, c, h, p, e)
    ensures ChainLinked(bitmap, space', d, g)
  {
    forall i | 0 <= i < |d|
      ensures Linked(bitmap, space', d, g, i)
    {
      assert Linked(bitmap, space, d, g, i);
    }
  }

  lemma PushKeepsWellFormed(hash: seq<nat>, bitmap: seq<nat>, space: seq<Dentry>, chains: seq<Chain>, h: nat, p: nat,
                            e: Dentry, hash': seq<nat>, space': seq<Dentry>, chains': seq<Chain>)
    requires WellFormed(hash, bitmap, space, chains, p) && h < DEPTH && p < DEPTH && bitmap[p] == h
    requires EntryShape(e) && HomeOf(e) == h
    requires forall i | 0 <= i < |chains[h]| :: chains[h][i] < DEPTH && bitmap[chains[h][i]] == h
    requires hash' == hash[h := p] && space' == Pushed(space, chains[h], h, p, e)
    requires chains' == chains[h := [p] + chains[h]]
    ensures WellFormed(hash', bitmap, space', chains', NOTHING)
  {
    PushSameChain(bitmap, space, chains[h], h, p, e, space', chains'[h]);
    forall g | 0 <= g < DEPTH
      ensures hash'[g] == Head(chains'[g]) && ChainLinked(bitmap, space', chains'[g], g) && NOTHING !in chains'[g]
              && (forall i | 0 <= i < |chains'[g]| :: chains'[g][i] < DEPTH)
    {
      assert hash[g] == Head(chains[g]);
      if g != h {
        PushOtherChain(bitmap, space, chains[h], h, p, e, space', chains[g], g);
      }
      ChainBelow(bitmap, space', chains'[g], g);
    }
    forall q | 0 <= q < DEPTH && bitmap[q] != NOTHING
      ensures bitmap[q] < DEPTH && q in chains'[bitmap[q]]
    {
      if q == p {
        assert chains'[h][0] == p;
      } else if bitmap[q] == h {
        var j :| 0 <= j < |chains[h]| && chains[h][j] == q;
        assert chains'[h][j + 1] == q;
      }
    }
  }

  /** Changing data and time stamp of an entry, not its identity fields or links, keeps the arena. */
  lemma RefillKeepsWellFormed(hash: seq<nat>, bitmap: seq<nat>, space: seq<Dentry>, chains: seq<Chain>,
                              space': seq<Dentry>)
    requires WellFormed(hash, bitmap, space, chains, NOTHING) && |space'| == DEPTH
    requires forall q | 0 <= q < DEPTH ::
             EntryShape(space'[q]) && space'[q] == space[q].(data := space'[q].data, tstamp := space'[q].tstamp)
    ensures WellFormed(hash, bitmap, space', chains, NOTHING)
  {
    forall h | 0 <= h < DEPTH
      ensures ChainLinked(bitmap, space', chains[h], h)
    {
      forall i | 0 <= i < |chains[h]|
        ensures Linked(bitmap, space', chains[h], h, i)
      {
        assert Linked(bitmap, space, chains[h], h, i);
      }
    }
  }

  // ----- what the arena stores

  ghost predicate SamePayloads(s: seq<Dentry>, t: seq<Dentry>) {
    |s| == |t| && forall q | 0 <= q < |s| :: SamePayload(s[q], t[q])
  }

  ghost predicate Shaped(bitmap: seq<nat>, space: seq<Dentry>) {
    |bitmap| == |space| == DEPTH && forall p | 0 <= p < DEPTH :: EntryShape(space[p])
  }

  /** Slot p is in use and holds key k. */
  ghost predicate HeldAt(bitmap: seq<nat>, space: seq<Dentry>, k: Key, p: nat)
    requires Shaped(bitmap, space)
  {
    p < DEPTH && bitmap[p] != NOTHING && KeyOf(space[p]) == k
  }

  /** No key is held by two slots, and every stored length can be handed back. */
  ghost predicate Keyed(bitmap: seq<nat>, space: seq<Dentry>)
    requires Shaped(bitmap, space)
  {
    && (forall k, p: nat, q: nat :: HeldAt(bitmap, space, k, p) && HeldAt(bitmap, space, k, q) ==> p == q)
    && (forall k, p: nat :: HeldAt(bitmap, space, k, p) ==> Readable(space[p].data[0]))
  }

  /** The map the first n slots stand for. */
  ghost function ContentsUpTo(bitmap: seq<nat>, space: seq<Dentry>, n: nat): map<Key, Item>
    requires Shaped(bitmap, space) && n <= DEPTH
  {
    if n == 0 then map[]
    else
      var m := ContentsUpTo(bitmap, space, n - 1);
      if bitmap[n - 1] == NOTHING then m else m[KeyOf(space[n - 1]) := ItemOf(space[n - 1])]
  }

  /** The map an arena stands for. */
  ghost function ContentsOf(bitmap: seq<nat>, space: seq<Dentry>): map<Key, Item>
    requires Shaped(bitmap, space)
  {
    ContentsUpTo(bitmap, space, DEPTH)
  }

  /** A slot FindNew may take without evicting a valid entry: free, or expired. */
  predicate Usable(bitmap: seq<nat>, space: seq<Dentry>, now: nat, p: nat)
    requires p < |bitmap| && p < |space|
  {
    bitmap[p] == NOTHING || now > space[p].tstamp
  }

  /** Which slot FindNew takes: the spot if usable, else the first usable slot, else the
      slot with the least time stamp (the spot on a tie, then the lowest number). */
  ghost predicate Chosen(bitmap: seq<nat>, space: seq<Dentry>, spot: nat, now: nat, t: nat)
    requires |bitmap| == |space| == DEPTH && spot < DEPTH
  {
    t < DEPTH &&
    if Usable(bitmap, space, now, spot) then t == spot
    else if exists i | 0 <= i < DEPTH :: Usable(bitmap, space, now, i) then
      Usable(bitmap, space, now, t) && forall i | 0 <= i < t :: !Usable(bitmap, space, now, i)
    else Oldest(space, spot, DEPTH, t)
  }

  /** Among the spot and the slots below n, slot t has the least stamp. */
  ghost predicate Oldest(space: seq<Dentry>, spot: nat, n: nat, t: nat)
    requires spot < |space| && t < |space| && n <= |space|
  {
    && (forall i | 0 <= i < n :: space[t].tstamp <= space[i].tstamp)
    && space[t].tstamp <= space[spot].tstamp
    && (t != spot ==> t < n && space[t].tstamp < space[spot].tstamp && forall i | 0 <= i < t ::
        space[t].tstamp < space[i].tstamp)
  }

  /** A free slot is on no chain, so it can be reserved for a home. */
  lemma ReserveKeepsWellFormed(hash: seq<nat>, bitmap: seq<nat>, space: seq<Dentry>, chains: seq<Chain>, t: nat,
                               h: nat, bitmap': seq<nat>)
    requires WellFormed(hash, bitmap, space, chains, NOTHING) && t < DEPTH && bitmap[t] == NOTHING && h < DEPTH
    requires bitmap' == bitmap[t := h]
    ensures WellFormed(hash, bitmap', space, chains, t)
  {
    forall g | 0 <= g < DEPTH
      ensures ChainLinked(bitmap', space, chains[g], g) && t !in chains[g]
    {
      ChainBelow(bitmap, space, chains[g], g);
      forall i | 0 <= i < |chains[g]|
        ensures Linked(bitmap', space, chains[g], g, i)
      {
        assert Linked(bitmap, space, chains[g], g, i);
      }
    }
  }

  datatype Outcome = Hit(slot: nat) | Dropped(slot: nat) | Missed

  /** The chain walk of a lookup: it stops at the first entry that matches or, when it
      checks the time, at the first one that has expired, which it drops. */
  function Walk(space: seq<Dentry>, c: Chain, key: Key, timed: bool, now: nat): (r: Outcome)
    requires forall i | 0 <= i < |c| :: c[i] < |space| && EntryShape(space[c[i]])
    ensures !r.Missed? ==> r.slot in c
  {
    if c == [] then Missed
    else if timed && now > space[c[0]].tstamp then Dropped(c[0])
    else if KeyOf(space[c[0]]) == key then Hit(c[0])
    else Walk(space, c[1..], key, timed, now)
  }

  /** The walk a lookup of `key` takes in this arena. */
  ghost function OutcomeOf(space: seq<Dentry>, chains: seq<Chain>, key: Key, timed: bool, now: nat): Outcome
    requires |chains| == |space| == DEPTH && InArena(chains) && |key.rom| == 8
    requires forall p | 0 <= p < DEPTH :: EntryShape(space[p])
  {
    Walk(space, chains[HashFunction(key.rom, key.page)], key, timed, now)
  }

  // ----- the arena as a partial map

  /** m binds the key of every slot in use below n to its item, and nothing else. */
  ghost predicate Represents(m: map<Key, Item>, bitmap: seq<nat>, space: seq<Dentry>, n: nat)
    requires Shaped(bitmap, space) && n <= DEPTH
  {
    && (forall k, p: nat :: HeldAt(bitmap, space, k, p) && p < n ==> k in m && m[k] == ItemOf(space[p]))
    && (forall k | k in m :: exists p: nat :: HeldAt(bitmap, space, k, p) && p < n)
  }

  lemma {:induction false} ContentsRepresent(bitmap: seq<nat>, space: seq<Dentry>, n: nat)
    requires Shaped(bitmap, space) && Keyed(bitmap, space) && n <= DEPTH
    ensures Represents(ContentsUpTo(bitmap, space, n), bitmap, space, n)
  {
    if n > 0 {
      ContentsRepresent(bitmap, space, n - 1);
      if bitmap[n - 1] != NOTHING {
        assert HeldAt(bitmap, space, KeyOf(space[n - 1]), n - 1);
      }
    }
  }

  lemma RepresentedOnce(m: map<Key, Item>, n: map<Key, Item>, bitmap: seq<nat>, space: seq<Dentry>)
    requires Shaped(bitmap, space) && Represents(m, bitmap, space, DEPTH) && Represents(n, bitmap, space, DEPTH)
    ensures m == n
  {
    forall k | k in m
      ensures k in n && m[k] == n[k]
    {
      var p: nat :| HeldAt(bitmap, space, k, p);
    }
    forall k | k in n
      ensures k in m
    {
      var p: nat :| HeldAt(bitmap, space, k, p);
    }
  }

  lemma SlotIsStored(bitmap: seq<nat>, space: seq<Dentry>, p: nat, key: Key)
    requires Shaped(bitmap, space) && Keyed(bitmap, space) && HeldAt(bitmap, space, key, p)
    ensures var m := ContentsOf(bitmap, space);
            key in m && m[key] == ItemOf(space[p])
  {
    ContentsRepresent(bitmap, space, DEPTH);
  }

  lemma SlotOf(bitmap: seq<nat>, space: seq<Dentry>, key: Key) returns (p: nat)
    requires Shaped(bitmap, space) && Keyed(bitmap, space) && key in ContentsOf(bitmap, space)
    ensures HeldAt(bitmap, space, key, p)
  {
    ContentsRepresent(bitmap, space, DEPTH);
    p :| HeldAt(bitmap, space, key, p);
  }

  /** What a walk of one chain finds, provided no two of its entries share a key. */
  lemma {:induction false} WalkFinds(space: seq<Dentry>, c: Chain, key: Key, timed: bool, now: nat)
    requires forall i | 0 <= i < |c| :: c[i] < |space| && EntryShape(space[c[i]])
    ensures var w := Walk(space, c, key, timed, now);
      && (w.Hit? <==> exists i :: Reachable(space, c, key, timed, now, i))
      && (w.Hit? ==> KeyOf(space[w.slot]) == key && (timed ==> now <= space[w.slot].tstamp))
      && (w.Dropped? ==> timed && now > space[w.slot].tstamp)
      && (w.Missed? ==> forall i | 0 <= i < |c| :: KeyOf(space[c[i]]) != key)
  {
    var w := Walk(space, c, key, timed, now);
    if c == [] {
    } else if timed && now > space[c[0]].tstamp {
      assert forall i :: Reachable(space, c, key, timed, now, i) ==> Passable(space, c[0], timed, now);
    } else if KeyOf(space[c[0]]) == key {
      assert Reachable(space, c, key, timed, now, 0);
    } else {
      WalkFinds(space, c[1..], key, timed, now);
      assert forall i | 0 <= i < |c[1..]| :: c[1..][i] == c[i + 1];
      forall i | Reachable(space, c[1..], key, timed, now, i)
        ensures Reachable(space, c, key, timed, now, i + 1)
      {
        forall j | 0 <= j <= i + 1 ensures Passable(space, c[j], timed, now) {
          if j > 0 { assert c[j] == c[1..][j - 1]; }
        }
      }
      forall i | Reachable(space, c, key, timed, now, i)
        ensures Reachable(space, c[1..], key, timed, now, i - 1)
      {
        forall j | 0 <= j <= i - 1 ensures Passable(space, c[1..][j], timed, now) { assert c[1..][j] == c[j + 1]; }
      }
    }
  }

  predicate Passable(space: seq<Dentry>, p: nat, timed: bool, now: nat)
    requires p < |space|
  {
    timed ==> now <= space[p].tstamp
  }

  /** Position i holds the key and neither it nor anything before it has expired. */
  ghost predicate Reachable(space: seq<Dentry>, c: Chain, key: Key, timed: bool, now: nat, i: int)
    requires forall i | 0 <= i < |c| :: c[i] < |space| && EntryShape(space[c[i]])
  {
    && 0 <= i < |c| && KeyOf(space[c[i]]) == key
    && forall j | 0 <= j <= i :: Passable(space, c[j], timed, now)
  }

  /** Slot r now holds item under key and every other slot what it held before. */
  ghost predicate Stored(space: seq<Dentry>, space': seq<Dentry>, r: nat, key: Key, item: Item) {
    && |space| == |space'| == DEPTH && r < DEPTH && EntryShape(space'[r])
    && KeyOf(space'[r]) == key && ItemOf(space'[r]) == item
    && forall q | 0 <= q < DEPTH && q != r :: SamePayload(space[q], space'[q])
  }

  /** Chains of a keyed arena hold each key at most once, and a stored key sits on its home chain. */
  lemma StoredOnHomeChain(hash: seq<nat>, bitmap: seq<nat>, space: seq<Dentry>, chains: seq<Chain>, p: nat)
    requires WellFormed(hash, bitmap, space, chains, NOTHING) && p < DEPTH && bitmap[p] != NOTHING
    ensures p in chains[HomeOf(space[p])]
  {
    var c := chains[bitmap[p]];
    var k :| 0 <= k < |c| && c[k] == p;
    assert Linked(bitmap, space, c, bitmap[p], k);
  }

  /** A lookup without the time check hits exactly when the key is stored, and hands back its item. */
  lemma UntimedLookup(hash: seq<nat>, bitmap: seq<nat>, space: seq<Dentry>, chains: seq<Chain>, key: Key, now: nat)
    requires WellFormed(hash, bitmap, space, chains, NOTHING) && Keyed(bitmap, space) && |key.rom| == 8
    ensures var m, w := ContentsOf(bitmap, space), OutcomeOf(space, chains, key, false, now);
            if key in m then w.Hit? && HeldAt(bitmap, space, key, w.slot) && ItemOf(space[w.slot]) == m[key]
                else w.Missed?
  {
    var m, w := ContentsOf(bitmap, space), OutcomeOf(space, chains, key, false, now);
    var h := HashFunction(key.rom, key.page);
    var c := chains[h];
    ChainBelow(bitmap, space, c, h);
    WalkFinds(space, c, key, false, now);
    if key in m {
      var p := SlotOf(bitmap, space, key);
      StoredOnHomeChain(hash, bitmap, space, chains, p);
      var k :| 0 <= k < |c| && c[k] == p;
      assert w.Hit?;
      SlotIsStored(bitmap, space, w.slot, key);
    } else if w.Hit? {
      SlotIsStored(bitmap, space, w.slot, key);
    }
  }

  /** A lookup with the time check hits exactly when the key is stored and no entry up to it on
      its chain has expired. A miss that drops nothing means the key is not stored. */
  lemma TimedLookup(hash: seq<nat>, bitmap: seq<nat>, space: seq<Dentry>, chains: seq<Chain>, key: Key, now: nat)
    requires WellFormed(hash, bitmap, space, chains, NOTHING) && Keyed(bitmap, space) && |key.rom| == 8
    ensures var m, w := ContentsOf(bitmap, space), OutcomeOf(space, chains, key, true, now);
      && (w.Hit? <==> exists i :: Reachable(space, chains[HashFunction(key.rom, key.page)], key, true, now, i))
      && (w.Hit? ==>
            && key in m && HeldAt(bitmap, space, key, w.slot)
            && ItemOf(space[w.slot]) == m[key] && now <= m[key].stamp)
      && (w.Dropped? ==> bitmap[w.slot] != NOTHING && now > space[w.slot].tstamp)
      && (w.Missed? ==> key !in m)
  {
    var m, w := ContentsOf(bitmap, space), OutcomeOf(space, chains, key, true, now);
    var h := HashFunction(key.rom, key.page);
    var c := chains[h];
    ChainBelow(bitmap, space, c, h);
    WalkFinds(space, c, key, true, now);
    if w.Hit? {
      SlotIsStored(bitmap, space, w.slot, key);
    } else if w.Missed? && key in m {
      var p := SlotOf(bitmap, space, key);
      StoredOnHomeChain(hash, bitmap, space, chains, p);
    }
  }

  /** Freeing a slot takes its key out of the map and nothing else. */
  lemma FreeContents(bitmap: seq<nat>, space: seq<Dentry>, p: nat, key: Key, bitmap': seq<nat>, space': seq<Dentry>)
    requires Shaped(bitmap, space) && Keyed(bitmap, space) && HeldAt(bitmap, space, key, p)
    requires Shaped(bitmap', space') && SamePayloads(space, space') && bitmap' == bitmap[p := NOTHING]
    ensures Keyed(bitmap', space')
    ensures ContentsOf(bitmap', space') == ContentsOf(bitmap, space) - {key}
  {
    forall k, q: nat
      ensures HeldAt(bitmap', space', k, q) <==> HeldAt(bitmap, space, k, q) && q != p
      ensures HeldAt(bitmap', space', k, q) ==> ItemOf(space'[q]) == ItemOf(space[q])
    {
      assert q < DEPTH ==> SamePayload(space[q], space'[q]);
    }
    assert Keyed(bitmap', space') by {
      forall k, q: nat | HeldAt(bitmap', space', k, q) ensures Readable(space'[q].data[0]) {
        assert HeldAt(bitmap, space, k, q) && ItemOf(space'[q]) == ItemOf(space[q]);
      }
    }
    var m := ContentsOf(bitmap, space);
    ContentsRepresent(bitmap, space, DEPTH);
    ContentsRepresent(bitmap', space', DEPTH);
    assert Represents(m - {key}, bitmap', space', DEPTH);
    RepresentedOnce(ContentsOf(bitmap', space'), m - {key}, bitmap', space');
  }

  lemma HeldAfterStore(bitmap: seq<nat>, space: seq<Dentry>, r: nat, key: Key, item: Item, h: nat, bitmap': seq<nat>,
                       space': seq<Dentry>, k: Key, q: nat)
    requires Shaped(bitmap, space) && Shaped(bitmap', space')
    requires Stored(space, space', r, key, item) && h != NOTHING && bitmap' == bitmap[r := h]
    ensures HeldAt(bitmap', space', k, q) <==> if q == r then k == key else HeldAt(bitmap, space, k, q)
    ensures HeldAt(bitmap', space', k, q) ==> ItemOf(space'[q]) == if q == r then item else ItemOf(space[q])
  {
    assert q < DEPTH && q != r ==> SamePayload(space[q], space'[q]);
  }

  lemma StoreKeepsKeyed(bitmap: seq<nat>, space: seq<Dentry>, r: nat, key: Key, item: Item, h: nat, bitmap': seq<nat>,
                        space': seq<Dentry>)
    requires Shaped(bitmap, space) && Keyed(bitmap, space) && Shaped(bitmap', space')
    requires Stored(space, space', r, key, item) && h != NOTHING && bitmap' == bitmap[r := h] && Readable(item.lenByte)
    requires forall q: nat | HeldAt(bitmap, space, key, q) :: q == r
    ensures Keyed(bitmap', space')
  {
    forall k, p: nat, q: nat | HeldAt(bitmap', space', k, p) && HeldAt(bitmap', space', k, q)
      ensures p == q
    {
      HeldAfterStore(bitmap, space, r, key, item, h, bitmap', space', k, p);
      HeldAfterStore(bitmap, space, r, key, item, h, bitmap', space', k, q);
    }
    forall k, q: nat | HeldAt(bitmap', space', k, q)
      ensures Readable(space'[q].data[0])
    {
      HeldAfterStore(bitmap, space, r, key, item, h, bitmap', space', k, q);
      assert Readable(ItemOf(space'[q]).lenByte);
    }
  }

  /** What storing into slot r does to the map: the key slot r held, if another, is gone, and
      the new key is bound to the new item. */
  lemma StoreContents(bitmap: seq<nat>, space: seq<Dentry>, r: nat, key: Key, item: Item, h: nat, bitmap': seq<nat>,
                      space': seq<Dentry>)
    requires Shaped(bitmap, space) && Keyed(bitmap, space) && Shaped(bitmap', space') && Keyed(bitmap', space')
    requires Stored(space, space', r, key, item) && h != NOTHING && bitmap' == bitmap[r := h]
    requires forall q: nat | HeldAt(bitmap, space, key, q) :: q == r
    ensures var m := ContentsOf(bitmap, space);
            ContentsOf(bitmap', space') == (if bitmap[r] != NOTHING then m - {KeyOf(space[r])} else m)[key := item]
  {
    var m := ContentsOf(bitmap, space);
    var n := (if bitmap[r] != NOTHING then m - {KeyOf(space[r])} else m)[key := item];
    ContentsRepresent(bitmap, space, DEPTH);
    ContentsRepresent(bitmap', space', DEPTH);
    assert bitmap[r] != NOTHING ==> HeldAt(bitmap, space, KeyOf(space[r]), r);
    forall k, q: nat | HeldAt(bitmap', space', k, q)
      ensures k in n && n[k] == ItemOf(space'[q])
    {
      HeldAfterStore(bitmap, space, r, key, item, h, bitmap', space', k, q);
    }
    forall k | k in n
      ensures exists q: nat :: HeldAt(bitmap', space', k, q)
    {
      if k == key {
        HeldAfterStore(bitmap, space, r, key, item, h, bitmap', space', k, r);
      } else {
        var q: nat :| HeldAt(bitmap, space, k, q);
        HeldAfterStore(bitmap, space, r, key, item, h, bitmap', space', k, q);
      }
    }
    RepresentedOnce(ContentsOf(bitmap', space'), n, bitmap', space');
  }

  lemma {:induction false} FullContents(bitmap: seq<nat>, space: seq<Dentry>, n: nat)
    requires Shaped(bitmap, space) && Keyed(bitmap, space) && n <= DEPTH
    requires forall p | 0 <= p < n :: bitmap[p] != NOTHING
    ensures |ContentsUpTo(bitmap, space, n)| == n
  {
    if n > 0 {
      FullContents(bitmap, space, n - 1);
      KeyIsNew(bitmap, space, n - 1);
    }
  }

  /** The key of a slot in use is not among those of the slots below it. */
  lemma KeyIsNew(bitmap: seq<nat>, space: seq<Dentry>, n: nat)
    requires Shaped(bitmap, space) && Keyed(bitmap, space) && n < DEPTH && bitmap[n] != NOTHING
    ensures KeyOf(space[n]) !in ContentsUpTo(bitmap, space, n)
  {
    var m, k := ContentsUpTo(bitmap, space, n), KeyOf(space[n]);
    ContentsRepresent(bitmap, space, n);
    assert HeldAt(bitmap, space, k, n);
    assert Represents(m, bitmap, space, n);
  }

  /** What a caller sees of one call: an insertion or update, or a lookup and its answer. */
  datatype Event = Added(key: Key, item: Item, now: nat) | Looked(key: Key, timed: bool, now: nat, answer: Option<Item>)

  /** An insertion binds its key. It takes out at most one other key, and only when that
      entry has expired or the cache is full and no entry is older. */
  ghost predicate AddStep(m: map<Key, Item>, key: Key, item: Item, now: nat, m': map<Key, Item>) {
    var gone := m.Keys - m'.Keys;
    && m' == (m - gone)[key := item]
    && (key in m ==> gone == {})
    && forall k | k in gone :: gone == {k} && (now > m[k].stamp || (|m| == DEPTH && IsOldest(m, k)))
  }

  ghost predicate IsOldest(m: map<Key, Item>, k: Key)
    requires k in m
  {
    forall l | l in m :: m[k].stamp <= m[l].stamp
  }

  /** A lookup without the time check answers what the map holds. With it, an answer is the
      stored item and has not expired; a miss either means the key is not stored or has
      dropped one expired entry. */
  ghost predicate LookStep(m: map<Key, Item>, key: Key, timed: bool, now: nat, answer: Option<Item>,
                           m': map<Key, Item>) {
    if !timed then m' == m && answer == if key in m then Some(m[key]) else None
    else if answer.Some? then m' == m && key in m && answer.value == m[key] && now <= m[key].stamp
    else (m' == m && key !in m) || exists k | k in m :: now > m[k].stamp && m' == m - {k}
  }

  ghost predicate Step(m: map<Key, Item>, e: Event, m': map<Key, Item>) {
    match e
    case Added(key, item, now) => AddStep(m, key, item, now, m')
    case Looked(key, timed, now, answer) => LookStep(m, key, timed, now, answer, m')
  }

  /** Storing a new key in the slot FindNew chooses is an insertion step. */
  lemma NewIsAddStep(bitmap: seq<nat>, space: seq<Dentry>, spot: nat, now: nat, r: nat, key: Key, item: Item, h: nat,
                     bitmap': seq<nat>, space': seq<Dentry>)
    requires Shaped(bitmap, space) && Keyed(bitmap, space) && Shaped(bitmap', space') && spot < DEPTH
    requires Chosen(bitmap, space, spot, now, r) && key !in ContentsOf(bitmap, space) && Readable(item.lenByte)
    requires Stored(space, space', r, key, item) && h != NOTHING && bitmap' == bitmap[r := h]
    ensures Keyed(bitmap', space')
    ensures AddStep(ContentsOf(bitmap, space), key, item, now, ContentsOf(bitmap', space'))
  {
    var m := ContentsOf(bitmap, space);
    forall q: nat
      ensures !HeldAt(bitmap, space, key, q)
    {
      if HeldAt(bitmap, space, key, q) {
        SlotIsStored(bitmap, space, q, key);
      }
    }
    StoreKeepsKeyed(bitmap, space, r, key, item, h, bitmap', space');
    StoreContents(bitmap, space, r, key, item, h, bitmap', space');
    if bitmap[r] != NOTHING {
      var k := KeyOf(space[r]);
      assert HeldAt(bitmap, space, k, r);
      SlotIsStored(bitmap, space, r, k);
      assert m.Keys - ContentsOf(bitmap', space').Keys == {k};
      assert m - {k} == m - (m.Keys - ContentsOf(bitmap', space').Keys);
      if now <= space[r].tstamp {
        assert !Usable(bitmap, space, now, r);
        NothingUsable(bitmap, space, spot, now, r);
        FullContents(bitmap, space, DEPTH);
        forall l | l in m
          ensures m[k].stamp <= m[l].stamp
        {
          var q := SlotOf(bitmap, space, l);
          SlotIsStored(bitmap, space, q, l);
        }
      }
    } else {
      assert m.Keys - ContentsOf(bitmap', space').Keys == {};
    }
  }

  lemma NothingUsable(bitmap: seq<nat>, space: seq<Dentry>, spot: nat, now: nat, r: nat)
    requires |bitmap| == |space| == DEPTH && spot < DEPTH && Chosen(bitmap, space, spot, now, r)
    requires !Usable(bitmap, space, now, r)
    ensures forall p | 0 <= p < DEPTH :: bitmap[p] != NOTHING && space[r].tstamp <= space[p].tstamp
  {
    forall p | 0 <= p < DEPTH
      ensures bitmap[p] != NOTHING
    {
      assert !Usable(bitmap, space, now, p);
    }
  }

  /** A lookup's walk is a lookup step: what it finds, drops or misses, seen on the map. */
  lemma LookupIsStep(hash: seq<nat>, bitmap: seq<nat>, space: seq<Dentry>, chains: seq<Chain>, key: Key, timed: bool,
                     now: nat)
    requires WellFormed(hash, bitmap, space, chains, NOTHING) && Keyed(bitmap, space) && |key.rom| == 8
    ensures var m, w := ContentsOf(bitmap, space), OutcomeOf(space, chains, key, timed, now);
      match w
      case Hit(p) => HeldAt(bitmap, space, key, p) && Readable(space[p].data[0])
                     && LookStep(m, key, timed, now, Some(ItemOf(space[p])), m)
      case Missed => LookStep(m, key, timed, now, None, m)
      case Dropped(p) => HeldAt(bitmap, space, KeyOf(space[p]), p)
                         && LookStep(m, key, timed, now, None, m - {KeyOf(space[p])})
  {
    var m, w := ContentsOf(bitmap, space), OutcomeOf(space, chains, key, timed, now);
    if timed {
      TimedLookup(hash, bitmap, space, chains, key, now);
    } else {
      UntimedLookup(hash, bitmap, space, chains, key, now);
    }
    if !w.Missed? {
      assert HeldAt(bitmap, space, KeyOf(space[w.slot]), w.slot);
      SlotIsStored(bitmap, space, w.slot, KeyOf(space[w.slot]));
    }
  }

  /** A walk that hits stands on a slot in use that holds the key, in any well-formed arena. */
  lemma HitHolds(hash: seq<nat>, bitmap: seq<nat>, space: seq<Dentry>, chains: seq<Chain>, key: Key, timed: bool,
                 now: nat)
    requires WellFormed(hash, bitmap, space, chains, NOTHING) && |key.rom| == 8
    ensures var w := OutcomeOf(space, chains, key, timed, now);
            (w.Hit? ==> HeldAt(bitmap, space, key, w.slot)) && (w.Dropped? ==> timed)
  {
    var h := HashFunction(key.rom, key.page);
    ChainBelow(bitmap, space, chains[h], h);
    WalkFinds(space, chains[h], key, timed, now);
  }

  /** Storing under a key already held, in the slot that holds it, is an insertion step. */
  lemma UpdateIsAddStep(bitmap: seq<nat>, space: seq<Dentry>, r: nat, key: Key, item: Item, now: nat,
                        space': seq<Dentry>)
    requires Shaped(bitmap, space) && Keyed(bitmap, space) && Shaped(bitmap, space')
    requires HeldAt(bitmap, space, key, r) && Readable(item.lenByte) && Stored(space, space', r, key, item)
    ensures Keyed(bitmap, space')
    ensures key in ContentsOf(bitmap, space) && ContentsOf(bitmap, space') == ContentsOf(bitmap, space)[key := item]
    ensures AddStep(ContentsOf(bitmap, space), key, item, now, ContentsOf(bitmap, space'))
  {
    var m := ContentsOf(bitmap, space);
    SlotIsStored(bitmap, space, r, key);
    StoreKeepsKeyed(bitmap, space, r, key, item, bitmap[r], bitmap, space');
    StoreContents(bitmap, space, r, key, item, bitmap[r], bitmap, space');
    assert (m - {key})[key := item] == m[key := item];
    assert m.Keys - m[key := item].Keys == {};
    assert m - {} == m;
  }

  lemma {:induction false} EmptyContents(bitmap: seq<nat>, space: seq<Dentry>, n: nat)
    requires Shaped(bitmap, space) && n <= DEPTH && forall p | 0 <= p < DEPTH :: bitmap[p] == NOTHING
    ensures ContentsUpTo(bitmap, space, n) == map[]
  {
    if n > 0 {
      EmptyContents(bitmap, space, n - 1);
    }
  }

  /** The chains after a page has been put at the head of its chain. */
  predicate LinkedIn(chains: seq<Chain>, rom: seq<Octet>, page: Octet, r: nat, chains': seq<Chain>)
    requires |rom| == 8 && |chains| == DEPTH
  {
    var h := HashFunction(rom, page);
    chains' == chains[h := [r] + chains[h]]
  }

  /** Slot r is the first on the chain of that page. */
  predicate AtHead(chains: seq<Chain>, rom: seq<Octet>, page: Octet, r: nat)
    requires |rom| == 8 && |chains| == DEPTH
  {
    var c := chains[HashFunction(rom, page)];
    c != [] && c[0] == r
  }

  /** An update in place is met at the place where the old entry was. */
  lemma {:induction false} WalkAgain(space: seq<Dentry>, space': seq<Dentry>, c: Chain, key: Key, now: nat, later: nat,
                                     r: nat)
    requires |space'| == |space| && forall i | 0 <= i < |c| :: c[i] < |space| && EntryShape(space[c[i]])
    requires Walk(space, c, key, false, now) == Hit(r) && EntryShape(space'[r]) && KeyOf(space'[r]) == key
    requires forall i | 0 <= i < |c| && c[i] != r :: SamePayload(space[c[i]], space'[c[i]])
    ensures (forall i | 0 <= i < |c| :: EntryShape(space'[c[i]])) && Walk(space', c, key, false, later) == Hit(r)
  {
    forall i | 0 <= i < |c|
      ensures EntryShape(space'[c[i]])
    {
      assert c[i] != r ==> SamePayload(space[c[i]], space'[c[i]]);
    }
    assert SamePayload(space[c[0]], space'[c[0]]) || c[0] == r;
    if KeyOf(space[c[0]]) != key {
      WalkAgain(space, space', c[1..], key, now, later, r);
    }
  }

  class Cache {
    const space: array<Dentry>
    const hash: array<nat>
    const bitmap: array<nat>
    var spot: nat
    ghost var chains: seq<Chain>

    ghost predicate Valid()
      reads this, space, hash, bitmap
    {
      && space.Length == hash.Length == bitmap.Length == DEPTH && hash != bitmap
      && spot < DEPTH
      && WellFormed(hash[..], bitmap[..], space[..], chains, NOTHING)
    }

    ghost predicate ValidExcept(reserved: nat)
      reads this, space, hash, bitmap
    {
      && space.Length == hash.Length == bitmap.Length == DEPTH && hash != bitmap
      && spot < DEPTH
      && WellFormed(hash[..], bitmap[..], space[..], chains, reserved)
    }

    /** No key held twice, every length readable. */
    ghost predicate IsKeyed()
      requires Valid()
      reads this, space, hash, bitmap
    {
      Keyed(bitmap[..], space[..])
    }

    /** The map the cache stands for. */
    ghost function Contents(): map<Key, Item>
      requires Valid()
      reads this, space, hash, bitmap
    {
      ContentsOf(bitmap[..], space[..])
    }

    /** The arena with every slot free, as InitDHash leaves it before the first lookup. */
    constructor ()
      ensures Valid() && fresh(space) && fresh(hash) && fresh(bitmap)
      ensures IsKeyed() && Contents() == map[]
      ensures spot == 0 && chains == seq(DEPTH, _ => []) && forall p | 0 <= p < DEPTH :: bitmap[p] == NOTHING
    {
      var blank := Dentry(seq(8, _ => 0), 0, NOTHING, NOTHING, NOTHING, 0, seq(32, _ => 0));
      space := new Dentry[DEPTH](_ => blank);
      hash := new nat[DEPTH](_ => NOTHING);
      bitmap := new nat[DEPTH](_ => NOTHING);
      spot := 0;
      chains := seq(DEPTH, _ => []);
      new;
      EmptyContents(bitmap[..], space[..], DEPTH);
    }

    /** Takes slot ptr off its chain and frees it. It always answers that nothing follows. */
    method FreePage(ptr: nat) returns (next: nat)
      requires Valid() && ptr < DEPTH && bitmap[ptr] != NOTHING
      modifies space, hash, bitmap, `chains
      ensures Valid() && next == NOTHING
      ensures bitmap[..] == old(bitmap[..])[ptr := NOTHING]
      ensures SamePayloads(old(space[..]), space[..])
      ensures exists h, k :: TakenOff(old(chains), h, k, ptr, chains)
    {
      var hsptr := space[ptr].hptr;
      ghost var h := bitmap[ptr];
      ghost var k := Locate(hash[..], bitmap[..], space[..], chains, ptr);
      ghost var c := chains[h];
      if space[ptr].fptr != NOTHING {
        if hash[hsptr] == ptr {
          hash[hsptr] := space[ptr].fptr;
          space[hash[hsptr]] := space[hash[hsptr]].(bptr := hsptr);
          bitmap[ptr] := NOTHING;
        } else {
          space[space[ptr].bptr] := space[space[ptr].bptr].(fptr := space[ptr].fptr);
          space[space[ptr].fptr] := space[space[ptr].fptr].(bptr := space[ptr].bptr);
          bitmap[ptr] := NOTHING;
        }
      } else if hash[hsptr] == ptr {
        hash[hsptr] := NOTHING;
        bitmap[ptr] := NOTHING;
      } else {
        space[space[ptr].bptr] := space[space[ptr].bptr].(fptr := NOTHING);
        bitmap[ptr] := NOTHING;
      }
      assert space[..] == Unlinked(old(space[..]), c, h, k);
      assert hash[..] == if k == 0 then old(hash[..])[h := Next(c, 0)] else old(hash[..]);
      chains := chains[h := Without(c, k)];
      assert TakenOff(old(chains), h, k, ptr, chains);
      UnlinkKeepsWellFormed(old(hash[..]), old(bitmap[..]), old(space[..]), old(chains), h, k,
                            hash[..], bitmap[..], space[..], chains);
      next := NOTHING;
    }

    /** Chooses the slot of a new entry: the current spot, a scan for the first usable slot, or
        the oldest entry. A usable slot may hold an expired entry, which `live` reports. */
    method ChooseSlot(now: nat) returns (t: nat, live: bool)
      requires Valid()
      ensures Chosen(bitmap[..], space[..], spot, now, t) && live == (bitmap[t] != NOTHING)
    {
      if bitmap[spot] == NOTHING {
        return spot, false;
      }
      var otm, oldest: nat := space[spot].tstamp, spot;
      if now > space[spot].tstamp {
        return spot, true;
      }
      var i: nat := 0;
      while i < DEPTH
        invariant 0 <= i <= DEPTH
        invariant oldest < DEPTH && otm == space[oldest].tstamp && bitmap[oldest] != NOTHING
        invariant forall j | 0 <= j < i :: !Usable(bitmap[..], space[..], now, j)
        invariant Oldest(space[..], spot, i, oldest)
      {
        assert Usable(bitmap[..], space[..], now, i) == (bitmap[i] == NOTHING || now > space[i].tstamp);
        if bitmap[i] == NOTHING {
          return i, false;
        } else if now > space[i].tstamp {
          return i, true;
        } else if space[i].tstamp < otm {
          otm := space[i].tstamp;
          oldest := i;
        }
        i := i + 1;
      }
      return oldest, true;
    }

    /** Finds a slot for a new entry of home `hashnum`, evicting if it must, and reserves it. */
    method FindNew(hashnum: nat, now: nat) returns (t: nat)
      requires Valid() && hashnum < DEPTH
      modifies space, hash, bitmap, `chains, `spot
      ensures t < DEPTH && ValidExcept(t)
      ensures Chosen(old(bitmap[..]), old(space[..]), old(spot), now, t)
      ensures bitmap[..] == old(bitmap[..])[t := hashnum]
      ensures SamePayloads(old(space[..]), space[..])
      ensures old(bitmap[..])[t] == NOTHING ==> chains == old(chains)
      ensures spot == if old(spot) == DEPTH - 1 then 0 else old(spot) + 1
    {
      var live: bool;
      t, live := ChooseSlot(now);
      if live {
        var freepg := FreePage(t);
      }
      spot := if spot == DEPTH - 1 then 0 else spot + 1;
      ReserveKeepsWellFormed(hash[..], bitmap[..], space[..], chains, t, hashnum, bitmap[..][t := hashnum]);
      bitmap[t] := hashnum;
    }

    /** Walks the chain of a key to its slot, or to nothing. Checking the time frees the first
        expired entry met, after which FreePage's answer ends the walk. */
    method WalkChain(rom: seq<Octet>, page: Octet, mflag: Octet, timed: bool, now: nat) returns (ptr: nat)
      requires Valid() && |rom| == 8
      modifies space, hash, bitmap, `chains
      ensures Valid() && SamePayloads(old(space[..]), space[..])
      ensures var w := OutcomeOf(old(space[..]), old(chains), Key(rom, page, mflag), timed, now);
              && ptr == (if w.Hit? then w.slot else NOTHING)
              && bitmap[..] == (if w.Dropped? then old(bitmap[..])[w.slot := NOTHING] else old(bitmap[..]))
              && (!w.Dropped? ==> space[..] == old(space[..]) && hash[..] == old(hash[..]) && chains == old(chains))
    {
      var hs := HashFunction(rom, page);
      ptr := NOTHING;
      ghost var key, c, k := Key(rom, page, mflag), chains[hs], 0;
      ghost var w := OutcomeOf(space[..], chains, key, timed, now);
      assert hash[hs] == Head(c);
      if hash[hs] != NOTHING {
        ptr := hash[hs];
        while ptr != NOTHING
          invariant Valid() && SamePayloads(old(space[..]), space[..])
          invariant ptr != NOTHING ==> k < |c| && c[k] == ptr && w == Walk(old(space[..]), c[k..], key, timed, now)
          invariant ptr == NOTHING ==> !w.Hit?
          invariant ptr == NOTHING && w.Dropped? ==> bitmap[..] == old(bitmap[..])[w.slot := NOTHING]
          invariant ptr != NOTHING || !w.Dropped? ==>
            space[..] == old(space[..]) && hash[..] == old(hash[..]) && bitmap[..] == old(bitmap[..])
                && chains == old(chains)
          decreases if ptr == NOTHING then 0 else |c| - k + 1
        {
          assert Linked(bitmap[..], space[..], c, hs, k);
          assert c[k..][1..] == c[k + 1..];
          if timed && now > space[ptr].tstamp {
            ptr := FreePage(ptr);
            continue;
          }
          if space[ptr].page == page && mflag == SectionFlag(space[ptr].data[0]) && space[ptr].rom == rom {
            break;
          }
          ptr := space[ptr].fptr;
          k := k + 1;
        }
      }
    }

    /** Copies the data bytes of an entry out. */
    method CopyOut(e: Dentry) returns (buf: seq<Octet>)
      requires EntryShape(e) && Readable(e.data[0])
      ensures buf == ItemOf(e).bytes
    {
      buf := [];
      var i: nat := 1;
      while i <= DataLength(e.data[0])
        invariant 1 <= i <= DataLength(e.data[0]) + 1
        invariant buf == e.data[1..i]
      {
        buf := buf + [e.data[i]];
        i := i + 1;
      }
    }

    /** Looks a page up and hands back its length byte, data and slot. */
    method FindPage(rom: seq<Octet>, page: Octet, mflag: Octet, timed: bool, now: nat)
        returns (found: bool, buf: seq<Octet>, len: Octet, spaceNum: nat)
      requires Valid() && |rom| == 8
      modifies space, hash, bitmap, `chains
      ensures Valid() && SamePayloads(old(space[..]), space[..])
      ensures var w := OutcomeOf(old(space[..]), old(chains), Key(rom, page, mflag), timed, now);
              && bitmap[..] == (if w.Dropped? then old(bitmap[..])[w.slot := NOTHING] else old(bitmap[..]))
              && (!w.Dropped? ==> space[..] == old(space[..]) && hash[..] == old(hash[..]) && chains == old(chains))
              && found == (w.Hit? && Readable(old(space[..])[w.slot].data[0]))
              && (found ==> spaceNum == w.slot && len == old(space[..])[w.slot].data[0]
                            && buf == ItemOf(old(space[..])[w.slot]).bytes)
              && (!found ==> spaceNum == NOTHING)
      ensures old(IsKeyed()) ==>
                IsKeyed() && LookStep(old(Contents()), Key(rom, page, mflag), timed, now,
                                      if found then Some(ItemOf(space[spaceNum])) else None, Contents())
    {
      buf, len := [], 0;
      ghost var key := Key(rom, page, mflag);
      ghost var w := OutcomeOf(space[..], chains, key, timed, now);
      if IsKeyed() {
        LookupIsStep(hash[..], bitmap[..], space[..], chains, key, timed, now);
      }
      var ptr := WalkChain(rom, page, mflag, timed, now);
      if old(IsKeyed()) && w.Dropped? {
        FreeContents(old(bitmap[..]), old(space[..]), w.slot, KeyOf(old(space[..])[w.slot]), bitmap[..], space[..]);
      }
      if ptr != NOTHING {
        if DataLength(space[ptr].data[0]) <= 0x1D {
          len := space[ptr].data[0];
          buf := CopyOut(space[ptr]);
        } else {
          ptr := NOTHING;
        }
      }
      found := ptr != NOTHING;
      spaceNum := ptr;
    }

    /** Puts the reserved slot r at the head of its chain under the given identity. */
    method PutFirst(r: nat, hs: nat, rom: seq<Octet>, page: Octet)
      requires r < DEPTH && ValidExcept(r) && |rom| == 8 && bitmap[r] == hs == HashFunction(rom, page)
      modifies space, hash, `chains
      ensures Valid() && space[r].rom == rom && space[r].page == page
      ensures forall q | 0 <= q < DEPTH && q != r :: SamePayload(old(space[q]), space[q])
      ensures chains == old(chains)[hs := [r] + old(chains)[hs]]
    {
      ghost var c := chains[hs];
      ChainBelow(bitmap[..], space[..], c, hs);
      assert hash[hs] == Head(c);
      if hash[hs] == NOTHING {
        hash[hs] := r;
        space[r] := space[r].(fptr := NOTHING, bptr := NOTHING, hptr := hs);
      } else {
        space[r] := space[r].(fptr := hash[hs]);
        space[hash[hs]] := space[hash[hs]].(bptr := r);
        hash[hs] := r;
        space[r] := space[r].(hptr := hs);
      }
      space[r] := space[r].(page := page, rom := rom);
      ghost var e := space[r];
      assert space[..] == Pushed(old(space[..]), c, hs, r, e);
      chains := chains[hs := [r] + c];
      PushKeepsWellFormed(old(hash[..]), bitmap[..], old(space[..]), old(chains), hs, r, e, hash[..], space[..],
                          chains);
    }

    /** Takes a slot for a page not in the cache and puts it at the head of its chain. */
    method LinkNew(rom: seq<Octet>, page: Octet, now: nat) returns (r: nat)
      requires Valid() && |rom| == 8
      modifies space, hash, bitmap, `chains, `spot
      ensures Valid() && r < DEPTH && Chosen(old(bitmap[..]), old(space[..]), old(spot), now, r)
      ensures bitmap[..] == old(bitmap[..])[r := HashFunction(rom, page)]
      ensures forall q | 0 <= q < DEPTH && q != r :: SamePayload(old(space[..])[q], space[q])
      ensures space[r].rom == rom && space[r].page == page
      ensures spot == if old(spot) == DEPTH - 1 then 0 else old(spot) + 1
      ensures |old(chains)| == DEPTH && (old(bitmap[..])[r] == NOTHING ==> LinkedIn(old(chains), rom, page, r, chains))
      ensures AtHead(chains, rom, page, r)
    {
      var hs := HashFunction(rom, page);
      r := FindNew(hs, now);
      ghost var space1 := space[..];
      PutFirst(r, hs, rom, page);
      assert forall q | 0 <= q < DEPTH && q != r :: SamePayload(space1[q], space[q]);
    }

    /** Writes length byte, data and time stamp of slot r. */
    method Fill(r: nat, buf: seq<Octet>, lenByte: Octet, stampTick: nat)
      requires Valid() && r < DEPTH && |buf| >= StoredLength(lenByte)
      modifies space
      ensures Valid()
      ensures forall q | 0 <= q < DEPTH && q != r :: space[q] == old(space[q])
      ensures KeyOf(space[r]) == Key(old(space[r]).rom, old(space[r]).page, SectionFlag(lenByte))
      ensures ItemOf(space[r]) == Item(lenByte, buf[..StoredLength(lenByte)], Stamp(stampTick))
    {
      var e := space[r];
      e := e.(data := e.data[0 := lenByte]);
      var m := StoredLength(lenByte);
      for i := 0 to m
        invariant |e.data| == 32 && e.data[0] == lenByte && e.data[1..1 + i] == buf[..i]
        invariant e == space[r].(data := e.data)
      {
        ghost var before := e.data;
        e := e.(data := e.data[i + 1 := buf[i]]);
        assert e.data[1..i + 2] == before[1..i + 1] + [buf[i]];
      }
      e := e.(tstamp := Stamp(stampTick));
      space[r] := e;
      RefillKeepsWellFormed(hash[..], bitmap[..], old(space[..]), chains, space[..]);
    }

    /** What AddPage does once the lookup has answered: p is the slot found, or nothing. */
    method StorePage(rom: seq<Octet>, page: Octet, buf: seq<Octet>, lenByte: Octet, p: nat, now: nat, stampTick: nat)
        returns (r: nat)
      requires Valid() && |rom| == 8 && |buf| >= StoredLength(lenByte)
      requires p == NOTHING || (p < DEPTH && bitmap[p] != NOTHING
                                && KeyOf(space[p]) == Key(rom, page, SectionFlag(lenByte)))
      modifies space, hash, bitmap, `chains, `spot
      ensures Valid() && r < DEPTH
      ensures if p == NOTHING then Chosen(old(bitmap[..]), old(space[..]), old(spot), now, r) else r == p
      ensures bitmap[..] == if p == NOTHING then old(bitmap[..])[r := HashFunction(rom, page)] else old(bitmap[..])
      ensures Stored(old(space[..]), space[..], r, Key(rom, page, SectionFlag(lenByte)),
                     Item(lenByte, buf[..StoredLength(lenByte)], Stamp(stampTick)))
      ensures p != NOTHING ==> chains == old(chains) && spot == old(spot)
      ensures p == NOTHING ==>
                && spot == (if old(spot) == DEPTH - 1 then 0 else old(spot) + 1)
                && |old(chains)| == DEPTH && AtHead(chains, rom, page, r)
                && (old(bitmap[..])[r] == NOTHING ==> LinkedIn(old(chains), rom, page, r, chains))
    {
      r := p;
      if r == NOTHING {
        r := LinkNew(rom, page, now);
      }
      Fill(r, buf, lenByte, stampTick);
    }

    /** AddPage as it is coded: a failed lookup returns before anything is stored. */
    method AddPage(rom: seq<Octet>, page: Octet, buf: seq<Octet>, lenByte: Octet, now: nat, stampTick: nat)
        returns (r: nat)
      requires Valid() && |rom| == 8 && |buf| >= StoredLength(lenByte)
      modifies space, hash, bitmap, `chains, `spot
      ensures Valid()
      ensures var key := Key(rom, page, SectionFlag(lenByte));
              var w := OutcomeOf(old(space[..]), old(chains), key, false, now);
              if w.Hit? && Readable(old(space[..])[w.slot].data[0]) then
                && r == w.slot && bitmap[..] == old(bitmap[..])
                && Stored(old(space[..]), space[..], r, key,
                          Item(lenByte, buf[..StoredLength(lenByte)], Stamp(stampTick)))
              else
                && r == 0 && spot == old(spot) && chains == old(chains)
                && space[..] == old(space[..]) && hash[..] == old(hash[..]) && bitmap[..] == old(bitmap[..])
      ensures old(IsKeyed()) && Readable(lenByte) ==>
                var m, key := old(Contents()), Key(rom, page, SectionFlag(lenByte));
                IsKeyed() && Contents() == if key in m then
                    m[key := Item(lenByte, buf[..StoredLength(lenByte)], Stamp(stampTick))] else m
    {
      var found, cachePage, tlen, p := FindPage(rom, page, SectionFlag(lenByte), false, now);
      ghost var key, item := Key(rom, page, SectionFlag(lenByte)),
          Item(lenByte, buf[..StoredLength(lenByte)], Stamp(stampTick));
      HitHolds(old(hash[..]), old(bitmap[..]), old(space[..]), old(chains), key, false, now);
      if !found {
        return 0;
      }
      r := StorePage(rom, page, buf, lenByte, p, now, stampTick);
      if old(IsKeyed()) && Readable(lenByte) {
        UpdateIsAddStep(old(bitmap[..]), old(space[..]), r, key, item, now, space[..]);
      }
    }

    /** A lookup without the time check comes to slot r. */
    ghost predicate MetNext(key: Key, r: nat)
      requires Valid() && |key.rom| == 8
      reads this, space, hash, bitmap
    {
      forall later: nat :: OutcomeOf(space[..], chains, key, false, later) == Hit(r)
    }

    lemma MetAgain(space0: seq<Dentry>, chains0: seq<Chain>, key: Key, now: nat, r: nat)
      requires Valid() && |key.rom| == 8 && chains == chains0 && |space0| == DEPTH
      requires forall p | 0 <= p < DEPTH :: EntryShape(space0[p])
      requires OutcomeOf(space0, chains0, key, false, now) == Hit(r) && r < DEPTH && KeyOf(space[r]) == key
      requires forall q | 0 <= q < DEPTH && q != r :: SamePayload(space0[q], space[..][q])
      ensures MetNext(key, r)
    {
      forall later: nat
        ensures OutcomeOf(space[..], chains, key, false, later) == Hit(r)
      {
        WalkAgain(space0, space[..], chains[HashFunction(key.rom, key.page)], key, now, later, r);
      }
    }

    /** AddPage as its header describes it: a page not in the cache is added. */
    method AddPageAsDocumented(rom: seq<Octet>, page: Octet, buf: seq<Octet>, lenByte: Octet, now: nat, stampTick: nat)
        returns (r: nat)
      requires Valid() && |rom| == 8 && |buf| >= StoredLength(lenByte)
      modifies space, hash, bitmap, `chains, `spot
      ensures Valid()
      ensures var key := Key(rom, page, SectionFlag(lenByte));
              var w := OutcomeOf(old(space[..]), old(chains), key, false, now);
              && Stored(old(space[..]), space[..], r, key,
                        Item(lenByte, buf[..StoredLength(lenByte)], Stamp(stampTick)))
              && |old(chains)| == DEPTH
              && if w.Hit? && Readable(old(space[..])[w.slot].data[0]) then
                   r == w.slot && bitmap[..] == old(bitmap[..]) && chains == old(chains) && spot == old(spot)
                 else
                   && Chosen(old(bitmap[..]), old(space[..]), old(spot), now, r)
                   && bitmap[..] == old(bitmap[..])[r := HashFunction(rom, page)]
                   && spot == (if old(spot) == DEPTH - 1 then 0 else old(spot) + 1)
                   && (old(bitmap[..])[r] == NOTHING ==> LinkedIn(old(chains), rom, page, r, chains))
      ensures MetNext(Key(rom, page, SectionFlag(lenByte)), r)
      ensures old(IsKeyed()) && Readable(lenByte) ==>
                IsKeyed() && AddStep(old(Contents()), Key(rom, page, SectionFlag(lenByte)),
                                     Item(lenByte, buf[..StoredLength(lenByte)], Stamp(stampTick)), now, Contents())
    {
      var found, cachePage, tlen, p := FindPage(rom, page, SectionFlag(lenByte), false, now);
      ghost var key, item := Key(rom, page, SectionFlag(lenByte)),
          Item(lenByte, buf[..StoredLength(lenByte)], Stamp(stampTick));
      HitHolds(old(hash[..]), old(bitmap[..]), old(space[..]), old(chains), key, false, now);
      r := StorePage(rom, page, buf, lenByte, p, now, stampTick);
      if found {
        MetAgain(old(space[..]), old(chains), key, now, r);
      }
      if old(IsKeyed()) && Readable(lenByte) {
        if found {
          UpdateIsAddStep(old(bitmap[..]), old(space[..]), r, key, item, now, space[..]);
        } else {
          NewIsAddStep(old(bitmap[..]), old(space[..]), old(spot), now, r, key, item, HashFunction(rom, page),
                       bitmap[..], space[..]);
        }
      }
    }
  }
}
