/** The page cache over whole runs: what its callers may rely on, seen only through the
    calls they made and the answers they got. */
module PageCacheRuns {
  import opened Octets
  import opened PageCache
  import opened Wrappers

  /** A run: one state more than events, starting empty, each event a step. */
  ghost predicate IsRun(states: seq<map<Key, Item>>, events: seq<Event>) {
    && |states| == |events| + 1 && states[0] == map[]
    && forall i | 0 <= i < |events| :: Step(states[i], events[i], states[i + 1])
  }

  /** The item of the latest insertion for a key, read off the history of calls. */
  function LastAdded(events: seq<Event>, key: Key): Option<Item> {
    if events == [] then None
    else
      var e := events[|events| - 1];
      if e.Added? && e.key == key then Some(e.item) else LastAdded(events[..|events| - 1], key)
  }

  lemma {:induction false} LastAddedSnoc(events: seq<Event>, e: Event, key: Key)
    ensures LastAdded(events + [e], key) == if e.Added? && e.key == key then Some(e.item) else LastAdded(events, key)
  {
    assert (events + [e])[..|events|] == events;
  }

  /** At every point of a run, whatever the cache holds for a key is its latest insertion. */
  lemma {:induction false} HoldsLatest(states: seq<map<Key, Item>>, events: seq<Event>, i: nat, key: Key)
    requires IsRun(states, events) && i <= |events| && key in states[i]
    ensures LastAdded(events[..i], key) == Some(states[i][key])
  {
    if i > 0 {
      var e := events[i - 1];
      assert events[..i] == events[..i - 1] + [e];
      LastAddedSnoc(events[..i - 1], e, key);
      assert Step(states[i - 1], e, states[i]);
      if !(e.Added? && e.key == key) {
        HoldsLatest(states, events, i - 1, key);
      }
    }
  }

  /** Over every run, a hit hands back the item of the latest insertion for its key, and a hit
      that checked the time comes at most CACHE_TIMEOUT ticks after that insertion was stamped. */
  lemma HitsAreLatest(states: seq<map<Key, Item>>, events: seq<Event>, i: nat, key: Key, timed: bool, now: nat,
                      item: Item)
    requires IsRun(states, events) && i < |events| && events[i] == Looked(key, timed, now, Some(item))
    ensures LastAdded(events[..i], key) == Some(item)
    ensures timed ==> forall tick: nat | item.stamp == Stamp(tick) :: now <= tick + 8000
  {
    assert Step(states[i], events[i], states[i + 1]);
    HoldsLatest(states, events, i, key);
  }

  /** A key stays stored until something takes it out: between an insertion and an untimed miss
      there is a step after which the key is gone, and it went because it had expired or the
      cache was full and its entry was among the oldest. */
  lemma {:induction false} MissHasCause(states: seq<map<Key, Item>>, events: seq<Event>, i: nat, j: nat, key: Key)
      returns (k: nat)
    requires IsRun(states, events) && i < j < |events|
    requires events[i].Added? && events[i].key == key && key !in states[j]
    ensures i < k < j && key in states[k] && key !in states[k + 1]
    ensures events[k].now > states[k][key].stamp
         || (events[k].Added? && |states[k]| == 254 && IsOldest(states[k], key))
  {
    assert Step(states[i], events[i], states[i + 1]);
    k := i + 1;
    while key in states[k + 1]
      invariant i < k < j && key in states[k]
      decreases j - k
    {
      k := k + 1;
    }
    assert Step(states[k], events[k], states[k + 1]);
  }

  // ----- the guard as it is coded

  /** What AddPage does to the map as it is coded: only keys already stored are updated. */
  function CodedAdd(m: map<Key, Item>, key: Key, item: Item): map<Key, Item> {
    if key in m then m[key := item] else m
  }

  ghost predicate CodedStep(m: map<Key, Item>, e: Event, m': map<Key, Item>) {
    match e
    case Added(key, item, now) => m' == CodedAdd(m, key, item)
    case Looked(key, timed, now, answer) => LookStep(m, key, timed, now, answer, m')
  }

  /** As coded, AddPage does what its header says exactly when the key is already stored. */
  lemma CodedAddMeetsHeader(m: map<Key, Item>, key: Key, item: Item, now: nat)
    ensures AddStep(m, key, item, now, CodedAdd(m, key, item)) <==> key in m
  {
    if key in m {
      assert m.Keys - m[key := item].Keys == {};
      assert m - {} == m;
    }
  }

  /** From the empty cache, no run of the coded operations ever stores anything, so every
      lookup misses. */
  lemma {:induction false} CodedCacheStaysEmpty(states: seq<map<Key, Item>>, events: seq<Event>, i: nat)
    requires |states| == |events| + 1 && states[0] == map[] && i < |states|
    requires forall k | 0 <= k < |events| :: CodedStep(states[k], events[k], states[k + 1])
    ensures states[i] == map[]
    ensures i < |events| && events[i].Looked? ==> events[i].answer == None
  {
    if i > 0 {
      CodedCacheStaysEmpty(states, events, i - 1);
      assert CodedStep(states[i - 1], events[i - 1], states[i]);
    }
    assert i < |events| ==> CodedStep(states[i], events[i], states[i + 1]);
  }

  // ----- calls on a cache

  datatype CacheCall =
    | Add(rom: seq<Octet>, page: Octet, buf: seq<Octet>, lenByte: Octet, now: nat, stampTick: nat)
    | Look(rom: seq<Octet>, page: Octet, mflag: Octet, timed: bool, now: nat)

  predicate ValidCall(c: CacheCall) {
    |c.rom| == 8 && (c.Add? ==> |c.buf| >= StoredLength(c.lenByte) && Readable(c.lenByte))
  }

  /** The event a call makes: what was inserted, or what was looked up and some answer. */
  predicate Makes(c: CacheCall, e: Event)
    requires ValidCall(c)
  {
    match c
    case Add(rom, page, buf, lenByte, now, stampTick) =>
      e == Added(Key(rom, page, SectionFlag(lenByte)), Item(lenByte, buf[..StoredLength(lenByte)], Stamp(stampTick)),
                 now)
    case Look(rom, page, mflag, timed, now) =>
      e.Looked? && e.key == Key(rom, page, mflag) && e.timed == timed && e.now == now
  }

  /** What a call hands back: nothing for an insertion, and for a lookup the length byte and the data. */
  datatype Answer = Done | NotFound | Found(lenByte: Octet, data: seq<Octet>)

  predicate Tells(e: Event, a: Answer) {
    match e
    case Added(_, _, _) => a == Done
    case Looked(_, _, _, answer) =>
      a == if answer.Some? then Found(answer.value.lenByte, answer.value.bytes) else NotFound
  }

  method Perform(cache: Cache, c: CacheCall) returns (a: Answer, ghost e: Event)
    requires cache.Valid() && cache.IsKeyed() && ValidCall(c)
    modifies cache, cache.space, cache.hash, cache.bitmap
    ensures cache.Valid() && cache.IsKeyed() && Makes(c, e) && Step(old(cache.Contents()), e, cache.Contents())
    ensures Tells(e, a)
  {
    match c
    case Add(rom, page, buf, lenByte, now, stampTick) =>
      var r := cache.AddPageAsDocumented(rom, page, buf, lenByte, now, stampTick);
      a := Done;
      e := Added(Key(rom, page, SectionFlag(lenByte)), Item(lenByte, buf[..StoredLength(lenByte)], Stamp(stampTick)),
                 now);
    case Look(rom, page, mflag, timed, now) =>
      var found, buf, len, slot := cache.FindPage(rom, page, mflag, timed, now);
      a := if found then Found(len, buf) else NotFound;
      e := Looked(Key(rom, page, mflag), timed, now, if found then Some(ItemOf(cache.space[slot])) else None);
  }

  /** Any list of calls on a new cache is a run. */
  method Execute(calls: seq<CacheCall>)
      returns (cache: Cache, answers: seq<Answer>, ghost states: seq<map<Key, Item>>, ghost events: seq<Event>)
    requires forall i | 0 <= i < |calls| :: ValidCall(calls[i])
    ensures |answers| == |events| && forall i | 0 <= i < |events| :: Tells(events[i], answers[i])
    ensures cache.Valid() && cache.IsKeyed() && IsRun(states, events) && |events| == |calls|
    ensures cache.Contents() == states[|calls|] && forall i | 0 <= i < |calls| :: Makes(calls[i], events[i])
  {
    cache := new Cache();
    answers, states, events := [], [cache.Contents()], [];
    for i := 0 to |calls|
      invariant cache.Valid() && cache.IsKeyed() && fresh(cache) && fresh(cache.space) && fresh(cache.hash)
                && fresh(cache.bitmap)
      invariant IsRun(states, events) && |events| == i && cache.Contents() == states[i]
      invariant |answers| == i && forall j | 0 <= j < i :: Makes(calls[j], events[j]) && Tells(events[j], answers[j])
    {
      var a;
      ghost var e;
      a, e := Perform(cache, calls[i]);
      RunGrows(states, events, e, cache.Contents());
      answers := answers + [a];
      states, events := states + [cache.Contents()], events + [e];
    }
  }

  lemma RunGrows(states: seq<map<Key, Item>>, events: seq<Event>, e: Event, m: map<Key, Item>)
    requires IsRun(states, events) && Step(states[|events|], e, m)
    ensures IsRun(states + [m], events + [e])
  {
    var more, all := states + [m], events + [e];
    forall i | 0 <= i < |all|
      ensures Step(more[i], all[i], more[i + 1])
    {
      assert more[i] == states[i];
      assert i < |events| ==> all[i] == events[i] && more[i + 1] == states[i + 1];
    }
  }

  // ----- the lookup that gives up early

  /** A serial number whose pages 0 and 254 have the same home. */
  const ROM: seq<Octet> := [0, 0, 0, 0, 0, 0, 0, 0]

  lemma SameHome()
    ensures HashFunction(ROM, 0) == 0 && HashFunction(ROM, 254) == 0
  {
    assert Or(0, 0) == 0;
    assert Or(0, 3) == 3;
    assert Or(0, 15) == 15;
    assert Or(0, 63) == 63;
    assert Or(0, 127) == 127;
    assert Or(0, 254) == 254;
  }

  /** Page 0 is in front of page 254 on their chain, which it shares with no other. */
  ghost predicate InFront(space: seq<Dentry>, chains: seq<Chain>) {
    && |space| == |chains| == DEPTH && chains[0] == [1, 0] && EntryShape(space[0]) && EntryShape(space[1])
    && KeyOf(space[0]) == Key(ROM, 254, 0) && KeyOf(space[1]) == Key(ROM, 0, 0)
  }

  lemma WalkPast(space: seq<Dentry>, chains: seq<Chain>, key: Key, timed: bool, now: nat)
    requires InFront(space, chains) && key == Key(ROM, 254, 0)
    ensures Walk(space, [1, 0], key, timed, now) ==
            if timed && now > space[1].tstamp then Dropped(1) else if timed && now > space[0].tstamp then Dropped(0)
                else Hit(0)
  {
    assert [1, 0][1..] == [0];
  }

  /** The first n slots have been handed out, and the next is at hand. */
  ghost predicate HandedOut(cache: Cache, n: nat)
    reads cache, cache.bitmap
  {
    cache.bitmap.Length == DEPTH && cache.spot == n && forall p | n <= p < DEPTH :: cache.bitmap[p] == NOTHING
  }

  method StoreFirst() returns (cache: Cache)
    ensures cache.Valid() && cache.IsKeyed() && HandedOut(cache, 1) && cache.chains[0] == [0]
    ensures KeyOf(cache.space[0]) == Key(ROM, 254, 0)
    ensures fresh(cache) && fresh(cache.space) && fresh(cache.hash) && fresh(cache.bitmap)
  {
    SameHome();
    cache := new Cache();
    assert cache.chains[0] == [];
    var r := cache.AddPageAsDocumented(ROM, 254, [], 0, 0, 0);
  }

  method StoreSecond(cache: Cache)
    requires cache.Valid() && cache.IsKeyed() && HandedOut(cache, 1) && cache.chains[0] == [0]
    requires KeyOf(cache.space[0]) == Key(ROM, 254, 0)
    modifies cache, cache.space, cache.hash, cache.bitmap
    ensures cache.Valid() && cache.IsKeyed() && InFront(cache.space[..], cache.chains)
    ensures cache.space[1].tstamp == CACHE_TIMEOUT
  {
    SameHome();
    assert [0][1..] == [];
    assert Walk(cache.space[..], [0], Key(ROM, 0, 0), false, 0) == Missed;
    var r := cache.AddPageAsDocumented(ROM, 0, [], 0, 0, 0);
    assert r == 1 && cache.chains[0] == [1] + [0];
    assert SamePayload(old(cache.space[..])[0], cache.space[0]);
    assert ItemOf(cache.space[1]).stamp == CACHE_TIMEOUT;
  }

  method StoreAgain(cache: Cache, later: nat)
    requires cache.Valid() && cache.IsKeyed() && InFront(cache.space[..], cache.chains) && later < ULONG - CACHE_TIMEOUT
    modifies cache, cache.space, cache.hash, cache.bitmap
    ensures cache.Valid() && cache.IsKeyed() && InFront(cache.space[..], cache.chains)
    ensures cache.space[1].tstamp == old(cache.space[1].tstamp)
    ensures Key(ROM, 254, 0) in cache.Contents() && cache.Contents()[Key(ROM, 254, 0)].stamp == later + CACHE_TIMEOUT
  {
    ghost var key := Key(ROM, 254, 0);
    SameHome();
    WalkPast(cache.space[..], cache.chains, key, false, 0);
    HitHolds(cache.hash[..], cache.bitmap[..], cache.space[..], cache.chains, key, false, 0);
    assert HeldAt(cache.bitmap[..], cache.space[..], key, 0);
    var r := cache.AddPageAsDocumented(ROM, 254, [], 0, 0, later);
    assert r == 0 && SamePayload(old(cache.space[..])[1], cache.space[..][1]);
  }

  /** A lookup that checks the time can miss a page that is stored and has not expired. Pages 254 and 0
      are stored, and page 254 again later; once page 0 has expired, and page 254 has not, the lookup of
      page 254 ends at the entry of page 0 in front of it. The page is still there afterwards. */
  method LivePageMissed(later: nat) returns (cache: Cache, found: bool)
    requires 0 < later < ULONG - CACHE_TIMEOUT
    ensures cache.Valid() && cache.IsKeyed() && !found
    ensures Key(ROM, 254, 0) in cache.Contents() && CACHE_TIMEOUT + 1 <= cache.Contents()[Key(ROM, 254, 0)].stamp
  {
    SameHome();
    cache := StoreFirst();
    StoreSecond(cache);
    StoreAgain(cache, later);
    ghost var space, chains := cache.space[..], cache.chains;
    WalkPast(space, chains, Key(ROM, 254, 0), true, CACHE_TIMEOUT + 1);
    var buf, len, slot;
    found, buf, len, slot := cache.FindPage(ROM, 254, 0, true, CACHE_TIMEOUT + 1);
  }
}
