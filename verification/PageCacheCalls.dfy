/** The page cache as its callers see it: lists of calls and the answers they get, in terms of the bytes
    handed in and out. */
module PageCacheCalls {
  import opened Octets
  import opened PageCache
  import opened PageCacheRuns
  import opened Wrappers

  /** Where a page is filed, for bytes of the serial number that do not overlap: three of them and the page
      number, four bits apart. */
  lemma HomeByDigits(rom: seq<Octet>, page: Octet)
    requires |rom| == 8 && rom[2] < 16 && rom[7] < 16 && page < 16
    ensures HashFunction(rom, page)
            == (0x1000 * (rom[1] as nat) + 0x100 * (rom[2] as nat) + 0x10 * (rom[7] as nat) + page) % 254
  {
    var a, b, c := rom[1] as nat, rom[2] as nat, rom[7] as nat;
    TwoDigits(a, b);
    NextDigit(16 * a + b, c);
    LowOr(16 * (16 * a + b) + c, page);
  }

  lemma TwoDigits(a: nat, b: nat)
    requires b < 16
    ensures Or(0x1000 * a, 0x100 * b) == 0x100 * (16 * a + b)
  {
    LowOr(a, b);
    ShiftedOr(16 * a, b);
    ShiftedOr(256 * a, 16 * b);
  }

  lemma NextDigit(x: nat, c: nat)
    requires c < 16
    ensures Or(0x100 * x, 0x10 * c) == 0x10 * (16 * x + c)
  {
    LowOr(x, c);
    ShiftedOr(16 * x, c);
  }

  lemma LowOr(x: nat, y: nat)
    requires y < 16
    ensures Or(16 * x, y) == 16 * x + y
  {
    assert Or(x, 0) == x by {
      OrNothing(x);
    }
    assert Or(2 * x, y / 8) == 2 * x + y / 8;
    assert Or(4 * x, y / 4) == 4 * x + y / 4;
    assert Or(8 * x, y / 2) == 8 * x + y / 2;
  }

  lemma {:induction false} OrNothing(x: nat)
    ensures Or(x, 0) == x
  {
    if x > 0 {
      OrNothing(x / 2);
    }
  }

  lemma ShiftedOr(x: nat, y: nat)
    ensures Or(16 * x, 16 * y) == 16 * Or(x, y)
  {
    assert Or(2 * x, 2 * y) == 2 * Or(x, y);
    assert Or(4 * x, 4 * y) == 2 * Or(2 * x, 2 * y);
    assert Or(8 * x, 8 * y) == 2 * Or(4 * x, 4 * y);
    assert Or(16 * x, 16 * y) == 2 * Or(8 * x, 8 * y);
  }

  /** An insertion under the page a lookup asks for: a length byte of 128 or more is found under the flag
      128, a smaller one under 0. */
  predicate Serves(c: CacheCall, l: CacheCall) {
    c.Add? && l.Look? && c.rom == l.rom && c.page == l.page && l.mflag == if c.lenByte >= 128 then 128 else 0
  }

  /** Call j is the last insertion before call i for what it asks for. */
  predicate IsLatest(calls: seq<CacheCall>, i: nat, j: nat) {
    j < i < |calls| && Serves(calls[j], calls[i]) && forall k | j < k < i :: !Serves(calls[k], calls[i])
  }

  /** The answer to call i is what the insertion j handed in: its length byte and as many bytes as the low five
      bits of that say; and if the time is checked, no more than 8000 ticks have passed. */
  predicate AnswersWith(calls: seq<CacheCall>, i: nat, j: nat, a: Answer) {
    && IsLatest(calls, i, j) && a.Found? && a.lenByte == calls[j].lenByte && calls[j].lenByte % 32 <= |calls[j].buf|
    && a.data == calls[j].buf[..calls[j].lenByte % 32]
    && (calls[i].timed && calls[j].stampTick + 8000 < 0x1_0000_0000 ==> calls[i].now <= calls[j].stampTick + 8000)
  }

  ghost predicate Explained(calls: seq<CacheCall>, i: nat, a: Answer) {
    a.Found? ==> exists j: nat :: AnswersWith(calls, i, j, a)
  }

  lemma {:induction false} LatestCall(calls: seq<CacheCall>, events: seq<Event>, n: nat, l: CacheCall, item: Item)
      returns (j: nat)
    requires |events| == |calls| && n <= |calls| && l.Look? && forall k | 0 <= k < |calls| :: ValidCall(calls[k])
    requires forall k | 0 <= k < |calls| :: Makes(calls[k], events[k])
    requires LastAdded(events[..n], Key(l.rom, l.page, l.mflag)) == Some(item)
    ensures j < n && Serves(calls[j], l) && forall k | j < k < n :: !Serves(calls[k], l)
    ensures events[j].Added? && events[j].item == item
  {
    var key := Key(l.rom, l.page, l.mflag);
    assert events[..n] == events[..n - 1] + [events[n - 1]];
    LastAddedSnoc(events[..n - 1], events[n - 1], key);
    j := n - 1;
    if !(events[n - 1].Added? && events[n - 1].key == key) {
      j := LatestCall(calls, events, n - 1, l, item);
    }
  }

  lemma HitIsExplained(calls: seq<CacheCall>, states: seq<map<Key, Item>>, events: seq<Event>, i: nat, a: Answer)
    requires IsRun(states, events) && |events| == |calls| && i < |calls|
    requires forall k | 0 <= k < |calls| :: ValidCall(calls[k]) && Makes(calls[k], events[k])
    requires Tells(events[i], a) && calls[i].Look?
    ensures Explained(calls, i, a)
  {
    var l, e := calls[i], events[i];
    if a.Found? {
      HitsAreLatest(states, events, i, e.key, e.timed, e.now, e.answer.value);
      var j := LatestCall(calls, events, i, l, e.answer.value);
      assert Makes(calls[j], events[j]);
      assert AnswersWith(calls, i, j, a);
    }
  }

  /** Any list of calls on a new cache: every lookup that finds something hands back what the latest
      insertion for that page and section handed in. */
  method Ask(calls: seq<CacheCall>) returns (answers: seq<Answer>)
    requires forall i | 0 <= i < |calls| :: ValidCall(calls[i])
    ensures |answers| == |calls|
    ensures forall i | 0 <= i < |calls| && calls[i].Look? :: Explained(calls, i, answers[i])
  {
    var cache;
    ghost var states, events;
    cache, answers, states, events := Execute(calls);
    forall i | 0 <= i < |calls| && calls[i].Look?
      ensures Explained(calls, i, answers[i])
    {
      HitIsExplained(calls, states, events, i, answers[i]);
    }
  }

  /** A lookup of what has just been inserted, in whatever cache: it is found under the flag of its section,
      with just the bytes handed in, exactly when its length is at most 29. */
  method AddThenFind(cache: Cache, rom: seq<Octet>, page: Octet, buf: seq<Octet>, lenByte: Octet, now: nat,
                     stampTick: nat, later: nat)
      returns (found: bool, data: seq<Octet>, len: Octet)
    requires cache.Valid() && |rom| == 8 && (lenByte % 32 <= 29 ==> |buf| >= lenByte % 32)
    modifies cache, cache.space, cache.hash, cache.bitmap
    ensures cache.Valid() && (found <==> lenByte % 32 <= 29)
    ensures found ==> len == lenByte && data == buf[..lenByte % 32]
  {
    var r := cache.AddPageAsDocumented(rom, page, buf, lenByte, now, stampTick);
    ghost var space := cache.space[..];
    var slot;
    found, data, len, slot := cache.FindPage(rom, page, if lenByte >= 128 then 128 else 0, false, later);
    assert ItemOf(space[r]) == Item(lenByte, buf[..StoredLength(lenByte)], Stamp(stampTick));
  }

  /** In a new cache it is found under no other flag. */
  method NewThenFind(rom: seq<Octet>, page: Octet, buf: seq<Octet>, lenByte: Octet, mflag: Octet, now: nat,
                     stampTick: nat, later: nat)
      returns (found: bool, data: seq<Octet>, len: Octet)
    requires |rom| == 8 && (lenByte % 32 <= 29 ==> |buf| >= lenByte % 32)
    ensures found <==> lenByte % 32 <= 29 && mflag == if lenByte >= 128 then 128 else 0
    ensures found ==> len == lenByte && data == buf[..lenByte % 32]
  {
    var cache := new Cache();
    ghost var h := HashFunction(rom, page);
    assert cache.chains[h] == [];
    var r := cache.AddPageAsDocumented(rom, page, buf, lenByte, now, stampTick);
    ghost var space, c := cache.space[..], cache.chains[h];
    assert c == [r] && c[1..] == [];
    assert ItemOf(space[r]) == Item(lenByte, buf[..StoredLength(lenByte)], Stamp(stampTick));
    var slot;
    found, data, len, slot := cache.FindPage(rom, page, mflag, false, later);
  }
}
