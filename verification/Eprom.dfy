/** One-time-programmable memory (mbeprom.c): writing, page locks and page redirection, over a part
    whose programming can only clear bits. A cleared lock bit means that the page is locked. */
module Eprom {
  import opened Octets

  const MAIN_PAGE := 32
  const STATUS_PAGE := 8

  /** The two layouts of the status memory: one page of eight bytes, with lock bits in the first byte
      and redirection bytes from the second on; or lock bits from address 0, redirection lock bits
      from 32 and redirection bytes from 256 on. */
  datatype Kind = Small | Large(mainPages: nat, lockPages: nat)

  predicate ValidKind(k: Kind) {
    k == Small || k == Large(64, 1) || k == Large(256, 4) || k == Large(16, 1)
  }

  function MainSize(k: Kind): nat { MAIN_PAGE * (if k == Small then 4 else k.mainPages) }

  function StatusSize(k: Kind): nat { if k == Small then 8 else 256 + k.mainPages }

  /** Where a bank starts in its memory, how long its pages are and how many it has. */
  function Start(k: Kind, bank: nat): nat
  {
    if k == Small then 0 else if bank == 2 then 32 else if bank == 3 then 64 else if bank == 4 then 256 else 0
  }

  function PageLength(bank: nat): (n: nat)
    ensures n > 0
  {
    if bank == 0 then MAIN_PAGE else STATUS_PAGE
  }

  function Pages(k: Kind, bank: nat): nat {
    if k == Small then (if bank == 0 then 4 else 1)
    else if bank == 0 then k.mainPages
    else if bank == 4 then k.mainPages / 8
    else if bank == 3 then (if k.lockPages == 4 then 3 else 1)
    else k.lockPages
  }

  /** The banks a part has. */
  predicate HasBank(k: Kind, bank: nat) { bank <= if k == Small then 1 else 4 }

  lemma BanksFit(k: Kind, bank: nat)
    requires ValidKind(k) && HasBank(k, bank)
    ensures Start(k, bank) + PageLength(bank) * Pages(k, bank) <= if bank == 0 then MainSize(k) else StatusSize(k)
  {
  }

  /** A byte after data has been programmed into it. */
  function Burnt(before: Octet, data: Octet): (r: Octet)
    ensures r <= before
  {
    AndIsLess(before, data);
    And(before, data)
  }

  /** The memory after the first n bytes of a buffer have been programmed from an address on. */
  predicate BurntUpTo(mem0: seq<Octet>, at: nat, buff: seq<Octet>, n: nat, mem: seq<Octet>) {
    && n <= |buff| && |mem| == |mem0| && at + |buff| <= |mem0|
    && forall a | 0 <= a < |mem| :: mem[a] == if at <= a < at + n then Burnt(mem0[a], buff[a - at]) else mem0[a]
  }

  /** Some bytes of a buffer have been programmed from an address on, and nothing else. */
  predicate PartlyBurnt(mem0: seq<Octet>, at: nat, buff: seq<Octet>, mem: seq<Octet>) {
    && |mem| == |mem0| && at + |buff| <= |mem0|
    && forall a | 0 <= a < |mem| ::
       mem[a] == mem0[a] || (at <= a < at + |buff| && mem[a] == Burnt(mem0[a], buff[a - at]))
  }

  /** Nothing but bits cleared. */
  predicate OnlyCleared(s: seq<Octet>, t: seq<Octet>) {
    |s| == |t| && forall a | 0 <= a < |s| :: BitsCleared(s[a], t[a])
  }

  predicate BitsCleared(x: Octet, y: Octet) {
    forall k | 0 <= k < 8 :: Bit(y, k) ==> Bit(x, k)
  }

  lemma BurningClears(mem0: seq<Octet>, at: nat, buff: seq<Octet>, mem: seq<Octet>)
    requires PartlyBurnt(mem0, at, buff, mem)
    ensures OnlyCleared(mem0, mem)
  {
    forall a | 0 <= a < |mem|
      ensures BitsCleared(mem0[a], mem[a])
    {
      if at <= a < at + |buff| {
        forall k | 0 <= k < 8 {
          BitOfAnd(mem0[a], buff[a - at], k);
        }
      }
    }
  }

  /** What the lock test makes of the status memory: pages for which there is no lock bit count as
      unlocked. */
  predicate Locked(k: Kind, status: seq<Octet>, page: nat)
    requires |status| == StatusSize(k)
  {
    page / 64 <= Pages(k, 1) && STATUS_PAGE * (page / 64) + STATUS_PAGE <= |status| && !Bit(status[page / 8], page % 8)
  }

  /** The same for redirection, which only the large layout can lock. */
  predicate RedirectLocked(k: Kind, status: seq<Octet>, page: nat)
    requires |status| == StatusSize(k) && ValidKind(k)
  {
    k.Large? && page / 64 <= Pages(k, 2) && !Bit(status[32 + page / 8], page % 8)
  }

  lemma DivBy64(page: nat)
    ensures (page - page / 64 * 64) / 8 == page / 8 - STATUS_PAGE * (page / 64)
    ensures page - page / 64 * 64 - (page - page / 64 * 64) / 8 * 8 == page % 8
    ensures STATUS_PAGE * (page / 64) <= page / 8 < STATUS_PAGE * (page / 64) + STATUS_PAGE
  {
    var q, r := page / 64, page % 64;
    assert page == 64 * q + r;
    assert page / 8 == 8 * q + r / 8;
  }

  class Memory {
    const kind: Kind
    const reliable: bool
    var main: seq<Octet>
    var status: seq<Octet>

    ghost predicate Valid()
      reads this
    {
      ValidKind(kind) && |main| == MainSize(kind) && |status| == StatusSize(kind)
    }

    constructor (kind: Kind, reliable: bool, main: seq<Octet>, status: seq<Octet>)
      requires ValidKind(kind) && |main| == MainSize(kind) && |status| == StatusSize(kind)
      ensures Valid() && this.kind == kind && this.reliable == reliable && this.main == main && this.status == status
    {
      this.kind := kind;
      this.reliable := reliable;
      this.main := main;
      this.status := status;
    }

    /** Reads a page of a status bank; the page number is checked against one too many. */
    method ReadStatusPage(bank: nat, page: nat) returns (ok: bool, buf: seq<Octet>)
      requires Valid() && 1 <= bank && HasBank(kind, bank)
      ensures var at := Start(kind, bank) + STATUS_PAGE * page;
              && (ok ==>
                    && page <= Pages(kind, bank) && at + STATUS_PAGE <= |status|
                    && buf == status[at..at + STATUS_PAGE])
              && (reliable && page <= Pages(kind, bank) && at + STATUS_PAGE <= |status| ==> ok)
    {
      buf := [];
      if page > Pages(kind, bank) {
        return false, buf;
      }
      var addr := page * STATUS_PAGE + Start(kind, bank);
      ok := addr + STATUS_PAGE <= |status|;
      if ok && !reliable {
        ok := *;
      }
      if ok {
        buf := status[addr..addr + STATUS_PAGE];
      }
    }

    /** The bit of a page among the lock bits of a bank; a page that cannot be read counts as unlocked. */
    method TestLock(bank: nat, page: nat) returns (locked: bool)
      requires Valid() && 1 <= bank <= 2 && HasBank(kind, bank)
      ensures locked ==>
                && page / 64 <= Pages(kind, bank) && Start(kind, bank) + page / 8 < |status|
                && !Bit(status[Start(kind, bank) + page / 8], page % 8)
      ensures var seen := page / 64 <= Pages(kind, bank)
              && Start(kind, bank) + STATUS_PAGE * (page / 64) + STATUS_PAGE <= |status|;
              reliable && seen && !Bit(status[Start(kind, bank) + page / 8], page % 8) ==> locked
    {
      var readPg := page / (STATUS_PAGE * 8);
      var ok, readBuf := ReadStatusPage(bank, readPg);
      if !ok {
        return false;
      }
      DivBy64(page);
      var index := page - readPg * 8 * STATUS_PAGE;
      var nbyt := index / 8;
      var nbit := index - nbyt * 8;
      locked := !Bit(readBuf[nbyt], nbit);
    }

    method IsPageLocked(page: nat) returns (locked: bool)
      requires Valid()
      ensures locked ==> Locked(kind, status, page)
      ensures reliable ==> locked == Locked(kind, status, page)
    {
      locked := TestLock(1, page);
    }

    method IsRedirectPageLocked(page: nat) returns (locked: bool)
      requires Valid()
      ensures locked ==> RedirectLocked(kind, status, page)
      ensures reliable ==> locked == RedirectLocked(kind, status, page)
    {
      if kind == Small {
        return false;
      }
      locked := TestLock(2, page);
    }

    /** Programs one byte: the part burns it in, and answers with what the byte has become, or the
        bus reports a failure (-1), with the byte burnt or not. */
    method ProgramByte(inMain: bool, addr: nat, data: Octet) returns (result: int)
      requires Valid() && addr < if inMain then |main| else |status|
      modifies this
      ensures Valid() && (if inMain then status == old(status) else main == old(main))
      ensures var mem0, mem := if inMain then old(main) else old(status), if inMain then main else status;
              && |mem| == |mem0|
              && (mem == mem0[addr := Burnt(mem0[addr], data)] || (result == -1 && mem == mem0))
              && (result == -1 || result == mem[addr]) && (reliable ==> result != -1)
    {
      var value := Burnt(if inMain then main[addr] else status[addr], data);
      var seen, answered := reliable, reliable;
      if !reliable { seen, answered := *, *; }
      if !seen {
        return -1;
      }
      if inMain {
        main := main[addr := value];
      } else {
        status := status[addr := value];
      }
      result := if answered then value else -1;
    }

    /** What writeEPROM finds out about the page of one byte: locked, and to be read back or not. The
        page number is counted in pages of the bank's own length, from the start of its memory. */
    method CheckPage(bank: nat, addr: nat) returns (locked: bool, verify: bool)
      requires Valid() && HasBank(kind, bank)
      ensures reliable ==> locked == LockedAt(kind, status, bank, addr)
      ensures reliable && !locked ==> verify == !RedirectLockedAt(kind, status, bank, addr)
    {
      var page := (addr + Start(kind, bank)) / PageLength(bank);
      locked := IsPageLocked(page);
      var redirect := IsRedirectPageLocked(page);
      verify := !(locked || redirect);
      locked := IsPageLocked(page);
    }

    /** The check of writeEPROM before it writes: no byte may lie on a locked page. The result
        `verify` is that of the last byte. */
    method CheckPages(bank: nat, strAdd: nat, len: nat) returns (free: bool, verify: bool)
      requires Valid() && HasBank(kind, bank) && len > 0
      ensures reliable ==> free == NoneLocked(kind, status, bank, strAdd, len)
      ensures reliable && free ==> verify == !RedirectLockedAt(kind, status, bank, strAdd + len - 1)
    {
      free, verify := true, true;
      for i := 0 to len
        invariant reliable ==> NoneLocked(kind, status, bank, strAdd, i)
        invariant reliable && i > 0 ==> verify == !RedirectLockedAt(kind, status, bank, strAdd + i - 1)
      {
        var locked;
        locked, verify := CheckPage(bank, strAdd + i);
        NoneLockedStep(kind, status, bank, strAdd, i, len);
        if locked {
          return false, verify;
        }
      }
    }

    /** The memory a bank lies in. */
    ghost function Content(inMain: bool): seq<Octet>
      reads this
    {
      if inMain then main else status
    }

    /** writeEPROM. Of the flags that say whether a byte is read back only the first is ever set: on a
        bus that may fail, any later byte can be lost unnoticed. */
    method WriteEPROM(bank: nat, strAdd: nat, buff: seq<Octet>, hasPulse: bool) returns (ok: bool)
      requires Valid() && HasBank(kind, bank)
      modifies this
      ensures Valid() && Content(bank != 0) == old(Content(bank != 0))
      ensures Content(bank == 0) == old(Content(bank == 0))
              || PartlyBurnt(old(Content(bank == 0)), Start(kind, bank) + strAdd, buff, Content(bank == 0))
      ensures reliable && ok ==>
              buff == [] || BurntUpTo(old(Content(bank == 0)), Start(kind, bank) + strAdd, buff, |buff|,
                                      Content(bank == 0))
      ensures reliable && buff != [] && !CanWrite(kind, old(status), bank, strAdd, |buff|, hasPulse) ==>
                !ok && Content(bank == 0) == old(Content(bank == 0))
      ensures buff != [] && (!hasPulse || strAdd + |buff| > PageLength(bank) * Pages(kind, bank)) ==>
                !ok && Content(bank == 0) == old(Content(bank == 0))
      ensures reliable && |buff| == 1 && CanWrite(kind, old(status), bank, strAdd, 1, hasPulse) ==>
                BurntOne(old(Content(bank == 0)), Start(kind, bank) + strAdd, buff[0], Content(bank == 0), ok,
                         !RedirectLockedAt(kind, old(status), bank, strAdd))
      ensures reliable && buff != [] && CanWrite(kind, old(status), bank, strAdd, |buff|, hasPulse) ==>
                BurntAsFar(old(Content(bank == 0)), Start(kind, bank) + strAdd, buff, Content(bank == 0), ok)
    {
      if |buff| == 0 {
        return true;
      }
      if !hasPulse {
        return false;
      }
      var free, first := CheckPages(bank, strAdd, |buff|);
      if !free {
        return false;
      }
      if strAdd + |buff| > PageLength(bank) * Pages(kind, bank) {
        return false;
      }
      BanksFit(kind, bank);
      ok := BurnAll(bank == 0, Start(kind, bank) + strAdd, buff, first);
    }

    /** The writing loop of writeEPROM. */
    method BurnAll(inMain: bool, at: nat, buff: seq<Octet>, first: bool) returns (ok: bool)
      requires Valid() && buff != [] && at + |buff| <= if inMain then |main| else |status|
      modifies this
      ensures Valid() && Content(!inMain) == old(Content(!inMain))
      ensures PartlyBurnt(old(Content(inMain)), at, buff, Content(inMain))
      ensures reliable && ok ==> BurntUpTo(old(Content(inMain)), at, buff, |buff|, Content(inMain))
      ensures reliable && |buff| == 1 ==> BurntOne(old(Content(inMain)), at, buff[0], Content(inMain), ok, first)
      ensures reliable ==> BurntAsFar(old(Content(inMain)), at, buff, Content(inMain), ok)
    {
      ghost var mem0 := Content(inMain);
      for i := 0 to |buff|
        invariant Valid() && Content(!inMain) == old(Content(!inMain))
        invariant InProgress(mem0, at, buff, i, Content(inMain), reliable)
        invariant reliable && |buff| == 1 && i == 1 ==> !first || Burnt(mem0[at], buff[0]) == buff[0]
      {
        ghost var mem := Content(inMain);
        var result := ProgramByte(inMain, at + i, buff[i]);
        BurnStep(mem0, at, buff, i, mem, Content(inMain), reliable);
        var verify := first;
        if i > 0 { verify := *; }
        if verify && (result == -1 || result != buff[i]) {
          assert reliable ==> StoppedAt(mem0, at, buff, Content(inMain), i + 1);
          return false;
        }
      }
      ok := true;
    }

    /** The write of lockPage. */
    method ProgramLock(page: nat, hasPulse: bool) returns (ok: bool)
      requires Valid() && !(reliable && Locked(kind, status, page))
      modifies this
      ensures Valid() && main == old(main) && OnlyCleared(old(status), status)
      ensures status == old(status) || (page / 8 < |status| && status == WithLock(old(status), page))
      ensures reliable && !LockWritten(kind, old(status), page, hasPulse) ==> !ok && status == old(status)
      ensures reliable && LockWritten(kind, old(status), page, hasPulse) ==>
                && status == WithLock(old(status), page)
                && (ok <==> OthersUnlocked(old(status), page) || RedirectLocked(kind, old(status), page / 64))
    {
      var nbyt := page / 8;
      LockWrite(kind, status, page, hasPulse);
      ok := WriteEPROM(1, nbyt, [LockByte(page)], hasPulse);
      StaysSame(old(status));
      if nbyt < |status| {
        OneByteBurnt(old(status), nbyt, LockByte(page), status);
        LockBits(old(status), page);
      }
    }

    /** lockPage. A success means that the page is locked; but the page may be locked and success
        denied. Nothing but this page's lock bit changes. */
    method LockPage(page: nat, hasPulse: bool) returns (ok: bool)
      requires Valid()
      modifies this
      ensures Valid() && main == old(main) && OnlyCleared(old(status), status)
      ensures status == old(status) || (page / 8 < |status| && status == WithLock(old(status), page))
      ensures ok ==> Locked(kind, status, page)
      ensures reliable && !LockWritten(kind, old(status), page, hasPulse) ==> !ok && status == old(status)
      ensures reliable && LockWritten(kind, old(status), page, hasPulse) ==>
                && status == WithLock(old(status), page)
                && (ok <==> OthersUnlocked(old(status), page) || RedirectLocked(kind, old(status), page / 64))
    {
      StaysSame(status);
      var locked := IsPageLocked(page);
      if locked {
        return false;
      }
      ok := ProgramLock(page, hasPulse);
      if !ok {
        return;
      }
      if LockWritten(kind, old(status), page, hasPulse) {
        LockedByNow(kind, old(status), page, hasPulse);
      }
      ok := IsPageLocked(page);
    }

    /** redirectPage, for the main memory bank: programs the complement of the new page number. */
    method RedirectPage(page: nat, newPage: Octet, hasPulse: bool) returns (ok: bool)
      requires Valid() && page < (if kind == Small then 4 else kind.mainPages)
      modifies this
      ensures Valid() && main == old(main) && OnlyCleared(old(status), status)
      ensures status == old(status) || status == Redirected(kind, old(status), page, newPage)
      ensures reliable && ok ==> status == Redirected(kind, old(status), page, newPage)
      ensures reliable && (!hasPulse || RedirectLocked(kind, old(status), page)
                           || Locked(kind, old(status), RedirectAddr(kind, page) / 8)) ==>
                !ok && status == old(status)
      ensures var at := RedirectAddr(kind, page);
              reliable && hasPulse && !RedirectLocked(kind, old(status), page) && !Locked(kind, old(status), at / 8) ==>
                && status == Redirected(kind, old(status), page, newPage)
                && (ok <==>
                      || Within(Complement(old(status)[at]), newPage)
                      || RedirectLocked(kind, old(status), at / 8))
    {
      StaysSame(status);
      RedirectWrite(kind, status, page, hasPulse);
      RedirectionsJoin(kind, status, page, newPage);
      var locked := IsRedirectPageLocked(page);
      if locked {
        return false;
      }
      var bank := if kind == Small then 1 else 4;
      var wrByte := Complement(newPage);
      ok := WriteEPROM(bank, page + RedirectOffset(kind), [wrByte], hasPulse);
      OneByteBurnt(old(status), RedirectAddr(kind, page), wrByte, status);
    }

    /** getRedirectedPage. A page that cannot be read counts as not redirected. */
    method GetRedirectedPage(page: nat) returns (target: Octet)
      requires Valid() && page < (if kind == Small then 4 else kind.mainPages)
      ensures target == 0 || target == Complement(status[RedirectAddr(kind, page)])
      ensures reliable ==> target == Complement(status[RedirectAddr(kind, page)])
    {
      var bank := if kind == Small then 1 else 4;
      var at := page + RedirectOffset(kind);
      RedirectPageRead(kind, page, at, bank);
      var ok, readBuf := ReadStatusPage(bank, at / STATUS_PAGE);
      if !ok {
        return 0;
      }
      target := Complement(readBuf[at % STATUS_PAGE]);
    }

    /** One call of a run. */
    method Perform(call: Call)
      requires Valid() && ValidCall(kind, call)
      modifies this
      ensures Valid() && StepOf(kind, Contents(old(main), old(status)), call, Contents(main, status))
    {
      var ok;
      match call
      case Write(bank, strAdd, buff, hasPulse) => ok := WriteEPROM(bank, strAdd, buff, hasPulse);
      case Lock(page, hasPulse) => ok := LockPage(page, hasPulse);
      case Redirect(page, newPage, hasPulse) => ok := RedirectPage(page, newPage, hasPulse);
    }

    /** A list of calls, whatever each of them reports, and the states it goes through. */
    method Execute(calls: seq<Call>) returns (ghost states: seq<Contents>)
      requires Valid() && forall i | 0 <= i < |calls| :: ValidCall(kind, calls[i])
      modifies this
      ensures Valid() && IsRun(kind, states, calls)
      ensures states[0] == Contents(old(main), old(status)) && states[|calls|] == Contents(main, status)
    {
      states := [Contents(main, status)];
      for i := 0 to |calls|
        invariant Valid() && |states| == i + 1
        invariant states[0] == Contents(old(main), old(status)) && states[i] == Contents(main, status)
        invariant forall j | 0 <= j < i :: StepOf(kind, states[j], calls[j], states[j + 1])
      {
        Perform(calls[i]);
        states := states + [Contents(main, status)];
      }
    }
  }

  function Complement(x: Octet): (c: Octet)
  {
    EightBits();
    Not(x, 8)
  }

  function RedirectOffset(k: Kind): nat { if k == Small then 1 else 0 }

  /** Where the redirection byte of a page lies in the status memory. */
  function RedirectAddr(k: Kind, page: nat): nat { page + if k == Small then 1 else 256 }

  function Redirected(k: Kind, status: seq<Octet>, page: nat, newPage: Octet): seq<Octet>
    requires RedirectAddr(k, page) < |status|
  {
    var a := RedirectAddr(k, page);
    status[a := Burnt(status[a], Complement(newPage))]
  }

  lemma RedirectPageRead(k: Kind, page: nat, at: nat, bank: nat)
    requires ValidKind(k) && page < (if k == Small then 4 else k.mainPages) && at == page + RedirectOffset(k)
             && bank == if k == Small then 1 else 4
    ensures at == STATUS_PAGE * (at / STATUS_PAGE) + at % STATUS_PAGE && RedirectAddr(k, page) == Start(k, bank) + at
    ensures at / STATUS_PAGE <= Pages(k, bank)
            && Start(k, bank) + STATUS_PAGE * (at / STATUS_PAGE) + STATUS_PAGE <= StatusSize(k)
  {
  }

  /** The write of a redirection byte is held up by the lock of a page that has nothing to do with it:
      the one whose number is that of the byte counted in pages of eight bytes. */
  lemma RedirectWrite(k: Kind, status: seq<Octet>, page: nat, hasPulse: bool)
    requires |status| == StatusSize(k) && ValidKind(k) && page < (if k == Small then 4 else k.mainPages)
    ensures var bank := if k == Small then 1 else 4;
            && (CanWrite(k, status, bank, page + RedirectOffset(k), 1, hasPulse) <==>
                hasPulse && !Locked(k, status, RedirectAddr(k, page) / 8))
            && RedirectLockedAt(k, status, bank, page + RedirectOffset(k))
               == RedirectLocked(k, status, RedirectAddr(k, page) / 8)
  {
    var bank := if k == Small then 1 else 4;
    var at := page + RedirectOffset(k);
    assert NoneLocked(k, status, bank, at, 1) == (NoneLocked(k, status, bank, at, 0) && !LockedAt(k, status, bank, at));
  }

  /** Burning a complement is joining: the bits of both numbers end up set in the complement. */
  lemma BurntComplement(x: Octet, n: Octet)
    ensures Complement(Burnt(x, Complement(n))) as nat == Or(Complement(x), n)
  {
    EightBits();
    StaysBelow(Complement(x), n, 8);
    forall i: nat | i < 8
      ensures Bit(Complement(Burnt(x, Complement(n))), i) == Bit(Or(Complement(x), n), i)
    {
      BitOfNot(Burnt(x, Complement(n)), 8, i);
      BitOfAnd(x, Complement(n), i);
      BitOfNot(n, 8, i);
      BitOfNot(x, 8, i);
      BitOfOr(Complement(x), n, i);
    }
    SameBits(Complement(Burnt(x, Complement(n))), Or(Complement(x), n), 8);
  }

  /** Every bit of x is a bit of y. */
  predicate Within(x: Octet, y: Octet) {
    forall i: nat | i < 8 :: Bit(x, i) ==> Bit(y, i)
  }

  lemma JoinedIsSame(before: Octet, n: Octet)
    ensures Or(before, n) == n <==> Within(before, n)
  {
    EightBits();
    StaysBelow(before, n, 8);
    forall i: nat | i < 8
      ensures Bit(Or(before, n), i) <==> Bit(before, i) || Bit(n, i)
    {
      BitOfOr(before, n, i);
    }
    if Within(before, n) {
      SameBits(Or(before, n), n, 8);
    } else {
      var i: nat :| i < 8 && Bit(before, i) && !Bit(n, i);
      assert Bit(Or(before, n), i);
    }
  }

  /** Redirecting a page again does not replace the target but joins the bits of both: the target
      read back is the one asked for exactly when it has every bit of the one before. */
  lemma RedirectionsJoin(k: Kind, status: seq<Octet>, page: nat, newPage: Octet)
    requires RedirectAddr(k, page) < |status|
    ensures var a := RedirectAddr(k, page); var before := Complement(status[a]);
            && Complement(Redirected(k, status, page, newPage)[a]) as nat == Or(before, newPage)
            && (Complement(Redirected(k, status, page, newPage)[a]) == newPage <==> Within(before, newPage))
            && (Burnt(status[a], Complement(newPage)) == Complement(newPage) <==> Within(before, newPage))
  {
    var x := status[RedirectAddr(k, page)];
    BurntComplement(x, newPage);
    JoinedIsSame(Complement(x), newPage);
  }

  // ----- runs

  /** What a part holds, and the calls that change it. */
  datatype Contents = Contents(main: seq<Octet>, status: seq<Octet>)

  datatype Call =
    | Write(bank: nat, strAdd: nat, buff: seq<Octet>, hasPulse: bool)
    | Lock(page: nat, hasPulse: bool)
    | Redirect(page: nat, newPage: Octet, hasPulse: bool)

  predicate ValidCall(k: Kind, c: Call) {
    match c
    case Write(bank, _, _, _) => HasBank(k, bank)
    case Lock(_, _) => true
    case Redirect(page, _, _) => page < if k == Small then 4 else k.mainPages
  }

  predicate Fits(k: Kind, s: Contents) {
    ValidKind(k) && |s.main| == MainSize(k) && |s.status| == StatusSize(k)
  }

  /** What a call may do, on whatever bus: writing burns some of its bytes, locking the bit of its page,
      redirecting the byte of its page, or nothing happens. */
  predicate StepOf(k: Kind, s: Contents, c: Call, s': Contents) {
    && Fits(k, s) && Fits(k, s') && ValidCall(k, c)
    && (s' == s ||
        match c
        case Write(bank, strAdd, buff, _) =>
          if bank == 0 then s'.status == s.status && PartlyBurnt(s.main, Start(k, bank) + strAdd, buff, s'.main)
          else s'.main == s.main && PartlyBurnt(s.status, Start(k, bank) + strAdd, buff, s'.status)
        case Lock(page, _) => s'.main == s.main && page / 8 < |s.status| && s'.status == WithLock(s.status, page)
        case Redirect(page, newPage, _) => s'.main == s.main && s'.status == Redirected(k, s.status, page, newPage))
  }

  /** A run: one state more than calls, each state the step of a call from the one before. */
  predicate IsRun(k: Kind, states: seq<Contents>, calls: seq<Call>) {
    && |states| == |calls| + 1 && Fits(k, states[0])
    && forall i | 0 <= i < |calls| :: StepOf(k, states[i], calls[i], states[i + 1])
  }

  lemma ByteClears(mem: seq<Octet>, at: nat, data: Octet)
    requires at < |mem|
    ensures OnlyCleared(mem, mem[at := Burnt(mem[at], data)])
  {
    assert [data][at - at] == data;
    BurningClears(mem, at, [data], mem[at := Burnt(mem[at], data)]);
  }

  /** Every call only clears bits. */
  lemma StepClears(k: Kind, s: Contents, c: Call, s': Contents)
    requires StepOf(k, s, c, s')
    ensures OnlyCleared(s.main, s'.main) && OnlyCleared(s.status, s'.status)
  {
    StaysSame(s.main);
    StaysSame(s.status);
    if s' != s {
      match c
      case Write(bank, strAdd, buff, _) =>
        if bank == 0 {
          BurningClears(s.main, Start(k, bank) + strAdd, buff, s'.main);
        } else {
          BurningClears(s.status, Start(k, bank) + strAdd, buff, s'.status);
        }
      case Lock(page, _) => ByteClears(s.status, page / 8, LockByte(page));
      case Redirect(page, newPage, _) => ByteClears(s.status, RedirectAddr(k, page), Complement(newPage));
    }
  }

  /** No run of writes, locks and redirections, on whatever bus, ever unlocks a page. */
  lemma {:induction false} LockedForEver(k: Kind, states: seq<Contents>, calls: seq<Call>, page: nat, i: nat, j: nat)
    requires IsRun(k, states, calls) && i <= j <= |calls|
    ensures Fits(k, states[i]) && Fits(k, states[j])
    ensures OnlyCleared(states[i].status, states[j].status) && OnlyCleared(states[i].main, states[j].main)
    ensures Locked(k, states[i].status, page) ==> Locked(k, states[j].status, page)
    ensures RedirectLocked(k, states[i].status, page) ==> RedirectLocked(k, states[j].status, page)
    decreases j
  {
    assert i > 0 ==> StepOf(k, states[i - 1], calls[i - 1], states[i]);
    if i < j {
      LockedForEver(k, states, calls, page, i, j - 1);
      StepClears(k, states[j - 1], calls[j - 1], states[j]);
      ClearedTwice(states[i].status, states[j - 1].status, states[j].status);
      ClearedTwice(states[i].main, states[j - 1].main, states[j].main);
    } else {
      StaysSame(states[i].status);
      StaysSame(states[i].main);
    }
    LockKept(k, states[i].status, states[j].status, page);
  }

  /** A call that may clear the lock bit of a page: locking it, or writing to or redirecting by way of
      the byte the bit is in. */
  predicate MayLock(k: Kind, c: Call, page: nat) {
    match c
    case Write(bank, strAdd, buff, _) => bank != 0
        && Start(k, bank) + strAdd <= page / 8 < Start(k, bank) + strAdd + |buff|
    case Lock(p, _) => p == page
    case Redirect(p, _, _) => RedirectAddr(k, p) == page / 8
  }

  /** A page that gets locked in a run has been locked by a call that may do so. */
  lemma {:induction false} LockHasCause(k: Kind, states: seq<Contents>, calls: seq<Call>, page: nat, i: nat, j: nat)
      returns (t: nat)
    requires IsRun(k, states, calls) && i <= j <= |calls| && Fits(k, states[i]) && Fits(k, states[j])
    requires !Locked(k, states[i].status, page) && Locked(k, states[j].status, page)
    ensures i <= t < j && MayLock(k, calls[t], page)
    decreases j
  {
    t := j - 1;
    assert StepOf(k, states[t], calls[t], states[t + 1]);
    if Locked(k, states[t].status, page) {
      t := LockHasCause(k, states, calls, page, i, t);
    } else {
      OthersKeepLocks(k, states[t], calls[t], states[t + 1], page);
    }
  }

  lemma OthersKeepLocks(k: Kind, s: Contents, c: Call, s': Contents, page: nat)
    requires StepOf(k, s, c, s')
    ensures MayLock(k, c, page) || Locked(k, s'.status, page) == Locked(k, s.status, page)
  {
    DivBy64(page);
    if c.Lock? && c.page != page && s' != s {
      LockBits(s.status, c.page);
      assert c.page / 8 == page / 8 ==> c.page % 8 != page % 8;
    }
  }

  lemma ClearedTwice(s: seq<Octet>, t: seq<Octet>, w: seq<Octet>)
    requires OnlyCleared(s, t) && OnlyCleared(t, w)
    ensures OnlyCleared(s, w)
  {
    forall a | 0 <= a < |s|
      ensures BitsCleared(s[a], w[a])
    {
      assert BitsCleared(s[a], t[a]) && BitsCleared(t[a], w[a]);
    }
  }

  lemma LockKept(k: Kind, s: seq<Octet>, t: seq<Octet>, page: nat)
    requires OnlyCleared(s, t) && |s| == StatusSize(k) && ValidKind(k)
    ensures Locked(k, s, page) ==> Locked(k, t, page)
    ensures RedirectLocked(k, s, page) ==> RedirectLocked(k, t, page)
  {
    DivBy64(page);
    if Locked(k, s, page) {
      assert BitsCleared(s[page / 8], t[page / 8]);
    }
    if RedirectLocked(k, s, page) {
      assert BitsCleared(s[32 + page / 8], t[32 + page / 8]);
    }
  }

  /** The byte that clears the lock bit of a page. */
  function LockByte(page: nat): (b: Octet)
  {
    EightBits();
    MaskGrows(page % 8, 8);
    Not(Mask(page % 8), 8)
  }

  /** The status memory with the lock bit of a page programmed. */
  function WithLock(status: seq<Octet>, page: nat): seq<Octet>
    requires page / 8 < |status|
  {
    status[page / 8 := Burnt(status[page / 8], LockByte(page))]
  }

  /** lockPage goes as far as programming the bit: the page is not locked yet, nor is the page whose
      number is that of the lock byte counted in pages of eight bytes. */
  predicate LockWritten(k: Kind, status: seq<Octet>, page: nat, hasPulse: bool)
    requires |status| == StatusSize(k)
  {
    hasPulse && page / 8 + 1 <= STATUS_PAGE * Pages(k, 1) && page / 8 < |status| && !Locked(k, status, page)
        && !Locked(k, status, page / 64)
  }

  /** No other page that shares its byte of lock bits is locked. */
  predicate OthersUnlocked(status: seq<Octet>, page: nat)
    requires page / 8 < |status|
  {
    forall k | 0 <= k < 8 && k != page % 8 :: Bit(status[page / 8], k)
  }

  lemma StaysSame(status: seq<Octet>)
    ensures OnlyCleared(status, status)
  {
    forall a | 0 <= a < |status|
      ensures BitsCleared(status[a], status[a])
    {
    }
  }

  lemma LockWrite(k: Kind, status: seq<Octet>, page: nat, hasPulse: bool)
    requires |status| == StatusSize(k) && ValidKind(k)
    ensures LockWritten(k, status, page, hasPulse) ==> CanWrite(k, status, 1, page / 8, 1, hasPulse)
    ensures CanWrite(k, status, 1, page / 8, 1, hasPulse) && !Locked(k, status, page) ==>
            LockWritten(k, status, page, hasPulse)
    ensures RedirectLockedAt(k, status, 1, page / 8) == RedirectLocked(k, status, page / 64)
  {
    assert page / 8 / 8 == page / 64;
    assert NoneLocked(k, status, 1, page / 8, 1)
           == (NoneLocked(k, status, 1, page / 8, 0) && !LockedAt(k, status, 1, page / 8));
  }

  lemma OneByteBurnt(mem0: seq<Octet>, at: nat, data: Octet, mem: seq<Octet>)
    requires mem == mem0 || PartlyBurnt(mem0, at, [data], mem)
    requires at < |mem0|
    ensures mem == mem0 || mem == mem0[at := Burnt(mem0[at], data)]
    ensures OnlyCleared(mem0, mem)
  {
    if mem == mem0 {
      StaysSame(mem0);
    } else {
      BurningClears(mem0, at, [data], mem);
    }
  }

  /** A page is locked once its bit has been programmed, and no other page's state has changed. */
  lemma OnlyThatPage(k: Kind, status: seq<Octet>, page: nat, q: nat)
    requires |status| == StatusSize(k) && ValidKind(k) && page / 8 < |status| && page / 64 <= Pages(k, 1)
    requires STATUS_PAGE * (page / 64) + STATUS_PAGE <= |status|
    ensures Locked(k, WithLock(status, page), q) <==> Locked(k, status, q) || q == page
  {
    LockBits(status, page);
    if q / 8 == page / 8 {
      assert q % 8 == page % 8 ==> q == page;
    }
  }

  lemma LockedByNow(k: Kind, status: seq<Octet>, page: nat, hasPulse: bool)
    requires |status| == StatusSize(k) && ValidKind(k) && LockWritten(k, status, page, hasPulse)
    ensures Locked(k, WithLock(status, page), page)
  {
    DivBy64(page);
    OnlyThatPage(k, status, page, page);
  }

  /** The bits of a byte of lock bits once one page's has been programmed. */
  lemma LockBits(status: seq<Octet>, page: nat)
    requires page / 8 < |status|
    ensures forall k | 0 <= k < 8 :: Bit(WithLock(status, page)[page / 8], k) <==>
            Bit(status[page / 8], k) && k != page % 8
    ensures Burnt(status[page / 8], LockByte(page)) == LockByte(page) <==> OthersUnlocked(status, page)
  {
    var x, b := status[page / 8], LockByte(page);
    EightBits();
    MaskGrows(page % 8, 8);
    forall k | 0 <= k < 8
      ensures Bit(b, k) <==> k != page % 8
      ensures Bit(Burnt(x, b), k) <==> Bit(x, k) && k != page % 8
    {
      BitOfNot(Mask(page % 8), 8, k);
      BitOfMask(page % 8, k);
      BitOfAnd(x, b, k);
    }
    if OthersUnlocked(status, page) {
      SameBits(Burnt(x, b), b, 8);
    }
  }

  /** The first n bytes have been gone through: burnt, or, if that may fail, perhaps not. */
  predicate InProgress(mem0: seq<Octet>, at: nat, buff: seq<Octet>, n: nat, mem: seq<Octet>, sure: bool) {
    && n <= |buff| && PartlyBurnt(mem0, at, buff, mem)
    && (forall a | at + n <= a < |mem| :: mem[a] == mem0[a]) && (sure ==> BurntUpTo(mem0, at, buff, n, mem))
  }

  lemma BurnStep(mem0: seq<Octet>, at: nat, buff: seq<Octet>, i: nat, mem: seq<Octet>, mem': seq<Octet>, sure: bool)
    requires i < |buff| && InProgress(mem0, at, buff, i, mem, sure)
    requires mem' == mem[at + i := Burnt(mem[at + i], buff[i])] || (!sure && mem' == mem)
    ensures InProgress(mem0, at, buff, i + 1, mem', sure) && Burnt(mem[at + i], buff[i]) == Burnt(mem0[at + i], buff[i])
    ensures sure && |buff| == 1 ==> mem' == mem0[at := Burnt(mem0[at], buff[0])]
  {
    assert mem[at + i] == mem0[at + i];
  }

  /** One byte has been programmed, and success reported if it is not read back, or reads as wanted. */
  predicate BurntOne(mem0: seq<Octet>, at: nat, data: Octet, mem: seq<Octet>, ok: bool, verify: bool) {
    at < |mem0| && mem == mem0[at := Burnt(mem0[at], data)] && (ok <==> !verify || Burnt(mem0[at], data) == data)
  }

  /** The first n bytes have been burnt, and the last of them does not read as wanted. */
  predicate StoppedAt(mem0: seq<Octet>, at: nat, buff: seq<Octet>, mem: seq<Octet>, n: nat) {
    0 < n <= |buff| && BurntUpTo(mem0, at, buff, n, mem) && mem[at + n - 1] != buff[n - 1]
  }

  /** A success has burnt the whole buffer, a failure as far as a byte that does not read as wanted. */
  ghost predicate BurntAsFar(mem0: seq<Octet>, at: nat, buff: seq<Octet>, mem: seq<Octet>, ok: bool) {
    if ok then BurntUpTo(mem0, at, buff, |buff|, mem)
    else exists n: nat :: StoppedAt(mem0, at, buff, mem, n)
  }

  /** Every byte can become what is wanted: all bits of it are still set. */
  predicate TakesAll(mem0: seq<Octet>, at: nat, buff: seq<Octet>) {
    at + |buff| <= |mem0| && forall i | 0 <= i < |buff| :: BitsCleared(mem0[at + i], buff[i])
  }

  /** Then burning leaves just the byte wanted, and not otherwise. */
  lemma BurntIsWanted(x: Octet, data: Octet)
    ensures Burnt(x, data) == data <==> BitsCleared(x, data)
  {
    EightBits();
    forall k: nat | k < 8
      ensures Bit(Burnt(x, data), k) <==> Bit(x, k) && Bit(data, k)
    {
      BitOfAnd(x, data, k);
    }
    if BitsCleared(x, data) {
      SameBits(Burnt(x, data), data, 8);
    }
  }

  /** So a write that is carried out succeeds if every byte can become what is wanted, and the memory then holds
      just the buffer there. */
  lemma TakenAllBurnt(mem0: seq<Octet>, at: nat, buff: seq<Octet>, mem: seq<Octet>, ok: bool)
    requires TakesAll(mem0, at, buff) && BurntAsFar(mem0, at, buff, mem, ok)
    ensures ok && mem == mem0[..at] + buff + mem0[at + |buff|..]
  {
    forall i | 0 <= i < |buff|
      ensures Burnt(mem0[at + i], buff[i]) == buff[i]
    {
      BurntIsWanted(mem0[at + i], buff[i]);
    }
    forall n: nat
      ensures !StoppedAt(mem0, at, buff, mem, n)
    {
      assert 0 < n <= |buff| ==> var i := n - 1; Burnt(mem0[at + i], buff[i]) == buff[i];
    }
    var want := mem0[..at] + buff + mem0[at + |buff|..];
    assert |want| == |mem0| && forall a | 0 <= a < |mem0| ::
             want[a] == if at <= a < at + |buff| then buff[a - at] else mem0[a];
    forall a | at <= a < at + |buff|
      ensures Burnt(mem0[a], buff[a - at]) == buff[a - at]
    {
      var i := a - at;
      assert mem0[at + i] == mem0[a];
    }
  }

  /** Blank memory takes everything. */
  lemma BlankTakesAll(mem0: seq<Octet>, at: nat, buff: seq<Octet>)
    requires at + |buff| <= |mem0| && forall a | at <= a < at + |buff| :: mem0[a] == 0xFF
    ensures TakesAll(mem0, at, buff)
  {
    AllBitsSet();
    forall i | 0 <= i < |buff|
      ensures BitsCleared(mem0[at + i], buff[i])
    {
      assert mem0[at + i] == 0xFF;
    }
  }

  lemma AllBitsSet()
    ensures forall k | 0 <= k < 8 :: Bit(0xFF, k)
  {
    assert Bit(0xFF, 0) && Bit(0xFF, 1) && Bit(0xFF, 2) && Bit(0xFF, 3);
    assert Bit(0xFF, 4) && Bit(0xFF, 5) && Bit(0xFF, 6) && Bit(0xFF, 7);
  }

  /** Where the banks lie: the main memory in pages of 32 bytes; of the status memory, in pages of eight, the
      lock bits, the lock bits of redirection, a bitmap of pages used, and the redirection bytes. No two of
      those share a byte. */
  lemma BanksByByte(k: Kind, bank: nat)
    requires ValidKind(k) && HasBank(k, bank)
    ensures var at, len := Start(k, bank), PageLength(bank) * Pages(k, bank);
            match k
            case Small => bank <= 1 && at == 0 && len == (if bank == 0 then 128 else 8)
            case Large(m, l) =>
              && bank <= 4
              && at == (match bank case 0 => 0 case 1 => 0 case 2 => 32 case 3 => 64 case _ => 256)
              && len == (match bank case 0 => 32 * m case 1 => 8 * l case 2 => 8 * l
                         case 3 => (if l == 4 then 24 else 8) case _ => m)
    ensures 1 <= bank < 4 && k.Large? ==> Start(k, bank) + PageLength(bank) * Pages(k, bank) <= Start(k, bank + 1)
  {
  }

  /** A write is carried out exactly when there is a programming pulse, the bytes fit the bank, and no byte
      lies on a page whose lock bit is cleared. */
  lemma WritableByByte(k: Kind, status: seq<Octet>, bank: nat, strAdd: nat, len: nat, hasPulse: bool)
    requires |status| == StatusSize(k)
    ensures CanWrite(k, status, bank, strAdd, len, hasPulse) <==>
              && hasPulse && strAdd + len <= PageLength(bank) * Pages(k, bank)
              && NoneOnLockedPage(k, status, bank, Start(k, bank) + strAdd, len)
  {
    NoneLockedAll(k, status, bank, strAdd, len);
  }

  /** The page of an address counts as locked. */
  predicate OnLockedPage(k: Kind, status: seq<Octet>, bank: nat, a: nat)
    requires |status| == StatusSize(k)
  {
    Locked(k, status, if bank == 0 then a / 32 else a / 8)
  }

  predicate NoneOnLockedPage(k: Kind, status: seq<Octet>, bank: nat, at: nat, len: nat)
    requires |status| == StatusSize(k)
  {
    forall a: nat | at <= a < at + len :: !OnLockedPage(k, status, bank, a)
  }

  lemma {:induction false} NoneLockedAll(k: Kind, status: seq<Octet>, bank: nat, strAdd: nat, len: nat)
    requires |status| == StatusSize(k)
    ensures NoneLocked(k, status, bank, strAdd, len) <==>
              NoneOnLockedPage(k, status, bank, Start(k, bank) + strAdd, len)
  {
    if len > 0 {
      NoneLockedAll(k, status, bank, strAdd, len - 1);
      SameCheckedPage(k, status, bank, strAdd + len - 1);
      OneByteMore(k, status, bank, Start(k, bank) + strAdd, len);
    }
  }

  lemma OneByteMore(k: Kind, status: seq<Octet>, bank: nat, at: nat, len: nat)
    requires |status| == StatusSize(k) && len > 0
    ensures NoneOnLockedPage(k, status, bank, at, len) <==>
              NoneOnLockedPage(k, status, bank, at, len - 1) && !OnLockedPage(k, status, bank, at + len - 1)
  {
    assert forall a: nat | at <= a < at + len && !(at <= a < at + (len - 1)) ::
             OnLockedPage(k, status, bank, a) == OnLockedPage(k, status, bank, at + len - 1);
  }

  lemma SameCheckedPage(k: Kind, status: seq<Octet>, bank: nat, addr: nat)
    requires |status| == StatusSize(k)
    ensures LockedAt(k, status, bank, addr) == OnLockedPage(k, status, bank, Start(k, bank) + addr)
  {
  }

  /** The page number writeEPROM checks for a byte of a bank. */
  function CheckedPage(k: Kind, bank: nat, addr: nat): nat {
    if bank == 0 then (addr + Start(k, bank)) / MAIN_PAGE else (addr + Start(k, bank)) / STATUS_PAGE
  }

  predicate LockedAt(k: Kind, status: seq<Octet>, bank: nat, addr: nat)
    requires |status| == StatusSize(k)
  {
    Locked(k, status, CheckedPage(k, bank, addr))
  }

  predicate RedirectLockedAt(k: Kind, status: seq<Octet>, bank: nat, addr: nat)
    requires |status| == StatusSize(k) && ValidKind(k)
  {
    RedirectLocked(k, status, CheckedPage(k, bank, addr))
  }

  predicate NoneLocked(k: Kind, status: seq<Octet>, bank: nat, strAdd: nat, len: nat)
    requires |status| == StatusSize(k)
  {
    len == 0 || (NoneLocked(k, status, bank, strAdd, len - 1) && !LockedAt(k, status, bank, strAdd + len - 1))
  }

  lemma {:induction false} NoneLockedStep(k: Kind, status: seq<Octet>, bank: nat, strAdd: nat, i: nat, len: nat)
    requires |status| == StatusSize(k) && i < len
    ensures NoneLocked(k, status, bank, strAdd, i + 1)
            == (NoneLocked(k, status, bank, strAdd, i) && !LockedAt(k, status, bank, strAdd + i))
    ensures LockedAt(k, status, bank, strAdd + i) ==> !NoneLocked(k, status, bank, strAdd, len)
    decreases len
  {
    if i + 1 < len {
      NoneLockedStep(k, status, bank, strAdd, i, len - 1);
    }
  }

  /** A write that is carried out. */
  predicate CanWrite(k: Kind, status: seq<Octet>, bank: nat, strAdd: nat, len: nat, hasPulse: bool)
    requires |status| == StatusSize(k)
  {
    && hasPulse && strAdd + len <= PageLength(bank) * Pages(k, bank)
    && NoneLocked(k, status, bank, strAdd, len)
  }
}
