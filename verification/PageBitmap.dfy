/** The page allocation bitmap of owfile.c on read-write memory: one bit per page, 1 when the
    page is taken. */
module PageBitmap {
  import opened Octets

  function OctetBits(x: Octet): (b: seq<bool>)
    ensures |b| == 8
  {
    [Bit(x, 0), Bit(x, 1), Bit(x, 2), Bit(x, 3), Bit(x, 4), Bit(x, 5), Bit(x, 6), Bit(x, 7)]
  }

  /** Which pages a bitmap marks as taken. */
  function Taken(bm: seq<Octet>): (u: seq<bool>)
    ensures |u| == 8 * |bm|
  {
    if bm == [] then [] else Taken(bm[..|bm| - 1]) + OctetBits(bm[|bm| - 1])
  }

  lemma {:induction false} TakenAt(bm: seq<Octet>, q: nat, k: nat)
    requires q < |bm| && k < 8
    ensures Taken(bm)[8 * q + k] == Bit(bm[q], k)
    decreases |bm|
  {
    if q < |bm| - 1 {
      TakenAt(bm[..|bm| - 1], q, k);
    } else {
      OctetBitsAt(bm[q], k);
    }
  }

  lemma OctetBitsAt(x: Octet, k: nat)
    requires k < 8
    ensures OctetBits(x)[k] == Bit(x, k)
  {
    if k == 0 {
    } else if k == 1 {
    } else if k == 2 {
    } else if k == 3 {
    } else if k == 4 {
    } else if k == 5 {
    } else if k == 6 {
    } else {
    }
  }

  /** The pages from i to maxP that are not taken, in increasing order. */
  function FreePages(u: seq<bool>, i: nat, maxP: nat): (f: seq<nat>)
    requires maxP < |u|
    decreases maxP + 1 - i
  {
    if i > maxP then [] else (if u[i] then [] else [i]) + FreePages(u, i + 1, maxP)
  }

  function First(f: seq<nat>): nat { if |f| > 0 then f[0] else 0 }

  function Second(f: seq<nat>): nat { if |f| > 1 then f[1] else 0 }

  /** A byte shifted down k places. */
  function ShiftedDown(x: nat, k: nat): nat {
    if k == 0 then x else ShiftedDown(x, k - 1) / 2
  }

  lemma {:induction false} LowBitOfShifted(x: nat, k: nat)
    ensures Bit(x, k) <==> ShiftedDown(x, k) % 2 == 1
    ensures k > 0 ==> ShiftedDown(x, k) == ShiftedDown(x / 2, k - 1)
    decreases k
  {
    if k > 0 {
      LowBitOfShifted(x / 2, k - 1);
      if k > 1 {
        LowBitOfShifted(x, k - 1);
      }
    }
  }

  lemma NextInByte(q: nat, k: nat, i: nat)
    requires q == i / 8 && k == i % 8
    ensures i == 8 * q + k
    ensures if k == 7 then (i + 1) % 8 == 0 else (i + 1) % 8 == k + 1 && (i + 1) / 8 == q
    ensures (i + 8) / 8 == q + 1 && (i + 7) / 8 == if k == 0 then q else q + 1
  {
    assert i == 8 * q + k;
  }

  /** Before page i: bcnt bytes have been fetched, and t is the last one shifted down to that page's
      bit; at the first page of a byte that byte is still to be fetched. */
  predicate AtPage(bm: seq<Octet>, i: nat, t: nat, bcnt: nat) {
    if i % 8 == 0 then bcnt == i / 8 else i / 8 < |bm| && bcnt == i / 8 + 1 && t == ShiftedDown(bm[i / 8], i % 8)
  }

  lemma AdvancePage(bm: seq<Octet>, i: nat, t: nat)
    requires i / 8 < |bm| && t == ShiftedDown(bm[i / 8], i % 8)
    ensures AtPage(bm, i + 1, t / 2, i / 8 + 1) && i < |Taken(bm)| && Taken(bm)[i] == (t % 2 == 1)
  {
    var q, k := i / 8, i % 8;
    NextInByte(q, k, i);
    LowBitOfShifted(bm[q], k);
    TakenAt(bm, q, k);
    assert ShiftedDown(bm[q], k + 1) == t / 2;
  }

  lemma FreeStep(u: seq<bool>, i: nat, maxP: nat)
    requires i <= maxP < |u|
    ensures FreePages(u, i, maxP) == (if u[i] then [] else [i]) + FreePages(u, i + 1, maxP)
  {
  }

  /** Fetches the next byte of the bitmap when the first of its pages is reached. */
  method Fetch(bm: array<Octet>, i: nat, t0: nat, bcnt0: nat) returns (t: nat, bcnt: nat)
    requires i < 8 * bm.Length && AtPage(bm[..], i, t0, bcnt0)
    ensures i / 8 < bm.Length && t == ShiftedDown(bm[i / 8], i % 8) && bcnt == i / 8 + 1
  {
    t, bcnt := t0, bcnt0;
    InRange(bm[..], i);
    if i % 8 == 0 {
      t := bm[bcnt];
      bcnt := bcnt + 1;
    }
  }

  /** How far the search has come: no free page met yet, or one. */
  predicate Searched(u: seq<bool>, maxP: nat, i: nat, first: bool, avail: nat)
    requires maxP < |u|
  {
    FreePages(u, 0, maxP) == (if first then [] else [avail]) + FreePages(u, i, maxP)
  }

  lemma SearchStep(u: seq<bool>, maxP: nat, i: nat, first: bool, avail: nat)
    requires i <= maxP < |u| && Searched(u, maxP, i, first, avail)
    ensures u[i] ==> Searched(u, maxP, i + 1, first, avail)
    ensures !u[i] && first ==> Searched(u, maxP, i + 1, false, i)
    ensures !u[i] && !first ==> First(FreePages(u, 0, maxP)) == avail && Second(FreePages(u, 0, maxP)) == i
  {
    FreeStep(u, i, maxP);
  }

  /** FindEmpties: the first and the second page that are not taken, 0 where there is none. Its
      counter is a byte, so a part with 256 pages would keep it going for ever unless two are free. */
  method FindEmpties(bm: array<Octet>, maxP: nat) returns (avail: Octet, next: Octet)
    requires maxP <= 255 && maxP < 8 * bm.Length
    requires maxP == 255 ==> |FreePages(Taken(bm[..]), 0, maxP)| >= 2
    ensures var free := FreePages(Taken(bm[..]), 0, maxP); avail == First(free) && next == Second(free)
  {
    var first, t, bcnt := true, 0, 0;
    avail, next := 0, 0;
    var i := 0;
    ghost var u := Taken(bm[..]);
    while i <= maxP
      invariant i <= maxP + 1 && next == 0 && (first ==> avail == 0)
      invariant AtPage(bm[..], i, t, bcnt)
      invariant Searched(u, maxP, i, first, avail)
    {
      t, bcnt := Fetch(bm, i, t, bcnt);
      AdvancePage(bm[..], i, t);
      SearchStep(u, maxP, i, first, avail);
      if t % 2 == 0 {
        if first {
          avail := i;
          first := false;
        } else {
          next := i;
          return;
        }
      }
      t := t / 2;
      i := i + 1;
    }
  }

  lemma InRange(bm: seq<Octet>, i: nat)
    requires i < 8 * |bm|
    ensures i / 8 < |bm|
  {
  }

  /** A byte with one bit set or cleared the way BitMapChange does it. */
  function Changed(x: Octet, k: nat, state: bool): (y: Octet)
    requires k < 8
  {
    MaskGrows(k, 8);
    EightBits();
    StaysBelow(x, Mask(k), 8);
    StaysBelow(Or(x, Mask(k)), Mask(k), 8);
    if state then Or(x, Mask(k)) else Xor(Or(x, Mask(k)), Mask(k))
  }

  lemma BitOfChanged(x: Octet, k: nat, state: bool, j: nat)
    requires k < 8
    ensures Bit(Changed(x, k, state), j) <==> if j == k then state else Bit(x, j)
  {
    BitOfMask(k, j);
    BitOfOr(x, Mask(k), j);
    BitOfXor(Or(x, Mask(k)), Mask(k), j);
  }

  lemma TakenOfChanged(bm: seq<Octet>, p: nat, state: bool)
    requires p / 8 < |bm|
    ensures Taken(bm[p / 8 := Changed(bm[p / 8], p % 8, state)]) == Taken(bm)[p := state]
  {
    var b := bm[p / 8 := Changed(bm[p / 8], p % 8, state)];
    forall i: nat | i < 8 * |bm|
      ensures Taken(b)[i] == Taken(bm)[p := state][i]
    {
      var q, k := i / 8, i % 8;
      NextInByte(q, k, i);
      NextInByte(p / 8, p % 8, p);
      TakenAt(b, q, k);
      TakenAt(bm, q, k);
      if q == p / 8 {
        BitOfChanged(bm[q], p % 8, state, k);
      }
    }
  }

  /** BitMapChange on read-write memory: marks one page, and no other, as taken or free. */
  method BitMapChange(bm: array<Octet>, maxP: nat, bitNum: Octet, state: Octet) returns (ok: bool)
    requires maxP < 8 * bm.Length
    modifies bm
    ensures ok <==> bitNum <= maxP
    ensures Taken(bm[..]) == if ok then Taken(old(bm[..]))[bitNum as nat := state != 0] else Taken(old(bm[..]))
  {
    if bitNum > maxP {
      return false;
    }
    TakenOfChanged(bm[..], bitNum, state != 0);
    bm[bitNum / 8] := Changed(bm[bitNum / 8], bitNum % 8, state != 0);
    assert bm[..] == old(bm[..])[bitNum / 8 := Changed(old(bm[bitNum / 8]), bitNum % 8, state != 0)];
    return true;
  }

  /** The list of free pages holds exactly the pages not taken. */
  lemma {:induction false} FreePagesAreTheFree(u: seq<bool>, i: nat, maxP: nat, p: nat)
    requires maxP < |u|
    ensures p in FreePages(u, i, maxP) <==> i <= p <= maxP && !u[p]
    decreases maxP + 1 - i
  {
    if i <= maxP {
      FreePagesAreTheFree(u, i + 1, maxP, p);
    }
  }

  /** ... in increasing order. */
  lemma {:induction false} FreePagesIncrease(u: seq<bool>, i: nat, maxP: nat)
    requires maxP < |u|
    ensures var f := FreePages(u, i, maxP);
            (f != [] ==> f[0] >= i) && forall a, b | 0 <= a < b < |f| :: f[a] < f[b]
    decreases maxP + 1 - i
  {
    if i <= maxP {
      FreePagesIncrease(u, i + 1, maxP);
      var f, rest := FreePages(u, i, maxP), FreePages(u, i + 1, maxP);
      if u[i] {
        assert f == rest;
      } else {
        assert forall b | 0 < b < |f| :: f[b] == rest[b - 1];
      }
    }
  }

  /** The list without one page. */
  function Without(f: seq<nat>, p: nat): seq<nat> {
    if f == [] then [] else if f[0] == p then Without(f[1..], p) else [f[0]] + Without(f[1..], p)
  }

  /** Taking a page removes it from the list of free pages and leaves the rest in order. */
  lemma {:induction false} TakingRemoves(u: seq<bool>, i: nat, maxP: nat, p: nat)
    requires maxP < |u| && p <= maxP
    ensures FreePages(u[p := true], i, maxP) == Without(FreePages(u, i, maxP), p)
    decreases maxP + 1 - i
  {
    if i <= maxP {
      TakingRemoves(u, i + 1, maxP, p);
      var f, rest := FreePages(u, i, maxP), FreePages(u, i + 1, maxP);
      if u[i] {
        assert f == rest;
      } else {
        assert f[0] == i && f[1..] == rest;
      }
    }
  }

  lemma {:induction false} WithoutAbsent(f: seq<nat>, p: nat)
    requires p !in f
    ensures Without(f, p) == f
  {
    if f != [] {
      WithoutAbsent(f[1..], p);
    }
  }

  /** Claiming the first free page makes the second the first: pages are handed out in increasing
      order, each of them free until then. */
  lemma ClaimFirst(u: seq<bool>, maxP: nat)
    requires maxP < |u| && FreePages(u, 0, maxP) != []
    ensures var f := FreePages(u, 0, maxP); f[0] <= maxP && !u[f[0]] && FreePages(u[f[0] := true], 0, maxP) == f[1..]
  {
    var f := FreePages(u, 0, maxP);
    FreePagesAreTheFree(u, 0, maxP, f[0]);
    FreePagesIncrease(u, 0, maxP);
    TakingRemoves(u, 0, maxP, f[0]);
    WithoutAbsent(f[1..], f[0]);
  }

  /** The pages taken after n claims, each of the page that is the first free one then. */
  function AfterClaims(u: seq<bool>, maxP: nat, n: nat): (v: seq<bool>)
    requires maxP < |u|
    ensures |v| == |u|
  {
    if n == 0 then u
    else
      var v := AfterClaims(u, maxP, n - 1);
      var p := First(FreePages(v, 0, maxP));
      if p < |v| then v[p := true] else v
  }

  lemma OneMore(f: seq<nat>, n: nat)
    requires n < |f|
    ensures f[n..][1..] == f[n + 1..] && f[n..][0] == f[n] && forall p :: p in f[..n + 1] <==> p in f[..n] || p == f[n]
  {
    assert f[..n + 1] == f[..n] + [f[n]];
  }

  /** Claim after claim hands out the free pages in their order, and just those given out so far are newly
      taken. */
  lemma {:induction false} ClaimsInOrder(u: seq<bool>, maxP: nat, n: nat)
    requires maxP < |u| && n <= |FreePages(u, 0, maxP)|
    ensures var f, v := FreePages(u, 0, maxP), AfterClaims(u, maxP, n);
            && FreePages(v, 0, maxP) == f[n..] && (n < |f| ==> First(FreePages(v, 0, maxP)) == f[n] < |u| && !u[f[n]])
            && |v| == |u| && forall p | 0 <= p < |u| :: v[p] == (u[p] || p in f[..n])
  {
    var f := FreePages(u, 0, maxP);
    if n < |f| {
      FreePagesAreTheFree(u, 0, maxP, f[n]);
    }
    if n > 0 {
      ClaimsInOrder(u, maxP, n - 1);
      ClaimFirst(AfterClaims(u, maxP, n - 1), maxP);
      OneMore(f, n - 1);
    }
  }
}
