/** The error stack of owerr.c: a ring of slots and the index of the topmost one. Seen from the
    top it is a sequence of fixed length, in which 0 means that no error was set. */
module ErrorStack {

  /** The slot that lies k below the top. */
  function Slot(size: nat, pointer: nat, k: nat): (i: nat)
    requires pointer < size && k < size
    ensures i < size
  {
    if k <= pointer then pointer - k else pointer - k + size
  }

  /** One slot up: what lay k below the top now lies k + 1 below it, and the deepest slot is the top. */
  lemma NextSlot(size: nat, pointer: nat)
    requires pointer < size
    ensures (pointer + 1) % size == if pointer + 1 == size then 0 else pointer + 1
    ensures forall k: nat | k + 1 < size :: Slot(size, (pointer + 1) % size, k + 1) == Slot(size, pointer, k)
  {
  }

  class Errors {
    const owErrorStack: array<int>
    var owErrorPointer: nat

    ghost predicate Valid()
      reads this
    {
      owErrorPointer < owErrorStack.Length
    }

    /** All slots, topmost first. */
    ghost function View(): (v: seq<int>)
      requires Valid()
      reads this, owErrorStack
      ensures |v| == owErrorStack.Length
    {
      seq(owErrorStack.Length,
          k requires 0 <= k < owErrorStack.Length && Valid() reads this, owErrorStack =>
            owErrorStack[Slot(owErrorStack.Length, owErrorPointer, k)])
    }

    constructor (size: nat)
      requires size >= 1
      ensures Valid() && fresh(owErrorStack) && View() == Zeros(size)
    {
      owErrorStack := new int[size](_ => 0);
      owErrorPointer := 0;
    }

    method OwGetErrorNum() returns (i: int)
      requires Valid()
      modifies this, owErrorStack
      ensures Valid() && i == old(View())[0] && View() == Popped(old(View()))
    {
      i := owErrorStack[owErrorPointer];
      owErrorStack[owErrorPointer] := 0;
      if owErrorPointer == 0 {
        owErrorPointer := owErrorStack.Length - 1;
      } else {
        owErrorPointer := owErrorPointer - 1;
      }
    }

    method OwClearError()
      requires Valid()
      modifies owErrorStack
      ensures Valid() && View() == old(View())[0 := 0]
    {
      owErrorStack[owErrorPointer] := 0;
    }

    method OwHasErrors() returns (yes: bool)
      requires Valid()
      ensures yes <==> View()[0] != 0
    {
      if owErrorStack[owErrorPointer] != 0 {
        return true;
      } else {
        return false;
      }
    }

    method OwRaiseError(err: int)
      requires Valid()
      modifies this, owErrorStack
      ensures Valid() && View() == Pushed(old(View()), err)
    {
      NextSlot(owErrorStack.Length, owErrorPointer);
      owErrorPointer := (owErrorPointer + 1) % owErrorStack.Length;
      owErrorStack[owErrorPointer] := err;
      assert forall k | 0 <= k < owErrorStack.Length :: View()[k] == Pushed(old(View()), err)[k];
    }
  }

  function Zeros(n: nat): (z: seq<int>)
    ensures |z| == n
  {
    seq(n, _ => 0)
  }

  /** A new top; the deepest slot is given up. */
  function Pushed(v: seq<int>, err: int): (w: seq<int>)
    requires v != []
    ensures |w| == |v|
  {
    [err] + v[..|v| - 1]
  }

  /** The top is gone; an unset slot comes up at the bottom. */
  function Popped(v: seq<int>): (w: seq<int>)
    requires v != []
    ensures |w| == |v|
  {
    v[1..] + [0]
  }

  // ----- the ring as a bounded stack

  datatype Op = Raise(err: int) | Get | Has

  /** A run of the ring: its view after the operations, and what they returned. */
  function RingRun(v: seq<int>, ops: seq<Op>): (r: (seq<int>, seq<int>))
    requires v != []
    ensures |r.0| == |v|
  {
    if ops == [] then (v, [])
    else
      var (w, out) := RingRun(v, ops[..|ops| - 1]);
      match ops[|ops| - 1]
      case Raise(e) => (Pushed(w, e), out)
      case Get => (Popped(w), out + [w[0]])
      case Has => (w, out + [if w[0] != 0 then 1 else 0])
  }

  /** The same run on an ordinary list that keeps at most size errors and forgets the oldest. */
  function StackRun(size: nat, ops: seq<Op>): (r: (seq<int>, seq<int>))
    ensures |r.0| <= size
  {
    if ops == [] then ([], [])
    else
      var (s, out) := StackRun(size, ops[..|ops| - 1]);
      match ops[|ops| - 1]
      case Raise(e) => (([e] + s)[..if |s| < size then |s| + 1 else size], out)
      case Get => if s == [] then (s, out + [0]) else (s[1..], out + [s[0]])
      case Has => (s, out + [if s != [] then 1 else 0])
  }

  /** Only real errors are raised: 0 stands for none. */
  predicate RealErrors(ops: seq<Op>) {
    forall i | 0 <= i < |ops| :: ops[i].Raise? ==> ops[i].err != 0
  }

  /** The errors of a stack on a bed of unset slots. */
  function Padded(size: nat, s: seq<int>): (v: seq<int>)
    requires |s| <= size
    ensures |v| == size
  {
    s + Zeros(size - |s|)
  }

  lemma PushOnStack(size: nat, s: seq<int>, e: int)
    requires |s| <= size && size >= 1
    ensures Pushed(Padded(size, s), e) == Padded(size, ([e] + s)[..if |s| < size then |s| + 1 else size])
  {
  }

  lemma PopFromStack(size: nat, s: seq<int>)
    requires |s| <= size && size >= 1
    ensures Popped(Padded(size, s)) == Padded(size, if s == [] then s else s[1..])
  {
  }

  /** On every run of raises, gets and queries the ring returns what the bounded stack returns, and
      its view is the stack on a bed of unset slots. */
  lemma {:induction false} RingIsBoundedStack(size: nat, ops: seq<Op>)
    requires size >= 1 && RealErrors(ops)
    ensures RingRun(Zeros(size), ops).1 == StackRun(size, ops).1
    ensures var s := StackRun(size, ops).0;
            RingRun(Zeros(size), ops).0 == Padded(size, s) && 0 !in s
  {
    if ops != [] {
      var s := StackRun(size, ops[..|ops| - 1]).0;
      RingIsBoundedStack(size, ops[..|ops| - 1]);
      match ops[|ops| - 1]
      case Raise(e) => PushOnStack(size, s, e);
      case Get => PopFromStack(size, s);
      case Has =>
    }
  }

  /** Raising any errors and then getting as often as there are slots gives the most recent ones,
      newest first, and then zeros: the ring forgets the oldest, never the newest. */
  lemma {:induction false} LatestErrorsComeBack(v: seq<int>, errs: seq<int>, n: nat)
    requires |v| >= 1 && n <= |v|
    ensures var w := Raised(v, errs);
            forall k | 0 <= k < n :: Taken(w, n)[k] == (if k < |errs| then errs[|errs| - 1 - k] else v[k - |errs|])
  {
    RaisedAt(v, errs);
    TakenAt(Raised(v, errs), n);
  }

  function Raised(v: seq<int>, errs: seq<int>): (w: seq<int>)
    requires v != []
    ensures |w| == |v|
  {
    if errs == [] then v else Pushed(Raised(v, errs[..|errs| - 1]), errs[|errs| - 1])
  }

  /** What n gets return, in order. */
  function Taken(v: seq<int>, n: nat): (out: seq<int>)
    requires v != []
    ensures |out| == n
    decreases n
  {
    if n == 0 then [] else [v[0]] + Taken(Popped(v), n - 1)
  }

  lemma {:induction false} RaisedAt(v: seq<int>, errs: seq<int>)
    requires v != []
    ensures forall k | 0 <= k < |v| :: Raised(v, errs)[k] == if k < |errs| then errs[|errs| - 1 - k] else v[k - |errs|]
  {
    if errs != [] {
      RaisedAt(v, errs[..|errs| - 1]);
    }
  }

  lemma {:induction false} TakenAt(v: seq<int>, n: nat)
    requires v != []
    ensures forall k | 0 <= k < n :: Taken(v, n)[k] == if k < |v| then v[k] else 0
    decreases n
  {
    if n > 0 {
      TakenAt(Popped(v), n - 1);
    }
  }

  /** owClearError empties the stack, as its comment says, exactly when nothing lies below the top.
      Otherwise it only hides what does: one get later the next error is on top again. */
  lemma ClearEmptiesOnlyTheTop(v: seq<int>)
    requires v != []
    ensures v[0 := 0] == Zeros(|v|) <==> v[1..] == Zeros(|v| - 1)
    ensures |v| > 1 ==> Taken(v[0 := 0], 2) == [0, v[1]]
  {
    if v[0 := 0] == Zeros(|v|) {
      assert v[1..] == v[0 := 0][1..] == Zeros(|v|)[1..];
    }
    if |v| > 1 {
      TakenAt(v[0 := 0], 2);
    }
  }
}
