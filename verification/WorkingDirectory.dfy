/** The current directory of owfile.c: the path of directories entered, and owChangeDirectory, which
    follows a list of names from the root or from the current directory. */
module WorkingDirectory {
  import opened Octets
  import opened Directory
  import opened DirectorySearch
  import opened FileChain
  import opened FileNames

  const MAX_DEPTH := 10
  const DOT: Octet := 0x2E

  /** A directory entered: its name, the page it starts on, and its attribute. */
  datatype Level = Level(name: seq<Octet>, page: Octet, attrib: Octet)

  /** A name as it stands in a path: four characters. */
  type Component = c: seq<Octet> | |c| == 4 witness [0, 0, 0, 0]

  datatype Outcome = Rejected | Path(levels: seq<Level>)

  predicate IsBack(c: Component) { c[0] == DOT && c[1] == DOT }

  predicate IsForward(c: Component) { c[0] != DOT }

  /** The page of the directory a path leads to. */
  function Here(p: seq<Level>): Octet { if p == [] then 0 else p[|p| - 1].page }

  /** A directory tree: for each page that a directory entry, or the root, can lead to, the chain of
      that directory, if there is one on that page. */
  type Tree = map<nat, seq<nat>>

  predicate Rooted(pages: seq<Page>, s: nat, chain: seq<nat>)
    requires ValidPages(pages)
  {
    Searchable(pages, s, chain)
  }

  predicate LeadsInto(pages: seq<Page>, tree: Tree, s: nat)
    requires ValidPages(pages) && s in tree && Rooted(pages, s, tree[s])
  {
    HasHeader(pages, s) ==> forall i | 0 <= i < |Listing(pages, tree[s])| ::
        EntryLeadsInto(Listing(pages, tree[s])[i], tree)
  }

  predicate EntryLeadsInto(e: Entry, tree: Tree) { e[4] % 128 == DIR_EXT ==> e[5] as nat in tree }

  predicate IsTree(pages: seq<Page>, tree: Tree)
    requires ValidPages(pages)
  {
    0 in tree && forall s | s in tree :: Rooted(pages, s, tree[s]) && LeadsInto(pages, tree, s)
  }

  /** In no directory of the tree can a search for a directory of this name be misled. */
  predicate HarmlessTree(pages: seq<Page>, tree: Tree, name: Component)
    requires ValidPages(pages) && IsTree(pages, tree)
  {
    forall s | s in tree :: HarmlessDirectory(pages, tree, s, name)
  }

  predicate HarmlessDirectory(pages: seq<Page>, tree: Tree, s: nat, name: Component)
    requires ValidPages(pages) && s in tree
  {
    Rooted(pages, s, tree[s]) && (HasHeader(pages, s) ==> Harmless(pages, tree[s], name, DIR_EXT))
  }

  /** Every level of the path is in the tree. */
  predicate InTree(tree: Tree, p: seq<Level>) {
    0 in tree && forall i | 0 <= i < |p| :: p[i].page as nat in tree
  }

  /** Entering the directory of a name: the first entry of that name with the directory extension. */
  function Enter(pages: seq<Page>, tree: Tree, p: seq<Level>, name: Component): Outcome
    requires ValidPages(pages) && IsTree(pages, tree) && InTree(tree, p)
  {
    var s := Here(p);
    if !HasHeader(pages, s) then Rejected
    else
      assert Rooted(pages, s, tree[s]);
      var es := Listing(pages, tree[s]);
      var i := FirstMatch(es, name, DIR_EXT);
      if i < |es| then Path(p + [Level(name, es[i][5], AttribOf(es[i]))]) else Rejected
  }

  /** One component of a path. */
  function Step(pages: seq<Page>, tree: Tree, p: seq<Level>, c: Component): Outcome
    requires ValidPages(pages) && IsTree(pages, tree) && InTree(tree, p)
  {
    if IsBack(c) then (if p == [] then Rejected else Path(p[..|p| - 1]))
    else if IsForward(c) then Enter(pages, tree, p, UpperName(c))
    else Path(p)
  }

  lemma StepStaysInTree(pages: seq<Page>, tree: Tree, p: seq<Level>, c: Component)
    requires ValidPages(pages) && IsTree(pages, tree) && InTree(tree, p)
    ensures Step(pages, tree, p, c).Path? ==> InTree(tree, Step(pages, tree, p, c).levels)
  {
    if IsForward(c) && Step(pages, tree, p, c).Path? {
      EntryInTree(pages, tree, Here(p), UpperName(c));
    }
  }

  lemma EntryInTree(pages: seq<Page>, tree: Tree, s: nat, name: Component)
    requires ValidPages(pages) && IsTree(pages, tree) && s in tree && HasHeader(pages, s)
    ensures Rooted(pages, s, tree[s])
    ensures var es := Listing(pages, tree[s]); var i := FirstMatch(es, name, DIR_EXT);
            i < |es| ==> es[i][5] as nat in tree
  {
    assert Rooted(pages, s, tree[s]) && LeadsInto(pages, tree, s);
    var es := Listing(pages, tree[s]);
    FirstMatchIsFirst(es, name, DIR_EXT);
    if FirstMatch(es, name, DIR_EXT) < |es| {
      assert EntryLeadsInto(es[FirstMatch(es, name, DIR_EXT)], tree);
    }
  }

  /** Where a list of components leads from a path. */
  function Resolve(pages: seq<Page>, tree: Tree, from: seq<Level>, comps: seq<Component>): (r: Outcome)
    requires ValidPages(pages) && IsTree(pages, tree) && InTree(tree, from)
    ensures r.Path? ==> InTree(tree, r.levels)
  {
    if comps == [] then Path(from)
    else
      match Resolve(pages, tree, from, comps[..|comps| - 1])
      case Rejected => Rejected
      case Path(p) =>
        StepStaysInTree(pages, tree, p, comps[|comps| - 1]);
        Step(pages, tree, p, comps[|comps| - 1])
  }

  /** The ten levels of the path structure are never exceeded on the way. */
  predicate Fits(pages: seq<Page>, tree: Tree, from: seq<Level>, comps: seq<Component>)
    requires ValidPages(pages) && IsTree(pages, tree) && InTree(tree, from)
  {
    forall n | 0 <= n < |comps| :: FitsAt(pages, tree, from, comps, n)
  }

  predicate FitsAt(pages: seq<Page>, tree: Tree, from: seq<Level>, comps: seq<Component>, n: nat)
    requires ValidPages(pages) && IsTree(pages, tree) && InTree(tree, from) && n < |comps|
  {
    var r := Resolve(pages, tree, from, comps[..n]);
    r.Path? && IsForward(comps[n]) ==> |r.levels| < MAX_DEPTH
  }

  /** The current directory. */
  class CurrentDirectory {
    var levels: seq<Level>

    constructor ()
      ensures levels == []
    {
      levels := [];
    }

    /** owChangeDirectory: the current directory becomes the one the components lead to, from where
        it is if the path begins with a dot, else from the root; if they lead nowhere it stays. `stale`
        is what is in memory before each search. */
    method ChangeDirectory(medium: Medium, ref: Octet, comps: seq<Component>, stale: seq<Memory>, ghost tree: Tree)
        returns (ok: bool)
      requires medium.Valid() && IsTree(medium.pages, tree) && InTree(tree, levels)
      requires |stale| == |comps|
      requires forall i | 0 <= i < |comps| && IsForward(comps[i]) ::
               HarmlessTree(medium.pages, tree, UpperName(comps[i]))
      requires Fits(medium.pages, tree, if ref == DOT then levels else [], comps)
      modifies this
      ensures InTree(tree, levels)
      ensures var from := if ref == DOT then old(levels) else [];
              Resolve(medium.pages, tree, from, comps) == if ok then Path(levels) else Rejected
      ensures !ok ==> levels == old(levels)
      ensures var depth := if ref == 0x2E then |old(levels)| else 0;
              && (ok ==> |levels| + Backs(comps) == depth + Forwards(comps))
              && (TooFarBack(depth, comps) ==> !ok)
      ensures OnlyDots(comps) ==> ok && levels == if ref == 0x2E then old(levels) else []
    {
      var tcd := if ref == DOT then levels else [];
      ghost var from := tcd;
      DepthByCounting(medium.pages, tree, from, comps);
      for i := 0 to |comps|
        invariant InTree(tree, tcd) && Walked(medium.pages, tree, from, comps, i, tcd)
        invariant levels == old(levels)
      {
        WalkOn(medium.pages, tree, from, comps, i, tcd);
        ok, tcd := TakeStep(medium, tcd, comps[i], stale[i], tree);
        if !ok {
          RejectedForGood(medium.pages, tree, from, comps, i + 1);
          return;
        }
      }
      assert comps[..|comps|] == comps;
      levels := tcd;
      return true;
    }

    /** One turn of the loop over the components. */
    method TakeStep(medium: Medium, tcd: seq<Level>, c: Component, stale: Memory, ghost tree: Tree)
        returns (ok: bool, next: seq<Level>)
      requires medium.Valid() && IsTree(medium.pages, tree) && InTree(tree, tcd) && (IsForward(c) ==> |tcd| < MAX_DEPTH)
      requires IsForward(c) ==> HarmlessTree(medium.pages, tree, UpperName(c))
      ensures Step(medium.pages, tree, tcd, c) == if ok then Path(next) else Rejected
      ensures ok ==> InTree(tree, next)
    {
      next := tcd;
      StepStaysInTree(medium.pages, tree, tcd, c);
      if c[0] == DOT && c[1] == DOT {
        if |next| > 0 {
          next := next[..|next| - 1];
        } else {
          return false, next;
        }
      } else if !(c[0] == DOT) {
        var name := UpperName(c);
        var pg := if |next| > 0 then next[|next| - 1].page else 0;
        assert HarmlessDirectory(medium.pages, tree, pg, name);
        if HasHeader(medium.pages, pg) {
          HarmlessSearch(medium.pages, tree[pg], stale, name, DIR_EXT);
        }
        var found, info := FindDirectoryInfo(medium, pg, name, DIR_EXT, stale, tree[pg]);
        if !found {
          return false, next;
        }
        next := next + [Level(name, info.spage, info.attrib)];
      }
      return true, next;
    }
  }

  /** The first i components lead to p. */
  predicate Walked(pages: seq<Page>, tree: Tree, from: seq<Level>, comps: seq<Component>, i: nat, p: seq<Level>)
    requires ValidPages(pages) && IsTree(pages, tree) && InTree(tree, from)
  {
    i <= |comps| && Resolve(pages, tree, from, comps[..i]) == Path(p)
  }

  lemma WalkOn(pages: seq<Page>, tree: Tree, from: seq<Level>, comps: seq<Component>, i: nat, p: seq<Level>)
    requires ValidPages(pages) && IsTree(pages, tree) && InTree(tree, from) && InTree(tree, p)
    requires i < |comps| && Walked(pages, tree, from, comps, i, p) && Fits(pages, tree, from, comps)
    ensures IsForward(comps[i]) ==> |p| < MAX_DEPTH
    ensures Resolve(pages, tree, from, comps[..i + 1]) == Step(pages, tree, p, comps[i])
  {
    assert comps[..i + 1][..i] == comps[..i] && FitsAt(pages, tree, from, comps, i);
  }

  /** Once a component is rejected the whole list is. */
  lemma {:induction false} RejectedForGood(pages: seq<Page>, tree: Tree, from: seq<Level>, comps: seq<Component>,
                                           n: nat)
    requires ValidPages(pages) && IsTree(pages, tree) && InTree(tree, from) && n <= |comps|
    requires Resolve(pages, tree, from, comps[..n]) == Rejected
    ensures Resolve(pages, tree, from, comps) == Rejected
    decreases |comps|
  {
    if n < |comps| {
      assert comps[..|comps| - 1][..n] == comps[..n];
      RejectedForGood(pages, tree, from, comps[..|comps| - 1], n);
    } else {
      assert comps[..n] == comps;
    }
  }

  // ----- counting levels

  /** How many of the components begin with two dots, and how many with no dot. */
  function Backs(comps: seq<Component>): nat {
    if comps == [] then 0
    else
      var c := comps[|comps| - 1];
      Backs(comps[..|comps| - 1]) + if c[0] == 0x2E && c[1] == 0x2E then 1 else 0
  }

  function Forwards(comps: seq<Component>): nat {
    if comps == [] then 0
    else Forwards(comps[..|comps| - 1]) + if comps[|comps| - 1][0] != 0x2E then 1 else 0
  }

  /** Somewhere on the way there are more references back than levels to go back from. */
  predicate TooFarBack(depth: nat, comps: seq<Component>) {
    exists n | 0 <= n <= |comps| :: Backs(comps[..n]) > depth + Forwards(comps[..n])
  }

  /** Every component begins with a single dot. */
  predicate OnlyDots(comps: seq<Component>) {
    forall i | 0 <= i < |comps| :: comps[i][0] == 0x2E && comps[i][1] != 0x2E
  }

  /** Where a walk gets to there are as many levels as it began with, and one more for each forward reference
      and one less for each back reference; and it gets nowhere by going too far back. */
  lemma {:induction false} DepthByCounting(pages: seq<Page>, tree: Tree, from: seq<Level>, comps: seq<Component>)
    requires ValidPages(pages) && IsTree(pages, tree) && InTree(tree, from)
    ensures var r := Resolve(pages, tree, from, comps);
            r.Path? ==>
              && |r.levels| + Backs(comps) == |from| + Forwards(comps) && !TooFarBack(|from|, comps)
              && (OnlyDots(comps) ==> r.levels == from)
    ensures OnlyDots(comps) ==> Resolve(pages, tree, from, comps).Path?
  {
    if comps != [] {
      var init := comps[..|comps| - 1];
      DepthByCounting(pages, tree, from, init);
      if Resolve(pages, tree, from, comps).Path? {
        forall n | 0 <= n <= |comps|
          ensures Backs(comps[..n]) <= |from| + Forwards(comps[..n])
        {
          assert if n < |comps| then comps[..n] == init[..n] else comps[..n] == comps;
        }
      }
    }
  }

  /** A component that begins with a single dot may be left out. */
  lemma SingleDotsSkipped(pages: seq<Page>, tree: Tree, from: seq<Level>, a: seq<Component>, c: Component,
                          b: seq<Component>)
    requires ValidPages(pages) && IsTree(pages, tree) && InTree(tree, from) && c[0] == 0x2E && c[1] != 0x2E
    ensures Resolve(pages, tree, from, a + [c] + b) == Resolve(pages, tree, from, a + b)
  {
    ResolveInParts(pages, tree, from, a + [c], b);
    ResolveInParts(pages, tree, from, a, b);
    assert (a + [c])[..|a|] == a;
  }

  /** A level entered, byte by byte: its name is the component in capitals, and in the directory above there
      is an entry of that name, up to the case of letters, with extension 0x7F, that gives its start page; no
      earlier entry is named so. */
  ghost predicate EntersByBytes(pages: seq<Page>, tree: Tree, above: nat, c: Component, l: Level) {
    && ValidPages(pages) && above in tree && HasHeader(pages, above) && IsDirectory(pages, tree[above])
    && |l.name| == 4
    && (forall j | 0 <= j < 4 :: l.name[j] as nat == c[j] as nat - if 0x61 <= c[j] <= 0x7A then 0x20 else 0)
    && exists P: nat :: EnteredBy(Listing(pages, tree[above]), P, c, l)
  }

  predicate EnteredBy(es: seq<Entry>, P: nat, c: Component, l: Level) {
    && P < |es| && NamedSo(es[P], c, 0x7F) && es[P][5] == l.page && l.attrib == (if es[P][4] < 128 then 0 else 2)
    && forall i | 0 <= i < P :: !NamedSo(es[i], c, 0x7F)
  }

  /** What one component does: two dots leave the last level, a single one nothing, and any other name, of
      valid characters, is entered from where one is: page 0, or the page of the last level. */
  lemma StepByBytes(pages: seq<Page>, tree: Tree, p: seq<Level>, c: Component)
    requires ValidPages(pages) && IsTree(pages, tree) && InTree(tree, p)
    ensures c[0] == 0x2E && c[1] == 0x2E ==>
              Resolve(pages, tree, p, [c]) == if p == [] then Rejected else Path(p[..|p| - 1])
    ensures c[0] == 0x2E && c[1] != 0x2E ==> Resolve(pages, tree, p, [c]) == Path(p)
    ensures var r := Resolve(pages, tree, p, [c]);
            ValidName(c) && r.Path? ==>
              && |r.levels| == |p| + 1 && r.levels[..|p|] == p
              && EntersByBytes(pages, tree, if p == [] then 0 else p[|p| - 1].page as nat, c, r.levels[|p|])
  {
    assert [c][..0] == [];
    assert Resolve(pages, tree, p, [c]) == Step(pages, tree, p, c);
    if ValidName(c) && Step(pages, tree, p, c).Path? {
      ValidByRanges(c[0]);
      EnterByBytes(pages, tree, p, c);
    }
  }

  lemma EnterByBytes(pages: seq<Page>, tree: Tree, p: seq<Level>, c: Component)
    requires ValidPages(pages) && IsTree(pages, tree) && InTree(tree, p) && ValidName(c)
    requires Enter(pages, tree, p, UpperName(c)).Path?
    ensures var q := Enter(pages, tree, p, UpperName(c)).levels;
            && |q| == |p| + 1 && q[..|p|] == p
            && EntersByBytes(pages, tree, if p == [] then 0 else p[|p| - 1].page as nat, c, q[|p|])
  {
    var s := Here(p);
    assert HasHeader(pages, s) && Rooted(pages, s, tree[s]);
    var es := Listing(pages, tree[s]);
    FoundByBytes(es, c, DIR_EXT);
    var l := Enter(pages, tree, p, UpperName(c)).levels[|p|];
    assert EnteredBy(es, FirstMatch(es, UpperName(c), DIR_EXT), c, l);
    CapitalsByByte(c);
  }

  lemma CapitalsByByte(c: Component)
    ensures forall j | 0 <= j < 4 ::
              UpperName(c)[j] as nat == c[j] as nat - if 0x61 <= c[j] <= 0x7A then 0x20 else 0
  {
  }

  // ----- what a path means

  /** Level i of a path is the directory found by searching the one above it for its name. */
  predicate RealAt(pages: seq<Page>, tree: Tree, p: seq<Level>, i: nat)
    requires ValidPages(pages) && IsTree(pages, tree) && i < |p|
  {
    InTree(tree, p[..i]) && |p[i].name| == 4 && Enter(pages, tree, p[..i], p[i].name) == Path(p[..i + 1])
  }

  predicate Real(pages: seq<Page>, tree: Tree, p: seq<Level>)
    requires ValidPages(pages) && IsTree(pages, tree)
  {
    forall i | 0 <= i < |p| :: RealAt(pages, tree, p, i)
  }

  /** Following components from a real path leads to a real path. */
  lemma {:induction false} ResolveIsReal(pages: seq<Page>, tree: Tree, from: seq<Level>, comps: seq<Component>)
    requires ValidPages(pages) && IsTree(pages, tree) && InTree(tree, from) && Real(pages, tree, from)
    ensures var r := Resolve(pages, tree, from, comps); r.Path? ==> Real(pages, tree, r.levels)
  {
    if comps != [] && Resolve(pages, tree, from, comps).Path? {
      ResolveIsReal(pages, tree, from, comps[..|comps| - 1]);
      var p := Resolve(pages, tree, from, comps[..|comps| - 1]).levels;
      StepIsReal(pages, tree, p, comps[|comps| - 1]);
    }
  }

  lemma StepIsReal(pages: seq<Page>, tree: Tree, p: seq<Level>, c: Component)
    requires ValidPages(pages) && IsTree(pages, tree) && InTree(tree, p) && Real(pages, tree, p)
    ensures var r := Step(pages, tree, p, c); r.Path? ==> Real(pages, tree, r.levels)
  {
    var r := Step(pages, tree, p, c);
    if r.Path? {
      forall i | 0 <= i < |r.levels|
        ensures RealAt(pages, tree, r.levels, i)
      {
        if i < |p| {
          assert RealAt(pages, tree, p, i);
          assert r.levels[..i] == p[..i] && r.levels[..i + 1] == p[..i + 1];
        } else {
          assert r.levels[..i] == p && r.levels[..i + 1] == r.levels;
        }
      }
    }
  }

  /** Components can be followed all at once or in parts. */
  lemma {:induction false} ResolveInParts(pages: seq<Page>, tree: Tree, from: seq<Level>, a: seq<Component>,
                                          b: seq<Component>)
    requires ValidPages(pages) && IsTree(pages, tree) && InTree(tree, from)
    ensures Resolve(pages, tree, from, a + b) ==
            match Resolve(pages, tree, from, a)
            case Rejected => Rejected
            case Path(p) => Resolve(pages, tree, p, b)
    decreases |b|
  {
    if b == [] {
      assert a + b == a;
    } else {
      var init := b[..|b| - 1];
      assert (a + b)[..|a + b| - 1] == a + init;
      ResolveInParts(pages, tree, from, a, init);
    }
  }

  /** Entering a directory and going back leads to where one was. */
  lemma BackUndoesForward(pages: seq<Page>, tree: Tree, p: seq<Level>, c: Component, back: Component)
    requires ValidPages(pages) && IsTree(pages, tree) && InTree(tree, p) && IsForward(c) && IsBack(back)
    ensures Resolve(pages, tree, p, [c, back]) == if Step(pages, tree, p, c).Path? then Path(p) else Rejected
  {
    assert [c, back][..1] == [c] && [c][..0] == [];
    assert Resolve(pages, tree, p, [c]) == Step(pages, tree, p, c);
  }

  function Names(p: seq<Level>): (cs: seq<Component>)
    requires forall i | 0 <= i < |p| :: |p[i].name| == 4
    ensures |cs| == |p|
  {
    if p == [] then [] else Names(p[..|p| - 1]) + [p[|p| - 1].name]
  }

  /** A level whose name is that of a directory: four characters in capitals, no dot in front. */
  predicate ProperAt(p: seq<Level>, i: nat)
    requires i < |p|
  {
    |p[i].name| == 4 && IsForward(p[i].name) && UpperName(p[i].name) == p[i].name
  }

  lemma InitIsReal(pages: seq<Page>, tree: Tree, p: seq<Level>, init: seq<Level>)
    requires ValidPages(pages) && IsTree(pages, tree) && Real(pages, tree, p)
    requires p != [] && init == p[..|p| - 1] && forall i | 0 <= i < |p| :: ProperAt(p, i)
    ensures Real(pages, tree, init) && forall i | 0 <= i < |init| :: ProperAt(init, i)
  {
    forall i | 0 <= i < |init|
      ensures RealAt(pages, tree, init, i) && ProperAt(init, i)
    {
      assert RealAt(pages, tree, p, i) && ProperAt(p, i);
      assert init[..i] == p[..i] && init[..i + 1] == p[..i + 1];
    }
  }

  /** A real path is where its own names lead from the root: reading the current directory and
      changing to what was read leads back to it. */
  lemma {:induction false} NamesLeadBack(pages: seq<Page>, tree: Tree, p: seq<Level>)
    requires ValidPages(pages) && IsTree(pages, tree) && InTree(tree, p) && Real(pages, tree, p)
    requires forall i | 0 <= i < |p| :: ProperAt(p, i)
    ensures forall i | 0 <= i < |p| :: |p[i].name| == 4
    ensures Resolve(pages, tree, [], Names(p)) == Path(p)
  {
    assert forall i | 0 <= i < |p| :: ProperAt(p, i) ==> |p[i].name| == 4;
    if p != [] {
      var init, n := p[..|p| - 1], |p| - 1;
      InitIsReal(pages, tree, p, init);
      NamesLeadBack(pages, tree, init);
      assert RealAt(pages, tree, p, n) && ProperAt(p, n);
      assert Names(p)[..n] == Names(init) && p[..n + 1] == p;
    }
  }

  lemma ForwardIsProper(c: Component)
    requires IsForward(c)
    ensures IsForward(UpperName(c)) && UpperName(UpperName(c)) == UpperName(c)
  {
  }

  predicate Proper(p: seq<Level>) {
    forall i | 0 <= i < |p| :: ProperAt(p, i)
  }

  lemma StepIsProper(pages: seq<Page>, tree: Tree, p: seq<Level>, c: Component)
    requires ValidPages(pages) && IsTree(pages, tree) && InTree(tree, p) && Proper(p)
    ensures var r := Step(pages, tree, p, c); r.Path? ==> Proper(r.levels)
  {
    var r := Step(pages, tree, p, c);
    if r.Path? {
      if IsForward(c) {
        ForwardIsProper(c);
      }
      forall i | 0 <= i < |r.levels|
        ensures ProperAt(r.levels, i)
      {
        if i < |p| {
          assert ProperAt(p, i);
        }
      }
    }
  }

  /** Every level a walk adds has a proper name. */
  lemma {:induction false} ResolveIsProper(pages: seq<Page>, tree: Tree, from: seq<Level>, comps: seq<Component>)
    requires ValidPages(pages) && IsTree(pages, tree) && InTree(tree, from) && Proper(from)
    ensures var r := Resolve(pages, tree, from, comps); r.Path? ==> Proper(r.levels)
  {
    if comps != [] && Resolve(pages, tree, from, comps).Path? {
      ResolveIsProper(pages, tree, from, comps[..|comps| - 1]);
      StepIsProper(pages, tree, Resolve(pages, tree, from, comps[..|comps| - 1]).levels, comps[|comps| - 1]);
    }
  }

  /** Whatever path the current directory has been changed to, from the root on: its own names, followed
      from the root, lead to it again. */
  lemma ReachedLeadsBack(pages: seq<Page>, tree: Tree, comps: seq<Component>)
    requires ValidPages(pages) && IsTree(pages, tree) && Resolve(pages, tree, [], comps).Path?
    ensures var p := Resolve(pages, tree, [], comps).levels;
            Proper(p) && (forall i | 0 <= i < |p| :: |p[i].name| == 4) && Resolve(pages, tree, [], Names(p)) == Path(p)
  {
    ResolveIsReal(pages, tree, [], comps);
    ResolveIsProper(pages, tree, [], comps);
    NamesLeadBack(pages, tree, Resolve(pages, tree, [], comps).levels);
  }
}
