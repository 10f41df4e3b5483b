/** Names and extensions of files (owfile.c): which are valid, and what it means, byte by byte, that an entry
    has the one asked for. */
module FileNames {
  import opened Octets
  import opened Directory

  /** The characters other than letters and digits a name may have. The zero that ends the list in the
      code is found in it as well. */
  const OTHERS: seq<Octet> := [0x20, 0x21, 0x23, 0x24, 0x25, 0x26, 0x27, 0x2D, 0x40, 0x5E, 0x5F, 0x60, 0x7B, 0x7D,
                               0x7E, 0]

  predicate ValidChar(c: Octet) {
    || '0' as nat <= c <= '9' as nat || 'A' as nat <= c <= 'Z' as nat || 'a' as nat <= c <= 'z' as nat
    || c in OTHERS
  }

  predicate ValidName(name: seq<Octet>) {
    |name| == 4 && forall j | 0 <= j < 4 :: ValidChar(name[j])
  }

  /** Valid_FileName: checks a name and turns it into capitals. */
  method ValidFileName(flname: seq<Octet>) returns (ok: bool, name: seq<Octet>)
    requires |flname| == 4
    ensures ok <==> ValidName(flname)
    ensures ok ==> name == UpperName(flname)
  {
    name := flname;
    for i := 0 to 4
      invariant |name| == 4 && forall j | 0 <= j < 4 :: name[j] == if j < i then Upper(flname[j]) else flname[j]
      invariant forall j | 0 <= j < i :: ValidChar(flname[j])
    {
      if !ValidChar(name[i]) {
        return false, name;
      }
      name := name[i := Upper(name[i])];
    }
    return true, name;
  }

  /** The same by ranges. */
  lemma ValidByRanges(c: Octet)
    ensures ValidChar(c) <==>
              || c == 0 || 0x20 <= c <= 0x21 || 0x23 <= c <= 0x27 || c == 0x2D || 0x30 <= c <= 0x39
              || 0x40 <= c <= 0x5A || 0x5E <= c <= 0x7B || 0x7D <= c <= 0x7E
  {
    assert c in OTHERS ==> c == 0 || 0x20 <= c <= 0x2D || c == 0x40 || 0x5E <= c <= 0x60 || 0x7B <= c <= 0x7E;
    assert OTHERS[0] == 0x20 && OTHERS[1] == 0x21 && OTHERS[2] == 0x23 && OTHERS[3] == 0x24 && OTHERS[4] == 0x25;
    assert OTHERS[5] == 0x26 && OTHERS[6] == 0x27 && OTHERS[7] == 0x2D && OTHERS[8] == 0x40 && OTHERS[9] == 0x5E;
    assert OTHERS[10] == 0x5F && OTHERS[11] == 0x60 && OTHERS[12] == 0x7B && OTHERS[13] == 0x7D;
    assert OTHERS[14] == 0x7E && OTHERS[15] == 0;
  }

  // ----- byte by byte

  /** The same character, up to the case of letters. */
  predicate SameUpToCase(b: Octet, c: Octet) {
    b == c || (0x41 <= b <= 0x5A && c as nat == b as nat + 32) || (0x61 <= b <= 0x7A && b as nat == c as nat + 32)
  }

  /** The entry has the name and the extension, apart from its top bit. */
  predicate NamedSo(e: Entry, flname: seq<Octet>, ext: Octet)
    requires |flname| == 4
  {
    && SameUpToCase(e[0], flname[0]) && SameUpToCase(e[1], flname[1]) && SameUpToCase(e[2], flname[2])
    && SameUpToCase(e[3], flname[3]) && ext < 128 && (e[4] == ext || e[4] as nat == ext as nat + 128)
  }

  /** It is that of a file of the name and extension that may be deleted: the top bit is not set. */
  predicate IsFile(e: Entry, flname: seq<Octet>, ext: Octet)
    requires |flname| == 4
  {
    NamedSo(e, flname, ext) && e[4] == ext < 128
  }

  /** For a valid name an entry matches exactly when it has that name and extension. */
  lemma MatchByBytes(e: Entry, flname: seq<Octet>, ext: Octet)
    requires ValidName(flname)
    ensures EntryMatches(e, UpperName(flname), ext) <==> NamedSo(e, flname, ext)
  {
    var name := UpperName(flname);
    forall j | 0 <= j < 4
      ensures CharMatches(e[j], name[j]) <==> SameUpToCase(e[j], flname[j])
    {
      ValidByRanges(flname[j]);
    }
    assert (forall j | 0 <= j < 4 :: CharMatches(e[j], name[j])) <==>
           CharMatches(e[0], name[0]) && CharMatches(e[1], name[1]) && CharMatches(e[2], name[2])
           && CharMatches(e[3], name[3]);
  }

  /** No entry has two names, or two extensions. */
  lemma OneNameEach(e: Entry, a: seq<Octet>, x: Octet, b: seq<Octet>, y: Octet)
    requires |a| == 4 && |b| == 4 && NamedSo(e, a, x) && NamedSo(e, b, y)
    ensures x == y && forall j | 0 <= j < 4 :: SameUpToCase(a[j], b[j])
  {
  }

  /** So the first match is the first entry of that name and extension; if it is not read-only and no
      directory, its extension byte is the one asked for. */
  lemma FoundByBytes(es: seq<Entry>, flname: seq<Octet>, ext: Octet)
    requires |flname| == 4
    ensures ValidName(flname) ==>
              var P := FirstMatch(es, UpperName(flname), ext);
              && (forall i | 0 <= i < P :: !NamedSo(es[i], flname, ext))
              && (P < |es| ==> NamedSo(es[P], flname, ext))
              && (P < |es| && ext % 128 != 127 && AttribOf(es[P]) != 1 ==> ext < 127 && IsFile(es[P], flname, ext))
  {
    if ValidName(flname) {
      var P := FirstMatch(es, UpperName(flname), ext);
      FirstMatchIsFirst(es, UpperName(flname), ext);
      forall i | 0 <= i < |es|
        ensures EntryMatches(es[i], UpperName(flname), ext) <==> NamedSo(es[i], flname, ext)
      {
        MatchByBytes(es[i], flname, ext);
      }
    }
  }
}
