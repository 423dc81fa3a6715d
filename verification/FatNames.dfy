/** 8.3 file names: how `SetFileName` stores a name and how `NameIsEqual` looks for it (kernel/fat.cpp). */
module FatNames {
  import opened Basics
  import opened FatVolume

  const DOT: Byte := 0x2e
  const SPACE: Byte := 0x20
  const SLASH: Byte := 0x2f

  function ToUpper(c: Byte): (u: Byte)
    ensures u == 0 <==> c == 0
    ensures u != 0xe5 || c == 0xe5
  {
    if 0x61 <= c <= 0x7a then c - 0x20 else c
  }

  function Blank(): (name: seq<Byte>)
    ensures |name| == 11
  {
    seq(11, _ => SPACE)
  }

  /** The search form of a name, from place `i83` on: a dot moves on to the extension. */
  function SearchFrom(name: seq<Byte>, i83: nat, acc: seq<Byte>): (r: seq<Byte>)
    requires |acc| == 11
    ensures |r| == 11
    decreases |name|
  {
    if name == [] || i83 >= 11 then acc
    else if name[0] == DOT then SearchFrom(name[1..], 8, acc)
    else SearchFrom(name[1..], i83 + 1, acc[i83 := ToUpper(name[0])])
  }

  function SearchForm(name: seq<Byte>): (r: seq<Byte>)
    ensures |r| == 11
  {
    SearchFrom(name, 0, Blank())
  }

  /** Character `i` of the stored form: of the part before the last dot, or of the one after it. */
  function StoredChar(name: seq<Byte>, dot: int, i: nat): Byte
    requires -1 <= dot < |name|
  {
    if i < 8 then (if i < (if dot >= 0 then dot else |name|) then ToUpper(name[i]) else SPACE)
    else if dot >= 0 && dot + 1 + i - 8 < |name| then ToUpper(name[dot + 1 + i - 8]) else SPACE
  }

  /** The stored form of a name: at most 8 characters before the last dot, and 3 after it. */
  function StoredForm(name: seq<Byte>, dot: int): (r: seq<Byte>)
    requires -1 <= dot < |name|
    ensures |r| == 11
  {
    seq(11, i requires 0 <= i < 11 => StoredChar(name, dot, i))
  }

  /** The last place of a byte, or -1. */
  function LastOf(s: seq<Byte>, b: Byte): (i: int)
    ensures -1 <= i < |s| && (i >= 0 ==> s[i] == b)
    ensures forall j :: i < j < |s| ==> s[j] != b
  {
    if s == [] then -1 else if s[|s| - 1] == b then |s| - 1 else LastOf(s[..|s| - 1], b)
  }

  /** The first place of a byte, or the length. */
  function FirstOf(s: seq<Byte>, b: Byte): (i: nat)
    ensures i <= |s| && (i < |s| ==> s[i] == b)
    ensures forall j :: 0 <= j < i ==> s[j] != b
  {
    if s == [] || s[0] == b then 0 else 1 + FirstOf(s[1..], b)
  }

  method StrRChr(s: seq<Byte>, b: Byte) returns (i: int)
    ensures i == LastOf(s, b)
  {
    i := |s| - 1;
    while i >= 0 && s[i] != b
      invariant -1 <= i < |s| && LastOf(s, b) <= i
    {
      i := i - 1;
    }
  }

  /** Compares an entry's name with a path element. */
  method NameIsEqual(entry: DirEntry, name: seq<Byte>) returns (equal: bool)
    ensures equal <==> entry.name == SearchForm(name)
  {
    var name83: seq<Byte> := Blank();
    var i, i83 := 0, 0;
    while i < |name| && i83 < 11
      invariant i <= |name| && |name83| == 11
      invariant SearchFrom(name[i..], i83, name83) == SearchForm(name)
    {
      assert name[i..][1..] == name[i + 1..];
      if name[i] == DOT {
        i83 := 7;
      } else {
        name83 := name83[i83 := ToUpper(name[i])];
      }
      i, i83 := i + 1, i83 + 1;
    }
    equal := entry.name == name83;
  }

  /** Stores a file name in an entry. */
  method SetFileName(entry: DirEntry, name: seq<Byte>) returns (named: DirEntry)
    ensures named == entry.(name := StoredForm(name, LastOf(name, DOT)))
  {
    hide ToUpper;
    var dotPos := StrRChr(name, DOT);
    var stored: seq<Byte> := Blank();
    if dotPos >= 0 {
      var i := 0;
      while i < 8 && i < dotPos
        invariant 0 <= i <= 8 && i <= dotPos && |stored| == 11
        invariant forall j :: 0 <= j < 11 ==> stored[j] == if j < i then StoredChar(name, dotPos, j) else SPACE
      {
        stored := stored[i := ToUpper(name[i])];
        i := i + 1;
      }
      assert forall j :: 0 <= j < 8 ==> stored[j] == StoredChar(name, dotPos, j);
      i := 0;
      while i < 3 && dotPos + i + 1 < |name|
        invariant 0 <= i <= 3 && dotPos + i + 1 <= |name| && |stored| == 11
        invariant forall j :: 0 <= j < 11 ==> stored[j] == if j < 8 + i then StoredChar(name, dotPos, j) else SPACE
      {
        stored := stored[8 + i := ToUpper(name[dotPos + i + 1])];
        i := i + 1;
      }
    } else {
      var i := 0;
      while i < 8 && i < |name|
        invariant 0 <= i <= 8 && i <= |name| && |stored| == 11
        invariant forall j :: 0 <= j < 11 ==> stored[j] == if j < i then StoredChar(name, dotPos, j) else SPACE
      {
        stored := stored[i := ToUpper(name[i])];
        i := i + 1;
      }
    }
    named := entry.(name := stored);
    assert stored == StoredForm(name, dotPos);
  }

  // ----- what the two forms are

  /** The same character, up to the case of a letter. */
  predicate SameLetter(a: Byte, b: Byte) {
    a == b || (0x41 <= a <= 0x5a && b == a + 0x20) || (0x41 <= b <= 0x5a && a == b + 0x20)
  }

  predicate SameIgnoringCase(name: seq<Byte>, other: seq<Byte>) {
    |name| == |other| && forall i :: 0 <= i < |name| ==> SameLetter(name[i], other[i])
  }

  lemma SameUpper(a: Byte, b: Byte)
    ensures ToUpper(a) == ToUpper(b) <==> SameLetter(a, b)
    ensures SameLetter(a, DOT) <==> a == DOT
    ensures !(0x61 <= ToUpper(a) <= 0x7a) && SameLetter(a, ToUpper(a))
  {}

  lemma {:induction false} SearchIgnoresCase(name: seq<Byte>, other: seq<Byte>, i83: nat, acc: seq<Byte>)
    requires SameIgnoringCase(name, other) && |acc| == 11
    ensures SearchFrom(name, i83, acc) == SearchFrom(other, i83, acc)
    decreases |name|
  {
    if name != [] {
      SameUpper(name[0], other[0]);
      SameUpper(name[0], DOT);
      SameUpper(other[0], DOT);
      if name[0] == DOT {
        SearchIgnoresCase(name[1..], other[1..], 8, acc);
      } else if i83 < 11 {
        SearchIgnoresCase(name[1..], other[1..], i83 + 1, acc[i83 := ToUpper(name[0])]);
      }
    }
  }

  lemma {:induction false} LastIgnoresCase(name: seq<Byte>, other: seq<Byte>)
    requires SameIgnoringCase(name, other)
    ensures LastOf(name, DOT) == LastOf(other, DOT)
  {
    if name != [] {
      SameUpper(name[|name| - 1], DOT);
      SameUpper(other[|name| - 1], DOT);
      LastIgnoresCase(name[..|name| - 1], other[..|name| - 1]);
    }
  }

  /** Names that differ in case only are stored alike and looked for alike, and no lower-case letter is stored. */
  lemma CaseIgnored(name: seq<Byte>, other: seq<Byte>)
    requires SameIgnoringCase(name, other)
    ensures SearchForm(name) == SearchForm(other)
    ensures StoredForm(name, LastOf(name, DOT)) == StoredForm(other, LastOf(other, DOT))
    ensures forall i :: 0 <= i < 11 ==> !(0x61 <= StoredForm(name, LastOf(name, DOT))[i] <= 0x7a)
  {
    hide ToUpper, SameLetter, LastOf, SearchFrom;
    SearchIgnoresCase(name, other, 0, Blank());
    LastIgnoresCase(name, other);
    var d := LastOf(name, DOT);
    SameUpper(SPACE, SPACE);
    forall i | 0 <= i < 11
      ensures StoredForm(name, d)[i] == StoredForm(other, d)[i] && !(0x61 <= StoredForm(name, d)[i] <= 0x7a)
    {
      var j := if i < 8 then i else d + 1 + i - 8;
      if j < |name| {
        SameUpper(name[j], other[j]);
      }
    }
  }

  /** An ordinary name is stored as its base, filled up to eight characters with blanks, and its extension, filled up to
      three, each character up to its case. */
  lemma OrdinaryForm(base: seq<Byte>, ext: seq<Byte>)
    requires |base| <= 8 && |ext| <= 3
    requires (forall i :: 0 <= i < |base| ==> base[i] != DOT) && (forall i :: 0 <= i < |ext| ==> ext[i] != DOT)
    ensures var name := base + [DOT] + ext;
      var form := StoredForm(name, LastOf(name, DOT));
      && form == SearchForm(name)
      && (forall i :: 0 <= i < 8 ==> if i < |base| then SameLetter(base[i], form[i]) else form[i] == SPACE)
      && (forall i :: 0 <= i < 3 ==> if i < |ext| then SameLetter(ext[i], form[8 + i]) else form[8 + i] == SPACE)
  {
    hide ToUpper, SameLetter, SearchForm, Findable;
    var name := base + [DOT] + ext;
    assert name[|base|] == DOT;
    assert LastOf(name, DOT) == |base| by {
      assert forall i :: |base| < i < |name| ==> name[i] == ext[i - |base| - 1];
    }
    assert FirstOf(name, DOT) == |base| by {
      assert forall i :: 0 <= i < |base| ==> name[i] == base[i];
    }
    hide LastOf, FirstOf;
    OrdinaryIsFindable(name);
    StoredIsSearched(name);
    forall i | 0 <= i < |base|
      ensures SameLetter(base[i], StoredForm(name, |base|)[i])
    {
      SameUpper(base[i], base[i]);
    }
    forall i | 0 <= i < |ext|
      ensures SameLetter(ext[i], StoredForm(name, |base|)[8 + i])
    {
      SameUpper(ext[i], ext[i]);
    }
  }

  // ----- names both agree on

  /** A base of at most 8 characters, then at most one dot. */
  ghost predicate Is83(name: seq<Byte>) {
    && FirstOf(name, DOT) <= 8
    && forall j :: FirstOf(name, DOT) < j < |name| ==> name[j] != DOT
  }

  /** Character `k` after the last dot, or a blank. */
  function ExtensionAt(name: seq<Byte>, dot: nat, k: nat): Byte {
    if dot + 1 + k < |name| then name[dot + 1 + k] else SPACE
  }

  /** What a search that has come to the extension reads into its place `k`, when `c` is there already: every dot
      begins the extension again, until three characters in a row fill it. */
  function ReadAt(tail: seq<Byte>, k: nat, c: Byte): Byte
    requires k < 3
    decreases |tail|
  {
    var g := FirstOf(tail, DOT);
    var c' := if k < g then tail[k] else c;
    if g < 3 && g < |tail| then ReadAt(tail[g + 1..], k, c') else c'
  }

  /** Three characters in a row that are not dots: they fill the extension, so that the search stops. */
  predicate IsRun(name: seq<Byte>, s: int) {
    0 <= s && s + 3 <= |name| && name[s] != DOT && name[s + 1] != DOT && name[s + 2] != DOT
  }

  /** The first such run beyond the base, if it lies before `end`. */
  ghost predicate FirstRun(name: seq<Byte>, s: int, end: nat) {
    8 <= s && s + 3 <= end && IsRun(name, s) && forall r :: 8 <= r < s ==> !IsRun(name, r)
  }

  /** Character `j` stands `k` places behind the base or behind a dot, with no dot between. */
  ghost predicate Behind(name: seq<Byte>, j: int, k: int) {
    0 <= k && 8 + k <= j < |name| && (j == 8 + k || name[j - k - 1] == DOT) && forall i :: j - k <= i <= j ==> name[i] != DOT
  }

  /** It is the last such character before `end`. */
  ghost predicate LastBehind(name: seq<Byte>, j: int, k: int, end: nat) {
    j < end && Behind(name, j, k) && forall i :: j < i < end ==> !Behind(name, i, k)
  }

  /** What the segments before `end` put into place `k` of the extension is a blank in the end. */
  ghost predicate LeavesBlank(name: seq<Byte>, k: int, end: nat) {
    forall j :: LastBehind(name, j, k, end) ==> name[j] == SPACE
  }

  /** Several dots beyond the base, the last one at `d`. When three characters without a dot come before it, they are
      what is looked for; otherwise a short extension is put over what earlier dots began. */
  ghost predicate SeveralDots(name: seq<Byte>, d: nat) {
    && (forall s :: FirstRun(name, s, d) ==> forall k :: 0 <= k < 3 ==> ToUpper(name[s + k]) == ToUpper(ExtensionAt(name, d, k)))
    && ((forall s :: 8 <= s && s + 3 <= d ==> !IsRun(name, s)) ==>
          forall k :: 0 <= k < 3 && |name| - d - 1 <= k ==> LeavesBlank(name, k, d))
  }

  /** Whether a name is looked for as it is stored, by the places of its dots. */
  ghost predicate Findable(name: seq<Byte>) {
    var f, d := FirstOf(name, DOT), LastOf(name, DOT);
    if d < 0 then
      // no dot: only blanks beyond the base
      forall i :: 8 <= i < |name| && i < 11 ==> name[i] == SPACE
    else if f < 8 then
      f == d
    else if f == d then
      // one dot: it ends the base, or the search puts the extension over the surplus of the base
      if f == 8 then true
      else if f < 11 then forall i :: 8 + (|name| - f - 1) <= i < f ==> name[i] == SPACE
      else forall k :: 0 <= k < 3 ==> ToUpper(name[8 + k]) == ToUpper(ExtensionAt(name, d, k))
    else SeveralDots(name, d)
  }

  /** The two forms agree on the extension of a name whose dots, if any, come after the base. */
  ghost predicate TailsAgree(name: seq<Byte>)
    requires |name| > 8
  {
    var d := LastOf(name, DOT);
    forall k :: 0 <= k < 3 ==> ToUpper(ReadAt(name[8..], k, SPACE)) == ToUpper(if d < 0 then SPACE else ExtensionAt(name, d, k))
  }

  /** A name stored by `SetFileName` is found by `NameIsEqual` exactly in these cases. */
  lemma StoredIsSearched(name: seq<Byte>)
    ensures StoredForm(name, LastOf(name, DOT)) == SearchForm(name) <==> Findable(name)
  {
    hide SearchForm, StoredForm, Findable, FirstOf, LastOf, TailsAgree;
    var f, d := FirstOf(name, DOT), LastOf(name, DOT);
    FirstAndLast(name);
    if d >= 0 && f < 8 && f != d {
      EarlyDotIsLost(name);
    } else if |name| <= 8 || f < 8 {
      ShortNames(name);
    } else {
      SameTails(name);
      if d < 0 {
        NoDotFindable(name);
      } else if f == d {
        OneDotFindable(name);
      } else {
        SeveralFindable(name);
      }
    }
  }

  lemma FirstAndLast(name: seq<Byte>)
    ensures var f, d := FirstOf(name, DOT), LastOf(name, DOT);
      if d < 0 then f == |name| else f <= d < |name|
  {
    hide FirstOf, LastOf;
  }

  /** Names of which nothing lies beyond the base, or whose only dot ends it early. */
  lemma ShortNames(name: seq<Byte>)
    requires |name| <= 8 || FirstOf(name, DOT) < 8
    requires LastOf(name, DOT) < 0 || FirstOf(name, DOT) == LastOf(name, DOT)
    ensures Findable(name) && StoredForm(name, LastOf(name, DOT)) == SearchForm(name)
  {
    hide SearchForm, StoredForm, FirstOf, LastOf;
    FirstAndLast(name);
    ShortSearch(name);
  }

  lemma ShortSearch(name: seq<Byte>)
    requires |name| <= 8 || FirstOf(name, DOT) < 8
    requires LastOf(name, DOT) < 0 || FirstOf(name, DOT) == LastOf(name, DOT)
    ensures StoredForm(name, LastOf(name, DOT)) == SearchForm(name)
  {
    hide SearchForm, FirstOf, LastOf, ToUpper;
    FirstAndLast(name);
    var f, d := FirstOf(name, DOT), LastOf(name, DOT);
    SearchParts(name);
    if f < |name| {
      assert StoredForm(name, d) == Overlaid(Overlaid(Blank(), 0, name[..f]), 8, name[f + 1..]);
    } else {
      assert StoredForm(name, d) == Overlaid(Blank(), 0, name);
    }
  }

  /** A dot in the base is stored when a later one follows, and never looked for. */
  lemma EarlyDotIsLost(name: seq<Byte>)
    requires FirstOf(name, DOT) < 8 && FirstOf(name, DOT) != LastOf(name, DOT) && LastOf(name, DOT) >= 0
    ensures !Findable(name) && StoredForm(name, LastOf(name, DOT)) != SearchForm(name)
  {
    FirstAndLast(name);
    hide FirstOf, LastOf, SearchFrom;
    var f, d := FirstOf(name, DOT), LastOf(name, DOT);
    var base := Overlaid(Blank(), 0, name[..f]);
    SearchPlain(name, f, 0, Blank());
    SearchDot(name[f..], f, base);
    SearchExtension(name[f..][1..], base, 0, SPACE);
    assert StoredForm(name, d)[f] == DOT && SearchForm(name)[f] == SPACE;
  }

  /** Beyond the base the search writes what `ReadAt` says. */
  lemma {:induction false} SearchExtension(tail: seq<Byte>, acc: seq<Byte>, k: nat, c: Byte)
    requires |acc| == 11 && k < 3 && acc[8 + k] == ToUpper(c)
    ensures var r := SearchFrom(tail, 8, acc);
      r[..8] == acc[..8] && r[8 + k] == ToUpper(ReadAt(tail, k, c))
    decreases |tail|
  {
    hide SearchFrom, ToUpper, FirstOf;
    var g := FirstOf(tail, DOT);
    if g == |tail| {
      SearchWhole(tail, 8, acc);
    } else if g < 3 {
      var acc' := Overlaid(acc, 8, tail[..g]);
      SearchPlain(tail, g, 8, acc);
      SearchDot(tail[g..], 8 + g, acc');
      assert tail[g..][1..] == tail[g + 1..];
      SearchExtension(tail[g + 1..], acc', k, if k < g then tail[k] else c);
    } else {
      SearchPlain(tail, 3, 8, acc);
      SearchFull(tail[3..], 11, Overlaid(acc, 8, tail[..3]));
    }
  }

  lemma SearchFull(name: seq<Byte>, i83: nat, acc: seq<Byte>)
    requires |acc| == 11 && i83 >= 11
    ensures SearchFrom(name, i83, acc) == acc
  {}

  lemma SearchedTail(name: seq<Byte>)
    requires |name| > 8 && FirstOf(name, DOT) >= 8
    ensures forall i :: 0 <= i < 8 ==> SearchForm(name)[i] == ToUpper(name[i])
    ensures forall i :: 8 <= i < 11 ==> SearchForm(name)[i] == ToUpper(ReadAt(name[8..], i - 8, SPACE))
  {
    hide SearchFrom, ReadAt, FirstOf, ToUpper;
    var base := Overlaid(Blank(), 0, name[..8]);
    SearchPlain(name, 8, 0, Blank());
    UpperBlank(SPACE);
    forall i | 8 <= i < 11
      ensures SearchForm(name)[i] == ToUpper(ReadAt(name[8..], i - 8, SPACE))
    {
      SearchExtension(name[8..], base, i - 8, SPACE);
    }
    SearchExtension(name[8..], base, 0, SPACE);
    forall i | 0 <= i < 8
      ensures SearchForm(name)[i] == ToUpper(name[i])
    {
      assert SearchForm(name)[..8][i] == base[..8][i];
    }
  }

  lemma StoredTail(name: seq<Byte>)
    requires |name| > 8 && FirstOf(name, DOT) >= 8
    ensures var d := LastOf(name, DOT);
      && (forall i :: 0 <= i < 8 ==> StoredForm(name, d)[i] == ToUpper(name[i]))
      && (forall i :: 8 <= i < 11 ==> StoredForm(name, d)[i] == ToUpper(if d < 0 then SPACE else ExtensionAt(name, d, i - 8)))
  {
    FirstAndLast(name);
    UpperBlank(SPACE);
    hide FirstOf, LastOf, ToUpper;
  }

  lemma SameTails(name: seq<Byte>)
    requires |name| > 8 && FirstOf(name, DOT) >= 8
    ensures StoredForm(name, LastOf(name, DOT)) == SearchForm(name) <==> TailsAgree(name)
  {
    hide StoredForm, SearchForm, ReadAt, FirstOf, LastOf, ToUpper, ExtensionAt;
    SearchedTail(name);
    StoredTail(name);
    var d := LastOf(name, DOT);
    var a, b := StoredForm(name, d), SearchForm(name);
    if a == b {
      forall k | 0 <= k < 3
        ensures ToUpper(ReadAt(name[8..], k, SPACE)) == ToUpper(if d < 0 then SPACE else ExtensionAt(name, d, k))
      {
        assert a[8 + k] == b[8 + k];
      }
    }
    if TailsAgree(name) {
      forall i | 0 <= i < 11
        ensures a[i] == b[i]
      {
        if i >= 8 {
          assert ToUpper(ReadAt(name[8..], i - 8, SPACE)) == ToUpper(if d < 0 then SPACE else ExtensionAt(name, d, i - 8));
        }
      }
    }
  }

  lemma UpperBlank(c: Byte)
    ensures ToUpper(c) == SPACE <==> c == SPACE
  {}

  lemma ReadWithoutDot(tail: seq<Byte>, k: nat, c: Byte)
    requires k < 3 && forall i :: 0 <= i < |tail| ==> tail[i] != DOT
    ensures ReadAt(tail, k, c) == if k < |tail| then tail[k] else c
  {}

  lemma NoDotFindable(name: seq<Byte>)
    requires |name| > 8 && LastOf(name, DOT) < 0
    ensures Findable(name) <==> TailsAgree(name)
  {
    hide FirstOf, LastOf, ToUpper, ReadAt;
    forall k | 0 <= k < 3
      ensures ReadAt(name[8..], k, SPACE) == if 8 + k < |name| then name[8 + k] else SPACE
    {
      ReadWithoutDot(name[8..], k, SPACE);
    }
    UpperBlank(SPACE);
    if Findable(name) {
      assert TailsAgree(name);
    } else {
      var i :| 8 <= i < |name| && i < 11 && name[i] != SPACE;
      UpperBlank(name[i]);
      assert ToUpper(ReadAt(name[8..], i - 8, SPACE)) != SPACE;
    }
  }

  /** What is read for a name with one dot beyond the base. */
  lemma OneDotRead(name: seq<Byte>, k: nat)
    requires |name| > 8 && 8 <= FirstOf(name, DOT) == LastOf(name, DOT) < |name| && k < 3
    ensures var f := FirstOf(name, DOT);
      ReadAt(name[8..], k, SPACE) ==
        if f >= 11 then name[8 + k]
        else if f + 1 + k < |name| then name[f + 1 + k]
        else if 8 + k < f then name[8 + k]
        else SPACE
  {
    hide ReadAt, LastOf;
    var tail, f := name[8..], FirstOf(name, DOT);
    FirstBeyond(name);
    ReadFirst(tail, k, SPACE);
    if f < 11 {
      assert tail[f - 8 + 1..] == name[f + 1..];
      ReadWithoutDot(name[f + 1..], k, if k < f - 8 then tail[k] else SPACE);
    }
  }

  lemma FirstBeyond(name: seq<Byte>)
    requires |name| > 8 && FirstOf(name, DOT) >= 8
    ensures FirstOf(name[8..], DOT) == FirstOf(name, DOT) - 8
  {
    hide FirstOf;
    var g := FirstOf(name[8..], DOT);
    assert g < |name| - 8 ==> name[8 + g] == DOT;
    assert FirstOf(name, DOT) < |name| ==> name[8..][FirstOf(name, DOT) - 8] == DOT;
  }

  lemma ReadFirst(tail: seq<Byte>, k: nat, c: Byte)
    requires k < 3
    ensures var g := FirstOf(tail, DOT);
      var c' := if k < g then tail[k] else c;
      ReadAt(tail, k, c) == if g < 3 && g < |tail| then ReadAt(tail[g + 1..], k, c') else c'
  {}

  lemma OneDotFindable(name: seq<Byte>)
    requires |name| > 8 && 8 <= FirstOf(name, DOT) == LastOf(name, DOT) < |name|
    ensures Findable(name) <==> TailsAgree(name)
  {
    hide FirstOf, LastOf, ToUpper, ReadAt;
    var f := FirstOf(name, DOT);
    forall k | 0 <= k < 3
      ensures ReadAt(name[8..], k, SPACE) ==
        if f >= 11 then name[8 + k]
        else if f + 1 + k < |name| then name[f + 1 + k]
        else if 8 + k < f then name[8 + k]
        else SPACE
    {
      OneDotRead(name, k);
    }
    UpperBlank(SPACE);
    if f == 8 || f >= 11 {
    } else if Findable(name) {
      assert TailsAgree(name);
    } else {
      var i :| 8 + (|name| - f - 1) <= i < f && name[i] != SPACE;
      UpperBlank(name[i]);
      assert ToUpper(ReadAt(name[8..], i - 8, SPACE)) != ToUpper(ExtensionAt(name, f, i - 8));
    }
  }

  /** Reading on from `p`, the beginning of a segment, and the next dot or the end, `g`. */
  lemma ReadSegment(name: seq<Byte>, p: nat, g: nat, k: nat, c: Byte)
    requires p <= g <= |name| && k < 3 && (forall i :: p <= i < g ==> name[i] != DOT) && (g < |name| ==> name[g] == DOT)
    ensures var c' := if p + k < g then name[p + k] else c;
      ReadAt(name[p..], k, c) == if g < p + 3 && g < |name| then ReadAt(name[g + 1..], k, c') else c'
  {
    hide ReadAt, FirstOf;
    var tail := name[p..];
    var h := FirstOf(tail, DOT);
    assert h < |tail| ==> name[p + h] == DOT;
    assert g < |name| ==> tail[g - p] == DOT;
    ReadFirst(tail, k, c);
    assert g < |name| ==> tail[g - p + 1..] == name[g + 1..];
  }

  lemma NextDot(name: seq<Byte>, p: nat) returns (g: nat)
    requires p <= |name|
    ensures p <= g <= |name| && (forall i :: p <= i < g ==> name[i] != DOT) && (g < |name| ==> name[g] == DOT)
  {
    g := p;
    while g < |name| && name[g] != DOT
      invariant p <= g <= |name| && forall i :: p <= i < g ==> name[i] != DOT
    {
      g := g + 1;
    }
  }

  /** The search reads the first run. */
  lemma {:induction false} ReadRun(name: seq<Byte>, p: nat, s: nat, k: nat, c: Byte)
    requires p <= s && IsRun(name, s) && (forall r :: p <= r < s ==> !IsRun(name, r)) && k < 3
    ensures ReadAt(name[p..], k, c) == name[s + k]
    decreases s - p
  {
    hide ReadAt;
    var g := NextDot(name, p);
    ReadSegment(name, p, g, k, c);
    if p < s {
      assert !IsRun(name, p);
      assert g < s;
      ReadRun(name, g + 1, s, k, if p + k < g then name[p + k] else c);
    }
  }

  /** Without a run it reads the last character that stands in the place, if there is one from `p` on. */
  lemma {:induction false} ReadLast(name: seq<Byte>, p: nat, k: nat, c: Byte)
    requires 8 <= p <= |name| && (p == 8 || name[p - 1] == DOT) && (forall r :: p <= r ==> !IsRun(name, r)) && k < 3
    ensures forall j :: p <= j && LastBehind(name, j, k, |name|) ==> ReadAt(name[p..], k, c) == name[j]
    ensures (forall j :: p <= j < |name| ==> !Behind(name, j, k)) ==> ReadAt(name[p..], k, c) == c
    decreases |name| - p
  {
    hide ReadAt;
    var g := NextDot(name, p);
    ReadSegment(name, p, g, k, c);
    assert !IsRun(name, p);
    SegmentBehind(name, p, g, k);
    assert p + k < g ==> Behind(name, p + k, k);
    if g < |name| {
      ReadLast(name, g + 1, k, if p + k < g then name[p + k] else c);
    }
  }

  /** One character of a segment stands in the place, if the segment is long enough. */
  lemma SegmentBehind(name: seq<Byte>, p: nat, g: nat, k: nat)
    requires 8 <= p <= g <= |name| && (p == 8 || name[p - 1] == DOT)
    requires (forall i :: p <= i < g ==> name[i] != DOT) && (g < |name| ==> name[g] == DOT)
    ensures forall j :: p <= j <= g && j < |name| ==> (Behind(name, j, k) <==> j == p + k && j < g)
  {
    assert p > 8 ==> forall j :: p <= j < p + k && Behind(name, j, k) ==> j - k <= p - 1 <= j;
  }

  lemma {:induction false} FindRun(name: seq<Byte>, p: nat) returns (s: nat)
    requires exists r :: p <= r && IsRun(name, r)
    ensures p <= s && IsRun(name, s) && forall r :: p <= r < s ==> !IsRun(name, r)
    decreases |name| - p
  {
    if IsRun(name, p) {
      s := p;
    } else {
      s := FindRun(name, p + 1);
    }
  }

  /** The last dot begins a segment that goes to the end. */
  lemma LastSegment(name: seq<Byte>, d: nat, k: nat)
    requires 8 <= d < |name| && name[d] == DOT && forall i :: d < i < |name| ==> name[i] != DOT
    ensures forall j :: d <= j < |name| ==> (Behind(name, j, k) <==> j == d + 1 + k)
    ensures IsRun(name, d + 1) <==> d + 3 < |name|
    ensures forall s :: s <= d < s + 3 ==> !IsRun(name, s)
  {
    SegmentBehind(name, d + 1, |name|, k);
  }

  lemma SeveralFindable(name: seq<Byte>)
    requires |name| > 8 && 8 <= FirstOf(name, DOT) < LastOf(name, DOT) < |name|
    ensures Findable(name) <==> TailsAgree(name)
  {
    hide ReadAt, ToUpper, FirstOf, LastOf, ExtensionAt, IsRun, Behind;
    var d := LastOf(name, DOT);
    LastSegment(name, d, 0);
    if s: nat :| 8 <= s && IsRun(name, s) {
      RunFindable(name, d);
    } else {
      NoRunFindable(name, d);
    }
  }

  lemma RunFindable(name: seq<Byte>, d: nat)
    requires 8 <= d < |name| && name[d] == DOT && (forall i :: d < i < |name| ==> name[i] != DOT)
    requires exists s :: 8 <= s && IsRun(name, s)
    ensures SeveralDots(name, d) <==>
      forall k :: 0 <= k < 3 ==> ToUpper(ReadAt(name[8..], k, SPACE)) == ToUpper(ExtensionAt(name, d, k))
  {
    hide ReadAt, ToUpper, Behind;
    LastSegment(name, d, 0);
    var s := FindRun(name, 8);
    forall k | 0 <= k < 3
      ensures ReadAt(name[8..], k, SPACE) == name[s + k]
    {
      ReadRun(name, 8, s, k, SPACE);
    }
    if s + 3 <= d {
      assert FirstRun(name, s, d);
    } else {
      assert IsRun(name, d + 1);
    }
  }

  lemma NoRunFindable(name: seq<Byte>, d: nat)
    requires 8 <= d < |name| && name[d] == DOT && (forall i :: d < i < |name| ==> name[i] != DOT)
    requires forall s :: 8 <= s ==> !IsRun(name, s)
    ensures SeveralDots(name, d) <==>
      forall k :: 0 <= k < 3 ==> ToUpper(ReadAt(name[8..], k, SPACE)) == ToUpper(ExtensionAt(name, d, k))
  {
    hide ReadAt, ToUpper, LeavesBlank, IsRun;
    forall k | 0 <= k < 3
      ensures ToUpper(ReadAt(name[8..], k, SPACE)) == ToUpper(ExtensionAt(name, d, k)) <==>
        (|name| - d - 1 <= k ==> LeavesBlank(name, k, d))
    {
      PlaceAgrees(name, d, k);
    }
  }

  lemma PlaceAgrees(name: seq<Byte>, d: nat, k: nat)
    requires 8 <= d < |name| && name[d] == DOT && (forall i :: d < i < |name| ==> name[i] != DOT) && k < 3
    requires forall s :: 8 <= s ==> !IsRun(name, s)
    ensures ToUpper(ReadAt(name[8..], k, SPACE)) == ToUpper(ExtensionAt(name, d, k)) <==>
      (|name| - d - 1 <= k ==> LeavesBlank(name, k, d))
  {
    hide ReadAt, ToUpper, IsRun;
    ReadPlace(name, d, k);
    UpperBlank(SPACE);
    UpperBlank(ReadAt(name[8..], k, SPACE));
  }

  /** What is read into place `k` of a name without a run. */
  lemma ReadPlace(name: seq<Byte>, d: nat, k: nat)
    requires 8 <= d < |name| && name[d] == DOT && (forall i :: d < i < |name| ==> name[i] != DOT) && k < 3
    requires forall s :: 8 <= s ==> !IsRun(name, s)
    ensures var e, r := |name| - d - 1, ReadAt(name[8..], k, SPACE);
      && (k < e ==> r == ExtensionAt(name, d, k))
      && (k >= e ==> forall j :: LastBehind(name, j, k, d) ==> r == name[j])
      && (k >= e && r != SPACE ==> exists j :: LastBehind(name, j, k, d))
  {
    hide ReadAt, IsRun;
    LastSegment(name, d, k);
    hide Behind;
    ReadLast(name, 8, k, SPACE);
    if k < |name| - d - 1 {
      assert LastBehind(name, d + 1 + k, k, |name|);
    } else {
      forall j | LastBehind(name, j, k, d)
        ensures ReadAt(name[8..], k, SPACE) == name[j]
      {
        assert LastBehind(name, j, k, |name|);
        BehindBase(name, j, k);
      }
      if j: nat :| 8 <= j < |name| && Behind(name, j, k) {
        var i := FindLast(name, k, d);
      }
    }
  }

  lemma BehindBase(name: seq<Byte>, j: int, k: nat)
    requires Behind(name, j, k)
    ensures 8 <= j < |name|
  {}

  lemma {:induction false} FindLast(name: seq<Byte>, k: nat, end: nat) returns (j: nat)
    requires exists i :: i < end && Behind(name, i, k)
    ensures LastBehind(name, j, k, end)
  {
    if Behind(name, end - 1, k) {
      j := end - 1;
    } else {
      j := FindLast(name, k, end - 1);
    }
  }

  /** Ordinary names are found: a base of at most eight characters and at most one dot. */
  lemma OrdinaryIsFindable(name: seq<Byte>)
    requires Is83(name)
    ensures Findable(name)
  {
    FirstAndLast(name);
    hide FirstOf, LastOf;
  }

  /** What the search form consists of. */
  lemma SearchParts(name: seq<Byte>)
    requires Is83(name)
    ensures var f := FirstOf(name, DOT);
      SearchForm(name) == if f < |name| then Overlaid(Overlaid(Blank(), 0, name[..f]), 8, name[f + 1..])
                          else Overlaid(Blank(), 0, name)
  {
    hide Overlaid, SearchFrom, Blank, ToUpper;
    var f := FirstOf(name, DOT);
    SearchPlain(name, f, 0, Blank());
    if f < |name| {
      var base, ext := Overlaid(Blank(), 0, name[..f]), name[f + 1..];
      SearchDot(name[f..], f, base);
      assert name[f..][1..] == ext;
      SearchWhole(ext, 8, base);
    } else {
      SearchWhole(name, 0, Blank());
    }
  }

  lemma SearchDot(name: seq<Byte>, i83: nat, acc: seq<Byte>)
    requires name != [] && name[0] == DOT && i83 < 11 && |acc| == 11
    ensures SearchFrom(name, i83, acc) == SearchFrom(name[1..], 8, acc)
  {}

  lemma SearchWhole(name: seq<Byte>, i83: nat, acc: seq<Byte>)
    requires |acc| == 11 && forall j :: 0 <= j < |name| ==> name[j] != DOT
    ensures SearchFrom(name, i83, acc) == Overlaid(acc, i83, name)
  {
    SearchPlain(name, |name|, i83, acc);
    assert name[|name|..] == [] && name[..|name|] == name;
  }

  function OverlaidAt(acc: seq<Byte>, i83: nat, chars: seq<Byte>, i: nat): Byte
    requires i < |acc|
  {
    if i83 <= i < i83 + |chars| then ToUpper(chars[i - i83]) else acc[i]
  }

  /** `chars` in upper case put over `acc` from place `i83` on, as far as there is place. */
  function Overlaid(acc: seq<Byte>, i83: nat, chars: seq<Byte>): (r: seq<Byte>)
    requires |acc| == 11
    ensures |r| == 11
  {
    seq(11, i requires 0 <= i < 11 => OverlaidAt(acc, i83, chars, i))
  }

  lemma {:induction false} SearchPlain(name: seq<Byte>, n: nat, i83: nat, acc: seq<Byte>)
    requires n <= |name| && |acc| == 11 && forall j :: 0 <= j < n ==> name[j] != DOT
    ensures i83 + n <= 11 || n == |name| ==>
      SearchFrom(name, i83, acc) == SearchFrom(name[n..], i83 + n, Overlaid(acc, i83, name[..n]))
    decreases n
  {
    if n == 0 {
      assert Overlaid(acc, i83, name[..0]) == acc;
    } else if i83 >= 11 {
      assert Overlaid(acc, i83, name[..n]) == acc;
    } else {
      var acc' := acc[i83 := ToUpper(name[0])];
      SearchPlain(name[1..], n - 1, i83 + 1, acc');
      assert name[1..][n - 1..] == name[n..];
      assert Overlaid(acc', i83 + 1, name[1..][..n - 1]) == Overlaid(acc, i83, name[..n]);
    }
  }

  /** A name without a dot is lost exactly when a character that is not blank follows the first eight, among those
      the search reads; nine visible characters are enough. */
  lemma LongNameIsLost(name: seq<Byte>)
    requires forall i :: 0 <= i < |name| ==> name[i] != DOT
    ensures StoredForm(name, LastOf(name, DOT)) != SearchForm(name) <==>
      exists i :: 8 <= i < |name| && i < 11 && name[i] != SPACE
  {
    hide StoredForm, SearchForm;
    StoredIsSearched(name);
  }
}
