/**
  What a directory lists: in a directory whose long names are well formed, the searches of
  a query find every matching entry, once, in order, and under its own name.
 */
module DirectoryListing {
  import Defrag
  import opened Lfn
  import opened QueryDirectory

  /** An entry of a long name. */
  predicate IsLfn(d: Dirent) {
    d[0] != FAT_DIRENT_NEVER_USED && d[0] != FAT_DIRENT_DELETED && Attributes(d) == FAT_DIRENT_ATTR_LFN
  }

  predicate IsLabel(d: Dirent) {
    d[0] != FAT_DIRENT_NEVER_USED && d[0] != FAT_DIRENT_DELETED && Attributes(d) != FAT_DIRENT_ATTR_LFN
    && Attributes(d) / FAT_DIRENT_ATTR_VOLUME_ID % 2 == 1
  }

  /** Entry p holds a part of the long name of the entry at a position. */
  ghost predicate PartOfName(dirents: seq<Dirent>, names: seq<seq<nat>>, at: nat, p: nat) {
    && at < |dirents| == |names| && IsShort(dirents[at]) && names[at] != [] && DirentsNeeded(names[at]) <= at
    && at - DirentsNeeded(names[at]) <= p < at < Defrag.EndMark(dirents, 0)
  }

  /** The long name of the entry at a position is in the entries before it, or there is none. */
  ghost predicate NamedAt(dirents: seq<Dirent>, names: seq<seq<nat>>, p: nat)
    requires p < |dirents| == |names|
  {
    if names[p] == [] then p == 0 || !IsLfn(dirents[p - 1]) else GoodName(names[p]) && HoldsName(dirents, p, names[p])
  }

  /** Before the end marker, entries have the given long names, and there are no other entries of long names. */
  ghost predicate WellFormed(dirents: seq<Dirent>, names: seq<seq<nat>>) {
    && |names| == |dirents|
    && (forall p {:trigger NamedAt(dirents, names, p)} :: 0 <= p < Defrag.EndMark(dirents, 0) && IsShort(dirents[p]) ==> NamedAt(dirents, names, p))
    && (forall p {:trigger IsLfn(dirents[p])} :: 0 <= p < Defrag.EndMark(dirents, 0) && IsLfn(dirents[p]) ==> exists at :: PartOfName(dirents, names, at, p))
  }

  /** What a query asks for: labels, and entries whose short name or long name matches. */
  predicate Matches(dirents: seq<Dirent>, names: seq<seq<nat>>, q: Query, k: nat)
    requires k < |dirents| == |names|
  {
    || (IsLabel(dirents[k]) && q.labels)
    || (IsShort(dirents[k]) && Wanted(q, dirents[k], names[k] != [], names[k]))
  }

  /** The name under which an entry is listed. */
  function ListedName(d: Dirent, name: seq<nat>): seq<nat> {
    Bytes(if IsLabel(d) || name == [] then ShortName(d) else name)
  }

  /** The matching entries from a position on, up to the end marker. */
  function Matching(dirents: seq<Dirent>, names: seq<seq<nat>>, q: Query, k: nat): seq<Entry>
    requires k <= |dirents| == |names|
    decreases |dirents| - k
  {
    if k == |dirents| || dirents[k][0] == FAT_DIRENT_NEVER_USED then []
    else if Matches(dirents, names, q, k) then
      [Entry(SIZEOF_DIRENT * k, ListedName(dirents[k], names[k]))] + Matching(dirents, names, q, k + 1)
    else Matching(dirents, names, q, k + 1)
  }

  /** A position that is not inside a set. */
  ghost predicate Boundary(dirents: seq<Dirent>, k: nat) {
    k <= Defrag.EndMark(dirents, 0) && (k == 0 || !IsLfn(dirents[k - 1]))
  }

  lemma {:induction false} EndMarkIs(dirents: seq<Dirent>, j: nat, k: nat)
    requires j <= |dirents| && j <= k <= Defrag.EndMark(dirents, j)
    ensures k <= |dirents| && (k == Defrag.EndMark(dirents, j) <==> k == |dirents| || dirents[k][0] == FAT_DIRENT_NEVER_USED)
    decreases k - j
  {
    if j < k {
      EndMarkIs(dirents, j + 1, k);
    }
  }

  /** Entries of long names do not match by themselves. */
  lemma {:induction false} SkipsLfn(dirents: seq<Dirent>, names: seq<seq<nat>>, q: Query, k: nat, at: nat)
    requires k <= at < |dirents| == |names| && forall p :: k <= p < at ==> IsLfn(dirents[p])
    ensures Matching(dirents, names, q, k) == Matching(dirents, names, q, at)
    decreases at - k
  {
    if k < at {
      SkipsLfn(dirents, names, q, k + 1, at);
      assert IsLfn(dirents[k]);
    }
  }

  /** What a search comes to is the next matching entry. */
  ghost predicate FindsNext(dirents: seq<Dirent>, names: seq<seq<nat>>, q: Query, k: nat, found: Located)
    requires k <= |dirents| == |names|
  {
    match found
    case Corrupt => false
    case NotFound => Matching(dirents, names, q, k) == []
    case Found(p, _, _) =>
      k <= p < |dirents| && Boundary(dirents, p + 1) && Matching(dirents, names, q, k) == [EntryOf(dirents, found)] + Matching(dirents, names, q, p + 1)
  }

  /** At a boundary, an entry of a long name is the first one of its set. */
  lemma {:induction false} SetBegins(dirents: seq<Dirent>, names: seq<seq<nat>>, k: nat) returns (at: nat)
    requires WellFormed(dirents, names) && Boundary(dirents, k) && k < Defrag.EndMark(dirents, 0) && IsLfn(dirents[k])
    ensures k < at < Defrag.EndMark(dirents, 0) && IsShort(dirents[at]) && at - k == DirentsNeeded(names[at])
    ensures GoodName(names[at]) && HoldsName(dirents, at, names[at])
    ensures forall p :: k <= p < at ==> IsLfn(dirents[p])
  {
    at :| PartOfName(dirents, names, at, k);
    assert NamedAt(dirents, names, at);
    var first: nat := at - DirentsNeeded(names[at]);
    if first < k {
      EntryMet(dirents, at, names[at], k - 1);
      assert false;
    }
    forall p: nat | first <= p < at ensures IsLfn(dirents[p]) {
      EntryMet(dirents, at, names[at], p);
    }
  }

  /** At a boundary, a short entry has no long name. */
  lemma {:induction false} NoLongName(dirents: seq<Dirent>, names: seq<seq<nat>>, k: nat)
    requires WellFormed(dirents, names) && Boundary(dirents, k) && k < Defrag.EndMark(dirents, 0) && IsShort(dirents[k])
    ensures names[k] == []
  {
    assert NamedAt(dirents, names, k);
    if names[k] != [] {
      NameNotEmpty(names[k]);
      NameInFront(dirents, k, names[k]);
      EntryMet(dirents, k, names[k], k - 1);
      assert false;
    }
  }

  lemma {:induction false} NextBoundary(dirents: seq<Dirent>, k: nat)
    requires k < Defrag.EndMark(dirents, 0) && !IsLfn(dirents[k])
    ensures Boundary(dirents, k + 1)
  {
  }

  /** From a boundary on, a search finds the next matching entry. */
  lemma {:induction false} SearchFindsNext(dirents: seq<Dirent>, names: seq<seq<nat>>, q: Query, k: nat, r: Reader)
    requires WellFormed(dirents, names) && Boundary(dirents, k) && ReaderOk(r) && Behind(r, k)
    ensures k <= |dirents| && FindsNext(dirents, names, q, k, ScanFrom(dirents, k, r, q))
    decreases |dirents| - k
  {
    EndMarkIs(dirents, 0, k);
    assert |names| == |dirents|;
    if k == Defrag.EndMark(dirents, 0) {
      EndFindsNothing(dirents, names, q, k, r);
    } else {
      var d := dirents[k];
      if d[0] == FAT_DIRENT_DELETED {
        NextBoundary(dirents, k);
        SearchFindsNext(dirents, names, q, k + 1, r.(inProgress := false));
        DeletedFindsNext(dirents, names, q, k, r);
      } else if IsLfn(d) {
        var at := SetBegins(dirents, names, k);
        SkipsLfn(dirents, names, q, k, at);
        NextBoundary(dirents, at);
        NameNotEmpty(names[at]);
        SetFindsNext(dirents, names, q, k, at, r);
      } else {
        NextBoundary(dirents, k);
        if IsShort(d) {
          NoLongName(dirents, names, k);
        }
        if !Matches(dirents, names, q, k) {
          SearchFindsNext(dirents, names, q, k + 1, r);
        }
        EntryFindsNext(dirents, names, q, k, r);
      }
    }
    hide ScanFrom;
    hide FindsNext;
    hide Matching;
    hide Matches;
    hide HoldsName;
    hide GoodName;
  }

  lemma {:induction false} EndFindsNothing(dirents: seq<Dirent>, names: seq<seq<nat>>, q: Query, k: nat, r: Reader)
    requires k <= |dirents| == |names| && ReaderOk(r) && (k == |dirents| || dirents[k][0] == FAT_DIRENT_NEVER_USED)
    ensures FindsNext(dirents, names, q, k, ScanFrom(dirents, k, r, q))
  {
  }

  lemma {:induction false} DeletedFindsNext(dirents: seq<Dirent>, names: seq<seq<nat>>, q: Query, k: nat, r: Reader)
    requires k < |dirents| == |names| && ReaderOk(r) && dirents[k][0] == FAT_DIRENT_DELETED
    requires FindsNext(dirents, names, q, k + 1, ScanFrom(dirents, k + 1, r.(inProgress := false), q))
    ensures FindsNext(dirents, names, q, k, ScanFrom(dirents, k, r, q))
  {
  }

  lemma {:induction false} EntryFindsNext(dirents: seq<Dirent>, names: seq<seq<nat>>, q: Query, k: nat, r: Reader)
    requires k < Defrag.EndMark(dirents, 0) && |names| == |dirents| && ReaderOk(r) && Behind(r, k) && Boundary(dirents, k + 1)
    requires dirents[k][0] != FAT_DIRENT_NEVER_USED && dirents[k][0] != FAT_DIRENT_DELETED && !IsLfn(dirents[k])
    requires IsShort(dirents[k]) ==> names[k] == []
    requires Matches(dirents, names, q, k) || FindsNext(dirents, names, q, k + 1, ScanFrom(dirents, k + 1, r, q))
    ensures FindsNext(dirents, names, q, k, ScanFrom(dirents, k, r, q))
  {
    hide *;
    InsideEndMark(dirents, k);
    ReaderFits(r);
    EntryScanned(dirents, names, q, k, r);
    if Matches(dirents, names, q, k) {
      EntryFound(dirents, names, q, k, !IsLabel(dirents[k]) && !q.all && q.shortMatches(dirents[k]));
    } else {
      EntryPassed(dirents, names, q, k, ScanFrom(dirents, k + 1, r, q));
    }
  }

  lemma {:induction false} InsideEndMark(dirents: seq<Dirent>, k: nat)
    requires k < Defrag.EndMark(dirents, 0)
    ensures k < |dirents|
  {
  }

  lemma ReaderFits(r: Reader)
    requires ReaderOk(r)
    ensures |r.buffer| == 13 * MAX_LFN_DIRENTS
    ensures r.inProgress ==> r.ordinal <= MAX_LFN_DIRENTS && r.index == 13 * (r.ordinal - 1) && r.size <= |r.buffer|
  {
  }

  /** At an entry without a long name in front, a scan finds the entry if it matches, and passes it if not. */
  lemma {:induction false} EntryScanned(dirents: seq<Dirent>, names: seq<seq<nat>>, q: Query, k: nat, r: Reader)
    requires k < |dirents| == |names| && ReaderOk(r) && Behind(r, k)
    requires dirents[k][0] != FAT_DIRENT_NEVER_USED && dirents[k][0] != FAT_DIRENT_DELETED && !IsLfn(dirents[k])
    requires IsShort(dirents[k]) ==> names[k] == []
    ensures Matches(dirents, names, q, k) ==>
      ScanFrom(dirents, k, r, q) == Found(k, [], !IsLabel(dirents[k]) && !q.all && q.shortMatches(dirents[k]))
    ensures !Matches(dirents, names, q, k) ==> ScanFrom(dirents, k, r, q) == ScanFrom(dirents, k + 1, r, q)
  {
    hide Checksum;
    assert !Belongs(r, dirents[k], k);
  }

  lemma {:induction false} EntryFound(dirents: seq<Dirent>, names: seq<seq<nat>>, q: Query, k: nat, byShortName: bool)
    requires k < |dirents| == |names| && Boundary(dirents, k + 1) && dirents[k][0] != FAT_DIRENT_NEVER_USED
    requires Matches(dirents, names, q, k) && (IsShort(dirents[k]) ==> names[k] == [])
    ensures FindsNext(dirents, names, q, k, Found(k, [], byShortName))
  {
    hide Boundary;
    hide ShortName;
  }

  lemma {:induction false} EntryPassed(dirents: seq<Dirent>, names: seq<seq<nat>>, q: Query, k: nat, found: Located)
    requires k < |dirents| == |names| && !Matches(dirents, names, q, k) && dirents[k][0] != FAT_DIRENT_NEVER_USED
    requires FindsNext(dirents, names, q, k + 1, found)
    ensures FindsNext(dirents, names, q, k, found)
  {
    hide Matches;
    hide Boundary;
  }

  lemma {:induction false} SetFindsNext(dirents: seq<Dirent>, names: seq<seq<nat>>, q: Query, k: nat, at: nat, r: Reader)
    requires WellFormed(dirents, names) && ReaderOk(r) && k < at < |dirents| == |names| && IsShort(dirents[at]) && Boundary(dirents, at + 1)
    requires at - k == DirentsNeeded(names[at]) && names[at] != [] && GoodName(names[at]) && HoldsName(dirents, at, names[at])
    requires Matching(dirents, names, q, k) == Matching(dirents, names, q, at)
    ensures FindsNext(dirents, names, q, k, ScanFrom(dirents, k, r, q))
    decreases |dirents| - k, 0
  {
    hide WellFormed;
    hide Boundary;
    hide Matching;
    hide FindsNext;
    hide HoldsName;
    hide GoodName;
    hide Wanted;
    hide Behind;
    hide IsShort;
    hide DirentsNeeded;
    SetMatches(dirents, names, q, at);
    NameFoundAt(dirents, at, names[at], r, q);
    if Wanted(q, dirents[at], true, names[at]) {
      FoundAtSet(dirents, names, q, k, at, Found(at, names[at], !q.all && q.shortMatches(dirents[at])));
    } else {
      var r' :| ReaderOk(r') && Behind(r', at + 1) && ScanFrom(dirents, k, r, q) == ScanFrom(dirents, at + 1, r', q);
      SearchFindsNext(dirents, names, q, at + 1, r');
      FoundBehindSet(dirents, names, q, k, at, ScanFrom(dirents, at + 1, r', q));
    }
  }

  lemma {:induction false} FoundAtSet(dirents: seq<Dirent>, names: seq<seq<nat>>, q: Query, k: nat, at: nat, found: Located)
    requires k <= at < |dirents| == |names| && found.Found? && found.position == at && found.longName == names[at] != [] && Boundary(dirents, at + 1)
    requires Matching(dirents, names, q, k) == [Entry(SIZEOF_DIRENT * at, Bytes(names[at]))] + Matching(dirents, names, q, at + 1)
    ensures FindsNext(dirents, names, q, k, found)
  {
  }

  lemma {:induction false} FoundBehindSet(dirents: seq<Dirent>, names: seq<seq<nat>>, q: Query, k: nat, at: nat, found: Located)
    requires k <= at < |dirents| == |names| && FindsNext(dirents, names, q, at + 1, found)
    requires Matching(dirents, names, q, k) == Matching(dirents, names, q, at + 1)
    ensures FindsNext(dirents, names, q, k, found)
  {
  }

  lemma {:induction false} SetMatches(dirents: seq<Dirent>, names: seq<seq<nat>>, q: Query, at: nat)
    requires at < |dirents| == |names| && IsShort(dirents[at]) && names[at] != []
    ensures Wanted(q, dirents[at], true, names[at]) ==>
      Matching(dirents, names, q, at) == [Entry(SIZEOF_DIRENT * at, Bytes(names[at]))] + Matching(dirents, names, q, at + 1)
    ensures !Wanted(q, dirents[at], true, names[at]) ==> Matching(dirents, names, q, at) == Matching(dirents, names, q, at + 1)
  {
    hide Wanted;
  }

  /** In a well-formed directory, what queries list are the matching entries: all of them, in order, each under its own name. */
  lemma {:induction false} ListsMatching(dirents: seq<Dirent>, names: seq<seq<nat>>, q: Query, k: nat)
    requires WellFormed(dirents, names) && Boundary(dirents, k)
    ensures k <= |dirents| && Entries(dirents, k, q) == Matching(dirents, names, q, k) && !EndsCorrupt(dirents, k, q)
    decreases |dirents| - k
  {
    EndMarkIs(dirents, 0, k);
    SearchFindsNext(dirents, names, q, k, NoName());
    var found := ScanFrom(dirents, k, NoName(), q);
    if k < |dirents| {
      FoundFurther(dirents, k, NoName(), q);
      if found.Found? {
        ListsMatching(dirents, names, q, found.position + 1);
      }
    }
    hide ScanFrom;
    hide WellFormed;
  }
}
