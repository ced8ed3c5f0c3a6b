/**
  What a directory lists before and after it is defragmented: the same entries in the same
  order, and the same long names, but for a name whose last entry holds nothing but the
  terminator.  The driver measures a set by the entries that its name needs, and so takes
  that entry for no part of the set.
 */
module DefragListing {
  import opened Defrag
  import opened Lfn

  /** An entry that a search finds, and the long name it is found with. */
  datatype Listed = Listed(entry: Dirent, longName: seq<nat>)

  /** What one search after the other finds, from a position on. */
  function ListingFrom(d: seq<Dirent>, from: nat): seq<Listed>
    requires from <= |d|
    decreases |d| - from
  {
    var found := ScanFrom(d, from, NoName(), Everything());
    NextSetFrom(d, from);
    if found.Found? then [Listed(d[found.position], found.longName)] + ListingFrom(d, found.position + 1) else []
  }

  /**
    The last entry of the name that was found at a position is numbered above one and
    starts with a zero: it comes in front of the entries that the name needs.
   */
  predicate ClosedEarly(d: seq<Dirent>, at: nat, name: seq<nat>) {
    var m := DirentsNeeded(name) + 1;
    && name != [] && m <= at <= |d|
    && IsLastEntry(d[at - m]) && OrdinalOf(d[at - m]) == m && Chars(d[at - m])[0] == 0
    && !IsLastEntry(d[at - m + 1])
  }

  /** No name that the searches find is closed early. */
  predicate NamesWhole(d: seq<Dirent>, from: nat)
    requires from <= |d|
    decreases |d| - from
  {
    var found := ScanFrom(d, from, NoName(), Everything());
    NextSetFrom(d, from);
    found.Found? ==> !ClosedEarly(d, found.position, found.longName) && NamesWhole(d, found.position + 1)
  }

  /** What the searches find, but for the names that are closed early. */
  function KeptFrom(d: seq<Dirent>, from: nat): seq<Listed>
    requires from <= |d|
    decreases |d| - from
  {
    var found := ScanFrom(d, from, NoName(), Everything());
    NextSetFrom(d, from);
    if found.Found? then
      [Listed(d[found.position], if ClosedEarly(d, found.position, found.longName) then [] else found.longName)]
      + KeptFrom(d, found.position + 1)
    else []
  }

  /** Two readers that have the same name in progress, as far as they have read it. */
  ghost predicate SameName(r: Reader, s: Reader) {
    && ReaderOk(r) && ReaderOk(s) && r.inProgress == s.inProgress
    && (r.inProgress ==>
      && r.checksum == s.checksum && r.size == s.size && r.index == s.index && r.ordinal == s.ordinal && r.lastEntry == s.lastEntry
      && forall x :: r.index <= x < r.size ==> r.buffer[x] == s.buffer[x])
  }

  /** The same entry makes the same of both. */
  lemma FedAlike(r: Reader, s: Reader, e: Dirent, k: nat)
    requires SameName(r, s)
    ensures Continues(r, e) == Continues(s, e)
    ensures !(MayStart(e) && !Continues(r, e) && OrdinalOf(e) == 0) ==> SameName(Fed(r, e, k), Fed(s, e, k))
  {
    if !(MayStart(e) && !Continues(r, e) && OrdinalOf(e) == 0) {
      FedOk(r, e, k);
      FedOk(s, e, k);
      if !Continues(r, e) && MayStart(e) {
        StartsAlike(r, s, e, k);
      }
    }
    hide MayStart;
    hide OrdinalOf;
    hide Chars;
    hide TailSize;
  }

  /** An entry that starts a name makes the same of any readers that it does not continue. */
  lemma StartsAlike(r: Reader, s: Reader, e: Dirent, k: nat)
    requires ReaderOk(r) && ReaderOk(s) && MayStart(e) && !Continues(r, e) && !Continues(s, e) && OrdinalOf(e) > 0
    ensures SameName(Fed(r, e, k), Fed(s, e, k))
  {
    FedOk(r, e, k);
    FedOk(s, e, k);
    hide Chars;
    hide TailSize;
    var f, g := Fed(r, e, k), Fed(s, e, k);
    if f.inProgress {
      forall x | f.index <= x < f.size ensures f.buffer[x] == g.buffer[x] {
        assert f.buffer[x] == Chars(e)[x - f.index] && g.buffer[x] == Chars(e)[x - f.index];
      }
    }
  }

  /** Readers with the same name in progress find the same. */
  lemma {:induction false} ScanAlike(d: seq<Dirent>, k: nat, r: Reader, s: Reader)
    requires k <= |d| && SameName(r, s)
    ensures ScanFrom(d, k, r, Everything()) == ScanFrom(d, k, s, Everything())
    decreases |d| - k
  {
    if k < |d| && d[k][0] != FAT_DIRENT_NEVER_USED {
      var e := d[k];
      if e[0] == FAT_DIRENT_DELETED {
        ScanSkips(d, k, r);
        ScanSkips(d, k, s);
        ScanAlike(d, k + 1, r.(inProgress := false), s.(inProgress := false));
      } else if Attributes(e) == FAT_DIRENT_ATTR_LFN {
        FedAlike(r, s, e, k);
        if MayStart(e) && !Continues(r, e) && OrdinalOf(e) == 0 {
          ScanRaises(d, k, r);
          ScanRaises(d, k, s);
        } else {
          ScanFeeds(d, k, r);
          ScanFeeds(d, k, s);
          ScanAlike(d, k + 1, Fed(r, e, k), Fed(s, e, k));
        }
      } else {
        EndsAlike(d, k, r, s);
      }
      hide ScanFrom;
      hide SameName;
    }
  }

  lemma EndsAlike(d: seq<Dirent>, k: nat, r: Reader, s: Reader)
    requires k < |d| && EndsSet(d[k]) && SameName(r, s)
    ensures ScanFrom(d, k, r, Everything()) == ScanFrom(d, k, s, Everything())
  {
    hide Checksum;
    if Belongs(r, d[k], k) {
      assert r.buffer[..r.size] == s.buffer[..s.size];
    }
  }

  /** The name of the entry at a position starts at slot b: a search that starts there finds it as well. */
  ghost predicate NameStarts(d: seq<Dirent>, at: nat, name: seq<nat>, b: nat) {
    && b < at < |d| && MayStart(d[b]) && at - b == OrdinalOf(d[b])
    && |name| == 13 * (OrdinalOf(d[b]) - 1) + TailSize(Chars(d[b]), 0, -1) && TailSize(Chars(d[b]), 0, -1) >= 0
    && (forall i :: b <= i < at ==> InUse(d[i]) && Attributes(d[i]) == FAT_DIRENT_ATTR_LFN)
    && (forall i :: b < i < at ==> !IsLastEntry(d[i]))
    && ScanFrom(d, b, NoName(), Everything()) == Found(at, name, false)
  }

  /** The name in progress has been read from slot b on, without a gap, as a search from there would read it. */
  ghost predicate BegunAt(d: seq<Dirent>, r: Reader, b: nat, k: nat) {
    && ReaderOk(r) && k <= |d|
    && (r.inProgress ==>
      && b < k == r.lastEntry + 1 && MayStart(d[b]) && r.ordinal + (k - 1 - b) == OrdinalOf(d[b])
      && TailSize(Chars(d[b]), 0, -1) >= 0 && r.size == 13 * (OrdinalOf(d[b]) - 1) + TailSize(Chars(d[b]), 0, -1)
      && (forall i :: b <= i < k ==> InUse(d[i]) && Attributes(d[i]) == FAT_DIRENT_ATTR_LFN)
      && (forall i :: b < i < k ==> !IsLastEntry(d[i]))
      && ScanFrom(d, b, NoName(), Everything()) == ScanFrom(d, k, r, Everything()))
  }

  /** Whatever a search finds has no long name, or one that starts in one of the slots before it. */
  lemma {:induction false} FoundFromStart(d: seq<Dirent>, k: nat, r: Reader, b: nat)
    requires BegunAt(d, r, b, k)
    ensures var found := ScanFrom(d, k, r, Everything());
      found.Found? && found.longName != [] ==> exists c: nat :: NameStarts(d, found.position, found.longName, c)
    decreases |d| - k
  {
    if k < |d| && d[k][0] != FAT_DIRENT_NEVER_USED {
      var e := d[k];
      if e[0] == FAT_DIRENT_DELETED {
        ScanSkips(d, k, r);
        FoundFromStart(d, k + 1, r.(inProgress := false), b);
      } else if Attributes(e) == FAT_DIRENT_ATTR_LFN {
        if MayStart(e) && !Continues(r, e) && OrdinalOf(e) == 0 {
          ScanRaises(d, k, r);
        } else {
          ScanFeeds(d, k, r);
          var c := BegunNext(d, r, b, k);
          FoundFromStart(d, k + 1, Fed(r, e, k), c);
        }
      } else {
        BegunEnds(d, r, b, k);
      }
      hide ScanFrom;
      hide BegunAt;
    }
  }

  lemma BegunNext(d: seq<Dirent>, r: Reader, b: nat, k: nat) returns (c: nat)
    requires BegunAt(d, r, b, k) && k < |d| && InUse(d[k]) && Attributes(d[k]) == FAT_DIRENT_ATTR_LFN
    requires !(MayStart(d[k]) && !Continues(r, d[k]) && OrdinalOf(d[k]) == 0)
    ensures BegunAt(d, Fed(r, d[k], k), c, k + 1)
  {
    var e := d[k];
    ScanFeeds(d, k, r);
    if Continues(r, e) {
      c := b;
      hide TailSize;
      hide Chars;
      hide MayStart;
      hide OrdinalOf;
    } else {
      c := k;
      if MayStart(e) {
        StartsAlike(NoName(), r, e, k);
        ScanFeeds(d, k, NoName());
        ScanAlike(d, k + 1, Fed(NoName(), e, k), Fed(r, e, k));
      }
      hide TailSize;
      hide Chars;
    }
    hide ScanFrom;
  }

  lemma BegunEnds(d: seq<Dirent>, r: Reader, b: nat, k: nat)
    requires BegunAt(d, r, b, k) && k < |d| && EndsSet(d[k])
    ensures var found := ScanFrom(d, k, r, Everything());
      found.Found? && found.position == k && (found.longName != [] ==> NameStarts(d, k, found.longName, b))
  {
    hide Checksum;
    hide TailSize;
    hide Chars;
  }

  /** From entries of long names that do not start one, nothing but the short entry is found. */
  lemma {:induction false} NothingStarts(d: seq<Dirent>, k: nat, p: nat, r: Reader)
    requires k <= p < |d| && EndsSet(d[p]) && ReaderOk(r) && !r.inProgress
    requires forall i :: k <= i < p ==> InUse(d[i]) && Attributes(d[i]) == FAT_DIRENT_ATTR_LFN && !IsLastEntry(d[i])
    ensures ScanFrom(d, k, r, Everything()) == Found(p, [], false)
    decreases p - k
  {
    if k < p {
      ScanFeeds(d, k, r);
      NothingStarts(d, k + 1, p, Fed(r, d[k], k));
    }
    hide Checksum;
    hide OrdinalOf;
    hide Chars;
  }

  /** A name that starts at a slot is closed early exactly when its last entry holds no character; else it needs all its entries. */
  lemma StartOrEarly(d: seq<Dirent>, at: nat, name: seq<nat>, b: nat)
    requires NameStarts(d, at, name, b) && name != []
    ensures ClosedEarly(d, at, name) <==> TailSize(Chars(d[b]), 0, -1) == 0
    ensures b == at - DirentsNeeded(name) - if ClosedEarly(d, at, name) then 1 else 0
  {
    var t := TailSize(Chars(d[b]), 0, -1);
    NoCharacter(Chars(d[b]));
    hide TailSize;
    hide Chars;
    hide ScanFrom;
  }

  lemma NoCharacter(chars: seq<nat>)
    requires |chars| == 13 && TailSize(chars, 0, -1) >= 0
    ensures TailSize(chars, 0, -1) == 0 <==> chars[0] == 0
  {
    TailBehind(chars, 1, -1);
    TailClosed(chars, 1, 0);
  }

  lemma {:induction false} TailBehind(chars: seq<nat>, i: nat, closed: int)
    requires i <= |chars| && closed == -1
    ensures TailSize(chars, i, closed) == -1 || TailSize(chars, i, closed) >= i
    decreases |chars| - i
  {
    if i < |chars| {
      if chars[i] == 0 {
        TailClosed(chars, i + 1, i);
      } else {
        TailBehind(chars, i + 1, -1);
      }
    }
  }

  lemma {:induction false} TailClosed(chars: seq<nat>, i: nat, closed: nat)
    requires closed < i <= |chars|
    ensures TailSize(chars, i, closed) == -1 || TailSize(chars, i, closed) == closed
    decreases |chars| - i
  {
    if i < |chars| {
      TailClosed(chars, i + 1, closed);
    }
  }

  /** A search that starts at the first slot of a set finds what the search before it found, but for a name that is closed early. */
  lemma {:induction false} FoundAtSet(d: seq<Dirent>, from: nat, p: nat, name: seq<nat>, byShortName: bool)
    requires from <= |d| && ScanFrom(d, from, NoName(), Everything()) == Found(p, name, byShortName)
    ensures !byShortName && DirentsNeeded(name) <= p < |d|
    ensures ScanFrom(d, p - DirentsNeeded(name), NoName(), Everything()) == Found(p, if ClosedEarly(d, p, name) then [] else name, false)
  {
    NextSetFrom(d, from);
    FoundFromStart(d, from, NoName(), from);
    NotByShortName(d, from, NoName());
    if name == [] {
      assert DirentsNeeded(name) == 0;
      NothingStarts(d, p, p, NoName());
    } else {
      var b: nat :| NameStarts(d, p, name, b);
      StartOrEarly(d, p, name, b);
      if ClosedEarly(d, p, name) {
        NothingStarts(d, b + 1, p, NoName());
      }
    }
    hide ScanFrom;
    hide ClosedEarly;
  }

  lemma {:induction false} NotByShortName(d: seq<Dirent>, k: nat, r: Reader)
    requires k <= |d| && ReaderOk(r)
    ensures var found := ScanFrom(d, k, r, Everything()); found.Found? ==> !found.byShortName
    decreases |d| - k
  {
    if k < |d| && d[k][0] != FAT_DIRENT_NEVER_USED {
      var e := d[k];
      if e[0] == FAT_DIRENT_DELETED {
        NotByShortName(d, k + 1, r.(inProgress := false));
      } else if Attributes(e) == FAT_DIRENT_ATTR_LFN {
        if !(MayStart(e) && !Continues(r, e) && OrdinalOf(e) == 0) {
          FedOk(r, e, k);
          NotByShortName(d, k + 1, Fed(r, e, k));
        }
      }
    }
  }

  /** What one search means for the listings, and for the sets. */
  lemma ListingStep(d: seq<Dirent>, from: nat)
    requires from <= |d|
    ensures var found := ScanFrom(d, from, NoName(), Everything());
      && (!found.Found? ==> ListingFrom(d, from) == [] && KeptFrom(d, from) == [] && NamesWhole(d, from))
      && (found.Found? ==>
        && from <= found.position < |d|
        && ListingFrom(d, from) == [Listed(d[found.position], found.longName)] + ListingFrom(d, found.position + 1)
        && KeptFrom(d, from) ==
          [Listed(d[found.position], if ClosedEarly(d, found.position, found.longName) then [] else found.longName)] + KeptFrom(d, found.position + 1)
        && (NamesWhole(d, from) <==> !ClosedEarly(d, found.position, found.longName) && NamesWhole(d, found.position + 1)))
  {
    NextSetFrom(d, from);
    hide ScanFrom;
    hide ClosedEarly;
  }

  /** Nothing is lost exactly when no name is closed early. */
  lemma {:induction false} KeptIff(d: seq<Dirent>, from: nat)
    requires from <= |d|
    ensures KeptFrom(d, from) == ListingFrom(d, from) <==> NamesWhole(d, from)
    ensures |KeptFrom(d, from)| == |ListingFrom(d, from)|
    decreases |d| - from
  {
    var found := ScanFrom(d, from, NoName(), Everything());
    hide *;
    ListingStep(d, from);
    if found.Found? {
      var p := found.position;
      KeptIff(d, p + 1);
      EarlyNotEmpty(d, p, found.longName);
      SameTails(Listed(d[p], if ClosedEarly(d, p, found.longName) then [] else found.longName), KeptFrom(d, p + 1),
        Listed(d[p], found.longName), ListingFrom(d, p + 1));
    }
  }

  lemma EarlyNotEmpty(d: seq<Dirent>, at: nat, name: seq<nat>)
    ensures ClosedEarly(d, at, name) ==> name != []
  {
  }

  lemma SameTails(a: Listed, u: seq<Listed>, b: Listed, w: seq<Listed>)
    ensures [a] + u == [b] + w <==> a == b && u == w
    ensures |[a] + u| == |u| + 1 && |[b] + w| == |w| + 1
  {
    if [a] + u == [b] + w {
      assert ([a] + u)[0] == ([b] + w)[0] && ([a] + u)[1..] == u && ([b] + w)[1..] == w;
    }
  }

  /** The same entries are read the same way. */
  lemma {:induction false} SameBehind(d: seq<Dirent>, d': seq<Dirent>, k: nat, r: Reader)
    requires k <= |d| == |d'| && ReaderOk(r) && forall i :: k <= i < |d| ==> d'[i] == d[i]
    ensures ScanFrom(d', k, r, Everything()) == ScanFrom(d, k, r, Everything())
    decreases |d| - k
  {
    if k < |d| && d[k][0] != FAT_DIRENT_NEVER_USED {
      var e := d[k];
      if e[0] == FAT_DIRENT_DELETED {
        SameBehind(d, d', k + 1, r.(inProgress := false));
      } else if Attributes(e) == FAT_DIRENT_ATTR_LFN {
        if !(MayStart(e) && !Continues(r, e) && OrdinalOf(e) == 0) {
          FedOk(r, e, k);
          SameBehind(d, d', k + 1, Fed(r, e, k));
        }
      }
    }
  }

  lemma {:induction false} DeletedSkipped(d: seq<Dirent>, k: nat, end: nat)
    requires k <= end <= |d| && forall i :: k <= i < end ==> d[i][0] == FAT_DIRENT_DELETED
    ensures ScanFrom(d, k, NoName(), Everything()) == ScanFrom(d, end, NoName(), Everything())
    decreases end - k
  {
    if k < end {
      ScanSkips(d, k, NoName());
      DeletedSkipped(d, k + 1, end);
    }
    hide ScanFrom;
  }

  /** Where the search starts that finds set i, and where that is after defragmenting. */
  ghost predicate AtSearch(d: seq<Dirent>, d': seq<Dirent>, sets: seq<Set>, i: nat, from: nat) {
    && Defragged(d, d', sets) && AllShaped(d, sets) && i <= |sets| && from <= |d| && Length(sets, i) <= |d'|
    && from == (if i == 0 then 0 else sets[i - 1].start + sets[i - 1].length)
    && SetsFrom(d, from) == sets[i..] && !CorruptFrom(d, from)
  }

  lemma AtSays(d: seq<Dirent>, d': seq<Dirent>, sets: seq<Set>, i: nat, from: nat)
    requires AtSearch(d, d', sets, i, from)
    ensures Defragged(d, d', sets) && i <= |sets| && from <= |d| && Length(sets, i) <= |d'| && SetsFrom(d, from) == sets[i..] && !CorruptFrom(d, from)
    ensures i < |sets| ==> SetShape(d, sets[i])
    ensures |NoName().buffer| == 13 * MAX_LFN_DIRENTS && !NoName().inProgress
  {
    hide Defragged;
    hide SetsFrom;
    hide CorruptFrom;
    hide Length;
    hide SetShape;
  }

  /** Behind the last set, the searches find nothing more. */
  lemma {:induction false} NothingMore(d: seq<Dirent>, d': seq<Dirent>, sets: seq<Set>, i: nat, from: nat)
    requires AtSearch(d, d', sets, i, from) && ScanFrom(d, from, NoName(), Everything()).NotFound?
    ensures i == |sets| && Length(sets, i) <= |d'| && ScanFrom(d', Length(sets, i), NoName(), Everything()).NotFound?
  {
    SearchStep(d, from, NotFound);
    assert sets[i..] == [];
    DeletedSkipped(d', Length(sets, i), from);
    SameBehind(d, d', from, NoName());
    hide ScanFrom;
    hide SetsFrom;
    hide CorruptFrom;
    hide Used;
    hide AllShaped;
    hide InSequence;
  }

  lemma HeadOf(sets: seq<Set>, i: nat, first: Set, rest: seq<Set>)
    requires i <= |sets| && sets[i..] == [first] + rest
    ensures i < |sets| && sets[i] == first && sets[i + 1..] == rest
  {
    assert sets[i..][0] == first && sets[i..][1..] == rest;
  }

  lemma SameFoundSays(found: Located, found': Located, p: nat, p': nat, name: seq<nat>)
    requires SameFound(found, found', p, p') && found == Found(p, name, false)
    ensures found' == Found(p', name, false)
  {
  }

  lemma AtNext(d: seq<Dirent>, d': seq<Dirent>, sets: seq<Set>, i: nat, from: nat, p: nat)
    requires AtSearch(d, d', sets, i, from) && i < |sets| && p < |d| && p + 1 == sets[i].start + sets[i].length && Length(sets, i + 1) <= |d'|
    requires SetsFrom(d, p + 1) == sets[i + 1..] && !CorruptFrom(d, p + 1)
    ensures AtSearch(d, d', sets, i + 1, p + 1)
  {
    hide Defragged;
    hide SetsFrom;
    hide CorruptFrom;
    hide Length;
    hide AllShaped;
  }

  /** One search in the directory before and after it is defragmented. */
  lemma {:induction false} SearchMoved(d: seq<Dirent>, d': seq<Dirent>, sets: seq<Set>, i: nat, from: nat, p: nat, name: seq<nat>)
    requires AtSearch(d, d', sets, i, from) && from <= |d| && ScanFrom(d, from, NoName(), Everything()) == Found(p, name, false)
    ensures i < |sets| && AtSearch(d, d', sets, i + 1, p + 1) && 0 < Length(sets, i + 1) <= |d'| && p < |d|
    ensures var p' := Length(sets, i + 1) - 1;
      && d'[p'] == d[p] && Length(sets, i) <= |d'|
      && ScanFrom(d', Length(sets, i), NoName(), Everything()) == Found(p', if ClosedEarly(d, p, name) then [] else name, false)
  {
    hide *;
    AtSays(d, d', sets, i, from);
    var n := DirentsNeeded(name);
    SearchStep(d, from, Found(p, name, false));
    HeadOf(sets, i, Set(p - n, n + 1), SetsFrom(d, p + 1));
    AtSays(d, d', sets, i, from);
    FoundAtSet(d, from, p, name, false);
    SetReadsTheSame(d, d', sets, i);
    SetMoved(d, d', sets, i);
    LastMoved(d, d', p - n, Length(sets, i), n + 1);
    LengthSteps(sets, i);
    SameFoundSays(ScanFrom(d, p - n, NoName(), Everything()), ScanFrom(d', Length(sets, i), NoName(), Everything()),
      p, Length(sets, i + 1) - 1, if ClosedEarly(d, p, name) then [] else name);
    AtNext(d, d', sets, i, from, p);
  }

  lemma LengthSteps(sets: seq<Set>, i: nat)
    requires i < |sets|
    ensures Length(sets, i + 1) == Length(sets, i) + sets[i].length
  {
  }

  lemma LastMoved(d: seq<Dirent>, d': seq<Dirent>, s: nat, t: nat, n: nat)
    requires n > 0 && s + n <= |d| && t + n <= |d'| && d'[t..t + n] == d[s..s + n]
    ensures d'[t + n - 1] == d[s + n - 1]
  {
    assert d'[t..t + n][n - 1] == d[s..s + n][n - 1];
  }

  /** From set i on, a defragmented directory lists what was listed before, but for the names that are closed early. */
  lemma {:induction false} ListingMoved(d: seq<Dirent>, d': seq<Dirent>, sets: seq<Set>, i: nat, from: nat)
    requires AtSearch(d, d', sets, i, from)
    ensures from <= |d| && i <= |sets| && Length(sets, i) <= |d'|
    ensures ListingFrom(d', Length(sets, i)) == KeptFrom(d, from) && !CorruptFrom(d', Length(sets, i))
    decreases |sets| - i
  {
    hide *;
    AtSays(d, d', sets, i, from);
    var found := ScanFrom(d, from, NoName(), Everything());
    ListingStep(d, from);
    ListingStep(d', Length(sets, i));
    SearchStep(d, from, found);
    SearchStep(d', Length(sets, i), ScanFrom(d', Length(sets, i), NoName(), Everything()));
    NoNameOk();
    NotByShortName(d, from, NoName());
    if found.Found? {
      SearchMoved(d, d', sets, i, from, found.position, found.longName);
      ListingMoved(d, d', sets, i + 1, found.position + 1);
    } else {
      NothingMore(d, d', sets, i, from);
    }
  }

  lemma NoNameOk()
    ensures ReaderOk(NoName())
  {
  }

  /**
    After defragmenting, one search after the other finds the same entries in the same
    order, each with its long name, but for the long names that are closed early, which
    are lost; so the directory lists what it listed before if and only if there are none.
   */
  lemma {:induction false} ListingKept(d: seq<Dirent>, d': seq<Dirent>)
    requires !CorruptFrom(d, 0) && Defragged(d, d', SetsFrom(d, 0))
    ensures ListingFrom(d', 0) == KeptFrom(d, 0) && !CorruptFrom(d', 0)
    ensures ListingFrom(d', 0) == ListingFrom(d, 0) <==> NamesWhole(d, 0)
  {
    hide *;
    SetsCover(d, 0);
    AtFirstSearch(d, d', SetsFrom(d, 0));
    ListingMoved(d, d', SetsFrom(d, 0), 0, 0);
    KeptIff(d, 0);
  }

  lemma AtFirstSearch(d: seq<Dirent>, d': seq<Dirent>, sets: seq<Set>)
    requires sets == SetsFrom(d, 0) && !CorruptFrom(d, 0) && Defragged(d, d', sets) && AllShaped(d, sets)
    ensures AtSearch(d, d', sets, 0, 0) && Length(sets, 0) == 0
  {
    assert sets[0..] == sets;
    hide SetsFrom;
    hide CorruptFrom;
    hide AllShaped;
    hide Defragged;
  }

  /** A name that has been written starts with its last entry, and so is not closed early. */
  lemma WrittenNotEarly(d: seq<Dirent>, p: nat, name: seq<nat>)
    requires HoldsName(d, p, name) && GoodName(name)
    ensures !ClosedEarly(d, p, name)
  {
    NameNotEmpty(name);
    NameInFront(d, p, name);
    var m := DirentsNeeded(name);
    EntryMet(d, p, name, p - m);
    StartsName(NoName(), name, Checksum(d[p], 11), p - m);
    hide EntryFor;
    hide HoldsName;
    hide GoodName;
    hide HasRead;
  }

  /** A search before the entries of a name that has been written stops in front of them, or finds the entry with that name. */
  lemma {:induction false} WrittenFound(d: seq<Dirent>, from: nat, p: nat, name: seq<nat>)
    requires from <= |d| && HoldsName(d, p, name) && GoodName(name) && p < |d| && IsShort(d[p])
    requires from + DirentsNeeded(name) <= p < EndMark(d, from) && !ScanFrom(d, from, NoName(), Everything()).Corrupt?
    ensures var found := ScanFrom(d, from, NoName(), Everything());
      && found.Found? && from <= found.position <= p
      && (found.position == p ==> found.longName == name)
      && (found.position < p ==> found.position + 1 + DirentsNeeded(name) <= p < EndMark(d, found.position + 1))
  {
    var found := ScanFrom(d, from, NoName(), Everything());
    NextSetFrom(d, from);
    FoundWithName(d, p, name, from, NoName(), Everything());
    hide ScanFrom;
    hide HoldsName;
    hide GoodName;
    hide DirentsNeeded;
    assert EndsSet(d[p]);
    if found.Found? && found.position < p {
      if p - DirentsNeeded(name) <= found.position {
        EntryMet(d, p, name, found.position);
        assert false;
      }
      EndMarkBeyond(d, from, found.position + 1);
    }
    hide EndMark;
  }

  /** The entry of a name that has been written is listed under it, and the name is kept. */
  lemma {:induction false} WrittenListed(d: seq<Dirent>, from: nat, p: nat, name: seq<nat>) returns (j: nat)
    requires from <= |d| && HoldsName(d, p, name) && GoodName(name) && p < |d| && IsShort(d[p])
    requires from + DirentsNeeded(name) <= p < EndMark(d, from) && !CorruptFrom(d, from)
    ensures j < |ListingFrom(d, from)| == |KeptFrom(d, from)| && ListingFrom(d, from)[j] == KeptFrom(d, from)[j] == Listed(d[p], name)
    decreases |d| - from
  {
    hide *;
    NoNameOk();
    NoNameBuffer();
    var found := ScanFrom(d, from, NoName(), Everything());
    SearchStep(d, from, found);
    WrittenFound(d, from, p, name);
    ListingStep(d, from);
    KeptIff(d, from);
    if found.position == p {
      WrittenNotEarly(d, p, name);
      j := 0;
    } else {
      j := WrittenListed(d, found.position + 1, p, name);
      j := j + 1;
    }
  }

  lemma NoNameBuffer()
    ensures |NoName().buffer| == 13 * MAX_LFN_DIRENTS && !NoName().inProgress
  {
  }

  /** Every name that has been written by the driver is kept: its entry is listed under it, in the same place, before and after. */
  lemma WrittenNameKept(d: seq<Dirent>, d': seq<Dirent>, p: nat, name: seq<nat>) returns (j: nat)
    requires !CorruptFrom(d, 0) && Defragged(d, d', SetsFrom(d, 0))
    requires HoldsName(d, p, name) && GoodName(name) && p < EndMark(d, 0) && IsShort(d[p])
    ensures j < |ListingFrom(d, 0)| == |ListingFrom(d', 0)| && ListingFrom(d, 0)[j] == ListingFrom(d', 0)[j] == Listed(d[p], name)
  {
    NameInFront(d, p, name);
    hide *;
    j := WrittenListed(d, 0, p, name);
    ListingKept(d, d');
  }

  /** A short entry, in front of it a name of thirteen characters, and in front of that a last entry that holds nothing but the terminator. */
  function WithExtraEntry(short: Dirent, name: seq<nat>): seq<Dirent>
    requires |name| == 13
  {
    var sum := Checksum(short, 11);
    [LfnDirent(2 + FAT_LAST_LONG_ENTRY, sum, [0] + seq(12, _ => 0xffff)), LfnDirent(1, sum, name), short]
  }

  lemma {:induction false} OnlyFillers(chars: seq<nat>, i: nat)
    requires 0 < i <= |chars| && forall k :: i <= k < |chars| ==> chars[k] == 0xffff
    ensures TailSize(chars, i, 0) == 0
    decreases |chars| - i
  {
    if i < |chars| {
      OnlyFillers(chars, i + 1);
    }
  }

  /** The search finds the entry with its name; a search from the first slot of its set finds it without. */
  lemma ExtraEntryFound(short: Dirent, name: seq<nat>)
    requires IsShort(short) && |name| == 13 && AreChars(name)
    ensures var d := WithExtraEntry(short, name);
      ScanFrom(d, 0, NoName(), Everything()) == Found(2, name, false) && ClosedEarly(d, 2, name)
  {
    var d, sum := WithExtraEntry(short, name), Checksum(short, 11);
    var closing := [0] + seq(12, _ => 0xffff);
    LfnDirentReads(2 + FAT_LAST_LONG_ENTRY, sum, closing);
    LfnDirentReads(1, sum, name);
    LastOrdinal(d[0], 2);
    OnlyFillers(closing, 1);
    assert Attributes(d[0]) == FAT_DIRENT_ATTR_LFN && Attributes(d[1]) == FAT_DIRENT_ATTR_LFN && d[2] == short;
    hide LfnDirent;
    hide WithExtraEntry;
    hide Checksum;
    hide Chars;
    hide TailSize;
    ExtraEntryScanned(d, name, closing);
  }

  lemma ExtraEntryScanned(d: seq<Dirent>, name: seq<nat>, closing: seq<nat>)
    requires |d| == 3 && |name| == 13 && |closing| == 13 && closing[0] == 0 && TailSize(closing, 0, -1) == 0 && EndsSet(d[2]) && IsShort(d[2])
    requires InUse(d[0]) && Attributes(d[0]) == FAT_DIRENT_ATTR_LFN && IsLastEntry(d[0]) && OrdinalOf(d[0]) == 2 && MustBeZero(d[0]) == 0
    requires InUse(d[1]) && Attributes(d[1]) == FAT_DIRENT_ATTR_LFN && d[1][0] == 1 && MustBeZero(d[1]) == 0
    requires Chars(d[0]) == closing && Chars(d[1]) == name && LfnChecksum(d[0]) == LfnChecksum(d[1]) == Checksum(d[2], 11)
    ensures ScanFrom(d, 0, NoName(), Everything()) == Found(2, name, false) && ClosedEarly(d, 2, name)
  {
    hide Checksum;
    hide Chars;
    hide TailSize;
    hide ScanFrom;
    ScanFeeds(d, 0, NoName());
    var r := Fed(NoName(), d[0], 0);
    assert r.inProgress && r.size == r.index == 13 && r.ordinal == 2 && r.lastEntry == 0 && r.checksum == LfnChecksum(d[0]);
    ExtraEntryContinued(d, name, r);
  }

  lemma ExtraEntryContinued(d: seq<Dirent>, name: seq<nat>, r: Reader)
    requires |d| == 3 && |name| == 13 && EndsSet(d[2]) && IsShort(d[2])
    requires InUse(d[1]) && Attributes(d[1]) == FAT_DIRENT_ATTR_LFN && d[1][0] == 1 && MustBeZero(d[1]) == 0
    requires Chars(d[1]) == name && LfnChecksum(d[1]) == Checksum(d[2], 11)
    requires ReaderOk(r) && r.inProgress && r.size == r.index == 13 && r.ordinal == 2 && r.lastEntry == 0 && r.checksum == LfnChecksum(d[1])
    ensures ScanFrom(d, 1, r, Everything()) == Found(2, name, false)
  {
    hide Checksum;
    hide Chars;
    hide ScanFrom;
    ScanFeeds(d, 1, r);
    var s := Fed(r, d[1], 1);
    forall k | 0 <= k < 13 ensures s.buffer[k] == name[k] {
      assert s.buffer[k] == Chars(d[1])[k];
    }
    ScanAtShort(d, 2, name, s, Everything());
  }

  /** Defragmenting such a directory drops the entry in front, and the file loses its long name. */
  lemma ExtraEntryLosesName(short: Dirent, name: seq<nat>, d': seq<Dirent>)
    requires IsShort(short) && |name| == 13 && AreChars(name)
    requires Defragged(WithExtraEntry(short, name), d', SetsFrom(WithExtraEntry(short, name), 0))
    ensures ListingFrom(WithExtraEntry(short, name), 0) == [Listed(short, name)]
    ensures SetsFrom(WithExtraEntry(short, name), 0) == [Set(1, 2)] && ListingFrom(d', 0) == [Listed(short, [])]
  {
    var d := WithExtraEntry(short, name);
    assert |d| == 3 && d[2] == short && DirentsNeeded(name) == 1;
    NothingBehind(d);
    assert ListingFrom(d, 3) == [] && KeptFrom(d, 3) == [];
    hide *;
    ExtraEntryFound(short, name);
    SearchStep(d, 0, Found(2, name, false));
    ListingStep(d, 0);
    ListingKept(d, d');
  }
}
