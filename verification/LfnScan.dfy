/**
  What long name FatLocateDirent finds a short entry with, in the bytes of the entries in
  front of it: for every directory, whoever has written it, and every query.
 */
module LfnScan {
  import opened Lfn
  import opened LfnFormat

  /** Character i of an entry of a long name. */
  function CharOf(d: Dirent, i: nat): nat
    requires i < 13
  {
    d[CharOffset(i)] + 0x100 * d[CharOffset(i) + 1]
  }

  /** The entry numbered j of a name with a checksum. */
  predicate IsPart(d: Dirent, checksum: nat, j: nat, last: bool) {
    d[0] == (if last then 0x40 + j else j) && d[11] == 0x0f && d[13] == checksum && d[26] == 0x00 && d[27] == 0x00
  }

  /** The last entry of a name of size characters: no zero among what it holds of the name, and behind that a zero and fillers. */
  ghost predicate Closes(d: Dirent, held: nat) {
    && held <= 13
    && (forall i :: 0 <= i < held ==> CharOf(d, i) != 0)
    && (held < 13 ==> CharOf(d, held) == 0)
    && forall i :: held < i < 13 ==> CharOf(d, i) == 0xffff
  }

  /** The slot belongs to a file, or to the volume label. */
  predicate Passed(d: Dirent) {
    d[0] != 0x00 && d[0] != 0xe5 && d[11] != 0x0f
  }

  /** The entry numbered x + 2 comes before the one numbered x + 1, with nothing but entries of files between them. */
  ghost predicate InFront(d: seq<Dirent>, places: seq<nat>, x: nat)
    requires x + 1 < |places|
  {
    places[x + 1] < places[x] <= |d| && forall i :: places[x + 1] < i < places[x] ==> Passed(d[i])
  }

  /** The entries numbered from n on of a name, at their places, the last one first. */
  ghost predicate PartsFrom(d: seq<Dirent>, places: seq<nat>, checksum: nat, size: nat, n: nat) {
    var m := |places|;
    && 1 <= n <= m <= 20
    && (forall x :: n - 1 <= x < m ==> places[x] < |d| && IsPart(d[places[x]], checksum, x + 1, x + 1 == m))
    && (forall x :: n - 1 <= x < m - 1 ==> InFront(d, places, x))
    && 13 * (m - 1) <= size && Closes(d[places[m - 1]], size - 13 * (m - 1))
  }

  /** The characters of the entry numbered x + 1. */
  ghost predicate HoldsPart(d: Dirent, chars: seq<nat>, size: nat, x: nat)
    requires size <= |chars|
  {
    forall i :: 0 <= i < 13 && 13 * x + i < size ==> chars[13 * x + i] == CharOf(d, i)
  }

  /** The characters of a name from entry n on. */
  ghost predicate HoldFrom(d: seq<Dirent>, places: seq<nat>, chars: seq<nat>, size: nat, n: nat) {
    size <= |chars| && n > 0 && forall x :: n - 1 <= x < |places| ==> places[x] < |d| && HoldsPart(d[places[x]], chars, size, x)
  }

  /** A name is spelled by the entries in front of a short entry, the first part right in front of it and the last at or behind a position. */
  ghost predicate Spelled(d: seq<Dirent>, from: nat, at: nat, name: seq<nat>, places: seq<nat>) {
    && at < |d| && PartsFrom(d, places, Checksum(d[at], 11), |name|, 1) && HoldFrom(d, places, name, |name|, 1)
    && places[0] + 1 == at && from <= places[|places| - 1]
  }

  lemma {:induction false} WordAt(b: seq<nat>, i: nat)
    requires |b| % 2 == 0 && i < |b| / 2
    ensures Words(b)[i] == b[2 * i] + 0x100 * b[2 * i + 1]
  {
    if i > 0 {
      WordAt(b[2..], i - 1);
    }
  }

  lemma CharsAre(d: Dirent, i: nat)
    requires i < 13
    ensures Chars(d)[i] == CharOf(d, i)
  {
    if i < 5 {
      WordAt(d[1..11], i);
    } else if i < 11 {
      WordAt(d[14..26], i - 5);
    } else {
      WordAt(d[28..32], i - 11);
    }
  }

  /** Behind the end of a name there may only be fillers. */
  lemma {:induction false} TailShut(chars: seq<nat>, i: nat, closed: nat)
    requires closed < i <= |chars|
    ensures TailSize(chars, i, closed) == if forall x :: i <= x < |chars| ==> chars[x] == 0xffff then closed else -1
    decreases |chars| - i
  {
    if i < |chars| && chars[i] == 0xffff {
      TailShut(chars, i + 1, closed);
    }
  }

  /** A name ends at the first zero. */
  lemma {:induction false} TailOpen(chars: seq<nat>, i: nat, n: nat)
    requires i <= |chars|
    ensures TailSize(chars, i, -1) == n <==>
      && i <= n <= |chars| && (forall x :: i <= x < n ==> chars[x] != 0) && (n < |chars| ==> chars[n] == 0)
      && forall x :: n < x < |chars| ==> chars[x] == 0xffff
    decreases |chars| - i
  {
    if i < |chars| {
      if chars[i] == 0 {
        TailShut(chars, i + 1, i);
      } else {
        TailOpen(chars, i + 1, n);
      }
    }
  }

  lemma ClosesIs(d: Dirent, held: nat)
    ensures TailSize(Chars(d), 0, -1) == held <==> Closes(d, held)
  {
    TailOpen(Chars(d), 0, held);
    forall i: nat | i < 13 ensures Chars(d)[i] == CharOf(d, i) {
      CharsAre(d, i);
    }
    hide Chars;
    hide CharOf;
    hide TailSize;
  }

  /** What starts a name is the entry with the last number, from 1 to 20. */
  lemma StartIs(d: Dirent)
    requires Attributes(d) == FAT_DIRENT_ATTR_LFN
    ensures MayStart(d) && OrdinalOf(d) > 0 <==> 0x40 < d[0] <= 0x40 + 20 && IsPart(d, d[13], d[0] - 0x40, true)
    ensures MayStart(d) && OrdinalOf(d) > 0 ==> OrdinalOf(d) == d[0] - 0x40
  {
  }

  /** What continues a name is the entry with the next number down. */
  lemma ContinuesIs(r: Reader, d: Dirent)
    requires ReaderOk(r) && Attributes(d) == FAT_DIRENT_ATTR_LFN
    ensures Continues(r, d) <==> r.inProgress && r.ordinal > 1 && IsPart(d, r.checksum, r.ordinal - 1, false)
  {
  }

  /** What a reader has in progress are the parts of a name, with only entries of files behind the last one it has read. */
  ghost predicate Reading(d: seq<Dirent>, from: nat, r: Reader, k: nat, places: seq<nat>) {
    && ReaderOk(r) && k <= |d|
    && (r.inProgress ==>
      && PartsFrom(d, places, r.checksum, r.size, r.ordinal) && HoldFrom(d, places, r.buffer, r.size, r.ordinal)
      && from <= places[|places| - 1] && r.lastEntry == places[r.ordinal - 1] < k
      && forall i :: r.lastEntry < i < k ==> Passed(d[i]))
  }

  lemma StartsReading(d: seq<Dirent>, from: nat, r: Reader, k: nat) returns (places: seq<nat>)
    requires ReaderOk(r) && from <= k < |d| && Attributes(d[k]) == FAT_DIRENT_ATTR_LFN
    requires !Continues(r, d[k]) && MayStart(d[k]) && OrdinalOf(d[k]) > 0
    ensures Reading(d, from, Fed(r, d[k], k), k + 1, places)
  {
    var e, m := d[k], OrdinalOf(d[k]);
    places := seq(m, _ => k);
    StartIs(e);
    FedOk(r, e, k);
    var r' := Fed(r, e, k);
    if r'.inProgress {
      ClosesIs(e, r'.size - 13 * (m - 1));
      forall i | 0 <= i < 13 && 13 * (m - 1) + i < r'.size ensures r'.buffer[13 * (m - 1) + i] == CharOf(e, i) {
        CharsAre(e, i);
        assert r'.buffer[13 * (m - 1) + i] == Chars(e)[i];
      }
    }
    hide Chars;
    hide TailSize;
    hide CharOf;
    hide Closes;
    hide IsPart;
  }

  lemma ContinuesReading(d: seq<Dirent>, from: nat, r: Reader, k: nat, places: seq<nat>) returns (places': seq<nat>)
    requires Reading(d, from, r, k, places) && k < |d| && Attributes(d[k]) == FAT_DIRENT_ATTR_LFN && Continues(r, d[k])
    ensures Reading(d, from, Fed(r, d[k], k), k + 1, places')
  {
    var e, n := d[k], r.ordinal;
    ContinuesIs(r, e);
    FedOk(r, e, k);
    var r' := Fed(r, e, k);
    places' := places[n - 2 := k];
    forall i | 0 <= i < 13 ensures r'.buffer[13 * (n - 2) + i] == CharOf(e, i) {
      CharsAre(e, i);
      assert r'.buffer[13 * (n - 2) + i] == Chars(e)[i];
    }
    forall x | n - 1 <= x < |places'| ensures places'[x] < |d| && HoldsPart(d[places'[x]], r'.buffer, r'.size, x) {
      assert HoldsPart(d[places[x]], r.buffer, r.size, x);
      assert forall y :: 13 * (n - 1) <= y < r.size ==> r'.buffer[y] == r.buffer[y];
    }
    forall x | n - 1 <= x < |places'| - 1 ensures InFront(d, places', x) {
      assert InFront(d, places, x);
    }
    hide Chars;
    hide CharOf;
    hide Closes;
    hide IsPart;
    hide Passed;
  }

  /** An entry is looked for whatever its long name is: every entry is, or the volume label, or its short name matches. */
  predicate MatchesShort(d: seq<Dirent>, q: Query, i: nat) {
    i < |d| && if d[i][11] / 0x08 % 2 == 1 then q.labels else q.all || q.shortMatches(d[i])
  }

  /** A long name that is found is spelled in front of the short entry. */
  lemma {:induction false} FoundIsSpelled(d: seq<Dirent>, from: nat, k: nat, r: Reader, q: Query, places: seq<nat>)
    requires Reading(d, from, r, k, places) && from <= k
    ensures var found := ScanFrom(d, k, r, q);
      found.Found? && (found.longName != [] || !MatchesShort(d, q, found.position)) ==>
        exists ps :: Spelled(d, from, found.position, found.longName, ps)
    decreases |d| - k
  {
    if k < |d| && d[k][0] != FAT_DIRENT_NEVER_USED {
      var e := d[k];
      if e[0] == FAT_DIRENT_DELETED {
        FoundIsSpelled(d, from, k + 1, r.(inProgress := false), q, []);
      } else if Attributes(e) == FAT_DIRENT_ATTR_LFN {
        if Continues(r, e) {
          var places' := ContinuesReading(d, from, r, k, places);
          FoundIsSpelled(d, from, k + 1, Fed(r, e, k), q, places');
        } else if MayStart(e) {
          if OrdinalOf(e) > 0 {
            var places' := StartsReading(d, from, r, k);
            FoundIsSpelled(d, from, k + 1, Fed(r, e, k), q, places');
          }
        } else {
          FoundIsSpelled(d, from, k + 1, Fed(r, e, k), q, []);
        }
      } else {
        if Belongs(r, e, k) {
          BelongsSpelled(d, from, r, k, places);
        }
        PassedOn(d, from, r, k, places);
        FoundIsSpelled(d, from, k + 1, r, q, places);
      }
    }
  }

  lemma PassedOn(d: seq<Dirent>, from: nat, r: Reader, k: nat, places: seq<nat>)
    requires Reading(d, from, r, k, places) && k < |d| && Passed(d[k])
    ensures Reading(d, from, r, k + 1, places)
  {
    hide PartsFrom;
    hide HoldFrom;
  }

  lemma BelongsSpelled(d: seq<Dirent>, from: nat, r: Reader, k: nat, places: seq<nat>)
    requires Reading(d, from, r, k, places) && k < |d| && Belongs(r, d[k], k)
    ensures Spelled(d, from, k, r.buffer[..r.size], places)
  {
    hide Checksum;
    hide CharOf;
    hide Closes;
    hide IsPart;
    hide Passed;
  }

  /** A reader on its way through the entries that spell a name: it has read those that lie behind it. */
  ghost predicate OnTheWay(d: seq<Dirent>, at: nat, name: seq<nat>, places: seq<nat>, r: Reader, k: nat)
    requires at < |d| && places != []
  {
    && ReaderOk(r) && k <= at
    && (k > places[|places| - 1] ==>
      && r.inProgress && r.checksum == Checksum(d[at], 11) && r.size == |name| && 1 <= r.ordinal <= |places|
      && r.lastEntry == places[r.ordinal - 1] < k <= (if r.ordinal == 1 then at else places[r.ordinal - 2])
      && forall y :: 13 * (r.ordinal - 1) <= y < |name| ==> r.buffer[y] == name[y])
  }

  lemma ReadsFirst(d: seq<Dirent>, from: nat, at: nat, name: seq<nat>, places: seq<nat>, r: Reader, k: nat)
    requires Spelled(d, from, at, name, places) && OnTheWay(d, at, name, places, r, k) && k == places[|places| - 1]
    ensures Attributes(d[k]) == FAT_DIRENT_ATTR_LFN && !Continues(r, d[k]) && MayStart(d[k]) && OrdinalOf(d[k]) > 0 && InUseAt(d, k)
    ensures k < at && OnTheWay(d, at, name, places, Fed(r, d[k], k), k + 1)
  {
    var e, m := d[k], |places|;
    PlacesRise(d, places, Checksum(d[at], 11), |name|, 0, m - 1);
    assert IsPart(e, Checksum(d[at], 11), m, true);
    StartIs(e);
    FedOk(r, e, k);
    ClosesIs(e, |name| - 13 * (m - 1));
    var r' := Fed(r, e, k);
    assert HoldsPart(e, name, |name|, m - 1);
    forall y | 13 * (m - 1) <= y < |name| ensures r'.buffer[y] == name[y] {
      var i := y - 13 * (m - 1);
      CharsAre(e, i);
      assert r'.buffer[y] == Chars(e)[i] && name[13 * (m - 1) + i] == CharOf(e, i);
    }
    if m > 1 {
      assert InFront(d, places, m - 2);
    }
    hide Chars;
    hide TailSize;
    hide CharOf;
    hide Closes;
    hide Passed;
    hide Checksum;
  }

  /** In use, and so neither passed over as deleted nor the end of the directory. */
  predicate InUseAt(d: seq<Dirent>, k: nat)
    requires k < |d|
  {
    d[k][0] != 0x00 && d[k][0] != 0xe5
  }

  lemma {:induction false} PlacesRise(d: seq<Dirent>, places: seq<nat>, checksum: nat, size: nat, x: nat, y: nat)
    requires PartsFrom(d, places, checksum, size, 1) && x <= y < |places|
    ensures places[y] <= places[x]
    decreases y - x
  {
    if x < y {
      PlacesRise(d, places, checksum, size, x, y - 1);
      assert InFront(d, places, y - 1);
    }
  }

  lemma ReadsNext(d: seq<Dirent>, from: nat, at: nat, name: seq<nat>, places: seq<nat>, r: Reader, k: nat)
    requires Spelled(d, from, at, name, places) && OnTheWay(d, at, name, places, r, k) && k > places[|places| - 1]
    requires r.ordinal > 1 && k == places[r.ordinal - 2]
    ensures k < |d| && Attributes(d[k]) == FAT_DIRENT_ATTR_LFN && Continues(r, d[k]) && InUseAt(d, k)
    ensures k < at && OnTheWay(d, at, name, places, Fed(r, d[k], k), k + 1)
  {
    var n := r.ordinal;
    var e := d[k];
    PlacesRise(d, places, Checksum(d[at], 11), |name|, 0, n - 2);
    assert IsPart(e, Checksum(d[at], 11), n - 1, false);
    ContinuesIs(r, e);
    FedOk(r, e, k);
    var r' := Fed(r, e, k);
    assert HoldsPart(e, name, |name|, n - 2);
    forall y | 13 * (n - 2) <= y < |name| ensures r'.buffer[y] == name[y] {
      if y < 13 * (n - 1) {
        var i := y - 13 * (n - 2);
        CharsAre(e, i);
        assert r'.buffer[y] == Chars(e)[i] && name[13 * (n - 2) + i] == CharOf(e, i);
      } else {
        assert r'.buffer[y] == r.buffer[y];
      }
    }
    if n > 2 {
      assert InFront(d, places, n - 3);
    }
    hide Chars;
    hide CharOf;
    hide Closes;
    hide Passed;
    hide Checksum;
  }

  lemma PassesBetween(d: seq<Dirent>, from: nat, at: nat, name: seq<nat>, places: seq<nat>, r: Reader, k: nat)
    requires Spelled(d, from, at, name, places) && OnTheWay(d, at, name, places, r, k) && k > places[|places| - 1]
    requires if r.ordinal == 1 then k < at else k != places[r.ordinal - 2]
    ensures k < |d| && Passed(d[k]) && k < at && OnTheWay(d, at, name, places, r, k + 1)
  {
    hide Passed;
    hide Closes;
    hide IsPart;
    hide Checksum;
    if r.ordinal > 1 {
      assert InFront(d, places, r.ordinal - 2);
      PlacesRise(d, places, Checksum(d[at], 11), |name|, 0, r.ordinal - 2);
    }
  }

  lemma ArrivesWith(d: seq<Dirent>, from: nat, at: nat, name: seq<nat>, places: seq<nat>, r: Reader)
    requires Spelled(d, from, at, name, places) && OnTheWay(d, at, name, places, r, at)
    ensures Belongs(r, d[at], at) && r.buffer[..r.size] == name
  {
    PlacesRise(d, places, Checksum(d[at], 11), |name|, 0, |places| - 1);
    if r.ordinal > 1 {
      assert InFront(d, places, r.ordinal - 2);
      PlacesRise(d, places, Checksum(d[at], 11), |name|, 0, r.ordinal - 2);
    }
    hide Passed;
    hide Closes;
    hide IsPart;
    hide Checksum;
  }

  /** The driver takes the directory for corrupt when it meets this entry of a long name: a last one, numbered zero. */
  predicate Raises(d: Dirent) {
    d[0] == 0x40 && d[11] == 0x0f && d[26] == 0x00 && d[27] == 0x00
  }

  /** What a search comes to, but for long names: it stops at slot e, and passes all slots in front of it. */
  ghost predicate StopsAt(d: seq<Dirent>, k: nat, q: Query, found: Located, e: nat) {
    && k <= e <= |d|
    && (forall i :: k <= i < e ==> d[i][0] != 0x00 && !Raises(d[i]) && (Passed(d[i]) ==> !MatchesShort(d, q, i)))
    && match found
      case Found(p, _, byShortName) =>
        && p == e < |d| && Passed(d[p]) && (d[p][11] / 0x08 % 2 == 1 ==> found.longName == [] && q.labels)
        && byShortName == (d[p][11] / 0x08 % 2 == 0 && !q.all && q.shortMatches(d[p]))
        && (MatchesShort(d, q, p) || (d[p][11] / 0x08 % 2 == 0 && q.longMatches(found.longName)))
      case NotFound => e == |d| || d[e][0] == 0x00
      case Corrupt => e < |d| && Raises(d[e])
  }

  lemma RaisesIs(r: Reader, d: Dirent)
    requires Attributes(d) == FAT_DIRENT_ATTR_LFN
    ensures MayStart(d) && !Continues(r, d) && OrdinalOf(d) == 0 <==> Raises(d)
  {
  }

  lemma {:induction false} ScanStops(d: seq<Dirent>, k: nat, r: Reader, q: Query) returns (e: nat)
    requires k <= |d| && ReaderOk(r)
    ensures StopsAt(d, k, q, ScanFrom(d, k, r, q), e)
    decreases |d| - k
  {
    e := k;
    if k < |d| && d[k][0] != FAT_DIRENT_NEVER_USED {
      if d[k][0] == FAT_DIRENT_DELETED {
        e := ScanStops(d, k + 1, r.(inProgress := false), q);
      } else if Attributes(d[k]) == FAT_DIRENT_ATTR_LFN {
        RaisesIs(r, d[k]);
        if !Raises(d[k]) {
          FedOk(r, d[k], k);
          e := ScanStops(d, k + 1, Fed(r, d[k], k), q);
        }
      } else if !ScanFrom(d, k, r, q).Found? || ScanFrom(d, k, r, q).position != k {
        e := ScanStops(d, k + 1, r, q);
      } else {
        FoundHere(d, k, r, q);
      }
    }
    hide Fed;
    hide Checksum;
    hide Raises;
  }

  lemma FoundHere(d: seq<Dirent>, k: nat, r: Reader, q: Query)
    requires k < |d| && ReaderOk(r) && Passed(d[k])
    requires var found := ScanFrom(d, k, r, q); found.Found? && found.position == k
    ensures StopsAt(d, k, q, ScanFrom(d, k, r, q), k)
  {
    FoundFurther(d, k + 1, r, q);
    hide Checksum;
  }

  /** A search that passes the slots in front of one goes on there as it would have begun. */
  ghost predicate Passes(d: seq<Dirent>, k: nat, q: Query, found: Located, at: nat) {
    && k <= at < |d| && (found.Found? ==> found.position >= at)
    && forall i :: k <= i < at ==> d[i][0] != 0x00 && !Raises(d[i])
  }

  lemma StillBefore(d: seq<Dirent>, at: nat, name: seq<nat>, places: seq<nat>, r: Reader, k: nat, q: Query) returns (r': Reader)
    requires at < |d| && places != [] && OnTheWay(d, at, name, places, r, k) && k < places[|places| - 1] && k < at
    requires Passes(d, k, q, ScanFrom(d, k, r, q), at)
    ensures OnTheWay(d, at, name, places, r', k + 1) && ScanFrom(d, k + 1, r', q) == ScanFrom(d, k, r, q)
  {
    var e := d[k];
    r' := r;
    if e[0] == FAT_DIRENT_DELETED {
      r' := r.(inProgress := false);
    } else if Attributes(e) == FAT_DIRENT_ATTR_LFN {
      RaisesIs(r, e);
      FedOk(r, e, k);
      r' := Fed(r, e, k);
    }
    hide Fed;
    hide Checksum;
    hide Raises;
  }

  /** A search that passes all slots in front of a short entry that a name is spelled in front of arrives there with that name. */
  lemma {:induction false} ArrivesAt(d: seq<Dirent>, from: nat, k: nat, r: Reader, q: Query, at: nat, name: seq<nat>, places: seq<nat>) returns (r': Reader)
    requires Spelled(d, from, at, name, places) && OnTheWay(d, at, name, places, r, k) && Passes(d, k, q, ScanFrom(d, k, r, q), at)
    ensures ReaderOk(r') && Belongs(r', d[at], at) && r'.buffer[..r'.size] == name && ScanFrom(d, at, r', q) == ScanFrom(d, k, r, q)
    decreases |d| - k
  {
    if k == at {
      ArrivesWith(d, from, at, name, places, r);
      r' := r;
    } else {
      var r1 := GoesOn(d, from, at, name, places, r, k, q);
      r' := ArrivesAt(d, from, k + 1, r1, q, at, name, places);
    }
    hide Spelled;
    hide Checksum;
    hide Fed;
    hide Raises;
  }

  lemma GoesOn(d: seq<Dirent>, from: nat, at: nat, name: seq<nat>, places: seq<nat>, r: Reader, k: nat, q: Query) returns (r': Reader)
    requires Spelled(d, from, at, name, places) && OnTheWay(d, at, name, places, r, k) && Passes(d, k, q, ScanFrom(d, k, r, q), at) && k < at
    ensures OnTheWay(d, at, name, places, r', k + 1) && ScanFrom(d, k + 1, r', q) == ScanFrom(d, k, r, q)
  {
    if k == places[|places| - 1] {
      ReadsFirst(d, from, at, name, places, r, k);
      r' := Fed(r, d[k], k);
    } else if k < places[|places| - 1] {
      r' := StillBefore(d, at, name, places, r, k, q);
    } else if r.ordinal > 1 && k == places[r.ordinal - 2] {
      ReadsNext(d, from, at, name, places, r, k);
      r' := Fed(r, d[k], k);
    } else {
      PassesBetween(d, from, at, name, places, r, k);
      r' := r;
    }
    hide Spelled;
    hide OnTheWay;
    hide Checksum;
    hide Fed;
    hide Raises;
  }

  /** An entry is looked for: by its short name or as a label, or by a long name that is spelled in front of it. */
  ghost predicate LookedFor(d: seq<Dirent>, from: nat, q: Query, i: nat) {
    && i < |d| && Passed(d[i])
    && (MatchesShort(d, q, i) || (d[i][11] / 0x08 % 2 == 0 && exists name, ps :: Spelled(d, from, i, name, ps) && q.longMatches(name)))
  }

  /** A slot that a search passes over. */
  ghost predicate PassedOver(d: seq<Dirent>, from: nat, q: Query, i: nat)
    requires i < |d|
  {
    d[i][0] != 0x00 && !Raises(d[i]) && !LookedFor(d, from, q, i)
  }

  /** What a search of a directory is to come to, by the bytes of its entries. */
  ghost predicate RightlyFound(d: seq<Dirent>, from: nat, q: Query, found: Located, e: nat) {
    && from <= e <= |d| && (forall i :: from <= i < e ==> PassedOver(d, from, q, i))
    && match found
      case Found(p, longName, byShortName) =>
        && p == e < |d| && LookedFor(d, from, q, p)
        && byShortName == (d[p][11] / 0x08 % 2 == 0 && !q.all && q.shortMatches(d[p]))
        && (longName != [] ==> d[p][11] / 0x08 % 2 == 0 && exists ps :: Spelled(d, from, p, longName, ps))
        && (d[p][11] / 0x08 % 2 == 0 ==> forall name, ps :: Spelled(d, from, p, name, ps) ==> longName == name)
      case NotFound => e == |d| || d[e][0] == 0x00
      case Corrupt => e < |d| && Raises(d[e])
  }

  /** An entry that is passed is not looked for by its long name either. */
  lemma NotLookedFor(d: seq<Dirent>, from: nat, q: Query, e: nat, i: nat)
    requires from <= i < e <= |d| && StopsAt(d, from, q, ScanFrom(d, from, NoName(), q), e)
    ensures PassedOver(d, from, q, i)
  {
    forall name, ps | Spelled(d, from, i, name, ps) && Passed(d[i]) && d[i][11] / 0x08 % 2 == 0 ensures !q.longMatches(name) {
      assert Passes(d, from, q, ScanFrom(d, from, NoName(), q), i);
      FirstOnTheWay(d, from, i, name, ps);
      var r := ArrivesAt(d, from, from, NoName(), q, i, name, ps);
      NotWanted(d, i, r, q);
    }
    hide Spelled;
  }

  lemma FirstOnTheWay(d: seq<Dirent>, from: nat, at: nat, name: seq<nat>, places: seq<nat>)
    requires Spelled(d, from, at, name, places)
    ensures OnTheWay(d, at, name, places, NoName(), from)
  {
    PlacesRise(d, places, Checksum(d[at], 11), |name|, 0, |places| - 1);
    hide PartsFrom;
    hide HoldFrom;
    hide Checksum;
  }

  lemma NotWanted(d: seq<Dirent>, i: nat, r: Reader, q: Query)
    requires i < |d| && Passed(d[i]) && d[i][11] / 0x08 % 2 == 0 && ReaderOk(r) && Belongs(r, d[i], i)
    requires var found := ScanFrom(d, i, r, q); found.Found? ==> found.position > i
    ensures !q.longMatches(r.buffer[..r.size])
  {
    hide Belongs;
    hide Checksum;
  }

  /**
    FatLocateDirent, for every directory and every query: it finds the first entry that is
    looked for, with exactly the long name that is spelled in front of it; it raises at the
    first last entry numbered zero, and finds nothing if neither comes before the end.
   */
  lemma LocatesRightly(d: seq<Dirent>, from: nat, q: Query) returns (e: nat)
    requires from <= |d|
    ensures RightlyFound(d, from, q, ScanFrom(d, from, NoName(), q), e)
  {
    var found := ScanFrom(d, from, NoName(), q);
    e := ScanStops(d, from, NoName(), q);
    FoundIsSpelled(d, from, from, NoName(), q, []);
    forall i | from <= i < e ensures PassedOver(d, from, q, i) {
      NotLookedFor(d, from, q, e, i);
    }
    if found.Found? && d[e][11] / 0x08 % 2 == 0 {
      forall name, ps | Spelled(d, from, e, name, ps) ensures found.longName == name {
        FirstOnTheWay(d, from, e, name, ps);
        var r := ArrivesAt(d, from, from, NoName(), q, e, name, ps);
        FoundWithIt(d, e, r, q);
      }
    }
    hide Spelled;
    hide ScanFrom;
    hide Raises;
  }

  lemma FoundWithIt(d: seq<Dirent>, at: nat, r: Reader, q: Query)
    requires at < |d| && Passed(d[at]) && d[at][11] / 0x08 % 2 == 0 && ReaderOk(r) && Belongs(r, d[at], at)
    requires var found := ScanFrom(d, at, r, q); found.Found? && found.position == at
    ensures ScanFrom(d, at, r, q).longName == r.buffer[..r.size]
  {
    FoundFurther(d, at + 1, r, q);
    hide Belongs;
    hide Checksum;
  }
}
