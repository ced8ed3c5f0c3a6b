/**
  FatQueryDirectory: the entries of a directory that match are packed into the caller's
  buffer, one behind the other, each with a link to the next, until the buffer is full;
  the next query goes on where this one stopped.
 */
module QueryDirectory {
  import opened Buffers
  import opened Lfn
  import opened LfnFormat

  const SIZEOF_DIRENT: nat := 32

  /** Whether the searches end at an impossible entry. */
  predicate EndsCorrupt(dirents: seq<Dirent>, from: nat, q: Query)
    decreases |dirents| - from
  {
    if from >= |dirents| then false
    else
      var found := ScanFrom(dirents, from, NoName(), q);
      FoundFurther(dirents, from, NoName(), q);
      found.Corrupt? || (found.Found? && EndsCorrupt(dirents, found.position + 1, q))
  }

  /** Without the spaces at the end. */
  function Trimmed(s: seq<nat>): (r: seq<nat>)
    ensures |r| <= |s|
  {
    if s != [] && s[|s| - 1] == 0x20 then Trimmed(s[..|s| - 1]) else s
  }

  function LowerCase(s: seq<nat>, restore: bool): seq<nat> {
    seq(|s|, i requires 0 <= i < |s| => if restore && 0x41 <= s[i] <= 0x5a then s[i] + 0x20 else s[i])
  }

  /** Fat8dot3ToString, restoring the case, in a code page of single bytes. */
  function ShortName(d: Dirent): (r: seq<nat>)
    ensures |r| <= 12
  {
    var name, ext := Trimmed(d[..8]), Trimmed(d[8..11]);
    var first := if name != [] && name[0] == 0x05 then name[0 := 0xe5] else name;
    LowerCase(first, d[12] / 0x08 % 2 == 1) + if ext == [] then [] else [0x2e] + LowerCase(ext, d[12] / 0x10 % 2 == 1)
  }

  lemma {:induction false} TrimmedIs(s: seq<nat>)
    ensures Trimmed(s) == s[..|Trimmed(s)|] && (Trimmed(s) != [] ==> s[|Trimmed(s)| - 1] != 0x20)
    ensures forall i :: |Trimmed(s)| <= i < |s| ==> s[i] == 0x20
  {
    if s != [] && s[|s| - 1] == 0x20 {
      TrimmedIs(s[..|s| - 1]);
    }
  }

  /** A character of a short name as it is listed. */
  function InCase(c: nat, lowerCase: bool): nat {
    if lowerCase && 0x41 <= c <= 0x5a then c + 0x20 else c
  }

  /**
    The short name, character by character: the base without the spaces behind it, in
    which a first byte of 0x05 stands for 0xe5, and if there is an extension, a dot and
    the extension without the spaces behind it; bits 3 and 4 of byte 12 ask for lower case.
   */
  lemma ShortNameIs(d: Dirent) returns (base: nat, ext: nat)
    ensures base <= 8 && (base > 0 ==> d[base - 1] != 0x20) && forall i :: base <= i < 8 ==> d[i] == 0x20
    ensures ext <= 3 && (ext > 0 ==> d[8 + ext - 1] != 0x20) && forall i :: 8 + ext <= i < 11 ==> d[i] == 0x20
    ensures var r := ShortName(d);
      && |r| == base + (if ext > 0 then 1 + ext else 0)
      && (forall i :: 0 <= i < base ==> r[i] == InCase(if i == 0 && d[0] == 0x05 then 0xe5 else d[i], d[12] / 0x08 % 2 == 1))
      && (ext > 0 ==> r[base] == 0x2e)
      && forall i :: 8 <= i < 8 + ext ==> r[base + 1 + i - 8] == InCase(d[i], d[12] / 0x10 % 2 == 1)
  {
    TrimmedIs(d[..8]);
    TrimmedIs(d[8..11]);
    hide Trimmed;
    base, ext := |Trimmed(d[..8])|, |Trimmed(d[8..11])|;
    assert forall i :: base <= i < 8 ==> d[..8][i] == d[i];
    assert forall i :: 8 + ext <= i < 11 ==> d[8..11][i - 8] == d[i];
    assert forall i :: 8 <= i < 8 + ext ==> Trimmed(d[8..11])[i - 8] == d[i];
  }

  /** What the caller gets of an entry: its offset in the directory file, and its name as it is stored. */
  datatype Entry = Entry(fileIndex: nat, name: seq<nat>)

  /** The entry that a search found: its name is the long name, or else the short name. */
  function EntryOf(dirents: seq<Dirent>, found: Located): Entry
    requires found.Found? && found.position < |dirents|
  {
    Entry(SIZEOF_DIRENT * found.position, Bytes(if found.longName == [] then ShortName(dirents[found.position]) else found.longName))
  }

  /** An entry by its values: the offset of its slot of 32 bytes, and the characters of its name, low byte first. */
  lemma EntryListed(dirents: seq<Dirent>, found: Located)
    requires found.Found? && found.position < |dirents|
    ensures var e, chars := EntryOf(dirents, found), if found.longName == [] then ShortName(dirents[found.position]) else found.longName;
      && e.fileIndex == 32 * found.position && |e.name| == 2 * |chars|
      && (AreChars(chars) ==> forall i :: 0 <= i < |chars| ==> e.name[2 * i] == chars[i] % 0x100 && e.name[2 * i + 1] == chars[i] / 0x100)
  {
    var chars := if found.longName == [] then ShortName(dirents[found.position]) else found.longName;
    if AreChars(chars) {
      forall i | 0 <= i < |chars| ensures Bytes(chars)[2 * i] == chars[i] % 0x100 && Bytes(chars)[2 * i + 1] == chars[i] / 0x100 {
        BytesAt(chars, i);
      }
    }
    hide ShortName;
  }

  /** The matching entries from a position on: one search after the other, each from behind what was found last. */
  function Entries(dirents: seq<Dirent>, from: nat, q: Query): seq<Entry>
    decreases |dirents| - from
  {
    if from >= |dirents| then []
    else
      var found := ScanFrom(dirents, from, NoName(), q);
      FoundFurther(dirents, from, NoName(), q);
      if found.Found? then [EntryOf(dirents, found)] + Entries(dirents, found.position + 1, q) else []
  }

  /** An information class: the length of its structure without the name, and where in it the length of the name is. */
  datatype Layout = Layout(baseLength: nat, lengthAt: nat)

  /** The structures begin with the link and the file index. */
  ghost predicate LayoutOk(l: Layout) {
    8 <= l.lengthAt && l.lengthAt + 4 <= l.baseLength < 0x1000
  }

  function QuadAlign(x: nat): (r: nat)
    ensures x <= r < x + 8 && r % 8 == 0
  {
    (x + 7) / 8 * 8
  }

  /** Where entry n of a list is put. */
  function Place(l: Layout, es: seq<Entry>, n: nat): nat
    requires n <= |es|
  {
    if n == 0 then 0 else Place(l, es, n - 1) + QuadAlign(l.baseLength + |es[n - 1].name|)
  }

  lemma {:induction false} PlacesRise(l: Layout, es: seq<Entry>, i: nat, n: nat)
    requires i <= n <= |es|
    ensures Place(l, es, i) <= Place(l, es, n)
    ensures i < n ==> Place(l, es, i) + l.baseLength + |es[i].name| <= Place(l, es, n)
  {
    if i < n {
      PlacesRise(l, es, i, n - 1);
    }
  }

  /** An entry as it is put into a buffer, with as many bytes of its name as were copied. */
  ghost predicate EntryAt(b: seq<nat>, at: nat, l: Layout, e: Entry, link: nat, copied: nat) {
    && LayoutOk(l) && at + l.baseLength + copied <= |b| && copied <= |e.name|
    && ReadUlong(b, at) == link && ReadUlong(b, at + 4) == e.fileIndex && ReadUlong(b, at + l.lengthAt) == |e.name|
    && b[at + l.baseLength..at + l.baseLength + copied] == e.name[..copied]
  }

  /** Entry i of the first n. */
  ghost predicate Placed(b: seq<nat>, l: Layout, es: seq<Entry>, n: nat, i: nat)
    requires i < n <= |es|
  {
    EntryAt(b, Place(l, es, i), l, es[i], if i + 1 < n then Place(l, es, i + 1) - Place(l, es, i) else 0, |es[i].name|)
  }

  ghost predicate Packed(b: seq<nat>, l: Layout, es: seq<Entry>, n: nat)
    requires n <= |es|
  {
    forall i {:trigger Placed(b, l, es, n, i)} :: 0 <= i < n ==> Placed(b, l, es, n, i)
  }

  /** The entry that the caller finds at a place; it takes what is there of the name. */
  function Seen(b: seq<nat>, at: nat, l: Layout): Entry
    requires 8 <= l.lengthAt && l.lengthAt + 4 <= l.baseLength && at + l.baseLength <= |b|
  {
    var from, length := at + l.baseLength, ReadUlong(b, at + l.lengthAt);
    Entry(ReadUlong(b, at + 4), if from + length <= |b| then b[from..from + length] else b[from..])
  }

  /** What the caller sees: it follows the links from a place on. */
  function Visited(b: seq<nat>, at: nat, l: Layout): seq<Entry>
    requires 8 <= l.lengthAt && l.lengthAt + 4 <= l.baseLength
    decreases |b| - at
  {
    if at + l.baseLength > |b| then []
    else [Seen(b, at, l)] + if ReadUlong(b, at) == 0 then [] else Visited(b, at + ReadUlong(b, at), l)
  }

  /** Following the links visits exactly what was packed. */
  lemma {:induction false} VisitsPacked(b: seq<nat>, l: Layout, es: seq<Entry>, n: nat, i: nat)
    requires LayoutOk(l) && 8 <= l.lengthAt && l.lengthAt + 4 <= l.baseLength && i < n <= |es| && Packed(b, l, es, n)
    ensures Visited(b, Place(l, es, i), l) == es[i..n]
    decreases n - i
  {
    hide *;
    PackedAt(b, l, es, n, i);
    SliceFirst(es, i, n);
    var link := if i + 1 < n then Place(l, es, i + 1) - Place(l, es, i) else 0;
    VisitStep(b, Place(l, es, i), l, es[i], link);
    if i + 1 < n {
      VisitsPacked(b, l, es, n, i + 1);
    }
  }

  lemma SliceFirst(es: seq<Entry>, i: nat, n: nat)
    requires i < n <= |es|
    ensures es[i..n] == [es[i]] + if i + 1 < n then es[i + 1..n] else []
  {
  }

  lemma {:induction false} PackedAt(b: seq<nat>, l: Layout, es: seq<Entry>, n: nat, i: nat)
    requires i < n <= |es| && Packed(b, l, es, n)
    ensures EntryAt(b, Place(l, es, i), l, es[i], if i + 1 < n then Place(l, es, i + 1) - Place(l, es, i) else 0, |es[i].name|)
    ensures i + 1 < n ==> Place(l, es, i + 1) > Place(l, es, i)
  {
    assert Placed(b, l, es, n, i);
    if i + 1 < n {
      PlacesRise(l, es, i, i + 1);
    }
  }

  lemma {:induction false} VisitStep(b: seq<nat>, at: nat, l: Layout, e: Entry, link: nat)
    requires EntryAt(b, at, l, e, link, |e.name|)
    ensures Visited(b, at, l) == [e] + if link == 0 then [] else Visited(b, at + link, l)
  {
    SeesEntry(b, at, l, e, link);
    hide Seen;
    hide ReadUlong;
    hide EntryAt;
  }

  lemma SeesEntry(b: seq<nat>, at: nat, l: Layout, e: Entry, link: nat)
    requires EntryAt(b, at, l, e, link, |e.name|)
    ensures LayoutOk(l) && at + l.baseLength <= |b| && Seen(b, at, l) == e && ReadUlong(b, at) == link
  {
    assert e.name[..|e.name|] == e.name;
    hide ReadUlong;
  }

  lemma EntryIs(b: seq<nat>, at: nat, l: Layout, e: Entry, copied: nat)
    requires LayoutOk(l) && at + l.baseLength + copied <= |b| && copied <= |e.name|
    requires ReadUlong(b, at) == 0 && ReadUlong(b, at + 4) == e.fileIndex && ReadUlong(b, at + l.lengthAt) == |e.name|
    requires b[at + l.baseLength..at + l.baseLength + copied] == e.name[..copied]
    ensures EntryAt(b, at, l, e, 0, copied)
  {
  }

  /** Puts an entry into the buffer: the base is zeroed, then filled, then the name is copied. */
  method FillEntry(buffer: array<nat>, at: nat, l: Layout, e: Entry, copied: nat)
    requires LayoutOk(l) && at + l.baseLength + copied <= buffer.Length && copied <= |e.name| < 0x1_0000_0000 && e.fileIndex < 0x1_0000_0000
    modifies buffer
    ensures EntryAt(buffer[..], at, l, e, 0, copied) && SameOutside(old(buffer[..]), buffer[..], at, at + l.baseLength + copied)
  {
    assert 8 <= l.lengthAt && l.lengthAt + 4 <= l.baseLength;
    var zeros := seq(l.baseLength, _ => 0);
    assert ReadUlong(zeros, 0) == 0;
    hide *;
    ghost var u0 := buffer[..];
    Write(zeros, buffer, at);
    ghost var u1 := buffer[..];
    UlongOf(u1, at, zeros);
    WriteUlong(e.fileIndex, buffer, at + 4);
    ghost var u2 := buffer[..];
    WriteUlong(|e.name|, buffer, at + l.lengthAt);
    ghost var u3 := buffer[..];
    Write(e.name[..copied], buffer, at + l.baseLength);
    ghost var u4, end := buffer[..], at + l.baseLength + copied;
    UlongKept(u1, u2, at + 4, at + 8, at);
    UlongKept(u2, u3, at + l.lengthAt, at + l.lengthAt + 4, at);
    UlongKept(u2, u3, at + l.lengthAt, at + l.lengthAt + 4, at + 4);
    UlongKept(u3, u4, at + l.baseLength, end, at);
    UlongKept(u3, u4, at + l.baseLength, end, at + 4);
    UlongKept(u3, u4, at + l.baseLength, end, at + l.lengthAt);
    assert u4[at + l.baseLength..end] == buffer[at + l.baseLength..end];
    SameWider(u0, u1, at, at + l.baseLength, at, end);
    SameTwice(u0, u1, u2, at, end, at + 4, at + 8);
    SameTwice(u0, u2, u3, at, end, at + l.lengthAt, at + l.lengthAt + 4);
    SameTwice(u0, u3, u4, at, end, at + l.baseLength, end);
    EntryIs(u4, at, l, e, copied);
  }

  /** One entry more is packed: it is put behind the others, and the last of them is linked to it. */
  lemma {:induction false} PacksOneMore(u0: seq<nat>, u1: seq<nat>, u2: seq<nat>, l: Layout, es: seq<Entry>, n: nat)
    requires LayoutOk(l) && n < |es| && Packed(u0, l, es, n)
    requires EntryAt(u1, Place(l, es, n), l, es[n], 0, |es[n].name|)
    requires SameOutside(u0, u1, Place(l, es, n), Place(l, es, n) + l.baseLength + |es[n].name|)
    requires var last := if n == 0 then 0 else Place(l, es, n - 1);
      last + 4 <= |u2| && SameOutside(u1, u2, last, last + 4) && ReadUlong(u2, last) == Place(l, es, n) - last
    ensures Packed(u2, l, es, n + 1)
  {
    var m := n + 1;
    forall i: nat | i < m ensures Placed(u2, l, es, m, i) {
      StaysPlaced(u0, u1, u2, l, es, n, i);
    }
  }

  lemma {:induction false} StaysPlaced(u0: seq<nat>, u1: seq<nat>, u2: seq<nat>, l: Layout, es: seq<Entry>, n: nat, i: nat)
    requires LayoutOk(l) && i <= n < |es| && (i < n ==> Placed(u0, l, es, n, i))
    requires EntryAt(u1, Place(l, es, n), l, es[n], 0, |es[n].name|)
    requires SameOutside(u0, u1, Place(l, es, n), Place(l, es, n) + l.baseLength + |es[n].name|)
    requires var last := if n == 0 then 0 else Place(l, es, n - 1);
      last + 4 <= |u2| && SameOutside(u1, u2, last, last + 4) && ReadUlong(u2, last) == Place(l, es, n) - last
    ensures Placed(u2, l, es, n + 1, i)
  {
    PlacesRise(l, es, i, n);
    if i < n {
      PlacesRise(l, es, i, n - 1);
      hide EntryAt;
      hide SameOutside;
      OtherStays(u0, u1, u2, Place(l, es, n), l.baseLength + |es[n].name|, Place(l, es, n - 1), Place(l, es, i), l, es[i],
        if i + 1 < n then Place(l, es, i + 1) - Place(l, es, i) else 0);
    } else if n == 0 {
      LinkSet(u1, u2, 0, l, es[0], 0, |es[0].name|);
    } else {
      PlacesRise(l, es, n - 1, n);
      hide EntryAt;
      hide SameOutside;
      EntryKept(u1, u2, Place(l, es, n - 1), Place(l, es, n - 1) + 4, Place(l, es, n), l, es[i], 0, |es[i].name|);
    }
  }

  /** What becomes of an entry when one is put behind all others and the last of them is linked to it. */
  lemma OtherStays(u0: seq<nat>, u1: seq<nat>, u2: seq<nat>, p: nat, size: nat, last: nat, at: nat, l: Layout, e: Entry, link: nat)
    requires EntryAt(u0, at, l, e, link, |e.name|) && SameOutside(u0, u1, p, p + size) && at + l.baseLength + |e.name| <= p
    requires last + 4 <= |u2| && SameOutside(u1, u2, last, last + 4) && (at == last || at + l.baseLength + |e.name| <= last)
    ensures EntryAt(u2, at, l, e, if at == last then ReadUlong(u2, last) else link, |e.name|)
  {
    EntryKept(u0, u1, p, p + size, at, l, e, link, |e.name|);
    hide EntryAt;
    hide SameOutside;
    if at == last {
      LinkSet(u1, u2, at, l, e, link, |e.name|);
    } else {
      EntryKept(u1, u2, last, last + 4, at, l, e, link, |e.name|);
    }
  }

  /** An entry stays as it is when something else is written. */
  lemma EntryKept(u0: seq<nat>, u1: seq<nat>, lo: nat, hi: nat, at: nat, l: Layout, e: Entry, link: nat, copied: nat)
    requires EntryAt(u0, at, l, e, link, copied) && SameOutside(u0, u1, lo, hi) && (at + l.baseLength + copied <= lo || hi <= at)
    ensures EntryAt(u1, at, l, e, link, copied)
  {
    UlongKept(u0, u1, lo, hi, at);
    UlongKept(u0, u1, lo, hi, at + 4);
    UlongKept(u0, u1, lo, hi, at + l.lengthAt);
    BytesKept(u0, u1, lo, hi, at + l.baseLength, copied);
  }

  /** Only the link of an entry is written. */
  lemma LinkSet(u0: seq<nat>, u1: seq<nat>, at: nat, l: Layout, e: Entry, link: nat, copied: nat)
    requires EntryAt(u0, at, l, e, link, copied) && SameOutside(u0, u1, at, at + 4)
    ensures EntryAt(u1, at, l, e, ReadUlong(u1, at), copied)
  {
    UlongKept(u0, u1, at, at + 4, at + 4);
    UlongKept(u0, u1, at, at + 4, at + l.lengthAt);
    BytesKept(u0, u1, at, at + 4, at + l.baseLength, copied);
  }

  /** What a query comes to. */
  datatype Status = Success | BufferOverflow | NoSuchFile | NoMoreFiles | CorruptFile

  /** The context of an open directory: what it looks for, and where the next query starts. */
  class Ccb {
    const query: Query
    var offsetToStartSearchFrom: nat

    constructor (query: Query)
      ensures this.query == query && offsetToStartSearchFrom == 0
    {
      this.query, offsetToStartSearchFrom := query, 0;
    }
  }

  /** The entry of the directory at or behind an offset. */
  function DirentAt(vbo: nat): (r: nat)
    ensures vbo <= 32 * r < vbo + 32
  {
    (vbo + (SIZEOF_DIRENT - 1)) / SIZEOF_DIRENT
  }

  /** FatLocateDirent, from an offset on. */
  method LocateFrom(dirents: array<Dirent>, vbo: nat, q: Query, ghost ds: seq<Dirent>, ghost es: seq<Entry>) returns (found: Located)
    requires ds == dirents[..] && es == Entries(ds, DirentAt(vbo), q) && dirents.Length < 0x800_0000
    ensures found.Corrupt? ==> es == [] && EndsCorrupt(ds, DirentAt(vbo), q)
    ensures found.NotFound? ==> es == [] && !EndsCorrupt(ds, DirentAt(vbo), q)
    ensures found.Found? ==>
      && es != [] && found.position < |ds| == dirents.Length && es[0] == EntryOf(ds, found)
      && es[0].fileIndex == SIZEOF_DIRENT * found.position < 0x1_0000_0000 && |es[0].name| <= 26 * MAX_LFN_DIRENTS
      && es[1..] == Entries(ds, DirentAt(es[0].fileIndex + SIZEOF_DIRENT), q)
      && EndsCorrupt(ds, DirentAt(vbo), q) == EndsCorrupt(ds, DirentAt(es[0].fileIndex + SIZEOF_DIRENT), q)
  {
    var start := DirentAt(vbo);
    if start >= dirents.Length {
      return NotFound;
    }
    found := LocateDirent(dirents, start, q);
    FoundFurther(dirents[..], start, NoName(), q);
    hide ScanFrom;
  }

  /** How much of a name is copied into what room there is; a short name is converted in whole characters. */
  function Copied(name: seq<nat>, long: bool, room: nat): (r: nat)
    ensures r <= room && r <= |name| && (r == |name| <==> |name| <= room)
    ensures r < |name| ==> if long then r == room else r % 2 == 0 && room < r + 2
  {
    if |name| <= room then |name| else if long then room else room / 2 * 2
  }

  /** A quad-aligned place, and what follows it. */
  lemma {:induction false} PlaceAligned(l: Layout, es: seq<Entry>, n: nat)
    requires n < |es|
    ensures QuadAlign(Place(l, es, n)) == Place(l, es, n)
    ensures Place(l, es, n + 1) == QuadAlign(Place(l, es, n) + l.baseLength + |es[n].name|)
  {
    if n > 0 {
      PlaceAligned(l, es, n - 1);
      AlignSum(Place(l, es, n - 1), l.baseLength + |es[n - 1].name|);
    }
    AlignSum(Place(l, es, n), l.baseLength + |es[n].name|);
    hide QuadAlign;
  }

  lemma AlignSum(a: nat, x: nat)
    requires QuadAlign(a) == a
    ensures QuadAlign(a + x) == a + QuadAlign(x) && QuadAlign(a + QuadAlign(x)) == a + QuadAlign(x)
    ensures QuadAlign(0) == 0
  {
    var q := a / 8;
    AlignEights(q, x);
    AlignEights(q, QuadAlign(x));
    AlignAgain(x);
  }

  lemma AlignEights(q: nat, x: nat)
    ensures QuadAlign(8 * q + x) == 8 * q + QuadAlign(x)
  {
    assert (8 * q + x + 7) / 8 == q + (x + 7) / 8;
  }

  lemma AlignAgain(x: nat)
    ensures QuadAlign(QuadAlign(x)) == QuadAlign(x)
  {
    var q := (x + 7) / 8;
    assert (8 * q + 7) / 8 == q;
  }

  /** Where the last of n entries is. */
  function LastPlace(l: Layout, es: seq<Entry>, n: nat): nat
    requires n <= |es|
  {
    if n == 0 then 0 else Place(l, es, n - 1)
  }

  /** Puts the next entry behind the others, with as much of the name as there is room for, and links the last entry to it. */
  method PackEntry(buffer: array<nat>, l: Layout, ghost es: seq<Entry>, ghost n: nat, e: Entry, long: bool, lastEntry: nat, nextEntry: nat)
    returns (converted: nat)
    requires LayoutOk(l) && n < |es| && e == es[n] && |e.name| < 0x1_0000_0000 && e.fileIndex < 0x1_0000_0000
    requires Packed(buffer[..], l, es, n) && nextEntry == Place(l, es, n) && lastEntry == LastPlace(l, es, n)
    requires nextEntry + l.baseLength <= buffer.Length < 0x1_0000_0000 && (n > 0 ==> nextEntry + l.baseLength + |e.name| <= buffer.Length)
    modifies buffer
    ensures converted == Copied(e.name, long, buffer.Length - nextEntry - l.baseLength)
    ensures converted == |e.name| ==> Packed(buffer[..], l, es, n + 1)
    ensures n == 0 ==> EntryAt(buffer[..], 0, l, e, 0, converted)
  {
    converted := Copied(e.name, long, buffer.Length - nextEntry - l.baseLength);
    assert 4 <= l.baseLength && lastEntry <= nextEntry && (n == 0 ==> nextEntry == lastEntry == 0) by {
      if n > 0 {
        PlacesRise(l, es, n - 1, n);
      }
    }
    hide *;
    ghost var u0 := buffer[..];
    FillEntry(buffer, nextEntry, l, e, converted);
    ghost var u1 := buffer[..];
    WriteUlong(nextEntry - lastEntry, buffer, lastEntry);
    if n == 0 {
      LinkSet(u1, buffer[..], 0, l, e, 0, converted);
    }
    if converted == |e.name| {
      PacksOneMoreAt(u0, u1, buffer[..], l, es, n, nextEntry, lastEntry);
    }
  }

  lemma {:induction false} PacksOneMoreAt(u0: seq<nat>, u1: seq<nat>, u2: seq<nat>, l: Layout, es: seq<Entry>, n: nat, place: nat, last: nat)
    requires LayoutOk(l) && n < |es| && Packed(u0, l, es, n) && place == Place(l, es, n) && last == LastPlace(l, es, n)
    requires EntryAt(u1, place, l, es[n], 0, |es[n].name|) && SameOutside(u0, u1, place, place + l.baseLength + |es[n].name|)
    requires last + 4 <= |u2| && SameOutside(u1, u2, last, last + 4) && ReadUlong(u2, last) == place - last
    ensures Packed(u2, l, es, n + 1)
  {
    PacksOneMore(u0, u1, u2, l, es, n);
  }

  /** Where a query starts: behind the given index, with the wrap of a ULONG, or at the beginning, or where the last query stopped. */
  function StartVbo(indexSpecified: bool, fileIndex: nat, restartScan: bool, offset: nat): nat {
    if indexSpecified then (fileIndex + SIZEOF_DIRENT) % 0x1_0000_0000 else if restartScan then 0 else offset
  }

  /** A query starts at the entry behind the one whose index is given, or at the first entry, or where the last query stopped. */
  lemma StartsAt(indexSpecified: bool, fileIndex: nat, restartScan: bool, offset: nat, p: nat)
    requires fileIndex < 0x1_0000_0000 && p < 0x7ff_ffff
    ensures indexSpecified && fileIndex == 32 * p ==> DirentAt(StartVbo(indexSpecified, fileIndex, restartScan, offset)) == p + 1
    ensures indexSpecified ==>
      StartVbo(indexSpecified, fileIndex, restartScan, offset) == if fileIndex < 0xffff_ffe0 then fileIndex + 32 else fileIndex - 0xffff_ffe0
    ensures !indexSpecified && restartScan ==> DirentAt(StartVbo(indexSpecified, fileIndex, restartScan, offset)) == 0
    ensures !indexSpecified && !restartScan && offset == 32 * p ==> DirentAt(StartVbo(indexSpecified, fileIndex, restartScan, offset)) == p
  {
  }

  /** Subtraction of ULONGs. */
  function SubUlong(a: nat, b: nat): (r: nat)
    requires a < 0x1_0000_0000 && b < 0x1_0000_0000
    ensures r == if a >= b then a - b else 0x1_0000_0000 - (b - a)
  {
    (a - b) % 0x1_0000_0000
  }

  /** Whether entry n goes into the buffer behind the others; the first is put there even if its name does not fit. */
  predicate GoesIn(l: Layout, es: seq<Entry>, n: nat, bufferLength: nat)
    requires n < |es|
  {
    Place(l, es, n) + l.baseLength + |es[n].name| <= bufferLength
  }

  method Fits(l: Layout, ghost es: seq<Entry>, ghost n: nat, name: seq<nat>, nextEntry: nat, bufferLength: nat) returns (fits: bool)
    requires n < |es| && name == es[n].name && nextEntry == Place(l, es, n) && nextEntry < bufferLength + 8 <= 0x1_0000_0000
    ensures fits <==> GoesIn(l, es, n, bufferLength)
  {
    var remaining := SubUlong(bufferLength, nextEntry);
    fits := !(l.baseLength + |name| > remaining || bufferLength < nextEntry);
  }

  /** The state of the query loop: the first n entries are packed, and the search goes on behind them. */
  ghost predicate InLoop(dirents: seq<Dirent>, q: Query, l: Layout, start: nat, es: seq<Entry>, n: nat,
      currentVbo: nat, lastEntry: nat, nextEntry: nat, information: nat, bufferLength: nat) {
    && n <= |es| && nextEntry == Place(l, es, n) && lastEntry == LastPlace(l, es, n)
    && Entries(dirents, DirentAt(currentVbo), q) == es[n..]
    && EndsCorrupt(dirents, DirentAt(currentVbo), q) == EndsCorrupt(dirents, DirentAt(start), q)
    && (n == 0 ==> currentVbo == start && information == nextEntry == 0)
    && (n > 0 ==> currentVbo == es[n - 1].fileIndex + SIZEOF_DIRENT && 0 < nextEntry == QuadAlign(information))
    && (n > 0 ==> information == lastEntry + l.baseLength + |es[n - 1].name| <= bufferLength)
  }

  /** The first entry does not go in: as much of its name as there is room for is there. */
  ghost predicate CutOff(b: seq<nat>, l: Layout, e: Entry, long: bool, information: nat) {
    && l.baseLength <= |b| && EntryAt(b, 0, l, e, 0, Copied(e.name, long, |b| - l.baseLength))
    && information == l.baseLength + Copied(e.name, long, |b| - l.baseLength)
  }

  /** One turn of the loop: the entry that was found is put into the buffer, if it goes in. */
  method TakeEntry(ghost dirents: seq<Dirent>, ghost q: Query, l: Layout, ghost start: nat, ghost es: seq<Entry>, ghost n: nat, e: Entry, long: bool,
      ghost currentVbo: nat, lastEntry: nat, nextEntry: nat, information: nat, buffer: array<nat>)
    returns (stop: bool, status: Status, nextInformation: nat, nextNextEntry: nat)
    requires LayoutOk(l) && l.baseLength <= buffer.Length <= 0xffff_fff8
    requires InLoop(dirents, q, l, start, es, n, currentVbo, lastEntry, nextEntry, information, buffer.Length)
    requires n < |es| && e == es[n] && |e.name| <= 26 * MAX_LFN_DIRENTS && e.fileIndex < 0x1_0000_0000
    requires es[n..][1..] == Entries(dirents, DirentAt(e.fileIndex + SIZEOF_DIRENT), q)
    requires EndsCorrupt(dirents, DirentAt(currentVbo), q) == EndsCorrupt(dirents, DirentAt(e.fileIndex + SIZEOF_DIRENT), q)
    requires Packed(buffer[..], l, es, n)
    modifies buffer
    ensures stop <==> !GoesIn(l, es, n, buffer.Length)
    ensures stop && n > 0 ==> status == Success && nextInformation == information && Packed(buffer[..], l, es, n)
    ensures stop && n == 0 ==> status == BufferOverflow && CutOff(buffer[..], l, e, long, nextInformation)
    ensures !stop ==> status == Success && Packed(buffer[..], l, es, n + 1)
    ensures !stop ==>
      InLoop(dirents, q, l, start, es, n + 1, e.fileIndex + SIZEOF_DIRENT, nextEntry, nextNextEntry, nextInformation, buffer.Length)
  {
    LoopFacts(dirents, q, l, start, es, n, currentVbo, lastEntry, nextEntry, information, buffer.Length);
    stop, status, nextInformation, nextNextEntry := false, Success, information, nextEntry;
    var fits := Fits(l, es, n, e.name, nextEntry, buffer.Length);
    if nextEntry != 0 && !fits {
      return true, Success, information, nextEntry;
    }
    hide *;
    var converted := PackEntry(buffer, l, es, n, e, long, lastEntry, nextEntry);
    nextInformation := QuadAlign(information) + l.baseLength + converted;
    if converted < |e.name| {
      return true, BufferOverflow, nextInformation, nextEntry;
    }
    nextNextEntry := nextEntry + QuadAlign(l.baseLength + converted);
    TurnTaken(dirents, q, l, start, es, n, e, currentVbo, lastEntry, nextEntry, information, buffer.Length, nextInformation, nextNextEntry);
  }

  lemma {:induction false} LoopFacts(dirents: seq<Dirent>, q: Query, l: Layout, start: nat, es: seq<Entry>, n: nat,
      currentVbo: nat, lastEntry: nat, nextEntry: nat, information: nat, bufferLength: nat)
    requires InLoop(dirents, q, l, start, es, n, currentVbo, lastEntry, nextEntry, information, bufferLength) && n < |es|
    ensures nextEntry == Place(l, es, n) && lastEntry == LastPlace(l, es, n) && nextEntry == QuadAlign(information) < bufferLength + 8
    ensures n == 0 <==> nextEntry == 0
    ensures GoesIn(l, es, n, bufferLength) <==> nextEntry + l.baseLength + |es[n].name| <= bufferLength
  {
  }

  lemma {:induction false} TurnTaken(dirents: seq<Dirent>, q: Query, l: Layout, start: nat, es: seq<Entry>, n: nat, e: Entry,
      currentVbo: nat, lastEntry: nat, nextEntry: nat, information: nat, bufferLength: nat, information': nat, nextEntry': nat)
    requires LayoutOk(l) && InLoop(dirents, q, l, start, es, n, currentVbo, lastEntry, nextEntry, information, bufferLength)
    requires n < |es| && e == es[n] && es[n..][1..] == Entries(dirents, DirentAt(e.fileIndex + SIZEOF_DIRENT), q)
    requires EndsCorrupt(dirents, DirentAt(currentVbo), q) == EndsCorrupt(dirents, DirentAt(e.fileIndex + SIZEOF_DIRENT), q)
    requires information' == QuadAlign(information) + l.baseLength + |e.name| <= bufferLength
    requires nextEntry' == nextEntry + QuadAlign(l.baseLength + |e.name|)
    ensures InLoop(dirents, q, l, start, es, n + 1, e.fileIndex + SIZEOF_DIRENT, nextEntry, nextEntry', information', bufferLength)
  {
    PlaceAligned(l, es, n);
    assert es[n..][1..] == es[n + 1..];
    hide Entries;
    hide EndsCorrupt;
    hide DirentAt;
  }

  /** What a query comes to, when n of the entries went into the buffer. */
  function Outcome(es: seq<Entry>, n: nat, corrupt: bool, returnSingleEntry: bool, initialQuery: bool): Status {
    if n == |es| && !(returnSingleEntry && n == 1) && corrupt then CorruptFile
    else if n > 0 then Success
    else if es != [] then BufferOverflow
    else if initialQuery then NoSuchFile
    else NoMoreFiles
  }

  /** What the searches find next is what is next on the list. */
  lemma {:induction false} SearchNext(dirents: seq<Dirent>, q: Query, l: Layout, start: nat, es: seq<Entry>, n: nat,
      currentVbo: nat, lastEntry: nat, nextEntry: nat, information: nat, bufferLength: nat)
    requires InLoop(dirents, q, l, start, es, n, currentVbo, lastEntry, nextEntry, information, bufferLength)
    ensures n <= |es| && Entries(dirents, DirentAt(currentVbo), q) == es[n..] && (n == 0 <==> nextEntry == 0)
    ensures es[n..] != [] ==> n < |es| && es[n] == es[n..][0]
    ensures (es[n..] == [] ==> n == |es|) && (n == 0 ==> currentVbo == start)
    ensures EndsCorrupt(dirents, DirentAt(currentVbo), q) == EndsCorrupt(dirents, DirentAt(start), q)
  {
  }

  /** What is in the buffer when a query ends, and where the search has come to. */
  ghost predicate Holds(dirents: seq<Dirent>, q: Query, l: Layout, start: nat, es: seq<Entry>, n: nat, currentVbo: nat, information: nat, b: seq<nat>) {
    && LayoutOk(l) && n <= |es| && es == Entries(dirents, DirentAt(start), q) && information <= |b|
    && EndsCorrupt(dirents, DirentAt(currentVbo), q) == EndsCorrupt(dirents, DirentAt(start), q)
    && (n == 0 ==> currentVbo == start)
    && (n > 0 ==>
      && Visited(b, 0, l) == es[..n] && information == LastPlace(l, es, n) + l.baseLength + |es[n - 1].name|
      && currentVbo == es[n - 1].fileIndex + SIZEOF_DIRENT && Entries(dirents, DirentAt(currentVbo), q) == es[n..])
  }

  lemma {:induction false} LoopHolds(dirents: seq<Dirent>, q: Query, l: Layout, start: nat, es: seq<Entry>, n: nat,
      currentVbo: nat, lastEntry: nat, nextEntry: nat, information: nat, b: seq<nat>)
    requires LayoutOk(l) && n <= |es| && InLoop(dirents, q, l, start, es, n, currentVbo, lastEntry, nextEntry, information, |b|) && Packed(b, l, es, n)
    requires es == Entries(dirents, DirentAt(start), q)
    ensures Holds(dirents, q, l, start, es, n, currentVbo, information, b)
  {
    hide Visited;
    hide Packed;
    hide Entries;
    hide EndsCorrupt;
    hide DirentAt;
    if n > 0 {
      VisitsPacked(b, l, es, n, 0);
      assert es[0..n] == es[..n];
    }
  }

  lemma {:induction false} CutOffHolds(dirents: seq<Dirent>, q: Query, l: Layout, start: nat, es: seq<Entry>, long: bool, information: nat, b: seq<nat>)
    requires es != [] && es == Entries(dirents, DirentAt(start), q) && CutOff(b, l, es[0], long, information)
    ensures Holds(dirents, q, l, start, es, 0, start, information, b) && FirstCutOff(b, l, es, information)
  {
  }

  ghost predicate FirstCutOff(b: seq<nat>, l: Layout, es: seq<Entry>, information: nat) {
    es != [] && exists long :: CutOff(b, l, es[0], long, information)
  }

  /** How a query ends. */
  ghost predicate Ends(ds: seq<Dirent>, q: Query, l: Layout, start: nat, returnSingleEntry: bool, initialQuery: bool,
      es: seq<Entry>, n: nat, currentVbo: nat, status: Status, information: nat, b: seq<nat>) {
    && n <= |es| && Holds(ds, q, l, start, es, n, currentVbo, information, b)
    && status == Outcome(es, n, EndsCorrupt(ds, DirentAt(start), q), returnSingleEntry, initialQuery)
    && (n < |es| ==> (returnSingleEntry && n == 1) || !GoesIn(l, es, n, |b|))
    && (returnSingleEntry ==> n <= 1)
    && (status.BufferOverflow? ==> FirstCutOff(b, l, es, information))
  }

  /** One turn of the loop: the next entry is located and packed, or there is a reason to stop. */
  method Turn(dirents: array<Dirent>, ghost ds: seq<Dirent>, q: Query, l: Layout, ghost start: nat, returnSingleEntry: bool, initialQuery: bool,
      ghost es: seq<Entry>, ghost n: nat, currentVbo: nat, lastEntry: nat, nextEntry: nat, information: nat, buffer: array<nat>)
    returns (stop: bool, status: Status, nextVbo: nat, nextNextEntry: nat, nextInformation: nat)
    requires ds == dirents[..] && LayoutOk(l) && l.baseLength <= buffer.Length <= 0xffff_fff8 && |ds| < 0x800_0000
    requires es == Entries(ds, DirentAt(start), q) && n <= |es| && Packed(buffer[..], l, es, n)
    requires InLoop(ds, q, l, start, es, n, currentVbo, lastEntry, nextEntry, information, buffer.Length)
    requires returnSingleEntry ==> nextEntry == n == 0
    modifies buffer
    ensures stop ==> Ends(ds, q, l, start, returnSingleEntry, initialQuery, es, n, currentVbo, status, nextInformation, buffer[..])
    ensures !stop ==> status == Success && n < |es| && Packed(buffer[..], l, es, n + 1)
    ensures !stop ==> InLoop(ds, q, l, start, es, n + 1, nextVbo, nextEntry, nextNextEntry, nextInformation, buffer.Length)
  {
    hide *;
    stop, status, nextVbo, nextNextEntry, nextInformation := true, Success, currentVbo, nextEntry, information;
    SearchNext(ds, q, l, start, es, n, currentVbo, lastEntry, nextEntry, information, buffer.Length);
    var found := LocateFrom(dirents, currentVbo, q, ds, es[n..]);
    if !found.Found? {
      status := WhenNotFound(found, nextEntry, initialQuery, es, n, EndsCorrupt(ds, DirentAt(start), q), returnSingleEntry);
      LoopHolds(ds, q, l, start, es, n, currentVbo, lastEntry, nextEntry, information, buffer[..]);
      EndsBecause(ds, q, l, start, returnSingleEntry, initialQuery, es, n, currentVbo, status, information, buffer[..]);
      return;
    }
    var e := EntryOf(dirents[..], found);
    stop, status, nextInformation, nextNextEntry := TakeEntry(ds, q, l, start, es, n, e, found.longName != [], currentVbo,
      lastEntry, nextEntry, information, buffer);
    nextVbo := e.fileIndex + SIZEOF_DIRENT;
    if stop {
      StopsFull(ds, q, l, start, es, n, currentVbo, lastEntry, nextEntry, nextInformation, buffer[..], found.longName != [], status,
        EndsCorrupt(ds, DirentAt(start), q), returnSingleEntry, initialQuery);
      EndsBecause(ds, q, l, start, returnSingleEntry, initialQuery, es, n, currentVbo, status, nextInformation, buffer[..]);
    }
  }

  lemma {:induction false} EndsBecause(ds: seq<Dirent>, q: Query, l: Layout, start: nat, returnSingleEntry: bool, initialQuery: bool,
      es: seq<Entry>, n: nat, currentVbo: nat, status: Status, information: nat, b: seq<nat>)
    requires n <= |es| && Holds(ds, q, l, start, es, n, currentVbo, information, b)
    requires status == Outcome(es, n, EndsCorrupt(ds, DirentAt(start), q), returnSingleEntry, initialQuery)
    requires n == |es| || (returnSingleEntry && n == 1) || !GoesIn(l, es, n, |b|)
    requires (returnSingleEntry ==> n <= 1) && (status.BufferOverflow? ==> FirstCutOff(b, l, es, information))
    ensures Ends(ds, q, l, start, returnSingleEntry, initialQuery, es, n, currentVbo, status, information, b)
  {
    hide Holds;
    hide Outcome;
    hide EndsCorrupt;
    hide GoesIn;
    hide FirstCutOff;
    hide DirentAt;
  }

  /** The loop of FatQueryDirectory. */
  method PackEntries(dirents: array<Dirent>, ghost ds: seq<Dirent>, q: Query, l: Layout, start: nat, returnSingleEntry: bool, initialQuery: bool, buffer: array<nat>)
    returns (status: Status, information: nat, currentVbo: nat, ghost es: seq<Entry>, ghost n: nat)
    requires ds == dirents[..] && LayoutOk(l) && l.baseLength <= buffer.Length <= 0xffff_fff8 && |ds| < 0x800_0000
    modifies buffer
    ensures es == Entries(ds, DirentAt(start), q)
    ensures Ends(ds, q, l, start, returnSingleEntry, initialQuery, es, n, currentVbo, status, information, buffer[..])
  {
    hide *;
    es, n := Entries(ds, DirentAt(start), q), 0;
    currentVbo := start;
    var lastEntry: nat, nextEntry: nat := 0, 0;
    status, information := Success, 0;
    LoopStarts(ds, q, l, start, es, buffer[..]);
    while true
      invariant es == Entries(ds, DirentAt(start), q) && n <= |es| && Packed(buffer[..], l, es, n)
      invariant InLoop(ds, q, l, start, es, n, currentVbo, lastEntry, nextEntry, information, buffer.Length)
      invariant status == Success && (returnSingleEntry ==> n <= 1) && (n == 0 <==> nextEntry == 0)
      decreases |es| - n
      modifies buffer
    {
      if returnSingleEntry && nextEntry != 0 {
        SingleOutcome(es, n, EndsCorrupt(ds, DirentAt(start), q), initialQuery);
        LoopHolds(ds, q, l, start, es, n, currentVbo, lastEntry, nextEntry, information, buffer[..]);
        EndsBecause(ds, q, l, start, returnSingleEntry, initialQuery, es, n, currentVbo, status, information, buffer[..]);
        return;
      }
      var stop, next, nextVbo, nextInformation;
      stop, status, nextVbo, next, nextInformation :=
        Turn(dirents, ds, q, l, start, returnSingleEntry, initialQuery, es, n, currentVbo, lastEntry, nextEntry, information, buffer);
      if stop {
        information := nextInformation;
        return;
      }
      SearchNext(ds, q, l, start, es, n + 1, nextVbo, nextEntry, next, nextInformation, buffer.Length);
      currentVbo, lastEntry, nextEntry, information, n := nextVbo, nextEntry, next, nextInformation, n + 1;
    }
  }

  lemma {:induction false} LoopStarts(dirents: seq<Dirent>, q: Query, l: Layout, start: nat, es: seq<Entry>, b: seq<nat>)
    requires es == Entries(dirents, DirentAt(start), q)
    ensures InLoop(dirents, q, l, start, es, 0, start, 0, 0, 0, |b|) && Packed(b, l, es, 0)
  {
    hide Entries;
    hide EndsCorrupt;
    hide DirentAt;
  }

  lemma SingleOutcome(es: seq<Entry>, n: nat, corrupt: bool, initialQuery: bool)
    requires n == 1 <= |es|
    ensures Outcome(es, n, corrupt, true, initialQuery) == Success
  {
  }

  method WhenNotFound(found: Located, nextEntry: nat, initialQuery: bool, ghost es: seq<Entry>, ghost n: nat, ghost corrupt: bool, returnSingleEntry: bool)
    returns (status: Status)
    requires n == |es| && (n == 0 <==> nextEntry == 0) && !(returnSingleEntry && nextEntry != 0)
    requires (found.Corrupt? && corrupt) || (found.NotFound? && !corrupt)
    ensures status == Outcome(es, n, corrupt, returnSingleEntry, initialQuery) && !status.BufferOverflow?
  {
    status := Success;
    if found.Corrupt? {
      status := CorruptFile;
    } else if nextEntry == 0 {
      status := if initialQuery then NoSuchFile else NoMoreFiles;
    }
  }

  lemma {:induction false} StopsFull(dirents: seq<Dirent>, q: Query, l: Layout, start: nat, es: seq<Entry>, n: nat,
      currentVbo: nat, lastEntry: nat, nextEntry: nat, information: nat, b: seq<nat>, long: bool, status: Status,
      corrupt: bool, returnSingleEntry: bool, initialQuery: bool)
    requires n < |es| && es == Entries(dirents, DirentAt(start), q) && !GoesIn(l, es, n, |b|) && LayoutOk(l)
    requires n > 0 ==> status == Success && Packed(b, l, es, n) && InLoop(dirents, q, l, start, es, n, currentVbo, lastEntry, nextEntry, information, |b|)
    requires n == 0 ==> currentVbo == start && status == BufferOverflow && CutOff(b, l, es[0], long, information)
    ensures Holds(dirents, q, l, start, es, n, currentVbo, information, b)
    ensures status == Outcome(es, n, corrupt, returnSingleEntry, initialQuery)
    ensures status.BufferOverflow? ==> FirstCutOff(b, l, es, information)
  {
    if n == 0 {
      CutOffHolds(dirents, q, l, start, es, long, information, b);
    } else {
      LoopHolds(dirents, q, l, start, es, n, currentVbo, lastEntry, nextEntry, information, b);
    }
    hide InLoop;
    hide Holds;
    hide Packed;
    hide CutOff;
    hide FirstCutOff;
  }

  /**
    FatQueryDirectory.  With es the matching entries from where the query starts, the first
    n of them are in the buffer: all there are, or as many as go in, or one if only one was
    asked for.  The next query goes on behind them.  If even the first name does not go in,
    it is cut off, and the next query starts with the same entry.
   */
  method QueryDirectory(dirents: array<Dirent>, ghost ds: seq<Dirent>, ccb: Ccb, l: Layout, indexSpecified: bool, fileIndex: nat, restartScan: bool,
      returnSingleEntry: bool, initialQuery: bool, buffer: array<nat>)
    returns (status: Status, information: nat, ghost start: nat, ghost currentVbo: nat, ghost es: seq<Entry>, ghost n: nat)
    requires ds == dirents[..] && LayoutOk(l) && l.baseLength <= buffer.Length <= 0xffff_fff8 && |ds| < 0x800_0000
    modifies ccb, buffer
    ensures start == StartVbo(indexSpecified, fileIndex, restartScan, old(ccb.offsetToStartSearchFrom))
    ensures es == Entries(ds, DirentAt(start), ccb.query)
    ensures Ends(ds, ccb.query, l, start, returnSingleEntry, initialQuery, es, n, currentVbo, status, information, buffer[..])
    ensures status.Success? || status.BufferOverflow? ==> ccb.offsetToStartSearchFrom == currentVbo
    ensures !status.Success? && !status.BufferOverflow? ==>
      ccb.offsetToStartSearchFrom == if restartScan && !indexSpecified then 0 else old(ccb.offsetToStartSearchFrom)
  {
    hide *;
    var from := StartVbo(indexSpecified, fileIndex, restartScan, ccb.offsetToStartSearchFrom);
    start := from;
    if !indexSpecified && restartScan {
      ccb.offsetToStartSearchFrom := 0;
    }
    var reached;
    status, information, reached, es, n := PackEntries(dirents, ds, ccb.query, l, from, returnSingleEntry, initialQuery, buffer);
    currentVbo := reached;
    if status.Success? || status.BufferOverflow? {
      ccb.offsetToStartSearchFrom := reached;
    }
  }

  /** A query: how large the caller's buffer is, and whether a single entry is asked for. */
  datatype Request = Request(bufferLength: nat, returnSingleEntry: bool)

  /** What a number of queries list: a part of the entries, from the first on; the next query would list the others. */
  ghost predicate Listed(ds: seq<Dirent>, q: Query, all: seq<Entry>, seen: seq<Entry>, offset: nat) {
    |seen| <= |all| && seen == all[..|seen|] && Entries(ds, DirentAt(offset), q) == all[|seen|..]
  }

  lemma {:induction false} ListsMore(ds: seq<Dirent>, q: Query, l: Layout, all: seq<Entry>, seen: seq<Entry>, offset: nat, es: seq<Entry>, n: nat,
      currentVbo: nat, information: nat, b: seq<nat>)
    requires Listed(ds, q, all, seen, offset) && n > 0 && Holds(ds, q, l, offset, es, n, currentVbo, information, b)
    ensures LayoutOk(l) && 8 <= l.lengthAt && l.lengthAt + 4 <= l.baseLength
    ensures Listed(ds, q, all, seen + Visited(b, 0, l), currentVbo) && |seen + Visited(b, 0, l)| > |seen|
  {
    assert es == Entries(ds, DirentAt(offset), q);
    hide Visited;
    hide Entries;
    hide DirentAt;
    hide EndsCorrupt;
    PartsOfAll(all, seen, es, n, Visited(b, 0, l));
  }

  lemma PartsOfAll(all: seq<Entry>, seen: seq<Entry>, es: seq<Entry>, n: nat, v: seq<Entry>)
    requires |seen| <= |all| && seen == all[..|seen|] && es == all[|seen|..] && n <= |es| && v == es[..n]
    ensures |seen + v| == |seen| + n <= |all| && seen + v == all[..|seen + v|] && es[n..] == all[|seen + v|..]
  {
  }

  /** Some request has a buffer into which an entry does not go. */
  ghost predicate TooSmall(l: Layout, requests: seq<Request>, all: seq<Entry>, j: nat) {
    j < |all| && exists i :: 0 <= i < |requests| && requests[i].bufferLength < l.baseLength + |all[j].name|
  }

  /**
    Queries one after the other, until one does not succeed.  What they list together are
    the matching entries in order, each once, and the last query finds no more when all
    are listed.
   */
  method Enumerate(dirents: array<Dirent>, ghost ds: seq<Dirent>, ccb: Ccb, l: Layout, initialQuery: bool, requests: seq<Request>)
    returns (seen: seq<Entry>, status: Status, ghost all: seq<Entry>)
    requires ds == dirents[..] && LayoutOk(l) && 8 <= l.lengthAt && l.lengthAt + 4 <= l.baseLength && |ds| < 0x800_0000
    requires forall i :: 0 <= i < |requests| ==> l.baseLength <= requests[i].bufferLength <= 0xffff_fff8
    modifies ccb
    ensures all == Entries(ds, DirentAt(old(ccb.offsetToStartSearchFrom)), ccb.query)
    ensures Listed(ds, ccb.query, all, seen, ccb.offsetToStartSearchFrom)
    ensures status.NoMoreFiles? || status.NoSuchFile? ==> seen == all
    ensures status.Success? ==> |seen| >= |requests|
    ensures status.BufferOverflow? ==> TooSmall(l, requests, all, |seen|)
    ensures (forall j :: !TooSmall(l, requests, all, j)) && |requests| > |all| && !EndsCorrupt(ds, DirentAt(old(ccb.offsetToStartSearchFrom)), ccb.query) ==>
      (status.NoMoreFiles? || status.NoSuchFile?) && seen == all
  {
    hide *;
    ghost var q, from := ccb.query, DirentAt(ccb.offsetToStartSearchFrom);
    all := Entries(ds, from, q);
    seen, status := [], Success;
    var k := 0;
    ListsNothing(ds, q, all, ccb.offsetToStartSearchFrom);
    while k < |requests| && status.Success?
      invariant 0 <= k <= |requests| && all == Entries(ds, from, q)
      invariant Listed(ds, q, all, seen, ccb.offsetToStartSearchFrom)
      invariant EndsCorrupt(ds, DirentAt(ccb.offsetToStartSearchFrom), q) == EndsCorrupt(ds, from, q)
      invariant status.Success? ==> |seen| >= k
      invariant status.NoMoreFiles? || status.NoSuchFile? ==> seen == all
      invariant status.CorruptFile? ==> EndsCorrupt(ds, from, q)
      invariant status.BufferOverflow? ==> TooSmall(l, requests, all, |seen|)
    {
      var more;
      status, more := AskOnce(dirents, ds, ccb, l, initialQuery && k == 0, requests[k], requests, all, seen);
      seen := seen + more;
      k := k + 1;
    }
    ListedLength(ds, q, all, seen, ccb.offsetToStartSearchFrom);
  }

  lemma {:induction false} ListsNothing(ds: seq<Dirent>, q: Query, all: seq<Entry>, offset: nat)
    requires all == Entries(ds, DirentAt(offset), q)
    ensures Listed(ds, q, all, [], offset)
  {
    hide Entries;
    hide DirentAt;
  }

  lemma {:induction false} ListedLength(ds: seq<Dirent>, q: Query, all: seq<Entry>, seen: seq<Entry>, offset: nat)
    requires Listed(ds, q, all, seen, offset)
    ensures |seen| <= |all|
  {
  }

  method AskOnce(dirents: array<Dirent>, ghost ds: seq<Dirent>, ccb: Ccb, l: Layout, initialQuery: bool, request: Request, ghost requests: seq<Request>,
      ghost all: seq<Entry>, ghost seen: seq<Entry>)
    returns (status: Status, more: seq<Entry>)
    requires ds == dirents[..] && LayoutOk(l) && 8 <= l.lengthAt && l.lengthAt + 4 <= l.baseLength && |ds| < 0x800_0000
    requires l.baseLength <= request.bufferLength <= 0xffff_fff8 && request in requests
    requires Listed(ds, ccb.query, all, seen, ccb.offsetToStartSearchFrom)
    modifies ccb
    ensures Listed(ds, ccb.query, all, seen + more, ccb.offsetToStartSearchFrom) && (status.Success? ==> more != [])
    ensures EndsCorrupt(ds, DirentAt(ccb.offsetToStartSearchFrom), ccb.query) == old(EndsCorrupt(ds, DirentAt(ccb.offsetToStartSearchFrom), ccb.query))
    ensures status.NoMoreFiles? || status.NoSuchFile? ==> seen + more == all
    ensures status.CorruptFile? ==> EndsCorrupt(ds, DirentAt(ccb.offsetToStartSearchFrom), ccb.query)
    ensures status.BufferOverflow? ==> more == [] && TooSmall(l, requests, all, |seen|)
  {
    assert StartVbo(false, 0, false, ccb.offsetToStartSearchFrom) == ccb.offsetToStartSearchFrom;
    hide *;
    var buffer := new nat[request.bufferLength];
    var information;
    ghost var start, currentVbo, es, n, q := 0, 0, [], 0, ccb.query;
    status, information, start, currentVbo, es, n :=
      QueryDirectory(dirents, ds, ccb, l, false, 0, false, request.returnSingleEntry, initialQuery, buffer);
    more := if status.Success? then Visited(buffer[..], 0, l) else [];
    AskedOnce(ds, q, l, request, initialQuery, requests, all, seen, start, es, n, currentVbo, status, information, buffer[..]);
    assert seen + [] == seen;
  }

  /** What one more query adds. */
  lemma {:induction false} AskedOnce(ds: seq<Dirent>, q: Query, l: Layout, request: Request, initialQuery: bool, requests: seq<Request>,
      all: seq<Entry>, seen: seq<Entry>, offset: nat, es: seq<Entry>, n: nat, currentVbo: nat, status: Status, information: nat, b: seq<nat>)
    requires 8 <= l.lengthAt && l.lengthAt + 4 <= l.baseLength && request in requests && |b| == request.bufferLength
    requires Listed(ds, q, all, seen, offset) && es == Entries(ds, DirentAt(offset), q)
    requires Ends(ds, q, l, offset, request.returnSingleEntry, initialQuery, es, n, currentVbo, status, information, b)
    ensures status.Success? ==> Listed(ds, q, all, seen + Visited(b, 0, l), currentVbo) && Visited(b, 0, l) != []
    ensures EndsCorrupt(ds, DirentAt(currentVbo), q) == EndsCorrupt(ds, DirentAt(offset), q)
    ensures status.NoMoreFiles? || status.NoSuchFile? ==> seen == all
    ensures status.CorruptFile? ==> EndsCorrupt(ds, DirentAt(offset), q)
    ensures status.BufferOverflow? ==> currentVbo == offset && TooSmall(l, requests, all, |seen|)
  {
    var sees := Visited(b, 0, l);
    if status.Success? {
      ListsMore(ds, q, l, all, seen, offset, es, n, currentVbo, information, b);
    }
    if status.BufferOverflow? {
      var i :| 0 <= i < |requests| && requests[i] == request;
      assert !GoesIn(l, es, 0, |b|) && es[0] == all[|seen|];
    }
    hide Visited;
    hide Entries;
    hide EndsCorrupt;
    hide DirentAt;
  }
}
