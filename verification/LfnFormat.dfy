/**
  Long names byte by byte, as other systems read and write them: the checksum in the
  arithmetic of bytes, and the layout of the entries.  See section "FAT Long Directory
  Entries" of the Microsoft FAT32 File System Specification.
 */
module LfnFormat {
  import opened Lfn

  ghost predicate AreBytes(b: seq<nat>) {
    forall i :: 0 <= i < |b| ==> b[i] < 0x100
  }

  function Value(b: bv8): (v: nat)
    ensures v < 0x100
  {
    b as nat
  }

  /** A name in bytes, by the values of its bytes. */
  function Values(name: seq<bv8>): (values: seq<nat>)
    ensures |values| == |name|
  {
    seq(|name|, i requires 0 <= i < |name| => Value(name[i]))
  }

  function Plus(a: bv8, b: bv8): bv8 {
    a + b
  }

  function RotateRight(b: bv8): bv8 {
    (b >> 1) | (b << 7)
  }

  /** The sum of the first n bytes, each added to the sum before it rotated right by a bit. */
  function RotatedSum(name: seq<bv8>, n: nat): bv8
    requires 0 < n <= |name|
  {
    if n == 1 then name[0] else Plus(RotateRight(RotatedSum(name, n - 1)), name[n - 1])
  }

  lemma RotatedValue(b: bv8)
    ensures Value(RotateRight(b)) == (if Value(b) % 2 == 1 then 0x80 else 0) + Value(b) / 2
  {
  }

  function Next(b: bv8): bv8 {
    b + 1
  }

  function Before(b: bv8): bv8 {
    b - 1
  }

  lemma NextValue(b: bv8)
    ensures Value(Next(b)) == if Value(b) == 0xff then 0 else Value(b) + 1
  {
  }

  lemma BeforeValue(b: bv8)
    requires Value(b) != 0
    ensures Value(Before(b)) == Value(b) - 1
  {
  }

  lemma PlusZero(a: bv8, b: bv8)
    requires Value(b) == 0
    ensures Plus(a, b) == a
  {
  }

  lemma PlusNext(a: bv8, b: bv8)
    ensures Plus(a, b) == Next(Plus(a, Before(b)))
  {
  }

  /** Bytes add up modulo 0x100. */
  lemma {:induction false} PlusValue(a: bv8, b: bv8)
    ensures Value(Plus(a, b)) == (Value(a) + Value(b)) % 0x100
    decreases Value(b)
  {
    hide *;
    if Value(b) == 0 {
      PlusZero(a, b);
    } else {
      BeforeValue(b);
      PlusValue(a, Before(b));
      PlusNext(a, b);
      NextValue(Plus(a, Before(b)));
    }
  }

  /** The checksum is the rotated sum. */
  lemma {:induction false} ChecksumIsRotatedSum(name: seq<bv8>, n: nat)
    requires 0 < n <= |name|
    ensures Checksum(Values(name), n) == Value(RotatedSum(name, n))
  {
    hide Value;
    hide Plus;
    hide RotateRight;
    if n > 1 {
      ChecksumIsRotatedSum(name, n - 1);
      RotatedValue(RotatedSum(name, n - 1));
      PlusValue(RotateRight(RotatedSum(name, n - 1)), name[n - 1]);
    }
  }

  /** A sum rotated right by a bit, as the driver computes it. */
  function Rotated(sum: nat): nat {
    (if sum % 2 == 1 then 0x80 else 0) + sum / 2
  }

  lemma RotatedTellsApart(a: nat, b: nat)
    requires a < 0x100 && b < 0x100 && a != b
    ensures Rotated(a) != Rotated(b)
  {
    assert a == 2 * (a / 2) + a % 2 && b == 2 * (b / 2) + b % 2;
  }

  lemma SumsTellApart(a: nat, b: nat, x: nat, y: nat)
    requires a < 0x100 && b < 0x100 && x < 0x100 && y < 0x100 && ((a == b) != (x == y))
    ensures (a + x) % 0x100 != (b + y) % 0x100
  {
    var m, k := (a + x) / 0x100, (b + y) / 0x100;
    assert a + x == 0x100 * m + (a + x) % 0x100 && b + y == 0x100 * k + (b + y) % 0x100;
  }

  lemma ChecksumStep(name: seq<nat>, n: nat)
    requires 1 < n <= |name| && Checksum(name, n - 1) < 0x100
    ensures Rotated(Checksum(name, n - 1)) < 0x100 && Checksum(name, n) == (Rotated(Checksum(name, n - 1)) + name[n - 1]) % 0x100
  {
  }

  lemma {:induction false} ChecksumIsByte(name: seq<nat>, n: nat)
    requires 0 < n <= |name| && AreBytes(name)
    ensures Checksum(name, n) < 0x100
  {
  }

  /** Names that differ in exactly one byte have different sums. */
  lemma {:induction false} ChecksumTellsApart(a: seq<nat>, b: seq<nat>, n: nat, p: nat)
    requires p < n <= |a| == |b| && AreBytes(a) && AreBytes(b)
    requires forall i :: 0 <= i < n ==> (a[i] != b[i] <==> i == p)
    ensures Checksum(a, n) != Checksum(b, n)
  {
    if n > 1 {
      ChecksumIsByte(a, n - 1);
      ChecksumIsByte(b, n - 1);
      ChecksumStep(a, n);
      ChecksumStep(b, n);
      if p == n - 1 {
        ChecksumOfSame(a, b, n - 1);
      } else {
        ChecksumTellsApart(a, b, n - 1, p);
        RotatedTellsApart(Checksum(a, n - 1), Checksum(b, n - 1));
      }
      hide Checksum;
      hide Rotated;
      SumsTellApart(Rotated(Checksum(a, n - 1)), Rotated(Checksum(b, n - 1)), a[n - 1], b[n - 1]);
    }
  }

  lemma {:induction false} ChecksumOfSame(a: seq<nat>, b: seq<nat>, n: nat)
    requires 0 < n <= |a| && n <= |b| && forall i :: 0 <= i < n ==> a[i] == b[i]
    ensures Checksum(a, n) == Checksum(b, n)
  {
    if n > 1 {
      ChecksumOfSame(a, b, n - 1);
    }
  }

  /** Where an entry of a long name holds its character i. */
  function CharOffset(i: nat): (at: nat)
    requires i < 13
    ensures 0 < at <= 30
  {
    if i < 5 then 1 + 2 * i else if i < 11 then 14 + 2 * (i - 5) else 28 + 2 * (i - 11)
  }

  /** What character k is, counted over all entries of a name. */
  function CharOfName(name: seq<nat>, k: nat): nat {
    if k < |name| then name[k] else if k == |name| then 0x0000 else 0xffff
  }

  /** A byte sequence is entry j of a long name, counted from one: every one of its 32 bytes is given. */
  ghost predicate LaidOut(d: Dirent, name: seq<nat>, checksum: nat, j: nat)
    requires j > 0
  {
    && d[0] == (if 13 * j >= |name| then 0x40 + j else j)
    && d[11] == 0x0f && d[12] == 0x00 && d[13] == checksum && d[26] == 0x00 && d[27] == 0x00
    && forall i :: 0 <= i < 13 ==>
      d[CharOffset(i)] == CharOfName(name, 13 * (j - 1) + i) % 0x100 && d[CharOffset(i) + 1] == CharOfName(name, 13 * (j - 1) + i) / 0x100
  }

  lemma {:induction false} BytesAt(chars: seq<nat>, i: nat)
    requires i < |chars| && AreChars(chars)
    ensures Bytes(chars)[2 * i] == chars[i] % 0x100 && Bytes(chars)[2 * i + 1] == chars[i] / 0x100
  {
    if i > 0 {
      BytesAt(chars[1..], i - 1);
    }
  }

  lemma CharLaidOut(ordinal: nat, checksum: nat, chars: seq<nat>, i: nat)
    requires i < |chars| == 13 && AreChars(chars)
    ensures var d := LfnDirent(ordinal, checksum, chars); d[CharOffset(i)] == chars[i] % 0x100 && d[CharOffset(i) + 1] == chars[i] / 0x100
  {
    var d := LfnDirent(ordinal, checksum, chars);
    if i < 5 {
      BytesAt(chars[..5], i);
      assert d[1..11] == Bytes(chars[..5]);
    } else if i < 11 {
      BytesAt(chars[5..11], i - 5);
      assert d[14..26] == Bytes(chars[5..11]);
    } else {
      BytesAt(chars[11..], i - 11);
      assert d[28..32] == Bytes(chars[11..]);
    }
  }

  lemma PieceIs(name: seq<nat>, j: nat)
    requires 0 < j <= DirentsNeeded(name) && AreChars(name)
    ensures AreChars(Piece(name, j)) && forall i :: 0 <= i < 13 ==> Piece(name, j)[i] == CharOfName(name, 13 * (j - 1) + i)
    ensures j == DirentsNeeded(name) <==> 13 * j >= |name|
  {
  }

  /** An entry that the driver writes, byte by byte. */
  lemma EntryLaidOut(name: seq<nat>, checksum: nat, j: nat)
    requires 0 < j <= DirentsNeeded(name) && AreChars(name)
    ensures LaidOut(EntryFor(name, checksum, j), name, checksum, j)
  {
    var ordinal, chars, d := if j == DirentsNeeded(name) then j + 0x40 else j, Piece(name, j), EntryFor(name, checksum, j);
    PieceIs(name, j);
    assert d == LfnDirent(ordinal, checksum, chars);
    assert d[0] == ordinal && d[11] == 0x0f && d[12] == 0x00 && d[13] == checksum && d[26] == 0x00 && d[27] == 0x00;
    hide EntryFor;
    hide LfnDirent;
    hide Piece;
    forall i | 0 <= i < 13
      ensures d[CharOffset(i)] == CharOfName(name, 13 * (j - 1) + i) % 0x100 && d[CharOffset(i) + 1] == CharOfName(name, 13 * (j - 1) + i) / 0x100
    {
      CharLaidOut(ordinal, checksum, chars, i);
    }
  }

  /** The bytes of an entry are all given. */
  lemma LaidOutOnce(d: Dirent, d': Dirent, name: seq<nat>, checksum: nat, j: nat)
    requires j > 0 && LaidOut(d, name, checksum, j) && LaidOut(d', name, checksum, j)
    ensures d == d'
  {
    forall k | 0 <= k < 32 ensures d[k] == d'[k] {
      if k !in {0, 11, 12, 13, 26, 27} {
        var i := if k < 11 then (k - 1) / 2 else if k < 26 then 5 + (k - 14) / 2 else 11 + (k - 28) / 2;
        assert k == CharOffset(i) || k == CharOffset(i) + 1;
      }
    }
  }

  /** The entries in front of a short entry hold a name if and only if they are laid out as its entries, as many as it takes. */
  lemma NameLaidOut(dirents: seq<Dirent>, at: nat, name: seq<nat>, m: nat)
    requires AreChars(name) && name != [] && 13 * m < |name| + 13 && |name| <= 13 * m && at < |dirents|
    ensures HoldsName(dirents, at, name) <==>
      m <= at && forall p :: at - m <= p < at ==> LaidOut(dirents[p], name, Checksum(dirents[at], 11), at - p)
  {
    assert m == DirentsNeeded(name);
    var sum := Checksum(dirents[at], 11);
    hide Checksum;
    hide EntryFor;
    hide LaidOut;
    if m <= at {
      forall p: nat | at - m <= p < at ensures dirents[p] == EntryFor(name, sum, at - p) <==> LaidOut(dirents[p], name, sum, at - p) {
        EntryLaidOut(name, sum, at - p);
        if LaidOut(dirents[p], name, sum, at - p) {
          LaidOutOnce(dirents[p], EntryFor(name, sum, at - p), name, sum, at - p);
        }
      }
    }
  }
}
