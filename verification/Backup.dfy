/**
 The online backup: copies the source page by page into a destination whose page size may differ, while the
 source goes on changing. The destination is told by its bytes, at their offset in the file.
 */
module Backup {
  import opened Arith

  type Byte = b: int | 0 <= b < 256

  /** The offset whose page is never used, on either side. */
  const PENDING_BYTE: nat := 0x4000_0000

  /** Done is the end of the backup and is treated as a fatal code is. */
  datatype Rc = Ok | Busy | Done | Failed

  predicate Fatal(rc: Rc) {
    rc.Done? || rc.Failed?
  }

  ghost predicate PageSize(n: nat) {
    || n == 512 || n == 1024 || n == 2048 || n == 4096
    || n == 8192 || n == 16384 || n == 32768 || n == 65536
  }

  lemma SizePositive(n: nat)
    requires PageSize(n)
    ensures n > 31
  {
  }

  /** Of two page sizes the smaller divides the larger, and both divide the pending byte's offset. */
  lemma SizesDivide(a: nat, b: nat) returns (r: nat)
    requires PageSize(a) && PageSize(b) && a <= b
    ensures r > 0 && b == r * a
  {
    r := b / a;
  }

  function PendingPage(n: nat): nat
    requires n > 0
  {
    PENDING_BYTE / n + 1
  }

  /** The offset of the first byte of page pg. */
  function Start(pg: nat, n: nat): nat
    requires pg > 0
  {
    (pg - 1) * n
  }

  /** The page an offset falls into, and where in it. */
  function PageOf(o: nat, n: nat): nat
    requires n > 0
  {
    o / n + 1
  }

  function OffsetIn(o: nat, n: nat): nat
    requires n > 0
  {
    o % n
  }

  lemma PagesApart(p: nat, q: nat, n: nat)
    requires 0 < p < q
    ensures Start(p, n) + n <= Start(q, n)
  {
  }

  /** The pending byte begins a page of either size. */
  lemma PendingStart(n: nat)
    requires PageSize(n)
    ensures PENDING_BYTE == PENDING_BYTE / n * n
  {
  }

  /** An offset is in the pending page of the destination. */
  ghost predicate InPending(o: nat, n: nat) {
    PENDING_BYTE <= o < PENDING_BYTE + n
  }

  /** The page test of the source is a test of the offset. */
  lemma PendingPageIff(o: nat, n: nat)
    requires PageSize(n)
    ensures PageOf(o, n) == PendingPage(n) <==> InPending(o, n)
  {
  }

  /** A smaller page that starts at a multiple of its size lies within one larger page. */
  lemma WithinPage(x: nat, small: nat, large: nat, k: nat)
    requires PageSize(small) && PageSize(large) && small <= large && k < small
    ensures (x * small + k) / large == x * small / large
    ensures x * small % large + small <= large
  {
    var r := SizesDivide(small, large);
    PartOfMultiple(x, small, r, large, k);
  }

  /** A file by its bytes. */
  type Image = nat -> Byte

  function Min(a: nat, b: nat): nat { if a < b then a else b }

  /** The bytes the copy of a page is answerable for: neither the page count in the header nor the pending page. */
  ghost predicate Counts(o: nat, nDest: nat) {
    !InPending(o, nDest) && !(28 <= o < 32)
  }

  ghost predicate Copied(dest: Image, data: seq<Byte>, pg: nat, nSrc: nat, nDest: nat, n: nat)
    requires pg > 0
  {
    n <= |data| && forall k | 0 <= k < n && Counts(Start(pg, nSrc) + k, nDest) :: dest(Start(pg, nSrc) + k) == data[k]
  }

  ghost predicate SameOutside(d: Image, d': Image, lo: nat, hi: nat) {
    forall o: nat | !(lo <= o < hi) :: d'(o) == d(o)
  }

  /** n bytes of data, from its offset from on, written into page iDest at offset at of the page. */
  function Written(dest: Image, iDest: nat, nDest: nat, at: nat, data: seq<Byte>, from: nat, n: nat): Image
    requires iDest > 0 && at + n <= nDest && from + n <= |data|
  {
    var base := Start(iDest, nDest) + at;
    (o: nat) => if base <= o < base + n then data[o - base + from] else dest(o)
  }

  /** The page count of the source, put into the header of the copy. */
  function CountPut(dest: Image, last: nat): Image {
    (o: nat) =>
      if o == 28 then last / 0x100_0000 % 0x100 else if o == 29 then last / 0x1_0000 % 0x100
      else if o == 30 then last / 0x100 % 0x100 else if o == 31 then last % 0x100 else dest(o)
  }

  /** Which piece of a page the loop over destination pages is at. */
  ghost predicate IsPiece(t: nat, j: nat, nSrc: nat, nDest: nat) {
    if nDest <= nSrc then t == j * nDest else t == j == 0
  }

  /** The pieces of a source page are whole pieces of destination pages. */
  lemma PieceFits(pg: nat, t: nat, j: nat, nSrc: nat, nDest: nat)
    requires PageSize(nSrc) && PageSize(nDest) && pg > 0 && t < nSrc && IsPiece(t, j, nSrc, nDest)
    ensures var o, n := Start(pg, nSrc) + t, Min(nSrc, nDest);
            && t + n <= nSrc && OffsetIn(o, nSrc) == t && OffsetIn(o, nDest) + n <= nDest
            && Start(PageOf(o, nDest), nDest) + OffsetIn(o, nDest) == o
            && (n == nDest ==> IsPiece(t + n, j + 1, nSrc, nDest))
  {
    assert nSrc > 0 && nDest > 0 && Min(nSrc, nDest) > 0 && PageSize(Min(nSrc, nDest));
    hide PageSize, IsPiece, Start;
    var n := Min(nSrc, nDest);
    var o := Start(pg, nSrc) + t;
    OffsetIs(pg, nSrc, t);
    var x := PieceStart(pg, t, j, nSrc, nDest);
    WithinPage(x, n, nDest, 0);
    PageSplit(o, nDest);
  }

  lemma OffsetIs(pg: nat, n: nat, t: nat)
    requires pg > 0 && t < n
    ensures OffsetIn(Start(pg, n) + t, n) == t && PageOf(Start(pg, n) + t, n) == pg
  {
    DivModIs(Start(pg, n) + t, n, pg - 1, t);
  }

  lemma PageSplit(o: nat, n: nat)
    requires n > 0
    ensures PageOf(o, n) > 0 && Start(PageOf(o, n), n) + OffsetIn(o, n) == o
  {
  }

  lemma PieceStart(pg: nat, t: nat, j: nat, nSrc: nat, nDest: nat) returns (x: nat)
    requires PageSize(nSrc) && PageSize(nDest) && pg > 0 && t < nSrc && IsPiece(t, j, nSrc, nDest)
    ensures Start(pg, nSrc) + t == x * Min(nSrc, nDest) && t + Min(nSrc, nDest) <= nSrc
    ensures nDest <= nSrc ==> IsPiece(t + nDest, j + 1, nSrc, nDest)
  {
    if nDest <= nSrc {
      var r := SizesDivide(nDest, nSrc);
      hide PageSize;
      x := (pg - 1) * r + j;
      Regroup(pg - 1, r, j, nDest, nSrc);
      if j >= r {
        assert j == r || j > r;
        if j > r {
          Multiple(r, j, nDest);
        }
        assert false;
      }
      Multiple(j, r, nDest);
      assert (j + 1) * nDest == j * nDest + nDest;
    } else {
      x := pg - 1;
    }
  }

  /** All bytes of a piece are in the pending page when its first one is. */
  lemma PiecePending(pg: nat, t: nat, j: nat, nSrc: nat, nDest: nat, k: nat)
    requires PageSize(nSrc) && PageSize(nDest) && pg > 0 && t < nSrc && IsPiece(t, j, nSrc, nDest)
    requires k < Min(nSrc, nDest)
    ensures InPending(Start(pg, nSrc) + t + k, nDest) <==> PageOf(Start(pg, nSrc) + t, nDest) == PendingPage(nDest)
  {
    var x := PieceStart(pg, t, j, nSrc, nDest);
    WithinPage(x, Min(nSrc, nDest), nDest, k);
    PendingPageIff(Start(pg, nSrc) + t + k, nDest);
  }

  lemma NothingCopied(dest: Image, data: seq<Byte>, pg: nat, nSrc: nat, nDest: nat)
    requires pg > 0
    ensures Copied(dest, data, pg, nSrc, nDest, 0)
  {
  }

  /** Writing the next piece extends what is copied. */
  lemma WrittenCopies(dest: Image, data: seq<Byte>, pg: nat, t: nat, n: nat, nSrc: nat, nDest: nat, iDest: nat, at: nat)
    requires pg > 0 && iDest > 0 && t + n <= nSrc == |data| && at + n <= nDest
    requires Start(iDest, nDest) + at == Start(pg, nSrc) + t
    requires Copied(dest, data, pg, nSrc, nDest, t)
    ensures Copied(Written(dest, iDest, nDest, at, data, t, n), data, pg, nSrc, nDest, t + n)
    ensures SameOutside(dest, Written(dest, iDest, nDest, at, data, t, n), Start(pg, nSrc), Start(pg, nSrc) + nSrc)
  {
  }

  lemma CountKeepsCopied(dest: Image, last: nat, data: seq<Byte>, nSrc: nat, nDest: nat, n: nat)
    requires Copied(dest, data, 1, nSrc, nDest, n) && PageSize(nSrc)
    ensures Copied(CountPut(dest, last), data, 1, nSrc, nDest, n) && SameOutside(dest, CountPut(dest, last), 0, nSrc)
  {
  }

  /** A piece in the pending page need not be copied. */
  lemma PendingSkipped(dest: Image, data: seq<Byte>, pg: nat, t: nat, j: nat, nSrc: nat, nDest: nat)
    requires PageSize(nSrc) && PageSize(nDest) && pg > 0 && |data| == nSrc && t < nSrc && IsPiece(t, j, nSrc, nDest)
    requires PageOf(Start(pg, nSrc) + t, nDest) == PendingPage(nDest) && Copied(dest, data, pg, nSrc, nDest, t)
    requires t + Min(nSrc, nDest) <= nSrc
    ensures Copied(dest, data, pg, nSrc, nDest, t + Min(nSrc, nDest))
  {
    forall k | 0 <= k < t + Min(nSrc, nDest)
      ensures Counts(Start(pg, nSrc) + k, nDest) ==> dest(Start(pg, nSrc) + k) == data[k]
    {
      if k >= t {
        PiecePending(pg, t, j, nSrc, nDest, k - t);
      }
    }
  }

  lemma SameTwice(d: Image, d1: Image, d2: Image, lo: nat, hi: nat)
    requires SameOutside(d, d1, lo, hi) && SameOutside(d1, d2, lo, hi)
    ensures SameOutside(d, d2, lo, hi)
  {
  }

  /** The destination pages of a stretch of offsets, other than the pending one, can be written. */
  ghost predicate IoOk(io: nat -> Rc, lo: nat, hi: nat, nDest: nat)
    requires nDest > 0
  {
    forall o: nat :: lo <= o < hi && PageOf(o, nDest) != PendingPage(nDest) ==> io(PageOf(o, nDest)).Ok?
  }

  /** A piece falls into one destination page. */
  lemma PieceIo(io: nat -> Rc, pg: nat, t: nat, j: nat, nSrc: nat, nDest: nat)
    requires PageSize(nSrc) && PageSize(nDest) && pg > 0 && t < nSrc && IsPiece(t, j, nSrc, nDest)
    ensures var o, n := Start(pg, nSrc) + t, Min(nSrc, nDest);
            IoOk(io, o, o + n, nDest) <==> PageOf(o, nDest) == PendingPage(nDest) || io(PageOf(o, nDest)).Ok?
  {
    var o, n := Start(pg, nSrc) + t, Min(nSrc, nDest);
    var x := PieceStart(pg, t, j, nSrc, nDest);
    assert n > 0 && PageSize(n);
    hide PageSize, IsPiece, Start, PendingPage;
    forall p: nat | o <= p < o + n ensures PageOf(p, nDest) == PageOf(o, nDest) {
      WithinPage(x, n, nDest, p - o);
    }
    assert PageOf(o, nDest) == PageOf(o + 0, nDest);
  }

  lemma IoOkSplit(io: nat -> Rc, lo: nat, mid: nat, hi: nat, nDest: nat)
    requires nDest > 0 && lo <= mid <= hi
    ensures IoOk(io, lo, hi, nDest) <==> IoOk(io, lo, mid, nDest) && IoOk(io, mid, hi, nDest)
  {
  }

  /** Whether a page can be written so far and altogether, decided by its next piece. */
  lemma PieceDecides(io: nat -> Rc, pg: nat, t: nat, j: nat, nSrc: nat, nDest: nat)
    requires PageSize(nSrc) && PageSize(nDest) && pg > 0 && t < nSrc && IsPiece(t, j, nSrc, nDest)
    requires t + Min(nSrc, nDest) <= nSrc
    ensures var lo, n := Start(pg, nSrc), Min(nSrc, nDest);
            var ok := PageOf(lo + t, nDest) == PendingPage(nDest) || io(PageOf(lo + t, nDest)).Ok?;
            && (ok && IoOk(io, lo, lo + t, nDest) ==> IoOk(io, lo, lo + (t + n), nDest))
            && (!ok ==> !IoOk(io, lo, lo + nSrc, nDest))
  {
    var lo, n := Start(pg, nSrc), Min(nSrc, nDest);
    SizePositive(nDest);
    PieceIo(io, pg, t, j, nSrc, nDest);
    hide IoOk, PageSize, IsPiece, Start;
    IoOkSplit(io, lo, lo + t, lo + nSrc, nDest);
    IoOkSplit(io, lo + t, lo + t + n, lo + nSrc, nDest);
    IoOkSplit(io, lo, lo + t, lo + t + n, nDest);
  }

  /** A page can be copied: the page sizes allow it, and its destination pages can be written. */
  ghost predicate CanCopy(io: nat -> Rc, pg: nat, nSrc: nat, nDest: nat, memdb: bool)
    requires pg > 0 && nDest > 0
  {
    (nSrc == nDest || !memdb) && IoOk(io, Start(pg, nSrc), Start(pg, nSrc) + nSrc, nDest)
  }

  /** A number in the four bytes of the page count. */
  ghost function CountAt(dest: Image): nat {
    dest(28) * 0x100_0000 + dest(29) * 0x1_0000 + dest(30) * 0x100 + dest(31)
  }

  /** Writes a piece into its destination page; the first one carries the page count. */
  method WritePiece(dest: Image, pg: nat, data: seq<Byte>, bUpdate: bool, last: nat, nSrc: nat, nDest: nat, iOff: nat,
                    ghost t: nat)
    returns (dest': Image)
    requires PageSize(nSrc) && PageSize(nDest) && nSrc > 31 && nDest > 31 && pg > 0 && |data| == nSrc
    requires iOff == Start(pg, nSrc) + t && t + Min(nSrc, nDest) <= nSrc && Copied(dest, data, pg, nSrc, nDest, t)
    requires OffsetIn(iOff, nSrc) == t && OffsetIn(iOff, nDest) + Min(nSrc, nDest) <= nDest
    ensures SameOutside(dest, dest', Start(pg, nSrc), Start(pg, nSrc) + nSrc)
    ensures Copied(dest', data, pg, nSrc, nDest, t + Min(nSrc, nDest))
    ensures SameOutside(dest, dest', iOff, iOff + Min(nSrc, nDest))
    ensures iOff == 0 ==> CountRight(dest', data, bUpdate, last)
  {
    hide *;
    var iDest, at, from, nCopy := PageOf(iOff, nDest), OffsetIn(iOff, nDest), OffsetIn(iOff, nSrc), Min(nSrc, nDest);
    PageSplit(iOff, nDest);
    dest' := Written(dest, iDest, nDest, at, data, from, nCopy);
    WrittenCopies(dest, data, pg, t, nCopy, nSrc, nDest, iDest, at);
    WrittenExactly(dest, iDest, nDest, at, data, from, nCopy, iOff);
    if iOff == 0 {
      FirstPage(pg, nSrc, t);
      MinAbove(nSrc, nDest);
      CountWritten(dest', data, last, nCopy);
      if !bUpdate {
        CountKeepsCopied(dest', last, data, nSrc, nDest, t + nCopy);
        SameTwice(dest, dest', CountPut(dest', last), 0, nSrc);
        SameTwice(dest, dest', CountPut(dest', last), 0, nCopy);
        dest' := CountPut(dest', last);
      }
    }
  }

  /** The part of a source page that falls into one destination page. */
  method CopyPiece(dest: Image, pg: nat, data: seq<Byte>, bUpdate: bool, last: nat, nSrc: nat, nDest: nat, iOff: nat,
                   io: nat -> Rc, ghost t: nat, ghost j: nat)
    returns (rc: Rc, dest': Image)
    requires PageSize(nSrc) && PageSize(nDest) && pg > 0 && |data| == nSrc && t < nSrc && IsPiece(t, j, nSrc, nDest)
    requires iOff == Start(pg, nSrc) + t && Copied(dest, data, pg, nSrc, nDest, t)
    ensures SameOutside(dest, dest', Start(pg, nSrc), Start(pg, nSrc) + nSrc)
    ensures t + Min(nSrc, nDest) <= nSrc && (rc.Ok? ==> Copied(dest', data, pg, nSrc, nDest, t + Min(nSrc, nDest)))
    ensures rc == if PageOf(iOff, nDest) == PendingPage(nDest) then Ok else io(PageOf(iOff, nDest))
    ensures SameOutside(dest, dest', iOff, iOff + Min(nSrc, nDest))
    ensures rc.Ok? && iOff == 0 ==> CountRight(dest', data, bUpdate, last)
  {
    hide *;
    SizePositive(nSrc);
    SizePositive(nDest);
    PieceFits(pg, t, j, nSrc, nDest);
    PageSplit(iOff, nDest);
    var nCopy := Min(nSrc, nDest);
    rc, dest' := Ok, dest;
    var iDest := PageOf(iOff, nDest);
    if iDest == PendingPage(nDest) {
      PendingSkipped(dest, data, pg, t, j, nSrc, nDest);
      SameItself(dest, Start(pg, nSrc), Start(pg, nSrc) + nSrc);
      SameItself(dest, iOff, iOff + nCopy);
      NotPending(iOff, nDest);
      return;
    }
    rc := io(iDest);
    if rc.Ok? {
      dest' := WritePiece(dest, pg, data, bUpdate, last, nSrc, nDest, iOff, t);
    } else {
      SameItself(dest, Start(pg, nSrc), Start(pg, nSrc) + nSrc);
      SameItself(dest, iOff, iOff + nCopy);
    }
  }

  /**
   The page count in the header of the copy: that of the source when the page is copied, and what the page says
   when it is copied anew.
   */
  ghost predicate CountRight(dest: Image, data: seq<Byte>, bUpdate: bool, last: nat) {
    if bUpdate then |data| > 31 && forall k :: 28 <= k < 32 ==> dest(k) == data[k]
    else last < 0x1_0000_0000 ==> CountAt(dest) == last
  }

  /** The first offset is not in the pending page. */
  lemma NotPending(o: nat, n: nat)
    requires n > 0 && PageSize(n) && PageOf(o, n) == PendingPage(n)
    ensures o != 0
  {
  }

  /** The image starts with the first n bytes of a page. */
  ghost predicate Begins(dest: Image, data: seq<Byte>, n: nat) {
    forall k: nat :: k < n && k < |data| ==> dest(k) == data[k]
  }

  lemma WrittenExactly(dest: Image, iDest: nat, nDest: nat, at: nat, data: seq<Byte>, from: nat, n: nat, o: nat)
    requires iDest > 0 && at + n <= nDest && from + n <= |data| && Start(iDest, nDest) + at == o
    ensures var d := Written(dest, iDest, nDest, at, data, from, n);
            && SameOutside(dest, d, o, o + n)
            && (o == 0 && from == 0 ==> Begins(d, data, n))
  {
    hide Start;
  }

  lemma MinAbove(a: nat, b: nat)
    requires a > 31 && b > 31
    ensures Min(a, b) > 31
  {
  }

  lemma CountWritten(dest: Image, data: seq<Byte>, last: nat, n: nat)
    requires 31 < n <= |data| && Begins(dest, data, n)
    ensures CountRight(dest, data, true, last) && CountRight(CountPut(dest, last), data, false, last)
    ensures SameOutside(dest, CountPut(dest, last), 0, n)
  {
    var d := CountPut(dest, last);
    if last < 0x1_0000_0000 {
      assert d(28) == last / 0x100_0000 && d(31) == last % 0x100;
      assert last / 0x1_0000 == last / 0x100_0000 * 0x100 + d(29);
      assert last / 0x100 == last / 0x1_0000 * 0x100 + d(30);
    }
  }

  lemma SameItself(d: Image, lo: nat, hi: nat)
    ensures SameOutside(d, d, lo, hi)
  {
  }

  lemma FirstPage(pg: nat, n: nat, t: nat)
    requires pg > 0 && n > 0 && Start(pg, n) + t == 0
    ensures pg == 1 && Start(1, n) == 0
  {
  }

  /** A page is copied up to t, or cannot be copied. */
  ghost predicate Progress(dest: Image, dest': Image, rc: Rc, page: Task, io: nat -> Rc, t: nat, j: nat)
    requires page.pg > 0 && page.nDest > 0
  {
    var lo, n := Start(page.pg, page.nSrc), page.nSrc;
    && (rc.Ok? || rc.Failed?)
    && (t < n ==> IsPiece(t, j, n, page.nDest))
    && SameOutside(dest, dest', lo, lo + n)
    && (rc.Ok? ==>
          && Copied(dest', page.data, page.pg, n, page.nDest, Min(t, n))
          && (n == page.nDest || !page.memdb) && IoOk(io, lo, lo + Min(t, n), page.nDest)
          && (page.pg == 1 && t > 0 ==> CountRight(dest', page.data, page.bUpdate, page.last)))
    && (rc.Failed? ==> !CanCopy(io, page.pg, n, page.nDest, page.memdb))
  }

  /** A page to be copied, with what decides how. */
  datatype Task = Task(pg: nat, data: seq<Byte>, bUpdate: bool, last: nat, nSrc: nat, nDest: nat, memdb: bool)

  ghost predicate IsTask(page: Task) {
    PageSize(page.nSrc) && PageSize(page.nDest) && page.pg > 0 && |page.data| == page.nSrc && page.nDest > 0
  }

  lemma ProgressStart(dest: Image, page: Task, io: nat -> Rc, rc: Rc)
    requires IsTask(page) && rc == if page.nSrc != page.nDest && page.memdb then Failed else Ok
    ensures Progress(dest, dest, rc, page, io, 0, 0)
  {
  }

  /** The next piece of a page. */
  method CopyNext(ghost dest: Image, dest': Image, page: Task, io: nat -> Rc, iOff: nat, ghost t: nat, ghost j: nat)
    returns (rc: Rc, dest'': Image)
    requires IsTask(page) && Progress(dest, dest', Ok, page, io, t, j) && t < page.nSrc
    requires iOff == Start(page.pg, page.nSrc) + t && forall p: nat :: io(p).Ok? || io(p).Failed?
    ensures Progress(dest, dest'', rc, page, io, t + page.nDest, j + 1)
  {
    hide *;
    var pg, nSrc, nDest := page.pg, page.nSrc, page.nDest;
    TaskParts(page);
    ghost var lo := Start(pg, nSrc);
    ProgressParts(dest, dest', Ok, page, io, t, j);
    PieceFits(pg, t, j, nSrc, nDest);
    PieceDecides(io, pg, t, j, nSrc, nDest);
    NextPiece(t, j, nSrc, nDest);
    rc, dest'' := CopyPiece(dest', pg, page.data, page.bUpdate, page.last, nSrc, nDest, iOff, io, t, j);
    CountStays(dest', dest'', page.data, page.bUpdate, page.last, iOff, iOff + Min(nSrc, nDest));
    SameTwice(dest, dest', dest'', lo, lo + nSrc);
    CanCopyParts(io, pg, nSrc, nDest, page.memdb);
    FirstOffset(pg, nSrc);
    ProgressParts(dest, dest'', rc, page, io, t + nDest, j + 1);
  }

  lemma FirstOffset(pg: nat, n: nat)
    requires pg > 0
    ensures pg == 1 ==> Start(pg, n) == 0
  {
  }

  lemma TaskParts(page: Task)
    requires IsTask(page)
    ensures PageSize(page.nSrc) && PageSize(page.nDest) && page.pg > 0 && |page.data| == page.nSrc && page.nDest > 0
  {
  }

  lemma CanCopyParts(io: nat -> Rc, pg: nat, nSrc: nat, nDest: nat, memdb: bool)
    requires pg > 0 && nDest > 0
    ensures CanCopy(io, pg, nSrc, nDest, memdb) <==>
            (nSrc == nDest || !memdb) && IoOk(io, Start(pg, nSrc), Start(pg, nSrc) + nSrc, nDest)
  {
  }

  /** What progress means, for both putting it together and taking it apart. */
  lemma ProgressParts(dest: Image, dest': Image, rc: Rc, page: Task, io: nat -> Rc, t: nat, j: nat)
    requires page.pg > 0 && page.nDest > 0
    ensures var lo, n := Start(page.pg, page.nSrc), page.nSrc;
            Progress(dest, dest', rc, page, io, t, j) <==>
            && (rc.Ok? || rc.Failed?)
            && (t < n ==> IsPiece(t, j, n, page.nDest))
            && SameOutside(dest, dest', lo, lo + n)
            && (rc.Ok? ==>
                  && Copied(dest', page.data, page.pg, n, page.nDest, Min(t, n))
                  && (n == page.nDest || !page.memdb) && IoOk(io, lo, lo + Min(t, n), page.nDest)
                  && (page.pg == 1 && t > 0 ==> CountRight(dest', page.data, page.bUpdate, page.last)))
            && (rc.Failed? ==> !CanCopy(io, page.pg, n, page.nDest, page.memdb))
  {
  }

  /** After one piece there is a next one, unless the page is done. */
  lemma NextPiece(t: nat, j: nat, nSrc: nat, nDest: nat)
    requires PageSize(nSrc) && PageSize(nDest) && IsPiece(t, j, nSrc, nDest) && t < nSrc && t + Min(nSrc, nDest) <= nSrc
    ensures t + nDest < nSrc ==> IsPiece(t + nDest, j + 1, nSrc, nDest)
    ensures Min(t + nDest, nSrc) == t + Min(nSrc, nDest) && Min(t, nSrc) == t
    ensures t > 0 ==> t >= 32
  {
    SizePositive(nDest);
    hide PageSize;
    if nDest <= nSrc {
      assert (j + 1) * nDest == j * nDest + nDest;
      if j > 0 {
        Multiple(0, j, nDest);
      }
    }
  }

  lemma ProgressEnd(dest: Image, dest': Image, rc: Rc, page: Task, io: nat -> Rc, t: nat, j: nat)
    requires IsTask(page) && Progress(dest, dest', rc, page, io, t, j) && (rc.Ok? ==> t >= page.nSrc)
    ensures rc.Ok? || rc.Failed?
    ensures rc.Ok? <==> CanCopy(io, page.pg, page.nSrc, page.nDest, page.memdb)
    ensures SameOutside(dest, dest', Start(page.pg, page.nSrc), Start(page.pg, page.nSrc) + page.nSrc)
    ensures rc.Ok? ==> Copied(dest', page.data, page.pg, page.nSrc, page.nDest, page.nSrc)
    ensures rc.Ok? && page.pg == 1 ==> CountRight(dest', page.data, page.bUpdate, page.last)
  {
    SizePositive(page.nSrc);
  }

  /** Copies one source page into the destination pages it spans. */
  method CopyPage(dest: Image, pg: nat, data: seq<Byte>, bUpdate: bool, last: nat, nSrc: nat, nDest: nat, memdb: bool,
                  io: nat -> Rc)
    returns (rc: Rc, dest': Image)
    requires PageSize(nSrc) && PageSize(nDest) && pg > 0 && |data| == nSrc
    requires forall p: nat :: io(p).Ok? || io(p).Failed?
    ensures rc.Ok? || rc.Failed?
    ensures nDest > 0 && (rc.Ok? <==> CanCopy(io, pg, nSrc, nDest, memdb))
    ensures SameOutside(dest, dest', Start(pg, nSrc), Start(pg, nSrc) + nSrc)
    ensures rc.Ok? ==> Copied(dest', data, pg, nSrc, nDest, nSrc)
    ensures rc.Ok? && pg == 1 ==> CountRight(dest', data, bUpdate, last)
  {
    SizePositive(nDest);
    rc, dest' := Ok, dest;
    if nSrc != nDest && memdb {
      rc := Failed;
    }
    var page := Task(pg, data, bUpdate, last, nSrc, nDest, memdb);
    var iEnd := pg * nSrc;
    var iOff := iEnd - nSrc;
    assert iOff == Start(pg, nSrc) && iEnd == Start(pg, nSrc) + nSrc;
    ghost var t: nat, j: nat := 0, 0;
    ProgressStart(dest, page, io, rc);
    hide Progress, PageSize, Start;
    while rc.Ok? && iOff < iEnd
      invariant iOff == Start(pg, nSrc) + t && Progress(dest, dest', rc, page, io, t, j)
      decreases iEnd - iOff
    {
      rc, dest' := CopyNext(dest, dest', page, io, iOff, t, j);
      iOff := iOff + nDest;
      t, j := t + nDest, j + 1;
    }
    ProgressEnd(dest, dest', rc, page, io, t, j);
  }

  lemma CountStays(d: Image, d': Image, data: seq<Byte>, bUpdate: bool, last: nat, lo: nat, hi: nat)
    requires SameOutside(d, d', lo, hi)
    ensures lo >= 32 && CountRight(d, data, bUpdate, last) ==> CountRight(d', data, bUpdate, last)
  {
  }

  lemma IoOkNone(io: nat -> Rc, o: nat, nDest: nat)
    requires nDest > 0
    ensures IoOk(io, o, o, nDest)
  {
  }

  ghost predicate WholePages(src: seq<seq<Byte>>, nSrc: nat) {
    forall i :: 0 <= i < |src| ==> |src[i]| == nSrc
  }

  function Page(src: seq<seq<Byte>>, pg: nat): seq<Byte>
    requires 0 < pg <= |src|
  {
    src[pg - 1]
  }

  ghost predicate PageCopied(src: seq<seq<Byte>>, dest: Image, pg: nat, nSrc: nat, nDest: nat) {
    0 < pg <= |src| && nSrc > 0 && pg != PendingPage(nSrc) ==> Copied(dest, Page(src, pg), pg, nSrc, nDest, nSrc)
  }

  /** The pages before iNext are in the destination. */
  ghost predicate Synced(src: seq<seq<Byte>>, dest: Image, iNext: nat, nSrc: nat, nDest: nat) {
    forall pg | 0 < pg < iNext :: PageCopied(src, dest, pg, nSrc, nDest)
  }

  /** Copying one page leaves the copies of the others. */
  lemma OtherPagesKept(dest: Image, dest': Image, data: seq<Byte>, pg: nat, q: nat, nSrc: nat, nDest: nat)
    requires pg > 0 && q > 0 && pg != q && SameOutside(dest, dest', Start(q, nSrc), Start(q, nSrc) + nSrc)
    requires Copied(dest, data, pg, nSrc, nDest, nSrc)
    ensures Copied(dest', data, pg, nSrc, nDest, nSrc)
  {
    if pg < q {
      PagesApart(pg, q, nSrc);
    } else {
      PagesApart(q, pg, nSrc);
    }
    hide Start, Counts;
  }

  /** Copying page q anew: nothing else is lost, and the next page is one more. */
  lemma SyncedAfterCopy(src: seq<seq<Byte>>, src': seq<seq<Byte>>, dest: Image, dest': Image, iNext: nat, q: nat,
                        nSrc: nat, nDest: nat)
    requires Synced(src, dest, iNext, nSrc, nDest) && q > 0 && nSrc > 0
    requires SameOutside(dest, dest', Start(q, nSrc), Start(q, nSrc) + nSrc)
    requires forall i | 0 <= i < |src'| && i != q - 1 :: i < |src| && src'[i] == src[i]
    requires PageCopied(src', dest', q, nSrc, nDest)
    ensures Synced(src', dest', iNext, nSrc, nDest)
    ensures q == iNext ==> Synced(src', dest', iNext + 1, nSrc, nDest)
  {
    hide Copied, SameOutside, Start, PendingPage;
    forall pg | 0 < pg <= iNext && (pg < iNext || q == iNext) ensures PageCopied(src', dest', pg, nSrc, nDest) {
      if pg != q && pg <= |src'| && pg != PendingPage(nSrc) {
        var i := pg - 1;
        assert src'[i] == src'[i] && i < |src| && src'[i] == src[i];
        assert PageCopied(src, dest, pg, nSrc, nDest);
        OtherPagesKept(dest, dest', Page(src, pg), pg, q, nSrc, nDest);
      }
    }
  }

  /** Page pg can be read and copied; the pending page of the source need not be. */
  ghost predicate PageGoes(pg: nat, srcIo: nat -> Rc, destIo: nat -> Rc, nSrc: nat, nDest: nat, memdb: bool)
    requires nDest > 0
  {
    pg > 0 && nSrc > 0 && (pg == PendingPage(nSrc) || (srcIo(pg).Ok? && CanCopy(destIo, pg, nSrc, nDest, memdb)))
  }

  /** The copy loop of a step: at most nPage pages, all the rest when nPage is negative. */
  method CopyPages(src: seq<seq<Byte>>, dest: Image, iNext: nat, nPage: int, nSrc: nat, nDest: nat, memdb: bool,
                   srcIo: nat -> Rc, destIo: nat -> Rc)
    returns (rc: Rc, dest': Image, iNext': nat)
    requires PageSize(nSrc) && PageSize(nDest) && WholePages(src, nSrc) && iNext > 0
    requires Synced(src, dest, iNext, nSrc, nDest)
    requires forall p: nat :: (srcIo(p).Ok? || srcIo(p).Failed?) && (destIo(p).Ok? || destIo(p).Failed?)
    ensures rc.Ok? || rc.Failed?
    ensures rc.Ok? ==> Synced(src, dest', iNext', nSrc, nDest)
    ensures iNext <= iNext' && (nPage < 0 || iNext' <= iNext + nPage)
    ensures rc.Ok? && iNext' <= |src| ==> iNext' == iNext + nPage
    ensures iNext' > |src| ==> iNext' == if iNext <= |src| then |src| + 1 else iNext
    ensures nDest > 0
    ensures rc.Ok? ==> forall pg :: iNext <= pg < iNext' ==> PageGoes(pg, srcIo, destIo, nSrc, nDest, memdb)
    ensures rc.Failed? ==>
              exists pg :: && iNext <= pg <= |src| && (nPage < 0 || pg < iNext + nPage)
                           && !PageGoes(pg, srcIo, destIo, nSrc, nDest, memdb)
  {
    rc, dest', iNext' := Ok, dest, iNext;
    SizePositive(nSrc);
    SizePositive(nDest);
    hide PageSize, Synced, SameOutside, Start, PendingPage, CanCopy;
    var ii := 0;
    while (nPage < 0 || ii < nPage) && iNext' <= |src| && rc.Ok?
      invariant iNext' == iNext + ii && 0 <= ii && (nPage < 0 || ii <= nPage) && (rc.Ok? || rc.Failed?)
      invariant rc.Ok? ==> Synced(src, dest', iNext', nSrc, nDest)
      invariant iNext' <= |src| + 1 || iNext' == iNext
      invariant rc.Ok? ==> forall pg :: iNext <= pg < iNext' ==> PageGoes(pg, srcIo, destIo, nSrc, nDest, memdb)
      invariant rc.Failed? ==>
                  && iNext' > iNext && iNext' - 1 <= |src|
                  && !PageGoes(iNext' - 1, srcIo, destIo, nSrc, nDest, memdb)
      decreases |src| + 1 - iNext'
    {
      ghost var was := dest';
      if iNext' != PendingPage(nSrc) {
        rc := srcIo(iNext');
        if rc.Ok? {
          rc, dest' := CopyPage(dest', iNext', Page(src, iNext'), false, |src|, nSrc, nDest, memdb, destIo);
        }
      } else {
        SameItself(dest', Start(iNext', nSrc), Start(iNext', nSrc) + nSrc);
      }
      if rc.Ok? {
        SyncedAfterCopy(src, src, was, dest', iNext', iNext', nSrc, nDest);
      }
      iNext', ii := iNext' + 1, ii + 1;
    }
  }

  /** All of page q is in the destination. */
  ghost predicate Whole(src: seq<seq<Byte>>, dest: Image, q: nat, n: nat) {
    0 < q <= |src| ==> |Page(src, q)| == n && forall k | 0 <= k < n :: dest(Start(q, n) + k) == Page(src, q)[k]
  }

  /** The source pages after the pending one end before the pending page of a destination with larger pages does. */
  lemma EndsBefore(q: nat, nSrc: nat, nDest: nat)
    requires PageSize(nSrc) && PageSize(nDest) && nSrc < nDest && q > 0 && Start(q, nSrc) < PENDING_BYTE + nDest
    ensures Start(q, nSrc) + nSrc <= PENDING_BYTE + nDest
  {
    var r := SizesDivide(nSrc, nDest);
    PendingStart(nSrc);
    var e := PENDING_BYTE / nSrc + r;
    assert e * nSrc == PENDING_BYTE + nDest;
    hide PageSize;
    if q - 1 >= e {
      if q - 1 > e {
        Multiple(e, q - 1, nSrc);
      }
      assert false;
    }
    Multiple(q - 1, e, nSrc);
  }

  ghost predicate AllOk(io: nat -> Rc) {
    forall p: nat :: io(p).Ok?
  }

  lemma OkIs(io: nat -> Rc)
    ensures AllOk(io) ==> forall p: nat :: io(p).Ok?
  {
  }

  /** The pages that share the destination's pending page are written to the file at the end. */
  method WriteExtra(src: seq<seq<Byte>>, dest: Image, nSrc: nat, nDest: nat, srcIo: nat -> Rc, fileIo: nat -> Rc)
    returns (rc: Rc, dest': Image)
    requires PageSize(nSrc) && PageSize(nDest) && nSrc < nDest && WholePages(src, nSrc)
    requires forall p: nat :: (srcIo(p).Ok? || srcIo(p).Failed?) && (fileIo(p).Ok? || fileIo(p).Failed?)
    ensures rc.Ok? || rc.Failed?
    ensures SameOutside(dest, dest', PENDING_BYTE + nSrc, PENDING_BYTE + nDest)
    ensures rc.Ok? ==>
              forall q | q > PendingPage(nSrc) && Start(q, nSrc) < PENDING_BYTE + nDest :: Whole(src, dest', q, nSrc)
    ensures AllOk(srcIo) && AllOk(fileIo) ==> rc.Ok?
  {
    hide *;
    rc, dest' := Ok, dest;
    var iSize := SizeOf(nSrc, |src|);
    var iEnd := if PENDING_BYTE + nDest < iSize then PENDING_BYTE + nDest else iSize;
    var iOff := PENDING_BYTE + nSrc;
    SizePositive(nSrc);
    ghost var low := PendingPage(nSrc);
    ghost var q := low + 1;
    ExtraStart(nSrc);
    SameItself(dest, PENDING_BYTE + nSrc, PENDING_BYTE + nDest);
    OkIs(srcIo);
    OkIs(fileIo);
    while rc.Ok? && iOff < iEnd
      invariant AllOk(srcIo) && AllOk(fileIo) ==> rc.Ok?
      invariant (rc.Ok? || rc.Failed?) && q > low && iOff == Start(q, nSrc) >= PENDING_BYTE + nSrc
      invariant SameOutside(dest, dest', PENDING_BYTE + nSrc, PENDING_BYTE + nDest)
      invariant rc.Ok? ==> forall p | low < p < q :: Whole(src, dest', p, nSrc)
      decreases iEnd - iOff
    {
      OffsetIs(q, nSrc, 0);
      EndsBefore(q, nSrc, nDest);
      BelowSize(src, q, nSrc);
      NextStart(q, nSrc);
      var iSrcPg := PageOf(iOff, nSrc);
      rc := srcIo(iSrcPg);
      if rc.Ok? {
        rc := fileIo(iOff);
        if rc.Ok? {
          ExtraWritten(src, dest, dest', q, low, nSrc, nDest);
          dest' := Written(dest', iSrcPg, nSrc, 0, Page(src, iSrcPg), 0, nSrc);
        }
      }
      iOff := iOff + nSrc;
      q := q + 1;
    }
    if rc.Ok? {
      forall p | p > low && Start(p, nSrc) < PENDING_BYTE + nDest ensures Whole(src, dest', p, nSrc) {
        if p >= q {
          PastEnd(src, dest', p, q, nSrc, nDest);
        }
      }
    }
  }

  lemma ExtraStart(n: nat)
    requires PageSize(n)
    ensures Start(PendingPage(n) + 1, n) == PENDING_BYTE + n && Start(PendingPage(n), n) == PENDING_BYTE
  {
  }

  lemma NextStart(q: nat, n: nat)
    requires q > 0
    ensures Start(q + 1, n) == Start(q, n) + n
  {
  }

  function SizeOf(n: nat, pages: nat): nat { n * pages }

  /** An offset within the size of the source is on one of its pages. */
  lemma BelowSize(src: seq<seq<Byte>>, q: nat, n: nat)
    requires q > 0 && WholePages(src, n) && Start(q, n) < SizeOf(n, |src|)
    ensures q <= |src| && |Page(src, q)| == n
  {
  }

  /** No page is left when the loop ends. */
  lemma PastEnd(src: seq<seq<Byte>>, dest: Image, p: nat, q: nat, nSrc: nat, nDest: nat)
    requires p >= q > 0 && nSrc > 0 && Start(p, nSrc) < PENDING_BYTE + nDest
    requires Start(q, nSrc) >= SizeOf(nSrc, |src|) || Start(q, nSrc) >= PENDING_BYTE + nDest
    ensures Whole(src, dest, p, nSrc)
  {
    if p > q {
      PagesApart(q, p, nSrc);
    }
    if p <= |src| {
      Multiple(q - 1, |src|, nSrc);
    }
  }

  /** Writing page q whole keeps the pages before it whole. */
  lemma ExtraWritten(src: seq<seq<Byte>>, was: Image, dest: Image, q: nat, low: nat, nSrc: nat, nDest: nat)
    requires WholePages(src, nSrc) && 0 < q <= |src|
    requires PENDING_BYTE + nSrc <= Start(q, nSrc) && Start(q, nSrc) + nSrc <= PENDING_BYTE + nDest
    requires SameOutside(was, dest, PENDING_BYTE + nSrc, PENDING_BYTE + nDest)
    requires forall p | low < p < q :: Whole(src, dest, p, nSrc)
    ensures var dest' := Written(dest, q, nSrc, 0, Page(src, q), 0, nSrc);
            && SameOutside(was, dest', PENDING_BYTE + nSrc, PENDING_BYTE + nDest)
            && forall p | low < p < q + 1 :: Whole(src, dest', p, nSrc)
  {
    var dest' := Written(dest, q, nSrc, 0, Page(src, q), 0, nSrc);
    forall p | low < p < q + 1 ensures Whole(src, dest', p, nSrc) {
      if 0 < p < q {
        assert Whole(src, dest, p, nSrc);
        PagesApart(p, q, nSrc);
      }
    }
  }

  /** Beyond the file header, the copy of page pg is the page. */
  ghost predicate PageComplete(src: seq<seq<Byte>>, dest: Image, pg: nat, n: nat) {
    0 < pg <= |src| ==>
      && |Page(src, pg)| == n
      && forall k | 0 <= k < n && Start(pg, n) + k >= 100 :: dest(Start(pg, n) + k) == Page(src, pg)[k]
  }

  /** The destination is the source, except for the header and the source's pending page. */
  ghost predicate Complete(src: seq<seq<Byte>>, dest: Image, n: nat) {
    n > 0 && forall pg | pg != PendingPage(n) :: PageComplete(src, dest, pg, n)
  }

  /** What the copy of a page skips is in the source's own pending page, or is written at the end. */
  lemma SkippedByte(pg: nat, k: nat, nSrc: nat, nDest: nat)
    requires PageSize(nSrc) && PageSize(nDest) && pg > 0 && pg != PendingPage(nSrc) && k < nSrc
    requires InPending(Start(pg, nSrc) + k, nDest)
    ensures nSrc < nDest && pg > PendingPage(nSrc) && Start(pg, nSrc) < PENDING_BYTE + nDest
  {
  }

  lemma FinishedPage(src: seq<seq<Byte>>, dest: Image, dest': Image, pg: nat, nSrc: nat, nDest: nat)
    requires PageSize(nSrc) && PageSize(nDest) && WholePages(src, nSrc) && 0 < pg <= |src| && pg != PendingPage(nSrc)
    requires Copied(dest, Page(src, pg), pg, nSrc, nDest, nSrc)
    requires forall o: nat | o >= 100 && !InPending(o, nDest) :: dest'(o) == dest(o)
    requires nSrc < nDest && pg > PendingPage(nSrc) && Start(pg, nSrc) < PENDING_BYTE + nDest ==>
              Whole(src, dest', pg, nSrc)
    ensures PageComplete(src, dest', pg, nSrc)
  {
    forall k | 0 <= k < nSrc && Start(pg, nSrc) + k >= 100 ensures dest'(Start(pg, nSrc) + k) == Page(src, pg)[k] {
      if InPending(Start(pg, nSrc) + k, nDest) {
        SkippedByte(pg, k, nSrc, nDest);
      } else {
        assert Counts(Start(pg, nSrc) + k, nDest);
      }
      hide Start, PageSize, PendingPage;
    }
  }

  lemma FinishedIsComplete(src: seq<seq<Byte>>, dest: Image, dest': Image, iNext: nat, nSrc: nat, nDest: nat)
    requires PageSize(nSrc) && PageSize(nDest) && WholePages(src, nSrc) && Synced(src, dest, iNext, nSrc, nDest)
    requires iNext > |src|
    requires forall o: nat | o >= 100 && !InPending(o, nDest) :: dest'(o) == dest(o)
    requires nSrc < nDest ==>
              forall q | q > PendingPage(nSrc) && Start(q, nSrc) < PENDING_BYTE + nDest :: Whole(src, dest', q, nSrc)
    ensures Complete(src, dest', nSrc)
  {
    SizePositive(nSrc);
    hide PageSize, PendingPage, Start, InPending, Copied, Whole, PageComplete;
    forall pg: nat | pg != PendingPage(nSrc) ensures PageComplete(src, dest', pg, nSrc) {
      if 0 < pg <= |src| {
        assert PageCopied(src, dest, pg, nSrc, nDest);
        FinishedPage(src, dest, dest', pg, nSrc, nDest);
      } else {
        NoPage(src, dest', pg, nSrc);
      }
    }
  }

  lemma NoPage(src: seq<seq<Byte>>, dest: Image, pg: nat, n: nat)
    requires !(0 < pg <= |src|)
    ensures PageComplete(src, dest, pg, n)
  {
  }

  /** The last part of a backup: the header of the new file, then the pages the copy loop had to skip. */
  method Finish(src: seq<seq<Byte>>, dest: Image, nSrc: nat, nDest: nat, header: Image, srcIo: nat -> Rc,
                fileIo: nat -> Rc, ghost iNext: nat)
    returns (rc: Rc, dest': Image)
    requires PageSize(nSrc) && PageSize(nDest) && WholePages(src, nSrc) && Synced(src, dest, iNext, nSrc, nDest)
    requires iNext > |src|
    requires forall p: nat :: (srcIo(p).Ok? || srcIo(p).Failed?) && (fileIo(p).Ok? || fileIo(p).Failed?)
    ensures rc.Done? || rc.Failed?
    ensures rc.Done? ==> Complete(src, dest', nSrc)
    ensures AllOk(srcIo) && AllOk(fileIo) ==> rc.Done?
  {
    SizePositive(nSrc);
    hide PageSize, PendingPage, Start, Whole, Synced, Complete;
    rc := fileIo(0);
    dest' := (o: nat) => if o < 100 then header(o) else dest(o);
    if rc.Ok? && nSrc < nDest {
      rc, dest' := WriteExtra(src, dest', nSrc, nDest, srcIo, fileIo);
    }
    if rc.Ok? {
      FinishedIsComplete(src, dest, dest', iNext, nSrc, nDest);
      rc := Done;
    }
  }

  /** The number of pages the destination is cut to. */
  function DestPages(pages: nat, nSrc: nat, nDest: nat): nat
    requires nSrc > 0 && nDest > 0
  {
    if nSrc < nDest then
      var ratio := nDest / nSrc;
      var n := (pages + ratio - 1) / ratio;
      if n == PendingPage(nDest) then n - 1 else n
    else
      pages * (nSrc / nDest)
  }

  /**
   The cut keeps all of the source and no page more, but for a last page that would be the destination's pending
   one.
   */
  lemma CutKeepsSource(pages: nat, nSrc: nat, nDest: nat)
    requires PageSize(nSrc) && PageSize(nDest) && pages > 0
    ensures var n, size := DestPages(pages, nSrc, nDest), SizeOf(nSrc, pages);
            && n > 0
            && (nSrc >= nDest ==> n * nDest == size)
            && (nSrc < nDest ==>
                  && n != PendingPage(nDest)
                  && (|| Start(n, nDest) < size <= n * nDest
                      || (n == PendingPage(nDest) - 1 && PENDING_BYTE < size <= PENDING_BYTE + nDest)))
  {
    SizePositive(nSrc);
    SizePositive(nDest);
    if nSrc < nDest {
      var r := SizesDivide(nSrc, nDest);
      ExtraStart(nDest);
      hide PageSize;
      DivModIs(nDest, nSrc, r, 0);
      RoundedUp(pages, r, (pages + r - 1) / r, nSrc, nDest);
      hide Start, PendingPage, SizeOf;
    } else {
      var r := SizesDivide(nDest, nSrc);
      hide PageSize;
      DivModIs(nSrc, nDest, r, 0);
      WholeCut(pages, r, nSrc, nDest);
      hide SizeOf;
    }
  }

  lemma WholeCut(pages: nat, r: nat, nSrc: nat, nDest: nat)
    requires r > 0 && pages > 0 && nSrc == r * nDest
    ensures pages * r > 0 && pages * r * nDest == SizeOf(nSrc, pages)
  {
  }

  lemma RoundedUp(pages: nat, r: nat, n: nat, nSrc: nat, nDest: nat)
    requires r > 0 && pages > 0 && nSrc > 0 && nDest == r * nSrc && n == (pages + r - 1) / r
    ensures n > 0 && n * nDest >= SizeOf(nSrc, pages) && Start(n, nDest) < SizeOf(nSrc, pages)
  {
    assert n * r <= pages + r - 1 < n * r + r;
    if n == 0 {
      assert false;
    }
    Regroup(n, r, 0, nSrc, nDest);
    Regroup(n - 1, r, 0, nSrc, nDest);
    assert (n - 1) * r < pages <= n * r;
    if pages < n * r {
      Multiple(pages, n * r, nSrc);
    }
    Multiple((n - 1) * r, pages, nSrc);
  }

  /** What can happen to a backup and its source; io tells how the input and output of each page ends. */
  datatype Action =
    | DoStep(nPage: int, begun: Rc, header: Image, io: nat -> Rc)
    | DoUpdate(pg: nat, data: seq<Byte>, io: nat -> Rc)
    | DoTruncate(n: nat)
    | DoRestart(changed: seq<seq<Byte>>)

  ghost predicate EndsWell(io: nat -> Rc) {
    forall p: nat :: io(p).Ok? || io(p).Failed?
  }

  ghost predicate Proper(a: Action, nSrc: nat) {
    match a
    case DoStep(_, begun, _, io) => !begun.Done? && EndsWell(io)
    case DoUpdate(_, data, io) => |data| == nSrc && EndsWell(io)
    case DoTruncate(_) => true
    case DoRestart(changed) => WholePages(changed, nSrc)
  }

  /** 32-bit unsigned arithmetic. */
  const U32: nat := 0x1_0000_0000

  function Wrap32(x: int): nat { x % U32 }

  /** The number of source pages a backup still has to copy. */
  function PagesLeft(nSrcPage: nat, iNext: nat): nat {
    if iNext <= nSrcPage then nSrcPage + 1 - iNext else 0
  }

  lemma AllGo(srcIo: nat -> Rc, destIo: nat -> Rc, nSrc: nat, nDest: nat, memdb: bool)
    requires nSrc > 0 && nDest > 0
    ensures AllOk(srcIo) && AllOk(destIo) && (nSrc == nDest || !memdb) ==>
              forall pg: nat :: pg > 0 ==> PageGoes(pg, srcIo, destIo, nSrc, nDest, memdb)
  {
  }

  /** A backup under way, with the source it reads. */
  class Session {
    const nSrc: nat
    const nDest: nat
    const memdb: bool
    const wal: bool
    var src: seq<seq<Byte>>
    var dest: Image
    var iNext: nat
    var rc: Rc
    var attached: bool
    var nRemaining: nat
    var nPagecount: nat

    /** Until it ends or fails, everything before iNext is copied, and changes to it are reported. */
    ghost predicate Valid()
      reads this
    {
      && PageSize(nSrc) && PageSize(nDest) && WholePages(src, nSrc) && iNext > 0
      && (!Fatal(rc) ==> Synced(src, dest, iNext, nSrc, nDest) && (iNext > 1 ==> attached))
    }

    constructor (nSrc: nat, nDest: nat, memdb: bool, wal: bool, src: seq<seq<Byte>>, dest: Image)
      requires PageSize(nSrc) && PageSize(nDest) && WholePages(src, nSrc)
      ensures Valid() && this.src == src && iNext == 1 && rc.Ok?
    {
      this.nSrc, this.nDest, this.memdb, this.wal := nSrc, nDest, memdb, wal;
      this.src, this.dest := src, dest;
      iNext, rc, attached, nRemaining, nPagecount := 1, Ok, false, 0, 0;
    }

    /**
     Copies up to nPage pages. begun tells whether the source could be read and the destination locked.
     When the last page is copied the backup is finished, and the destination is the source.
     */
    method Step(nPage: int, begun: Rc, header: Image, srcIo: nat -> Rc, destIo: nat -> Rc, fileIo: nat -> Rc)
      returns (r: Rc)
      requires Valid() && !begun.Done?
      requires forall p: nat ::
                 && (srcIo(p).Ok? || srcIo(p).Failed?)
                 && (destIo(p).Ok? || destIo(p).Failed?)
                 && (fileIo(p).Ok? || fileIo(p).Failed?)
      modifies this`dest, this`iNext, this`rc, this`attached, this`nRemaining, this`nPagecount
      ensures Valid() && r == rc
      ensures Fatal(old(rc)) ==> r == old(rc) && dest == old(dest) && iNext == old(iNext)
      ensures !Fatal(old(rc)) && r.Done? ==> Complete(src, dest, nSrc)
      ensures r.Ok? ==> nPage >= 0 && iNext == old(iNext) + nPage <= |src|
      ensures !Fatal(old(rc)) && r.Done? ==> iNext == if old(iNext) <= |src| then |src| + 1 else old(iNext)
      ensures !Fatal(old(rc)) && (r.Ok? || r.Done?) ==> nPagecount == |src| && nRemaining == Wrap32(|src| + 1 - iNext)
      // right exactly when the source was not cut off below the pages already passed
      ensures !Fatal(old(rc)) && (r.Ok? || r.Done?) && |src| < U32 && iNext <= U32 ==>
                (nRemaining == PagesLeft(|src|, iNext) <==> old(iNext) <= |src| + 1)
      ensures r.Busy? ==> dest == old(dest) && iNext == old(iNext)
      // how a step ends: not at all when it cannot begin, never well in WAL mode with different page sizes,
      // and well when every page goes; a failure has a page or the end of the backup as its cause
      ensures nDest > 0
      ensures !Fatal(old(rc)) && !begun.Ok? ==> r == begun && dest == old(dest) && iNext == old(iNext)
      ensures !Fatal(old(rc)) && begun.Ok? && wal && nSrc != nDest ==> r.Failed? && dest == old(dest)
      ensures !Fatal(old(rc)) && begun.Ok? && (nSrc == nDest || (!memdb && !wal)) && AllOk(srcIo) && AllOk(destIo) &&
              AllOk(fileIo) ==>
                r == if old(iNext) > |src| || nPage < 0 || old(iNext) + nPage > |src| then Done else Ok
      ensures !Fatal(old(rc)) && begun.Ok? && r.Failed? && iNext <= |src| && (nSrc == nDest || !wal) ==>
                exists pg :: && old(iNext) <= pg <= |src| && (nPage < 0 || pg < old(iNext) + nPage)
                             && !PageGoes(pg, srcIo, destIo, nSrc, nDest, memdb)
    {
      hide PageSize, WholePages, Synced, Complete, PageGoes, AllOk;
      r := rc;
      SizePositive(nDest);
      if Fatal(rc) {
        return;
      }
      var through;
      r, dest, iNext, through := CopyAndFinish(src, dest, iNext, nPage, begun, header, srcIo, destIo, fileIo);
      if through {
        nPagecount, nRemaining := |src|, Wrap32(|src| + 1 - iNext);
        if iNext <= |src| {
          attached := true;
        }
      }
      rc := r;
    }

    /** The copying of a step and, when it passes the end of the source, the end of the backup. */
    method CopyAndFinish(src: seq<seq<Byte>>, dest: Image, iNext: nat, nPage: int, begun: Rc, header: Image,
                         srcIo: nat -> Rc, destIo: nat -> Rc, fileIo: nat -> Rc)
      returns (r: Rc, dest': Image, iNext': nat, through: bool)
      requires PageSize(nSrc) && PageSize(nDest) && WholePages(src, nSrc) && iNext > 0 && nDest > 0
      requires Synced(src, dest, iNext, nSrc, nDest) && !begun.Done?
      requires forall p: nat ::
                 && (srcIo(p).Ok? || srcIo(p).Failed?)
                 && (destIo(p).Ok? || destIo(p).Failed?)
                 && (fileIo(p).Ok? || fileIo(p).Failed?)
      ensures iNext <= iNext' && (nPage < 0 || iNext' <= iNext + nPage)
      ensures !Fatal(r) ==> Synced(src, dest', iNext', nSrc, nDest)
      ensures r.Ok? ==> through && nPage >= 0 && iNext' == iNext + nPage <= |src|
      ensures r.Done? ==> through && Complete(src, dest', nSrc)
      ensures r.Done? ==> iNext' == if iNext <= |src| then |src| + 1 else iNext
      ensures r.Busy? ==> !begun.Ok?
      ensures !begun.Ok? ==> r == begun && dest' == dest && iNext' == iNext && !through
      ensures begun.Ok? && wal && nSrc != nDest ==> r.Failed? && dest' == dest
      ensures begun.Ok? && (nSrc == nDest || (!memdb && !wal)) && AllOk(srcIo) && AllOk(destIo) && AllOk(fileIo) ==>
                r == if iNext > |src| || nPage < 0 || iNext + nPage > |src| then Done else Ok
      ensures begun.Ok? && r.Failed? && iNext' <= |src| && (nSrc == nDest || !wal) ==>
                exists pg :: && iNext <= pg <= |src| && (nPage < 0 || pg < iNext + nPage)
                             && !PageGoes(pg, srcIo, destIo, nSrc, nDest, memdb)
    {
      SizePositive(nSrc);
      AllGo(srcIo, destIo, nSrc, nDest, memdb);
      hide PageSize, WholePages, Synced, Complete, PageGoes, AllOk;
      r, dest', iNext', through := begun, dest, iNext, false;
      if r.Ok? && wal && nSrc != nDest {
        r := Failed;
      }
      if r.Ok? {
        r, dest', iNext' := CopyPages(src, dest, iNext, nPage, nSrc, nDest, memdb, srcIo, destIo);
        if r.Ok? {
          through := true;
          if iNext' > |src| {
            r, dest' := Finish(src, dest', nSrc, nDest, header, srcIo, fileIo, iNext');
          }
        }
      }
    }

    /** A page of the source is written, or added, and the write is reported to the backup. */
    method Update(pg: nat, data: seq<Byte>, destIo: nat -> Rc)
      requires Valid() && 0 < pg <= |src| + 1 && |data| == nSrc
      requires forall p: nat :: destIo(p).Ok? || destIo(p).Failed?
      modifies this`src, this`dest, this`rc
      ensures Valid() && src == (if pg <= |old(src)| then old(src)[pg - 1 := data] else old(src) + [data])
      ensures pg >= iNext || Fatal(old(rc)) ==> dest == old(dest) && rc == old(rc)
      ensures nDest > 0
      ensures rc ==
              if pg < iNext && !Fatal(old(rc)) && !CanCopy(destIo, pg, nSrc, nDest, memdb) then Failed else old(rc)
    {
      ghost var was, before := src, dest;
      SizePositive(nSrc);
      SizePositive(nDest);
      hide PageSize, Synced, SameOutside, Start, Copied, PendingPage, CanCopy, CountRight;
      if pg <= |src| {
        src := src[pg - 1 := data];
      } else {
        src := src + [data];
      }
      if attached && !Fatal(rc) && pg < iNext {
        var r;
        r, dest := CopyPage(dest, pg, data, true, |src|, nSrc, nDest, memdb, destIo);
        if !r.Ok? {
          rc := r;
        }
      } else {
        SameItself(dest, Start(pg, nSrc), Start(pg, nSrc) + nSrc);
      }
      if !Fatal(rc) {
        SyncedElsewhere(was, src, before, dest, iNext, pg, nSrc, nDest);
      }
    }

    /** Pages at the end of the source are given up. */
    method Truncate(n: nat)
      requires Valid() && n <= |src|
      modifies this`src
      ensures Valid() && src == old(src)[..n]
    {
      ghost var was := src;
      hide PageSize, Copied, PendingPage;
      src := src[..n];
      if !Fatal(rc) {
        forall pg | 0 < pg < iNext ensures PageCopied(src, dest, pg, nSrc, nDest) {
          assert PageCopied(was, dest, pg, nSrc, nDest);
        }
      }
    }

    /**
     In every run of steps, reported writes, truncations and restarts everything before iNext is copied
     until the end.
     */
    method Run(actions: seq<Action>)
      requires Valid() && forall i :: 0 <= i < |actions| ==> Proper(actions[i], nSrc)
      modifies this
      ensures Valid()
    {
      hide *;
      for i := 0 to |actions|
        invariant Valid()
      {
        Act(actions[i]);
      }
    }

    method Act(a: Action)
      requires Valid() && Proper(a, nSrc)
      modifies this
      ensures Valid()
    {
      hide Synced, PageSize;
      match a
      case DoStep(nPage, begun, header, io) =>
        var _ := Step(nPage, begun, header, io, io, io);
      case DoUpdate(pg, data, io) =>
        if 0 < pg <= |src| + 1 {
          Update(pg, data, io);
        }
      case DoTruncate(n) =>
        if n <= |src| {
          Truncate(n);
        }
      case DoRestart(changed) =>
        Restart(changed);
    }

    /** The source was changed from outside in a way nobody reported: the backup starts over. */
    method Restart(changed: seq<seq<Byte>>)
      requires Valid() && WholePages(changed, nSrc)
      modifies this`src, this`iNext
      ensures Valid() && src == changed && iNext == 1
    {
      src, iNext := changed, 1;
    }
  }

  /** A page that is written either lies ahead or is copied again. */
  lemma SyncedElsewhere(src: seq<seq<Byte>>, src': seq<seq<Byte>>, dest: Image, dest': Image, iNext: nat, q: nat,
                        nSrc: nat, nDest: nat)
    requires Synced(src, dest, iNext, nSrc, nDest) && q > 0 && nSrc > 0
    requires SameOutside(dest, dest', Start(q, nSrc), Start(q, nSrc) + nSrc)
    requires forall i | 0 <= i < |src'| && i != q - 1 :: i < |src| && src'[i] == src[i]
    requires q < iNext && q <= |src'| ==> Copied(dest', src'[q - 1], q, nSrc, nDest, nSrc)
    ensures Synced(src', dest', iNext, nSrc, nDest)
  {
    hide Copied, SameOutside, Start, PendingPage;
    forall pg | 0 < pg < iNext ensures PageCopied(src', dest', pg, nSrc, nDest) {
      if pg != q && pg <= |src'| && pg != PendingPage(nSrc) {
        var i := pg - 1;
        assert src'[i] == src'[i] && i < |src| && src'[i] == src[i];
        assert PageCopied(src, dest, pg, nSrc, nDest);
        OtherPagesKept(dest, dest', Page(src, pg), pg, q, nSrc, nDest);
      }
    }
  }
}
