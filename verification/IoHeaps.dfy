/**
  The two binary heaps of the disk queue (lib/cpp/ms/osdisk.cxx).

  Heap A grows up from the front of one shared array of requests, heap B grows down from its
  back. A request remembers the array slot it occupies, which is how it is found for removal and
  how the queue tells which heap it is in.
*/
module IoHeaps {

  const TWO63: int := 0x8000_0000_0000_0000
  const TWO64: int := 0x1_0000_0000_0000_0000

  /** A 64-bit unsigned machine word. */
  type Qword = x: int | 0 <= x < TWO64

  /** A request, as far as the heaps see it. */
  class Ioreq {
    const iFile: Qword
    const ibOffset: Qword
    var ipioreqHeap: int

    constructor (iFile: Qword, ibOffset: Qword)
      ensures this.iFile == iFile && this.ibOffset == ibOffset
    {
      this.iFile, this.ibOffset := iFile, ibOffset;
    }
  }

  // ----- comparing requests -----

  /** The value of a 64-bit difference read as a signed number. */
  function Int64(d: int): int {
    var m := d % TWO64;
    if m < TWO63 then m else m - TWO64
  }

  function CmpOSDiskIFileIbIFileIb(iFile1: Qword, ibOffset1: Qword, iFile2: Qword, ibOffset2: Qword): int {
    if Int64(iFile1 - iFile2) != 0 then Int64(iFile1 - iFile2) else Int64(ibOffset1 - ibOffset2)
  }

  /** File index first, then offset. */
  predicate Precedes(iFile1: int, ibOffset1: int, iFile2: int, ibOffset2: int) {
    iFile1 < iFile2 || (iFile1 == iFile2 && ibOffset1 < ibOffset2)
  }

  /** The difference that decides the comparison. */
  function Deciding(iFile1: int, ibOffset1: int, iFile2: int, ibOffset2: int): int {
    if iFile1 != iFile2 then iFile1 - iFile2 else ibOffset1 - ibOffset2
  }

  lemma Int64Sign(d: int)
    requires -TWO64 < d < TWO64
    ensures Int64(d) == if d < -TWO63 then d + TWO64 else if d < TWO63 then d else d - TWO64
  {
    if d < 0 {
      assert d % TWO64 == (d + TWO64) % TWO64;
    }
  }

  /** The comparison orders two positions correctly exactly when the deciding difference fits a
      signed 64-bit number. */
  lemma CmpOrdersIff(iFile1: Qword, ibOffset1: Qword, iFile2: Qword, ibOffset2: Qword)
    ensures var c := CmpOSDiskIFileIbIFileIb(iFile1, ibOffset1, iFile2, ibOffset2);
            (&& (c < 0 <==> Precedes(iFile1, ibOffset1, iFile2, ibOffset2))
             && (c > 0 <==> Precedes(iFile2, ibOffset2, iFile1, ibOffset1)))
            <==> -TWO63 <= Deciding(iFile1, ibOffset1, iFile2, ibOffset2) < TWO63
  {
    Int64Sign(iFile1 - iFile2);
    Int64Sign(ibOffset1 - ibOffset2);
  }

  /** An offset of 2^63 compares as being before offset zero of the same file. */
  lemma CmpWraps()
    ensures CmpOSDiskIFileIbIFileIb(0, TWO63, 0, 0) < 0 && Precedes(0, 0, 0, TWO63)
  {
    Int64Sign(TWO63);
  }

  /** The range of keys for which the comparison is an order. */
  predicate InRange(r: Ioreq) {
    r.iFile < TWO63 && r.ibOffset < TWO63
  }

  /** Position as one number; on requests in range it orders them as `Precedes` does. */
  function Key(r: Ioreq): int {
    r.iFile * TWO63 + r.ibOffset
  }

  predicate Smaller(r1: Ioreq, r2: Ioreq) {
    CmpOSDiskIFileIbIFileIb(r1.iFile, r1.ibOffset, r2.iFile, r2.ibOffset) < 0
  }

  lemma SmallerIsKeyOrder(r1: Ioreq, r2: Ioreq)
    requires InRange(r1) && InRange(r2)
    ensures Smaller(r1, r2) <==> Key(r1) < Key(r2)
  {
    CmpOrdersIff(r1.iFile, r1.ibOffset, r2.iFile, r2.ibOffset);
  }

  // ----- heaps as sequences -----

  function Parent(i: int): (p: int)
    requires i > 0
    ensures 0 <= p < i && (i == 2 * p + 1 || i == 2 * p + 2)
  {
    (i - 1) / 2
  }

  ghost predicate AllInRange(h: seq<Ioreq>) {
    forall k :: 0 <= k < |h| ==> InRange(h[k])
  }

  ghost predicate Distinct(h: seq<Ioreq>) {
    forall j, k :: 0 <= j < k < |h| ==> h[j] != h[k]
  }

  ghost predicate Heap(h: seq<Ioreq>) {
    forall k :: 0 < k < |h| ==> Key(h[Parent(k)]) <= Key(h[k])
  }

  /** Ordered but for what sits at slot i: the pairs without i are in order, and so are the
      parent and the children of i among themselves. */
  ghost predicate HeapBut(h: seq<Ioreq>, i: int) {
    0 <= i < |h|
    && (forall k :: 0 < k < |h| && k != i && Parent(k) != i ==> Key(h[Parent(k)]) <= Key(h[k]))
    && (forall k :: 0 < k < |h| && Parent(k) == i && i > 0 ==> Key(h[Parent(i)]) <= Key(h[k]))
  }

  function Swap(h: seq<Ioreq>, i: int, j: int): (s: seq<Ioreq>)
    requires 0 <= i < |h| && 0 <= j < |h|
    ensures |s| == |h|
  {
    h[i := h[j]][j := h[i]]
  }

  /** The first element of a heap is a smallest one. */
  lemma {:induction false} TopIsLeast(h: seq<Ioreq>, k: int)
    requires Heap(h) && 0 <= k < |h|
    ensures Key(h[0]) <= Key(h[k])
    decreases k
  {
    if k <= 0 {
    } else {
      TopIsLeast(h, Parent(k));
    }
  }

  /** In order above slot i, and below it. */
  ghost predicate UpDone(h: seq<Ioreq>, i: int) {
    0 < i < |h| ==> Key(h[Parent(i)]) <= Key(h[i])
  }

  ghost predicate DownDone(h: seq<Ioreq>, i: int) {
    0 <= i < |h| ==> forall k :: 0 < k < |h| && Parent(k) == i ==> Key(h[i]) <= Key(h[k])
  }

  /** What holds of the requests while the one at slot i is being sifted. */
  ghost predicate Loose(h: seq<Ioreq>, i: int) {
    Distinct(h) && AllInRange(h) && HeapBut(h, i)
  }

  lemma SwapKeeps(h: seq<Ioreq>, i: int, j: int)
    requires 0 <= i < |h| && 0 <= j < |h| && Distinct(h) && AllInRange(h)
    ensures multiset(Swap(h, i, j)) == multiset(h)
    ensures Distinct(Swap(h, i, j)) && AllInRange(Swap(h, i, j))
  {}

  lemma SiftUp(h: seq<Ioreq>, i: int)
    requires Loose(h, i) && i > 0 && Smaller(h[i], h[Parent(i)])
    ensures var s := Swap(h, i, Parent(i));
            Loose(s, Parent(i)) && DownDone(s, Parent(i)) && multiset(s) == multiset(h)
  {
    var p, s := Parent(i), Swap(h, i, Parent(i));
    SwapKeeps(h, i, p);
    SmallerIsKeyOrder(h[i], h[p]);
    forall k | 0 < k < |h| && k != p && Parent(k) != p
      ensures Key(s[Parent(k)]) <= Key(s[k])
    {}
    forall k | 0 < k < |h| && Parent(k) == p && p > 0
      ensures Key(s[Parent(p)]) <= Key(s[k])
    {
      assert Key(h[Parent(p)]) <= Key(h[p]);
    }
  }

  lemma SiftUpEnds(h: seq<Ioreq>, i: int)
    requires Loose(h, i) && (i > 0 ==> !Smaller(h[i], h[Parent(i)]))
    ensures UpDone(h, i)
  {
    if i > 0 {
      SmallerIsKeyOrder(h[i], h[Parent(i)]);
    }
  }

  /** The child the downward loop compares with. */
  ghost predicate LeastChild(h: seq<Ioreq>, i: int, c: int) {
    && 0 <= i < c < |h| && Parent(c) == i
    && (if c == 2 * i + 2 then Smaller(h[c], h[c - 1]) else c + 1 < |h| ==> !Smaller(h[c + 1], h[c]))
  }

  lemma LeastChildIsLeast(h: seq<Ioreq>, i: int, c: int, k: int)
    requires AllInRange(h) && LeastChild(h, i, c) && 0 < k < |h| && Parent(k) == i
    ensures Key(h[c]) <= Key(h[k])
  {
    SmallerIsKeyOrder(h[k], h[c]);
    SmallerIsKeyOrder(h[c], h[k]);
  }

  lemma SiftDown(h: seq<Ioreq>, i: int, c: int)
    requires Loose(h, i) && UpDone(h, i) && LeastChild(h, i, c) && !Smaller(h[i], h[c])
    ensures var s := Swap(h, i, c);
            Loose(s, c) && UpDone(s, c) && multiset(s) == multiset(h)
  {
    var s := Swap(h, i, c);
    SwapKeeps(h, i, c);
    SmallerIsKeyOrder(h[i], h[c]);
    forall k | 0 < k < |h| && k != c && Parent(k) != c
      ensures Key(s[Parent(k)]) <= Key(s[k])
    {
      if Parent(k) == i {
        LeastChildIsLeast(h, i, c, k);
      }
    }
    forall k | 0 < k < |h| && Parent(k) == c
      ensures Key(s[Parent(c)]) <= Key(s[k])
    {
      assert Key(h[Parent(k)]) <= Key(h[k]);
    }
  }

  lemma SiftDownEnds(h: seq<Ioreq>, i: int)
    requires Loose(h, i) && (2 * i + 1 < |h| ==> exists c :: LeastChild(h, i, c) && Smaller(h[i], h[c]))
    ensures DownDone(h, i)
  {
    forall k | 0 < k < |h| && Parent(k) == i
      ensures Key(h[i]) <= Key(h[k])
    {
      var c :| LeastChild(h, i, c) && Smaller(h[i], h[c]);
      SmallerIsKeyOrder(h[i], h[c]);
      LeastChildIsLeast(h, i, c, k);
    }
  }

  lemma SiftDone(h: seq<Ioreq>, i: int)
    requires Loose(h, i) && UpDone(h, i) && DownDone(h, i)
    ensures Heap(h) && AllInRange(h) && Distinct(h)
  {}

  /** Appending a request to a heap leaves only that slot to repair. */
  lemma AppendLoose(h: seq<Ioreq>, r: Ioreq)
    requires Heap(h) && AllInRange(h) && Distinct(h) && r !in h && InRange(r)
    ensures Loose(h + [r], |h|) && DownDone(h + [r], |h|)
    ensures multiset(h + [r]) == multiset(h) + multiset{r}
  {
    var s := h + [r];
    forall k | 0 < k < |s| && k != |h| && Parent(k) != |h|
      ensures Key(s[Parent(k)]) <= Key(s[k])
    {}
  }

  /** A heap without its request at slot i, the last one moved there. */
  function Vacated(h: seq<Ioreq>, i: int): (s: seq<Ioreq>)
    requires 0 <= i < |h| - 1
    ensures |s| == |h| - 1
  {
    h[i := h[|h| - 1]][..|h| - 1]
  }

  lemma VacatedBut(h: seq<Ioreq>, i: int)
    requires Heap(h) && 0 <= i < |h| - 1
    ensures HeapBut(Vacated(h, i), i)
  {
    var s := Vacated(h, i);
    forall k | 0 < k < |s| && k != i && Parent(k) != i
      ensures Key(s[Parent(k)]) <= Key(s[k])
    {}
    forall k | 0 < k < |s| && Parent(k) == i && i > 0
      ensures Key(s[Parent(i)]) <= Key(s[k])
    {
      assert Key(h[Parent(i)]) <= Key(h[i]) <= Key(h[k]);
    }
  }

  lemma VacatedElements(h: seq<Ioreq>, i: int)
    requires 0 <= i < |h| - 1
    ensures multiset(Vacated(h, i)) == multiset(h) - multiset{h[i]}
  {
    var last := h[|h| - 1];
    assert h[i := last] == Vacated(h, i) + [last];
    assert multiset(h[i := last]) == multiset(h) - multiset{h[i]} + multiset{last};
    assert multiset(Vacated(h, i)) == multiset(h[i := last]) - multiset{last};
  }

  lemma VacatedLoose(h: seq<Ioreq>, i: int)
    requires Heap(h) && AllInRange(h) && Distinct(h) && 0 <= i < |h| - 1
    ensures Loose(Vacated(h, i), i)
    ensures multiset(Vacated(h, i)) == multiset(h) - multiset{h[i]}
    ensures forall r :: r in Vacated(h, i) ==> r in h
  {
    hide Heap, HeapBut;
    VacatedBut(h, i);
    VacatedElements(h, i);
  }

  lemma LastRemoved(h: seq<Ioreq>)
    requires Heap(h) && AllInRange(h) && Distinct(h) && |h| > 0
    ensures Heap(h[..|h| - 1]) && AllInRange(h[..|h| - 1]) && Distinct(h[..|h| - 1])
    ensures multiset(h[..|h| - 1]) == multiset(h) - multiset{h[|h| - 1]}
  {
    assert h == h[..|h| - 1] + [h[|h| - 1]];
  }

  lemma SameElements(h: seq<Ioreq>, before: seq<Ioreq>, k: int)
    requires multiset(h) == multiset(before) && 0 <= k < |h|
    ensures h[k] in before
  {
    assert h[k] in multiset(h);
  }

  ghost function Elements(h: seq<Ioreq>): set<Ioreq> {
    set r | r in h
  }

  lemma ElementsAdded(h: seq<Ioreq>, r: Ioreq, h': seq<Ioreq>)
    requires multiset(h') == multiset(h) + multiset{r}
    ensures Elements(h') == Elements(h) + {r}
  {
    forall q ensures q in Elements(h') <==> q in Elements(h) + {r} {
      assert q in h' <==> q in multiset(h');
      assert q in h <==> q in multiset(h);
    }
  }

  lemma {:induction false} Once(h: seq<Ioreq>, r: Ioreq)
    requires Distinct(h)
    ensures multiset(h)[r] <= 1
  {
    if |h| == 0 {
    } else {
      var n := |h| - 1;
      Once(h[..n], r);
      assert h == h[..n] + [h[n]];
      if h[n] == r {
        assert r !in multiset(h[..n]);
      }
    }
  }

  lemma ElementsRemoved(h: seq<Ioreq>, r: Ioreq, h': seq<Ioreq>)
    requires multiset(h') == multiset(h) - multiset{r} && Distinct(h)
    ensures Elements(h') == Elements(h) - {r}
  {
    Once(h, r);
    forall q ensures q in Elements(h') <==> q in Elements(h) - {r} {
      assert q in h' <==> q in multiset(h');
      assert q in h <==> q in multiset(h);
    }
  }

  lemma {:induction false} ElementsSize(h: seq<Ioreq>)
    requires Distinct(h)
    ensures |Elements(h)| == |h|
  {
    if |h| == 0 {
    } else {
      var n := |h| - 1;
      ElementsSize(h[..n]);
      assert Elements(h) == Elements(h[..n]) + {h[n]};
    }
  }

  // ----- heap A -----

  class IOHeapA {
    const rgpioreq: array<Ioreq>
    var ipioreqMac: nat

    /** The heap starts empty in an array of the given size; the slots' first contents are
        whatever the allocator left there. */
    constructor (ipioreqMax: nat, leftover: Ioreq)
      ensures fresh(rgpioreq) && rgpioreq.Length == ipioreqMax && ipioreqMac == 0
    {
      rgpioreq := new Ioreq[ipioreqMax](_ => leftover);
      ipioreqMac := 0;
    }

    ghost function Contents(): (h: seq<Ioreq>)
      requires ipioreqMac <= rgpioreq.Length
      reads this, rgpioreq
    {
      rgpioreq[..ipioreqMac]
    }

    ghost predicate Valid()
      reads this, rgpioreq, rgpioreq[..]
    {
      && ipioreqMac <= rgpioreq.Length
      && (forall k :: 0 <= k < ipioreqMac ==> rgpioreq[k].ipioreqHeap == k)
      && AllInRange(Contents())
      && Heap(Contents())
    }

    ghost function Members(): set<Ioreq>
      requires Valid()
      reads this, rgpioreq, rgpioreq[..]
    {
      Elements(Contents())
    }

    /** The heap while a request is being sifted: it stands for the request h[i], whose slot i
        still holds something else. */
    ghost predicate Sifting(h: seq<Ioreq>, i: int)
      reads this, rgpioreq, rgpioreq[..]
    {
      && |h| == ipioreqMac <= rgpioreq.Length
      && Distinct(h)
      && 0 <= i < |h|
      && (forall k :: 0 <= k < |h| && k != i ==> rgpioreq[k] == h[k] && h[k].ipioreqHeap == k)
    }

    /** One request moved from slot j to slot i, where the sifted request was to go. */
    method MoveSlot(i: int, j: int, ghost h: seq<Ioreq>)
      requires Sifting(h, i) && 0 <= j < |h| && i != j
      requires Distinct(Swap(h, i, j))
      modifies rgpioreq, h[j]
      ensures Sifting(Swap(h, i, j), j)
      ensures forall k :: ipioreqMac <= k < rgpioreq.Length ==> rgpioreq[k] == old(rgpioreq[k])
    {
      rgpioreq[i] := rgpioreq[j];
      rgpioreq[i].ipioreqHeap := i;
    }

    /** The upward loop shared by adding and updating. */
    method SiftUpward(start: int, pioreq: Ioreq, ghost before: seq<Ioreq>) returns (ipioreq: int, ghost h: seq<Ioreq>)
      requires Sifting(before, start) && Loose(before, start) && before[start] == pioreq
      modifies rgpioreq, before
      ensures Sifting(h, ipioreq) && Loose(h, ipioreq) && h[ipioreq] == pioreq
      ensures UpDone(h, ipioreq) && (DownDone(before, start) ==> DownDone(h, ipioreq))
      ensures multiset(h) == multiset(before)
      ensures forall k :: ipioreqMac <= k < rgpioreq.Length ==> rgpioreq[k] == old(rgpioreq[k])
    {
      hide HeapBut, UpDone, DownDone, AllInRange, Smaller, Distinct;
      ipioreq, h := start, before;
      while ipioreq > 0 && Smaller(pioreq, rgpioreq[Parent(ipioreq)])
        invariant Sifting(h, ipioreq) && Loose(h, ipioreq) && h[ipioreq] == pioreq
        invariant DownDone(before, start) ==> DownDone(h, ipioreq)
        invariant multiset(h) == multiset(before)
        invariant forall k :: ipioreqMac <= k < rgpioreq.Length ==> rgpioreq[k] == old(rgpioreq[k])
      {
        SiftUp(h, ipioreq);
        SameElements(h, before, Parent(ipioreq));
        MoveSlot(ipioreq, Parent(ipioreq), h);
        h := Swap(h, ipioreq, Parent(ipioreq));
        ipioreq := Parent(ipioreq);
      }
      SiftUpEnds(h, ipioreq);
    }

    /** The sifted request is put down. */
    method Settle(ipioreq: int, pioreq: Ioreq, ghost h: seq<Ioreq>)
      requires Sifting(h, ipioreq) && Loose(h, ipioreq) && h[ipioreq] == pioreq
      requires UpDone(h, ipioreq) && DownDone(h, ipioreq)
      modifies rgpioreq, pioreq
      ensures Valid() && Contents() == h
      ensures forall k :: ipioreqMac <= k < rgpioreq.Length ==> rgpioreq[k] == old(rgpioreq[k])
    {
      SiftDone(h, ipioreq);
      rgpioreq[ipioreq] := pioreq;
      pioreq.ipioreqHeap := ipioreq;
      assert Contents() == h;
    }

    /** Adds a request to the heap, and nothing else. */
    method HeapAAdd(pioreq: Ioreq)
      requires Valid() && ipioreqMac < rgpioreq.Length
      requires pioreq !in Members() && InRange(pioreq)
      modifies this, rgpioreq, Members(), pioreq
      ensures Valid() && ipioreqMac == old(ipioreqMac) + 1
      ensures Members() == old(Members()) + {pioreq}
      ensures forall k :: ipioreqMac <= k < rgpioreq.Length ==> rgpioreq[k] == old(rgpioreq[k])
    {
      ghost var h0, h := Contents(), Contents() + [pioreq];
      AppendLoose(Contents(), pioreq);
      ipioreqMac := ipioreqMac + 1;
      var ipioreq;
      ipioreq, h := SiftUpward(ipioreqMac - 1, pioreq, h);
      Settle(ipioreq, pioreq, h);
      ElementsAdded(h0, pioreq, h);
    }

    /** The child to compare with: the right one only if it is strictly smaller. */
    method LesserChild(ipioreq: int, ghost h: seq<Ioreq>) returns (ipioreqChild: int)
      requires Sifting(h, ipioreq) && 2 * ipioreq + 1 < ipioreqMac
      ensures LeastChild(h, ipioreq, ipioreqChild) && ipioreq < ipioreqChild < ipioreqMac
    {
      ipioreqChild := 2 * ipioreq + 1;
      if 2 * ipioreq + 2 < ipioreqMac && Smaller(rgpioreq[2 * ipioreq + 2], rgpioreq[2 * ipioreq + 1]) {
        ipioreqChild := 2 * ipioreq + 2;
      }
    }

    /** The downward loop of updating. */
    method SiftDownward(start: int, pioreq: Ioreq, ghost before: seq<Ioreq>) returns (ipioreq: int, ghost h: seq<Ioreq>)
      requires Sifting(before, start) && Loose(before, start) && before[start] == pioreq && UpDone(before, start)
      modifies rgpioreq, before
      ensures Sifting(h, ipioreq) && Loose(h, ipioreq) && h[ipioreq] == pioreq
      ensures UpDone(h, ipioreq) && DownDone(h, ipioreq)
      ensures multiset(h) == multiset(before)
      ensures forall k :: ipioreqMac <= k < rgpioreq.Length ==> rgpioreq[k] == old(rgpioreq[k])
    {
      hide HeapBut, UpDone, DownDone, AllInRange, LeastChild, Smaller, Distinct;
      ipioreq, h := start, before;
      while 2 * ipioreq + 1 < ipioreqMac
        invariant Sifting(h, ipioreq) && Loose(h, ipioreq) && h[ipioreq] == pioreq
        invariant UpDone(h, ipioreq)
        invariant multiset(h) == multiset(before)
        invariant forall k :: ipioreqMac <= k < rgpioreq.Length ==> rgpioreq[k] == old(rgpioreq[k])
        decreases ipioreqMac - ipioreq
      {
        var ipioreqChild := LesserChild(ipioreq, h);
        if Smaller(pioreq, rgpioreq[ipioreqChild]) {
          break;
        }
        SiftDown(h, ipioreq, ipioreqChild);
        SameElements(h, before, ipioreqChild);
        MoveSlot(ipioreq, ipioreqChild, h);
        h := Swap(h, ipioreq, ipioreqChild);
        ipioreq := ipioreqChild;
      }
      SiftDownEnds(h, ipioreq);
    }

    method HeapAIUpdate(pioreq: Ioreq, ghost frame: set<Ioreq>)
      requires ipioreqMac <= rgpioreq.Length && Sifting(Contents(), pioreq.ipioreqHeap)
      requires Loose(Contents(), pioreq.ipioreqHeap) && Contents()[pioreq.ipioreqHeap] == pioreq
      requires forall k :: 0 <= k < ipioreqMac ==> rgpioreq[k] in frame
      modifies rgpioreq, frame
      ensures Valid() && multiset(Contents()) == old(multiset(Contents()))
      ensures forall k :: ipioreqMac <= k < rgpioreq.Length ==> rgpioreq[k] == old(rgpioreq[k])
    {
      hide HeapBut, Heap, UpDone, DownDone, AllInRange;
      ghost var h := Contents();
      var ipioreq := pioreq.ipioreqHeap;
      ipioreq, h := SiftUpward(ipioreq, pioreq, h);
      assert forall k :: 0 <= k < |h| ==> h[k] in multiset(h);
      ipioreq, h := SiftDownward(ipioreq, pioreq, h);
      Settle(ipioreq, pioreq, h);
    }

    /** The last request takes over the slot of the one being removed. */
    method Vacate(ipioreq: int)
      requires Valid() && 0 <= ipioreq < ipioreqMac - 1
      modifies this, rgpioreq, Contents()
      ensures ipioreqMac == old(ipioreqMac) - 1
      ensures Sifting(Contents(), ipioreq) && Loose(Contents(), ipioreq) && rgpioreq[ipioreq].ipioreqHeap == ipioreq
      ensures multiset(Contents()) == old(multiset(Contents())) - multiset{old(rgpioreq[ipioreq])}
      ensures forall k :: 0 <= k < ipioreqMac ==> rgpioreq[k] in old(Contents())
      ensures forall k :: old(ipioreqMac) <= k < rgpioreq.Length ==> rgpioreq[k] == old(rgpioreq[k])
    {
      hide Heap, HeapBut, AllInRange;
      SlotsDistinct();
      VacatedLoose(Contents(), ipioreq);
      rgpioreq[ipioreq] := rgpioreq[ipioreqMac - 1];
      rgpioreq[ipioreq].ipioreqHeap := ipioreq;
      ipioreqMac := ipioreqMac - 1;
      assert Contents() == Vacated(old(Contents()), ipioreq);
    }

    lemma SlotsDistinct()
      requires Valid()
      ensures Distinct(Contents())
    {}

    method DropLast()
      requires Valid() && ipioreqMac > 0
      modifies this
      ensures Valid() && ipioreqMac == old(ipioreqMac) - 1
      ensures multiset(Contents()) == old(multiset(Contents())) - multiset{old(Contents()[ipioreqMac - 1])}
    {
      hide Heap, AllInRange;
      SlotsDistinct();
      LastRemoved(Contents());
      ipioreqMac := ipioreqMac - 1;
      assert Contents() == old(Contents())[..ipioreqMac];
    }

    /** Where a member says it is. */
    lemma InSlot(pioreq: Ioreq)
      requires Valid() && pioreq in Members()
      ensures 0 <= pioreq.ipioreqHeap < ipioreqMac && rgpioreq[pioreq.ipioreqHeap] == pioreq
    {}

    method RemoveInner(ipioreq: int)
      requires Valid() && 0 <= ipioreq < ipioreqMac - 1
      modifies this, rgpioreq, Members()
      ensures Valid() && ipioreqMac == old(ipioreqMac) - 1
      ensures multiset(Contents()) == old(multiset(Contents())) - multiset{old(rgpioreq[ipioreq])}
      ensures forall k :: old(ipioreqMac) <= k < rgpioreq.Length ==> rgpioreq[k] == old(rgpioreq[k])
    {
      hide Heap, HeapBut, AllInRange;
      ghost var frame := Members();
      Vacate(ipioreq);
      HeapAIUpdate(rgpioreq[ipioreq], frame);
    }

    /** Removes the given member of the heap, and nothing else. */
    method HeapARemove(pioreq: Ioreq)
      requires Valid() && pioreq in Members()
      modifies this, rgpioreq, Members()
      ensures Valid() && ipioreqMac == old(ipioreqMac) - 1
      ensures Members() == old(Members()) - {pioreq}
      ensures forall k :: old(ipioreqMac) <= k < rgpioreq.Length ==> rgpioreq[k] == old(rgpioreq[k])
    {
      hide Heap, HeapBut, AllInRange, Elements, Distinct;
      ghost var h := Contents();
      SlotsDistinct();
      var ipioreq := pioreq.ipioreqHeap;
      InSlot(pioreq);
      if ipioreq == ipioreqMac - 1 {
        DropLast();
      } else {
        RemoveInner(ipioreq);
      }
      ElementsRemoved(h, pioreq, Contents());
    }

    /** Work on the other heap's part of the array does not disturb this one. */
    twostate lemma Undisturbed()
      requires old(Valid()) && unchanged(this)
      requires forall k :: 0 <= k < ipioreqMac ==> rgpioreq[k] == old(rgpioreq[k]) && rgpioreq[k].ipioreqHeap == k
      ensures Valid() && Contents() == old(Contents())
    {
      hide Heap, AllInRange;
      assert Contents() == old(Contents());
    }

    predicate FHeapAEmpty()
      reads this
    {
      ipioreqMac == 0
    }

    lemma EmptyMembers()
      requires Valid()
      ensures FHeapAEmpty() <==> Members() == {}
    {
      hide Heap, AllInRange;
      if |Contents()| > 0 {
        assert Contents()[0] in Members();
      }
    }

    /** The top is a request of the heap with the smallest key. */
    method PioreqHeapATop() returns (r: Ioreq)
      requires Valid() && !FHeapAEmpty()
      ensures r in Members() && forall q :: q in Members() ==> Key(r) <= Key(q)
    {
      forall k | 0 <= k < ipioreqMac ensures Key(rgpioreq[0]) <= Key(Contents()[k]) {
        TopIsLeast(Contents(), k);
      }
      r := rgpioreq[0];
    }
  }

  // ----- heap B -----

  function Mirror(s: seq<Ioreq>): (m: seq<Ioreq>)
    ensures |m| == |s| && forall k :: 0 <= k < |s| ==> m[k] == s[|s| - 1 - k]
  {
    seq(|s|, k requires 0 <= k < |s| => s[|s| - 1 - k])
  }

  class IOHeapB {
    const rgpioreq: array<Ioreq>
    const ipioreqMax: nat
    var ipioreqMic: nat

    /** Shares the array of heap A. */
    constructor (rgpioreq: array<Ioreq>)
      ensures this.rgpioreq == rgpioreq && ipioreqMax == rgpioreq.Length && ipioreqMic == ipioreqMax
    {
      this.rgpioreq := rgpioreq;
      ipioreqMax := rgpioreq.Length;
      ipioreqMic := rgpioreq.Length;
    }

    /** The requests from the back of the array to the front of the heap. */
    ghost function Contents(): (h: seq<Ioreq>)
      requires ipioreqMic <= ipioreqMax == rgpioreq.Length
      reads this, rgpioreq
    {
      Mirror(rgpioreq[ipioreqMic..])
    }

    ghost predicate Valid()
      reads this, rgpioreq, rgpioreq[..]
    {
      && ipioreqMic <= ipioreqMax == rgpioreq.Length
      && (forall k :: ipioreqMic <= k < ipioreqMax ==> rgpioreq[k].ipioreqHeap == k)
      && AllInRange(Contents())
      && Heap(Contents())
    }

    ghost function Members(): set<Ioreq>
      requires Valid()
      reads this, rgpioreq, rgpioreq[..]
    {
      Elements(Contents())
    }

    function IpioreqHeapBIParent(ipioreq: int): (p: int)
      requires ipioreq < ipioreqMax - 1
      ensures ipioreq < p < ipioreqMax && ipioreqMax - 1 - p == Parent(ipioreqMax - 1 - ipioreq)
    {
      ipioreqMax - 1 - (ipioreqMax - 1 - ipioreq - 1) / 2
    }

    function IpioreqHeapBILeftChild(ipioreq: int): int {
      ipioreqMax - 1 - (2 * (ipioreqMax - 1 - ipioreq) + 1)
    }

    function IpioreqHeapBIRightChild(ipioreq: int): int {
      ipioreqMax - 1 - (2 * (ipioreqMax - 1 - ipioreq) + 2)
    }

    /** Slot i counted from the back. */
    ghost function Back(i: int): int {
      ipioreqMax - 1 - i
    }

    ghost predicate Sifting(h: seq<Ioreq>, i: int)
      reads this, rgpioreq, rgpioreq[..]
    {
      && ipioreqMic <= ipioreqMax == rgpioreq.Length
      && |h| == ipioreqMax - ipioreqMic
      && Distinct(h)
      && ipioreqMic <= i < ipioreqMax
      && (forall k :: ipioreqMic <= k < ipioreqMax && k != i ==>
          rgpioreq[k] == h[Back(k)] && rgpioreq[k].ipioreqHeap == k)
    }

    method MoveSlot(i: int, j: int, ghost h: seq<Ioreq>)
      requires Sifting(h, i) && ipioreqMic <= j < ipioreqMax && i != j
      requires Distinct(Swap(h, Back(i), Back(j)))
      modifies rgpioreq, h[Back(j)]
      ensures Sifting(Swap(h, Back(i), Back(j)), j)
      ensures forall k :: 0 <= k < ipioreqMic ==> rgpioreq[k] == old(rgpioreq[k])
    {
      rgpioreq[i] := rgpioreq[j];
      rgpioreq[i].ipioreqHeap := i;
    }

    /** One turn of the upward loop. */
    method Lift(ipioreq: int, ghost h: seq<Ioreq>) returns (parent: int, ghost h': seq<Ioreq>)
      requires Sifting(h, ipioreq) && Loose(h, Back(ipioreq)) && ipioreq < ipioreqMax - 1
      requires Smaller(h[Back(ipioreq)], h[Back(IpioreqHeapBIParent(ipioreq))])
      modifies rgpioreq, h[Back(IpioreqHeapBIParent(ipioreq))]
      ensures ipioreq < parent && Sifting(h', parent) && Loose(h', Back(parent)) && h'[Back(parent)] == h[Back(ipioreq)]
      ensures DownDone(h', Back(parent)) && multiset(h') == multiset(h)
      ensures forall k :: 0 <= k < ipioreqMic ==> rgpioreq[k] == old(rgpioreq[k])
    {
      hide HeapBut, DownDone, AllInRange, Smaller, Parent, Distinct;
      parent := IpioreqHeapBIParent(ipioreq);
      SiftUp(h, Back(ipioreq));
      MoveSlot(ipioreq, parent, h);
      h' := Swap(h, Back(ipioreq), Back(parent));
    }

    method SiftUpward(start: int, pioreq: Ioreq, ghost before: seq<Ioreq>) returns (ipioreq: int, ghost h: seq<Ioreq>)
      requires Sifting(before, start) && Loose(before, Back(start)) && before[Back(start)] == pioreq
      modifies rgpioreq, before
      ensures Sifting(h, ipioreq) && Loose(h, Back(ipioreq)) && h[Back(ipioreq)] == pioreq
      ensures UpDone(h, Back(ipioreq)) && (DownDone(before, Back(start)) ==> DownDone(h, Back(ipioreq)))
      ensures multiset(h) == multiset(before)
      ensures forall k :: 0 <= k < ipioreqMic ==> rgpioreq[k] == old(rgpioreq[k])
    {
      hide HeapBut, UpDone, DownDone, AllInRange, Smaller, Parent, Distinct;
      ipioreq, h := start, before;
      while ipioreqMax > 0 && ipioreq < ipioreqMax - 1 && Smaller(pioreq, rgpioreq[IpioreqHeapBIParent(ipioreq)])
        invariant Sifting(h, ipioreq) && Loose(h, Back(ipioreq)) && h[Back(ipioreq)] == pioreq
        invariant DownDone(before, Back(start)) ==> DownDone(h, Back(ipioreq))
        invariant multiset(h) == multiset(before)
        invariant forall k :: 0 <= k < ipioreqMic ==> rgpioreq[k] == old(rgpioreq[k])
        decreases ipioreqMax - ipioreq
      {
        SameElements(h, before, Back(IpioreqHeapBIParent(ipioreq)));
        ipioreq, h := Lift(ipioreq, h);
      }
      SiftUpEnds(h, Back(ipioreq));
    }

    method LesserChild(ipioreq: int, ghost h: seq<Ioreq>) returns (ipioreqChild: int)
      requires Sifting(h, ipioreq) && IpioreqHeapBILeftChild(ipioreq) >= ipioreqMic
      ensures LeastChild(h, Back(ipioreq), Back(ipioreqChild)) && ipioreqMic <= ipioreqChild < ipioreq
    {
      ipioreqChild := IpioreqHeapBILeftChild(ipioreq);
      if IpioreqHeapBIRightChild(ipioreq) >= ipioreqMic &&
         Smaller(rgpioreq[IpioreqHeapBIRightChild(ipioreq)], rgpioreq[IpioreqHeapBILeftChild(ipioreq)])
      {
        ipioreqChild := IpioreqHeapBIRightChild(ipioreq);
      }
    }

    method SiftDownward(start: int, pioreq: Ioreq, ghost before: seq<Ioreq>) returns (ipioreq: int, ghost h: seq<Ioreq>)
      requires Sifting(before, start) && Loose(before, Back(start)) && before[Back(start)] == pioreq
      requires UpDone(before, Back(start))
      modifies rgpioreq, before
      ensures Sifting(h, ipioreq) && Loose(h, Back(ipioreq)) && h[Back(ipioreq)] == pioreq
      ensures UpDone(h, Back(ipioreq)) && DownDone(h, Back(ipioreq))
      ensures multiset(h) == multiset(before)
      ensures forall k :: 0 <= k < ipioreqMic ==> rgpioreq[k] == old(rgpioreq[k])
    {
      hide HeapBut, UpDone, DownDone, AllInRange, LeastChild, Smaller, Parent, Distinct;
      ipioreq, h := start, before;
      while IpioreqHeapBILeftChild(ipioreq) >= ipioreqMic
        invariant Sifting(h, ipioreq) && Loose(h, Back(ipioreq)) && h[Back(ipioreq)] == pioreq
        invariant UpDone(h, Back(ipioreq))
        invariant multiset(h) == multiset(before)
        invariant forall k :: 0 <= k < ipioreqMic ==> rgpioreq[k] == old(rgpioreq[k])
        decreases ipioreq
      {
        var ipioreqChild := LesserChild(ipioreq, h);
        if Smaller(pioreq, rgpioreq[ipioreqChild]) {
          break;
        }
        SiftDown(h, Back(ipioreq), Back(ipioreqChild));
        SameElements(h, before, Back(ipioreqChild));
        MoveSlot(ipioreq, ipioreqChild, h);
        h := Swap(h, Back(ipioreq), Back(ipioreqChild));
        ipioreq := ipioreqChild;
      }
      SiftDownEnds(h, Back(ipioreq));
    }

    method Settle(ipioreq: int, pioreq: Ioreq, ghost h: seq<Ioreq>)
      requires Sifting(h, ipioreq) && Loose(h, Back(ipioreq)) && h[Back(ipioreq)] == pioreq
      requires UpDone(h, Back(ipioreq)) && DownDone(h, Back(ipioreq))
      modifies rgpioreq, pioreq
      ensures Valid() && Contents() == h
      ensures forall k :: 0 <= k < ipioreqMic ==> rgpioreq[k] == old(rgpioreq[k])
    {
      hide HeapBut, UpDone, DownDone, Heap, AllInRange;
      SiftDone(h, Back(ipioreq));
      rgpioreq[ipioreq] := pioreq;
      pioreq.ipioreqHeap := ipioreq;
      assert Contents() == h;
    }

    method HeapBAdd(pioreq: Ioreq)
      requires Valid() && ipioreqMic > 0
      requires pioreq !in Members() && InRange(pioreq)
      modifies this, rgpioreq, Members(), pioreq
      ensures Valid() && ipioreqMic == old(ipioreqMic) - 1
      ensures Members() == old(Members()) + {pioreq}
      ensures forall k :: 0 <= k < ipioreqMic ==> rgpioreq[k] == old(rgpioreq[k])
    {
      hide HeapBut, UpDone, DownDone, Heap, AllInRange;
      ghost var h0, h := Contents(), Contents() + [pioreq];
      SlotsDistinct();
      AppendLoose(Contents(), pioreq);
      ipioreqMic := ipioreqMic - 1;
      var ipioreq;
      ipioreq, h := SiftUpward(ipioreqMic, pioreq, h);
      Settle(ipioreq, pioreq, h);
      ElementsAdded(h0, pioreq, h);
    }

    lemma SlotsDistinct()
      requires Valid()
      ensures Distinct(Contents())
    {}

    method HeapBIUpdate(pioreq: Ioreq, ghost frame: set<Ioreq>)
      requires ipioreqMic <= ipioreqMax == rgpioreq.Length && Sifting(Contents(), pioreq.ipioreqHeap)
      requires Loose(Contents(), Back(pioreq.ipioreqHeap)) && rgpioreq[pioreq.ipioreqHeap] == pioreq
      requires forall k :: ipioreqMic <= k < ipioreqMax ==> rgpioreq[k] in frame
      modifies rgpioreq, frame
      ensures Valid() && multiset(Contents()) == old(multiset(Contents()))
      ensures forall k :: 0 <= k < ipioreqMic ==> rgpioreq[k] == old(rgpioreq[k])
    {
      hide HeapBut, UpDone, DownDone, Heap, AllInRange;
      ghost var h := Contents();
      var ipioreq := pioreq.ipioreqHeap;
      ipioreq, h := SiftUpward(ipioreq, pioreq, h);
      assert forall k :: 0 <= k < |h| ==> h[k] in multiset(h);
      ipioreq, h := SiftDownward(ipioreq, pioreq, h);
      Settle(ipioreq, pioreq, h);
    }

    /** The heap's last request, at its front end, moves into another slot. */
    method MoveMic(ipioreq: int, ghost h: seq<Ioreq>)
      requires Valid() && ipioreqMic < ipioreq < ipioreqMax && h == Contents()
      modifies this, rgpioreq, h
      ensures ipioreqMic == old(ipioreqMic) + 1
      ensures forall k :: ipioreqMic <= k < ipioreqMax ==>
                rgpioreq[k] == if k == ipioreq then h[|h| - 1] else h[Back(k)]
      ensures forall k :: ipioreqMic <= k < ipioreqMax ==> rgpioreq[k].ipioreqHeap == k
      ensures forall k :: 0 <= k < old(ipioreqMic) ==> rgpioreq[k] == old(rgpioreq[k])
    {
      hide Heap, AllInRange;
      assert h[|h| - 1] == rgpioreq[ipioreqMic];
      rgpioreq[ipioreq] := rgpioreq[ipioreqMic];
      rgpioreq[ipioreq].ipioreqHeap := ipioreq;
      ipioreqMic := ipioreqMic + 1;
    }

    lemma MicMoved(h: seq<Ioreq>, ipioreq: int)
      requires ipioreqMic <= ipioreq < ipioreqMax == rgpioreq.Length && |h| == ipioreqMax - ipioreqMic + 1
      requires forall k :: ipioreqMic <= k < ipioreqMax ==>
                 rgpioreq[k] == if k == ipioreq then h[|h| - 1] else h[Back(k)]
      ensures Contents() == Vacated(h, Back(ipioreq))
      ensures forall k :: ipioreqMic <= k < ipioreqMax ==> rgpioreq[k] == Contents()[Back(k)] && rgpioreq[k] in h
    {
      forall m | 0 <= m < |Contents()| ensures Contents()[m] == Vacated(h, Back(ipioreq))[m] {
        assert Contents()[m] == rgpioreq[ipioreqMax - 1 - m];
      }
    }

    method Vacate(ipioreq: int)
      requires Valid() && ipioreqMic < ipioreq < ipioreqMax
      modifies this, rgpioreq, Contents()
      ensures ipioreqMic == old(ipioreqMic) + 1
      ensures Sifting(Contents(), ipioreq) && Loose(Contents(), Back(ipioreq))
      ensures rgpioreq[ipioreq].ipioreqHeap == ipioreq
      ensures multiset(Contents()) == old(multiset(Contents())) - multiset{old(rgpioreq[ipioreq])}
      ensures forall k :: ipioreqMic <= k < ipioreqMax ==> rgpioreq[k] in old(Contents())
      ensures forall k :: 0 <= k < old(ipioreqMic) ==> rgpioreq[k] == old(rgpioreq[k])
    {
      hide Heap, HeapBut, AllInRange, Distinct, Vacated, Mirror;
      ghost var h := Contents();
      SlotsDistinct();
      VacatedLoose(h, Back(ipioreq));
      assert h[Back(ipioreq)] == rgpioreq[ipioreq];
      MoveMic(ipioreq, h);
      MicMoved(h, ipioreq);
    }

    method DropLast()
      requires Valid() && ipioreqMic < ipioreqMax
      modifies this
      ensures Valid() && ipioreqMic == old(ipioreqMic) + 1
      ensures multiset(Contents()) == old(multiset(Contents())) - multiset{old(rgpioreq[ipioreqMic])}
    {
      hide Heap, AllInRange;
      SlotsDistinct();
      LastRemoved(Contents());
      ipioreqMic := ipioreqMic + 1;
      assert Contents() == old(Contents())[..ipioreqMax - ipioreqMic];
    }

    /** Where a member says it is. */
    lemma InSlot(pioreq: Ioreq)
      requires Valid() && pioreq in Members()
      ensures ipioreqMic <= pioreq.ipioreqHeap < ipioreqMax && rgpioreq[pioreq.ipioreqHeap] == pioreq
    {}

    method RemoveInner(ipioreq: int)
      requires Valid() && ipioreqMic < ipioreq < ipioreqMax
      modifies this, rgpioreq, Members()
      ensures Valid() && ipioreqMic == old(ipioreqMic) + 1
      ensures multiset(Contents()) == old(multiset(Contents())) - multiset{old(rgpioreq[ipioreq])}
      ensures forall k :: 0 <= k < old(ipioreqMic) ==> rgpioreq[k] == old(rgpioreq[k])
    {
      hide Heap, HeapBut, AllInRange;
      ghost var frame := Members();
      Vacate(ipioreq);
      HeapBIUpdate(rgpioreq[ipioreq], frame);
    }

    method HeapBRemove(pioreq: Ioreq)
      requires Valid() && pioreq in Members()
      modifies this, rgpioreq, Members()
      ensures Valid() && ipioreqMic == old(ipioreqMic) + 1
      ensures Members() == old(Members()) - {pioreq}
      ensures forall k :: 0 <= k < old(ipioreqMic) ==> rgpioreq[k] == old(rgpioreq[k])
    {
      hide Heap, HeapBut, AllInRange, Elements, Distinct;
      ghost var h := Contents();
      SlotsDistinct();
      var ipioreq := pioreq.ipioreqHeap;
      InSlot(pioreq);
      if ipioreq == ipioreqMic {
        DropLast();
      } else {
        RemoveInner(ipioreq);
      }
      ElementsRemoved(h, pioreq, Contents());
    }

    twostate lemma Undisturbed()
      requires old(Valid()) && unchanged(this)
      requires forall k :: ipioreqMic <= k < ipioreqMax ==>
                 rgpioreq[k] == old(rgpioreq[k]) && rgpioreq[k].ipioreqHeap == k
      ensures Valid() && Contents() == old(Contents())
    {
      hide Heap, AllInRange;
      assert Contents() == old(Contents());
    }

    predicate FHeapBEmpty()
      reads this
    {
      ipioreqMic == ipioreqMax
    }

    lemma EmptyMembers()
      requires Valid()
      ensures FHeapBEmpty() <==> Members() == {}
    {
      hide Heap, AllInRange;
      if |Contents()| > 0 {
        assert Contents()[0] in Members();
      }
    }

    method PioreqHeapBTop() returns (r: Ioreq)
      requires Valid() && !FHeapBEmpty()
      ensures r in Members() && forall q :: q in Members() ==> Key(r) <= Key(q)
    {
      forall k | 0 <= k < |Contents()| ensures Key(rgpioreq[ipioreqMax - 1]) <= Key(Contents()[k]) {
        TopIsLeast(Contents(), k);
      }
      r := rgpioreq[ipioreqMax - 1];
      assert r == Contents()[0];
    }
  }
}
