/** Splitting a virtual range into physically contiguous runs, each handed to a callback. */
module ForEachPhy {
  import opened Bits

  datatype Call = Call(sop: bool, eop: bool, phy: nat, len: nat)

  // Any translation that keeps offsets within a page: `pages` gives the physical address of each virtual page.
  function Translate(pages: nat -> nat, page: nat, v: nat): (p: nat)
    requires page > 0
  {
    pages(v / page) + v % page
  }

  // The physical addresses of the range, one by one.
  function Pointwise(pages: nat -> nat, page: nat, v: nat, len: nat): (s: seq<nat>)
    requires page > 0
  {
    seq<nat>(len, k requires 0 <= k => Translate(pages, page, v + k))
  }

  function RunOf(phy: nat, len: nat): (s: seq<nat>) {
    seq<nat>(len, k requires 0 <= k => phy + k)
  }

  // The physical addresses the calls cover, in order.
  function Covered(calls: seq<Call>): seq<nat> {
    if calls == [] then []
    else Covered(calls[..|calls| - 1]) + RunOf(calls[|calls| - 1].phy, calls[|calls| - 1].len)
  }

  // No two neighbouring runs could have been one.
  ghost predicate Maximal(calls: seq<Call>) {
    |calls| <= 1 ||
    var n := |calls| - 1;
    Maximal(calls[..n]) && calls[n - 1].phy + calls[n - 1].len != calls[n].phy
  }

  // The start flag, if asked for, is on the first call only; the end flag on no call that is not the last of all.
  ghost predicate Flagged(calls: seq<Call>, sop: bool, eop: bool, complete: bool) {
    forall i :: 0 <= i < |calls| ==>
      calls[i].sop == (i == 0 && sop) && calls[i].eop == (complete && i == |calls| - 1 && eop)
  }

  ghost predicate Contiguous(pages: nat -> nat, page: nat, base: nat, len: nat, phy: nat)
    requires page > 0
  {
    forall x :: base <= x < base + len ==> Translate(pages, page, x) == phy + (x - base)
  }

  // ---------------------------------------------------------------- addresses and pages

  // Within its page an address moves with its offset, and the page's end is aligned.
  lemma WithinPage(v: nat, k: nat, page: nat)
    requires page > 0 && k <= page - v % page
    ensures k < page - v % page ==> (v + k) / page == v / page && (v + k) % page == v % page + k
    ensures k == page - v % page ==> (v + k) % page == 0
  {
    var q, r := v / page, v % page;
    assert v == q * page + r;
    if k < page - r {
      DivUnique(v + k, q, r + k, page);
    } else {
      assert (q + 1) * page == q * page + page;
      DivUnique(v + k, q + 1, 0, page);
    }
  }

  // Up to the end of its page an address translates contiguously.
  lemma FirstRun(pages: nat -> nat, page: nat, v: nat)
    requires page > 0
    ensures (v + (page - v % page)) % page == 0
    ensures Contiguous(pages, page, v, page - v % page, Translate(pages, page, v))
  {
    WithinPage(v, page - v % page, page);
    forall x | v <= x < v + (page - v % page)
      ensures Translate(pages, page, x) == Translate(pages, page, v) + (x - v)
    {
      WithinPage(v, x - v, page);
      assert v + (x - v) == x;
    }
  }

  // One more page carries a run on.
  lemma RunGrows(pages: nat -> nat, page: nat, base: nat, len: nat, phy: nat)
    requires page > 0 && Contiguous(pages, page, base, len, phy)
    requires (base + len) % page == 0 && Translate(pages, page, base + len) == phy + len
    ensures Contiguous(pages, page, base, len + page, phy) && (base + len + page) % page == 0
  {
    FirstRun(pages, page, base + len);
  }

  lemma CoveredSnoc(calls: seq<Call>, c: Call)
    ensures Covered(calls + [c]) == Covered(calls) + RunOf(c.phy, c.len)
  {
    assert (calls + [c])[..|calls|] == calls;
  }

  // A contiguous run is the translation of its part of the range.
  lemma PointwiseAppend(pages: nat -> nat, page: nat, v: nat, done: nat, phy: nat, len: nat)
    requires page > 0 && Contiguous(pages, page, v + done, len, phy)
    ensures Pointwise(pages, page, v, done) + RunOf(phy, len) == Pointwise(pages, page, v, done + len)
  {
    hide Translate;
    var l, r := Pointwise(pages, page, v, done) + RunOf(phy, len), Pointwise(pages, page, v, done + len);
    forall i | 0 <= i < done + len ensures l[i] == r[i] {
      assert r[i] == Translate(pages, page, v + i);
    }
  }

  lemma FlaggedSnoc(calls: seq<Call>, c: Call, sop: bool, eop: bool, complete: bool)
    requires Flagged(calls, sop, eop, false) && c.sop == (|calls| == 0 && sop) && c.eop == (complete && eop)
    ensures Flagged(calls + [c], sop, eop, complete)
  {
    var d := calls + [c];
    forall i | 0 <= i < |d| ensures d[i].sop == (i == 0 && sop) && d[i].eop == (complete && i == |d| - 1 && eop) {
      if i < |calls| {
        assert d[i] == calls[i];
      }
    }
  }

  lemma MaximalSnoc(calls: seq<Call>, c: Call)
    requires Maximal(calls) && (|calls| > 0 ==> calls[|calls| - 1].phy + calls[|calls| - 1].len != c.phy)
    ensures Maximal(calls + [c])
  {
    assert (calls + [c])[..|calls|] == calls;
  }

  // A finished run is reported.
  lemma Reported(pages: nat -> nat, page: nat, v: nat, calls: seq<Call>, done: nat, c: Call, sop: bool, eop: bool,
                 complete: bool)
    requires page > 0 && Contiguous(pages, page, v + done, c.len, c.phy)
    requires Covered(calls) == Pointwise(pages, page, v, done) && Maximal(calls) && Flagged(calls, sop, eop, false)
    requires |calls| > 0 ==> calls[|calls| - 1].phy + calls[|calls| - 1].len != c.phy
    requires c.sop == (|calls| == 0 && sop) && c.eop == (complete && eop)
    ensures Covered(calls + [c]) == Pointwise(pages, page, v, done + c.len)
    ensures Maximal(calls + [c]) && Flagged(calls + [c], sop, eop, complete)
  {
    hide *;
    CoveredSnoc(calls, c);
    PointwiseAppend(pages, page, v, done, c.phy, c.len);
    FlaggedSnoc(calls, c, sop, eop, complete);
    MaximalSnoc(calls, c);
  }

  // ---------------------------------------------------------------- the loop

  /** The runs, put together, are exactly the pointwise translation of the range; they are maximal; the flags mark the
      first and the last; the result is the number of calls.  If a call fails the loop stops there: that call's result is
      returned and the calls so far cover the beginning of the range. */
  method ForEach(pages: nat -> nat, page: nat, sop: bool, eop: bool, startV: nat, size: nat, results: nat -> int)
    returns (ret: int, calls: seq<Call>)
    requires page > 0
    ensures |calls| > 0 && Maximal(calls) && (forall i :: 0 <= i < |calls| - 1 ==> results(i) == 0)
    ensures results(|calls| - 1) == 0 ==>
              ret == |calls| && Covered(calls) == Pointwise(pages, page, startV, size) && Flagged(calls, sop, eop, true)
    ensures results(|calls| - 1) != 0 ==>
              && ret == results(|calls| - 1) && |Covered(calls)| <= size
              && Covered(calls) == Pointwise(pages, page, startV, |Covered(calls)|)
              && Flagged(calls, sop, eop, |Covered(calls)| == size)
  {
    hide Translate, Maximal, Flagged, Contiguous, Covered;
    var num, length, first := 0, size, sop;
    calls := [];
    var startP: nat := Translate(pages, page, startV);
    var contiLen := page - startV % page;
    var contiV := startV + contiLen;
    FirstRun(pages, page, startV);
    Nothing(pages, page, startV, sop, eop);
    while contiLen < length
      invariant contiLen > 0 && 0 <= length <= size && contiV == startV + (size - length) + contiLen && contiV % page == 0
      invariant num == |calls| && first == (num == 0 && sop)
      invariant forall i :: 0 <= i < |calls| ==> results(i) == 0
      invariant Contiguous(pages, page, startV + (size - length), contiLen, startP)
      invariant Covered(calls) == Pointwise(pages, page, startV, size - length)
      invariant Maximal(calls) && Flagged(calls, sop, eop, false)
      invariant num > 0 ==> calls[num - 1].phy + calls[num - 1].len != startP
      decreases length - contiLen
    {
      var checkP: nat := Translate(pages, page, contiV);
      if checkP == startP + contiLen {
        RunGrows(pages, page, startV + (size - length), contiLen, startP);
        contiLen := contiLen + page;
      } else {
        var c := Call(first, false, startP, contiLen);
        Reported(pages, page, startV, calls, size - length, c, sop, eop, false);
        num := num + 1;
        calls := calls + [c];
        first := false;
        if results(num - 1) != 0 {
          return results(num - 1), calls;
        }
        length := length - contiLen;
        FirstRun(pages, page, contiV);
        contiLen := page;
        startP := checkP;
      }
      contiV := contiV + page;
    }
    var c := Call(first, eop, startP, length);
    Shorter(pages, page, startV + (size - length), contiLen, length, startP);
    Reported(pages, page, startV, calls, size - length, c, sop, eop, true);
    calls := calls + [c];
    if results(num) != 0 {
      return results(num), calls;
    }
    ret := num + 1;
  }

  lemma Nothing(pages: nat -> nat, page: nat, v: nat, sop: bool, eop: bool)
    requires page > 0
    ensures Covered([]) == Pointwise(pages, page, v, 0) && Maximal([]) && Flagged([], sop, eop, false)
  {
  }

  lemma Shorter(pages: nat -> nat, page: nat, base: nat, len: nat, less: nat, phy: nat)
    requires page > 0 && Contiguous(pages, page, base, len, phy) && less <= len
    ensures Contiguous(pages, page, base, less, phy)
  {
  }
}
