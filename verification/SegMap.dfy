/** Finding the segment of a logical address: the segment table's indices are sorted once by address, stepping back after
    every swap, and then scanned. */
module SegMap {
  import opened Basics

  const ALL_ONES: nat := 0xffff_ffff_ffff_ffff

  // ---------------------------------------------------------------- inversions

  function Above(s: seq<nat>, v: nat): nat {
    if s == [] then 0 else Above(s[..|s| - 1], v) + if s[|s| - 1] > v then 1 else 0
  }

  // The number of pairs out of order.
  function Inversions(s: seq<nat>): nat {
    if s == [] then 0 else Inversions(s[..|s| - 1]) + Above(s[..|s| - 1], s[|s| - 1])
  }

  function Swapped<T>(s: seq<T>, i: nat): (r: seq<T>)
    requires 0 < i < |s|
    ensures |r| == |s|
  {
    s[i := s[i - 1]][i - 1 := s[i]]
  }

  lemma {:induction false} AboveSwap(s: seq<nat>, i: nat, v: nat)
    requires 0 < i < |s|
    ensures Above(Swapped(s, i), v) == Above(s, v)
    decreases |s|
  {
    var n, t := |s| - 1, Swapped(s, i);
    if i < n {
      assert t[..n] == Swapped(s[..n], i);
      AboveSwap(s[..n], i, v);
    } else {
      assert t[..n][..n - 1] == s[..n][..n - 1];
    }
  }

  /** A swap of neighbours out of order removes exactly one inversion. */
  lemma {:induction false} SwapInversions(s: seq<nat>, i: nat)
    requires 0 < i < |s| && s[i] < s[i - 1]
    ensures Inversions(Swapped(s, i)) == Inversions(s) - 1
    decreases |s|
  {
    var n, t := |s| - 1, Swapped(s, i);
    if i < n {
      assert t[..n] == Swapped(s[..n], i);
      SwapInversions(s[..n], i);
      AboveSwap(s[..n], i, s[n]);
    } else {
      var p := s[..n - 1];
      assert s[..n] == p + [s[n - 1]] && (p + [s[n - 1]])[..n - 1] == p;
      assert t[..n] == p + [s[n]] && (p + [s[n]])[..n - 1] == p;
    }
  }

  // ---------------------------------------------------------------- the sort

  function Keys(vaddrs: seq<nat>, m: seq<nat>): (r: seq<nat>)
    requires forall k :: 0 <= k < |m| ==> m[k] < |vaddrs|
    ensures |r| == |m|
  {
    seq(|m|, k requires 0 <= k < |m| => vaddrs[m[k]])
  }

  ghost predicate SortedTo(vaddrs: seq<nat>, m: seq<nat>, i: nat)
    requires i <= |m| && forall k :: 0 <= k < |m| ==> m[k] < |vaddrs|
  {
    forall j, k :: 0 <= j < k < i ==> vaddrs[m[j]] <= vaddrs[m[k]]
  }

  lemma Position(m: seq<nat>, n: nat, x: nat) returns (p: nat)
    requires Permutation(m, n) && x < n
    ensures p < n && m[p] == x
  {
    var inv :| Permutes(m, inv);
    p := inv[x];
  }

  lemma PermutationRange(m: seq<nat>, n: nat)
    requires Permutation(m, n)
    ensures |m| == n && (forall k :: 0 <= k < |m| ==> m[k] < n) && NoDup(m)
  {
    var inv :| Permutes(m, inv);
    assert forall k :: 0 <= k < n ==> inv[m[k]] == k;
  }

  // Segments that start at the same address keep the order of the table.
  ghost predicate Stable(vaddrs: seq<nat>, m: seq<nat>)
    requires forall k :: 0 <= k < |m| ==> m[k] < |vaddrs|
  {
    forall j, k :: 0 <= j < k < |m| && vaddrs[m[j]] == vaddrs[m[k]] ==> m[j] < m[k]
  }

  // One swap: still a permutation, one inversion fewer, and in order up to the step back.
  lemma SwapSorts(vaddrs: seq<nat>, m: seq<nat>, i: nat)
    requires Permutation(m, |vaddrs|) && 0 < i < |m| && SortedTo(vaddrs, m, i) && vaddrs[m[i]] < vaddrs[m[i - 1]]
    requires Stable(vaddrs, m)
    ensures Permutation(Swapped(m, i), |vaddrs|)
    ensures SortedTo(vaddrs, Swapped(m, i), i - 1) && Stable(vaddrs, Swapped(m, i))
    ensures Inversions(Keys(vaddrs, Swapped(m, i))) == Inversions(Keys(vaddrs, m)) - 1
  {
    PermutationRange(m, |vaddrs|);
    SwappedKeys(vaddrs, m, i);
    hide Permutation, Stable, SortedTo, Keys, Inversions;
    SwappedPermutes(m, |vaddrs|, i);
    SwappedStable(vaddrs, m, i);
    SwapInversions(Keys(vaddrs, m), i);
  }

  lemma SwappedKeys(vaddrs: seq<nat>, m: seq<nat>, i: nat)
    requires (forall k :: 0 <= k < |m| ==> m[k] < |vaddrs|) && 0 < i < |m| && SortedTo(vaddrs, m, i)
    ensures SortedTo(vaddrs, Swapped(m, i), i - 1) && Keys(vaddrs, Swapped(m, i)) == Swapped(Keys(vaddrs, m), i)
    ensures |Keys(vaddrs, m)| == |m| && Keys(vaddrs, m)[i] == vaddrs[m[i]] && Keys(vaddrs, m)[i - 1] == vaddrs[m[i - 1]]
  {
  }

  lemma SwappedPermutes(m: seq<nat>, n: nat, i: nat)
    requires Permutation(m, n) && 0 < i < n
    ensures Permutation(Swapped(m, i), n)
  {
    var inv :| Permutes(m, inv);
    SwapPermutes(m, inv, i, i - 1);
    assert Permutes(Swapped(m, i), inv[m[i] := i - 1][m[i - 1] := i]);
  }

  lemma SwappedStable(vaddrs: seq<nat>, m: seq<nat>, i: nat)
    requires (forall k :: 0 <= k < |m| ==> m[k] < |vaddrs|) && 0 < i < |m| && Stable(vaddrs, m)
    requires vaddrs[m[i]] != vaddrs[m[i - 1]]
    ensures Stable(vaddrs, Swapped(m, i))
  {
    var t, from := Swapped(m, i), k => if k == i then i - 1 else if k == i - 1 then i else k;
    forall j, k | 0 <= j < k < |t| && vaddrs[t[j]] == vaddrs[t[k]] ensures t[j] < t[k] {
      assert t[j] == m[from(j)] && t[k] == m[from(k)];
    }
  }

  /** The sort ends, with the indices in order of address; every swap removes an inversion, so stepping back is paid for. */
  method SortMap(vaddrs: seq<nat>, table: array<nat>)
    requires table.Length == |vaddrs| > 0
    modifies table
    ensures Permutation(table[..], |vaddrs|) && SortedTo(vaddrs, table[..], |vaddrs|) && Stable(vaddrs, table[..])
  {
    var n := |vaddrs|;
    for k := 0 to n
      invariant forall j :: 0 <= j < k ==> table[j] == j
    {
      table[k] := k;
    }
    IdentityPermutes(table[..], n);
    hide Permutation, Inversions, Keys, Stable;
    var i := 1;
    while i != n
      invariant 1 <= i <= n && Permutation(table[..], n) && SortedTo(vaddrs, table[..], i) && Stable(vaddrs, table[..])
      decreases Inversions(Keys(vaddrs, table[..])), n - i
    {
      PermutationRange(table[..], n);
      ghost var m := table[..];
      if vaddrs[table[i]] < vaddrs[table[i - 1]] {
        SwapSorts(vaddrs, m, i);
        table[i], table[i - 1] := table[i - 1], table[i];
        assert table[..] == Swapped(m, i);
        if i != 1 {
          i := i - 1;
        }
      } else {
        SortedOn(vaddrs, m, i);
        i := i + 1;
      }
    }
  }

  lemma IdentityPermutes(m: seq<nat>, n: nat)
    requires |m| == n && forall k :: 0 <= k < n ==> m[k] == k
    ensures Permutation(m, n)
  {
    assert Permutes(m, m);
  }

  lemma SortedOn(vaddrs: seq<nat>, m: seq<nat>, i: nat)
    requires Permutation(m, |vaddrs|) && 0 < i < |m| && SortedTo(vaddrs, m, i) && vaddrs[m[i - 1]] <= vaddrs[m[i]]
    ensures SortedTo(vaddrs, m, i + 1)
  {
  }

  // ---------------------------------------------------------------- the lookup

  /** The last position whose segment does not start above the address; the all-ones entry ends the scan in bounds. */
  method Scan(vaddrs: seq<nat>, m: seq<nat>, address: nat) returns (ndx: nat)
    requires Permutation(m, |vaddrs|) && SortedTo(vaddrs, m, |vaddrs|) && |vaddrs| > 1
    requires vaddrs[0] == ALL_ONES && address < ALL_ONES && forall k :: 0 <= k < |vaddrs| ==> vaddrs[k] <= ALL_ONES
    ensures ndx < |m| - 1 && (forall k :: ndx < k < |m| ==> vaddrs[m[k]] > address)
    ensures (exists k :: 0 <= k < |vaddrs| && vaddrs[k] <= address) ==>
              forall k :: 0 <= k <= ndx ==> vaddrs[m[k]] <= address
  {
    SentinelLast(vaddrs, m);
    ndx := 0;
    while address >= vaddrs[m[ndx + 1]]
      invariant ndx < |m| - 1 && (ndx > 0 ==> vaddrs[m[ndx]] <= address)
      decreases |m| - ndx
    {
      ndx := ndx + 1;
    }
    if k :| 0 <= k < |vaddrs| && vaddrs[k] <= address {
      var p := Position(m, |vaddrs|, k);
      assert p <= ndx;
    }
  }

  lemma SentinelLast(vaddrs: seq<nat>, m: seq<nat>)
    requires Permutation(m, |vaddrs|) && SortedTo(vaddrs, m, |vaddrs|) && |vaddrs| > 1
    requires vaddrs[0] == ALL_ONES && forall k :: 0 <= k < |vaddrs| ==> vaddrs[k] <= ALL_ONES
    ensures vaddrs[m[|m| - 1]] == ALL_ONES
  {
    var p := Position(m, |vaddrs|, 0);
  }

  // The greatest start not above the address, among the segments other than `except`.
  ghost predicate Nearest(vaddrs: seq<nat>, except: nat, address: nat, r: nat) {
    && r < |vaddrs| && r != except && vaddrs[r] <= address
    && forall k :: 0 <= k < |vaddrs| && k != except && vaddrs[k] <= address ==> vaddrs[k] <= vaddrs[r]
  }

  // Segment x starts not above the address and is sorted behind segment t.
  predicate Behind(vaddrs: seq<nat>, t: nat, address: nat, x: nat)
    requires t < |vaddrs| && x < |vaddrs|
  {
    vaddrs[x] <= address && (vaddrs[x] > vaddrs[t] || (vaddrs[x] == vaddrs[t] && x > t))
  }

  // At most one segment lies that way between segment t and the address.
  ghost predicate AtMostOneBehind(vaddrs: seq<nat>, t: nat, address: nat)
    requires t < |vaddrs|
  {
    forall j, k :: 0 <= j < k < |vaddrs| ==> !(Behind(vaddrs, t, address, j) && Behind(vaddrs, t, address, k))
  }

  // Every segment not above the address sorts at or before the scan's end.
  lemma BelowIsScanned(vaddrs: seq<nat>, m: seq<nat>, address: nat, ndx: nat, x: nat) returns (p: nat)
    requires Permutation(m, |vaddrs|) && ndx < |m| && (forall k :: ndx < k < |m| ==> vaddrs[m[k]] > address)
    requires x < |vaddrs| && vaddrs[x] <= address
    ensures p <= ndx && m[p] == x
  {
    p := Position(m, |vaddrs|, x);
  }

  // The scan's end is the nearest of all, and the position before it the nearest of the others.
  lemma ScanNearest(vaddrs: seq<nat>, m: seq<nat>, address: nat, ndx: nat, at: nat, except: nat)
    requires Permutation(m, |vaddrs|) && SortedTo(vaddrs, m, |vaddrs|) && at <= ndx < |m|
    requires (forall k :: ndx < k < |m| ==> vaddrs[m[k]] > address)
    requires (forall k :: 0 <= k <= ndx ==> vaddrs[m[k]] <= address)
    requires m[at] != except && (at == ndx || (at == ndx - 1 && m[ndx] == except))
    ensures Nearest(vaddrs, except, address, m[at])
  {
    forall k | 0 <= k < |vaddrs| && k != except && vaddrs[k] <= address ensures vaddrs[k] <= vaddrs[m[at]] {
      var p := BelowIsScanned(vaddrs, m, address, ndx, k);
    }
  }

  // The two last positions scanned hold segment t exactly when at most one segment lies behind it.
  lemma TlsScanned(vaddrs: seq<nat>, m: seq<nat>, address: nat, ndx: nat, t: nat)
    requires Permutation(m, |vaddrs|) && SortedTo(vaddrs, m, |vaddrs|) && Stable(vaddrs, m) && ndx < |m|
    requires (forall k :: ndx < k < |m| ==> vaddrs[m[k]] > address)
    requires (forall k :: 0 <= k <= ndx ==> vaddrs[m[k]] <= address)
    requires t < |vaddrs| && vaddrs[t] <= address
    ensures m[ndx] == t || (ndx > 0 && m[ndx - 1] == t) <==> AtMostOneBehind(vaddrs, t, address)
  {
    PermutationRange(m, |vaddrs|);
    var p := BelowIsScanned(vaddrs, m, address, ndx, t);
    if p < ndx - 1 {
      var a, b := m[ndx - 1], m[ndx];
      assert Behind(vaddrs, t, address, a) && Behind(vaddrs, t, address, b);
      assert m[ndx] != t && m[ndx - 1] != t;
    } else {
      forall j, k | 0 <= j < k < |vaddrs| ensures !(Behind(vaddrs, t, address, j) && Behind(vaddrs, t, address, k)) {
        if Behind(vaddrs, t, address, j) && Behind(vaddrs, t, address, k) {
          var x := BelowIsScanned(vaddrs, m, address, ndx, j);
          var y := BelowIsScanned(vaddrs, m, address, ndx, k);
        }
      }
    }
  }

  /** The lookup.  For an ordinary address the result is the nearest segment below it that is not the thread-local one.
      For a thread-local address it is the thread-local segment exactly when that starts not above the address and at
      most one segment is sorted between the two, and otherwise again the nearest of the others. */
  method LogicalToCap(vaddrs: seq<nat>, m: seq<nat>, address: nat, tls: bool, tlsNdx: nat) returns (seg: nat, offset: nat)
    requires Permutation(m, |vaddrs|) && SortedTo(vaddrs, m, |vaddrs|) && Stable(vaddrs, m) && |vaddrs| > 1
    requires vaddrs[0] == ALL_ONES && address < ALL_ONES && forall k :: 0 <= k < |vaddrs| ==> vaddrs[k] <= ALL_ONES
    requires exists k :: 0 <= k < |vaddrs| && vaddrs[k] <= address && (tls || k != tlsNdx)
    ensures seg < |vaddrs| && vaddrs[seg] <= address && offset == address - vaddrs[seg]
    ensures seg == tlsNdx <==>
              tls && tlsNdx < |vaddrs| && vaddrs[tlsNdx] <= address && AtMostOneBehind(vaddrs, tlsNdx, address)
    ensures seg != tlsNdx ==> Nearest(vaddrs, tlsNdx, address, seg)
  {
    hide Permutation, SortedTo, Stable, AtMostOneBehind;
    PermutationRange(m, |vaddrs|);
    var ndx := Scan(vaddrs, m, address);
    ghost var top := ndx;
    var currentIsTls := m[ndx] == tlsNdx;
    ghost var x :| 0 <= x < |vaddrs| && vaddrs[x] <= address && (tls || x != tlsNdx);
    ghost var p := BelowIsScanned(vaddrs, m, address, ndx, x);
    if tlsNdx < |vaddrs| && vaddrs[tlsNdx] <= address {
      TlsScanned(vaddrs, m, address, ndx, tlsNdx);
    }
    if currentIsTls || (ndx != 0 && m[ndx - 1] == tlsNdx) {
      if currentIsTls != tls {
        ndx := ndx - 1;
      }
    }
    if m[ndx] != tlsNdx {
      ScanNearest(vaddrs, m, address, top, ndx, tlsNdx);
    }
    seg := m[ndx];
    offset := address - vaddrs[seg];
  }
}
