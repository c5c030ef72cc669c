/** The list of networks WiFiManager shows: sorted by signal, without duplicates, above a minimum quality. */
module WiFiScan {
  datatype AccessPoint = AccessPoint(ssid: string, rssi: int)

  const ANY_QUALITY: int := -1

  /** `getRSSIasQuality`: a percentage that never falls as the signal rises. */
  function Quality(rssi: int): (q: int)
    ensures 0 <= q <= 100
    ensures q == 0 <==> rssi <= -100
    ensures q == 100 <==> rssi >= -50
  {
    if rssi <= -100 then 0 else if rssi >= -50 then 100 else 2 * (rssi + 100)
  }

  lemma QualityMonotone(a: int, b: int)
    requires a <= b
    ensures Quality(a) <= Quality(b)
  {
  }

  /** Between the ends, one dBm is worth two percent. */
  lemma QualityStep(rssi: int)
    requires -100 <= rssi < -50
    ensures Quality(rssi + 1) == Quality(rssi) + 2
  {
  }

  predicate Passes(ap: AccessPoint, minimum: int) {
    minimum == ANY_QUALITY || minimum < Quality(ap.rssi)
  }

  /** `WiFi.SSID(i)`, which is empty for an index that is no network. */
  function Ssid(aps: seq<AccessPoint>, i: int): string {
    if 0 <= i < |aps| then aps[i].ssid else ""
  }

  /** s lists every index of aps exactly once. */
  ghost predicate Permutation(aps: seq<AccessPoint>, s: seq<int>) {
    && |s| == |aps|
    && (forall k :: 0 <= k < |s| ==> 0 <= s[k] < |aps|)
    && (forall k, l :: 0 <= k < l < |s| ==> s[k] != s[l])
    && (forall x :: 0 <= x < |aps| ==> x in s)
  }

  ghost predicate Falling(aps: seq<AccessPoint>, s: seq<int>) {
    && (forall k :: 0 <= k < |s| ==> 0 <= s[k] < |aps|)
    && forall k, l :: 0 <= k < l < |s| ==> aps[s[k]].rssi >= aps[s[l]].rssi
  }

  lemma IdentityIsPermutation(aps: seq<AccessPoint>, s: seq<int>)
    requires |s| == |aps| && forall k :: 0 <= k < |s| ==> s[k] == k
    ensures Permutation(aps, s)
  {
    forall x | 0 <= x < |aps|
      ensures x in s
    {
      assert s[x] == x;
    }
  }

  lemma SwapKeepsPermutation(aps: seq<AccessPoint>, s: seq<int>, i: nat, j: nat)
    requires Permutation(aps, s) && i < j < |s|
    ensures Permutation(aps, s[i := s[j]][j := s[i]])
  {
    var t := s[i := s[j]][j := s[i]];
    forall x | 0 <= x < |aps|
      ensures x in t
    {
      assert x in s;
      var k :| 0 <= k < |s| && s[k] == x;
      assert t[if k == i then j else if k == j then i else k] == x;
    }
  }

  /** The first i entries are final: none is weaker than any later entry. */
  ghost predicate Settled(aps: seq<AccessPoint>, s: seq<int>, i: nat)
    requires Permutation(aps, s)
  {
    forall k, l :: 0 <= k < i && k < l < |s| ==> aps[s[k]].rssi >= aps[s[l]].rssi
  }

  /** Entry i is no weaker than the entries between i and j. */
  ghost predicate Leads(aps: seq<AccessPoint>, s: seq<int>, i: nat, j: nat)
    requires Permutation(aps, s)
  {
    forall l :: i < l < j && l < |s| ==> aps[s[i]].rssi >= aps[s[l]].rssi
  }

  lemma ExchangeStep(aps: seq<AccessPoint>, s: seq<int>, i: nat, j: nat, t: seq<int>)
    requires Permutation(aps, s) && i < j < |s| && Settled(aps, s, i) && Leads(aps, s, i, j)
    requires t == if aps[s[j]].rssi > aps[s[i]].rssi then s[i := s[j]][j := s[i]] else s
    ensures Permutation(aps, t) && Settled(aps, t, i) && Leads(aps, t, i, j + 1)
  {
    SwapKeepsPermutation(aps, s, i, j);
    hide Permutation;
    forall k, l | 0 <= k < i && k < l < |t|
      ensures aps[t[k]].rssi >= aps[t[l]].rssi
    {
      assert t[k] == s[k] && (t[l] == s[l] || t[l] == s[i] || t[l] == s[j]);
    }
  }

  /** The body of the inner loop. */
  method CompareExchange(aps: seq<AccessPoint>, indices: array<int>, i: nat, j: nat)
    requires Permutation(aps, indices[..]) && i < j < indices.Length
    requires Settled(aps, indices[..], i) && Leads(aps, indices[..], i, j)
    modifies indices
    ensures Permutation(aps, indices[..]) && Settled(aps, indices[..], i) && Leads(aps, indices[..], i, j + 1)
  {
    ghost var s := indices[..];
    ghost var t := if aps[s[j]].rssi > aps[s[i]].rssi then s[i := s[j]][j := s[i]] else s;
    ExchangeStep(aps, s, i, j, t);
    if aps[indices[j]].rssi > aps[indices[i]].rssi {
      indices[i], indices[j] := indices[j], indices[i];
    }
    assert indices[..] == t;
  }

  lemma SortBounds(aps: seq<AccessPoint>, s: seq<int>, i: nat)
    requires Permutation(aps, s) && i <= |s|
    ensures Settled(aps, s, 0) && Leads(aps, s, i, i + 1)
    ensures i < |s| && Settled(aps, s, i) && Leads(aps, s, i, |s|) ==> Settled(aps, s, i + 1)
    ensures Settled(aps, s, |s|) ==> Falling(aps, s)
  {
  }

  /** The exchange sort, in place. */
  method SortByRssi(aps: seq<AccessPoint>, indices: array<int>)
    requires Permutation(aps, indices[..])
    modifies indices
    ensures Permutation(aps, indices[..]) && Falling(aps, indices[..])
  {
    hide *;
    var n := indices.Length;
    SortBounds(aps, indices[..], 0);
    for i := 0 to n
      invariant Permutation(aps, indices[..]) && Settled(aps, indices[..], i)
    {
      SortBounds(aps, indices[..], i);
      for j := i + 1 to n
        invariant Permutation(aps, indices[..]) && Settled(aps, indices[..], i) && Leads(aps, indices[..], i, j)
      {
        CompareExchange(aps, indices, i, j);
      }
      SortBounds(aps, indices[..], i);
    }
    SortBounds(aps, indices[..], n);
  }

  /** An earlier entry of s has the same SSID as the k-th. */
  predicate Repeated(aps: seq<AccessPoint>, s: seq<int>, k: nat)
    requires k < |s|
  {
    exists m :: 0 <= m < k && Ssid(aps, s[m]) == Ssid(aps, s[k])
  }

  /** s with every repetition replaced by -1. */
  function Deduplicated(aps: seq<AccessPoint>, s: seq<int>): (r: seq<int>)
    ensures |r| == |s|
    ensures forall k :: 0 <= k < |s| ==> r[k] == if Repeated(aps, s, k) then -1 else s[k]
  {
    seq(|s|, k requires 0 <= k < |s| => if Repeated(aps, s, k) then -1 else s[k])
  }

  /** Marks duplicates in place. An entry already marked has an empty SSID and is at most marked again. */
  method RemoveDuplicates(aps: seq<AccessPoint>, indices: array<int>)
    requires forall k :: 0 <= k < indices.Length ==> 0 <= indices[k] < |aps|
    modifies indices
    ensures indices[..] == Deduplicated(aps, old(indices[..]))
  {
    var n := indices.Length;
    ghost var s := indices[..];
    for i := 0 to n
      invariant forall k :: 0 <= k < n ==> indices[k] == if MarkedBy(aps, s, i, k) then -1 else s[k]
    {
      if indices[i] == -1 {
        assert MarkedBy(aps, s, i, i);
        forall k | 0 <= k < n
          ensures MarkedBy(aps, s, i + 1, k) <==> MarkedBy(aps, s, i, k)
        {
          MarkedTransitive(aps, s, i, k);
        }
        continue;
      }
      var cssid := Ssid(aps, indices[i]);
      assert indices[i] == s[i];
      for j := i + 1 to n
        invariant forall k :: 0 <= k < n ==>
          indices[k] == if MarkedBy(aps, s, if k < j then i + 1 else i, k) then -1 else s[k]
      {
        if cssid == Ssid(aps, indices[j]) {
          indices[j] := -1;
        }
      }
    }
    forall k | 0 <= k < n
      ensures MarkedBy(aps, s, n, k) <==> Repeated(aps, s, k)
    {
    }
  }

  /** One of the first i entries comes before the k-th and has its SSID. */
  predicate MarkedBy(aps: seq<AccessPoint>, s: seq<int>, i: nat, k: nat)
    requires i <= |s| && k < |s|
  {
    exists m :: 0 <= m < i && m < k && Ssid(aps, s[m]) == Ssid(aps, s[k])
  }

  /** An entry that is itself marked marks nothing new. */
  lemma MarkedTransitive(aps: seq<AccessPoint>, s: seq<int>, i: nat, k: nat)
    requires i < |s| && k < |s| && MarkedBy(aps, s, i, i)
    ensures MarkedBy(aps, s, i + 1, k) <==> MarkedBy(aps, s, i, k)
  {
    var m :| 0 <= m < i && Ssid(aps, s[m]) == Ssid(aps, s[i]);
  }

  predicate Displayable(aps: seq<AccessPoint>, minimum: int, x: int) {
    0 <= x < |aps| && Passes(aps[x], minimum) && aps[x].ssid != ""
  }

  /** The displayable entries of s, in order. */
  function Display(aps: seq<AccessPoint>, minimum: int, s: seq<int>): seq<int> {
    if s == [] then []
    else Display(aps, minimum, s[..|s| - 1]) + (if Displayable(aps, minimum, s[|s| - 1]) then [s[|s| - 1]] else [])
  }

  /** The display loop: marked entries, weak networks and empty SSIDs are passed over. */
  method DisplayItems(aps: seq<AccessPoint>, minimum: int, indices: array<int>) returns (shown: seq<int>)
    requires forall k :: 0 <= k < indices.Length ==> -1 <= indices[k] < |aps|
    ensures shown == Display(aps, minimum, indices[..])
  {
    shown := [];
    ghost var s := indices[..];
    for i := 0 to indices.Length
      invariant shown == Display(aps, minimum, s[..i])
    {
      assert s[..i + 1][..i] == s[..i];
      if indices[i] == -1 {
        continue;
      }
      var rssiperc := Quality(aps[indices[i]].rssi);
      if minimum == ANY_QUALITY || minimum < rssiperc {
        if aps[indices[i]].ssid == "" {
          continue;
        }
        shown := shown + [indices[i]];
      }
    }
    assert s[..|s|] == s;
  }

  /** `getScanItemOut`: the networks shown, in order. */
  method ScanItems(aps: seq<AccessPoint>, removeDuplicates: bool, minimum: int) returns (shown: seq<int>)
    ensures Falling(aps, shown)
    ensures forall k :: 0 <= k < |shown| ==>
      0 <= shown[k] < |aps| && aps[shown[k]].ssid != "" && (minimum == -1 || Quality(aps[shown[k]].rssi) > minimum)
    ensures forall k, l :: 0 <= k < l < |shown| ==> shown[k] != shown[l]
    ensures !removeDuplicates ==>
      forall x | 0 <= x < |aps| && aps[x].ssid != "" && (minimum == -1 || Quality(aps[x].rssi) > minimum) :: x in shown
    ensures removeDuplicates ==> ShownOnce(aps, minimum, shown)
  {
    var n := |aps|;
    var indices := new int[n](i => i);
    IdentityIsPermutation(aps, indices[..]);
    SortByRssi(aps, indices);
    ghost var sorted := indices[..];
    if removeDuplicates {
      RemoveDuplicates(aps, indices);
    }
    ghost var s := indices[..];
    shown := DisplayItems(aps, minimum, indices);
    DisplayKeepsOrder(aps, minimum, s, sorted);
    if removeDuplicates {
      DeduplicatedShowsOnce(aps, minimum, sorted);
    }
  }

  /**
   A non-empty SSID is shown exactly when one of its networks passes the filter, once, and by its strongest network.
   */
  ghost predicate ShownOnce(aps: seq<AccessPoint>, minimum: int, shown: seq<int>) {
    && (forall k, l :: 0 <= k < l < |shown| ==> Ssid(aps, shown[k]) != Ssid(aps, shown[l]))
    && (forall x :: Displayable(aps, minimum, x) ==> exists k :: 0 <= k < |shown| && Ssid(aps, shown[k]) == aps[x].ssid)
    && (forall k, x :: 0 <= k < |shown| && 0 <= x < |aps| && aps[x].ssid == Ssid(aps, shown[k]) ==>
          0 <= shown[k] < |aps| && aps[x].rssi <= aps[shown[k]].rssi)
  }

  /** Each entry of `s` is the one of `sorted` at the same place, or -1. */
  ghost predicate Masked(s: seq<int>, sorted: seq<int>) {
    |s| == |sorted| && forall k :: 0 <= k < |s| ==> s[k] == sorted[k] || s[k] == -1
  }

  /** Where an entry of the display comes from. */
  lemma {:induction false} DisplayFrom(aps: seq<AccessPoint>, minimum: int, s: seq<int>) returns (at: seq<nat>)
    ensures |at| == |Display(aps, minimum, s)|
    ensures forall k :: 0 <= k < |at| ==> at[k] < |s| && s[at[k]] == Display(aps, minimum, s)[k]
    ensures forall k :: 0 <= k < |at| ==> Displayable(aps, minimum, s[at[k]])
    ensures forall k, l :: 0 <= k < l < |at| ==> at[k] < at[l]
    ensures forall m :: 0 <= m < |s| && Displayable(aps, minimum, s[m]) ==> m in at
  {
    if s == [] {
      at := [];
    } else {
      var last := |s| - 1;
      var before := DisplayFrom(aps, minimum, s[..last]);
      at := before + (if Displayable(aps, minimum, s[last]) then [last] else []);
      forall m | 0 <= m < |s| && Displayable(aps, minimum, s[m])
        ensures m in at
      {
        if m < last {
          assert s[..last][m] == s[m] && m in before;
        } else {
          assert at[|at| - 1] == m;
        }
      }
    }
  }

  lemma DisplayKeepsOrder(aps: seq<AccessPoint>, minimum: int, s: seq<int>, sorted: seq<int>)
    requires Permutation(aps, sorted) && Falling(aps, sorted) && Masked(s, sorted)
    ensures var shown := Display(aps, minimum, s);
      && Falling(aps, shown)
      && (forall k :: 0 <= k < |shown| ==> Displayable(aps, minimum, shown[k]))
      && (forall k, l :: 0 <= k < l < |shown| ==> shown[k] != shown[l])
      && (s == sorted ==> forall x :: Displayable(aps, minimum, x) ==> x in shown)
  {
    var shown := Display(aps, minimum, s);
    var at := DisplayFrom(aps, minimum, s);
    forall k | 0 <= k < |shown|
      ensures Displayable(aps, minimum, shown[k]) && shown[k] == sorted[at[k]]
    {
    }
    if s == sorted {
      forall x | Displayable(aps, minimum, x)
        ensures x in shown
      {
        assert x in sorted;
        var m :| 0 <= m < |sorted| && sorted[m] == x;
        var k :| 0 <= k < |at| && at[k] == m;
        assert shown[k] == x;
      }
    }
  }

  /** The first entry of s with the SSID of the m-th. */
  lemma {:induction false} First(aps: seq<AccessPoint>, s: seq<int>, m: nat) returns (f: nat)
    requires m < |s|
    ensures f <= m && Ssid(aps, s[f]) == Ssid(aps, s[m]) && !Repeated(aps, s, f)
  {
    if Repeated(aps, s, m) {
      var e :| 0 <= e < m && Ssid(aps, s[e]) == Ssid(aps, s[m]);
      f := First(aps, s, e);
    } else {
      f := m;
    }
  }

  /** Entries at `at` of the list without repetitions are those of the list, and are its first for their SSID. */
  lemma KeptIsFirst(aps: seq<AccessPoint>, minimum: int, sorted: seq<int>, m: nat)
    requires m < |sorted| && Displayable(aps, minimum, Deduplicated(aps, sorted)[m])
    ensures Deduplicated(aps, sorted)[m] == sorted[m] && !Repeated(aps, sorted, m)
  {
  }

  lemma PassingIsKept(aps: seq<AccessPoint>, minimum: int, sorted: seq<int>, x: int) returns (f: nat)
    requires Permutation(aps, sorted) && Falling(aps, sorted) && Displayable(aps, minimum, x)
    ensures f < |sorted| && Ssid(aps, sorted[f]) == aps[x].ssid
    ensures Displayable(aps, minimum, Deduplicated(aps, sorted)[f]) && Deduplicated(aps, sorted)[f] == sorted[f]
  {
    assert x in sorted;
    var m :| 0 <= m < |sorted| && sorted[m] == x;
    f := First(aps, sorted, m);
    assert aps[sorted[f]].rssi >= aps[x].rssi;
    QualityMonotone(aps[x].rssi, aps[sorted[f]].rssi);
  }

  lemma FirstIsStrongest(aps: seq<AccessPoint>, sorted: seq<int>, m: nat, x: int)
    requires Permutation(aps, sorted) && Falling(aps, sorted) && m < |sorted| && !Repeated(aps, sorted, m)
    requires 0 <= x < |aps| && aps[x].ssid == Ssid(aps, sorted[m])
    ensures aps[x].rssi <= aps[sorted[m]].rssi
  {
    assert x in sorted;
    var l :| 0 <= l < |sorted| && sorted[l] == x;
    assert Ssid(aps, sorted[l]) == Ssid(aps, sorted[m]);
  }

  /** Filtering the sorted list without its repetitions shows every passing SSID once, by a strongest entry. */
  lemma DeduplicatedShowsOnce(aps: seq<AccessPoint>, minimum: int, sorted: seq<int>)
    requires Permutation(aps, sorted) && Falling(aps, sorted)
    ensures ShownOnce(aps, minimum, Display(aps, minimum, Deduplicated(aps, sorted)))
  {
    hide Quality, Display, Passes;
    var s := Deduplicated(aps, sorted);
    var shown := Display(aps, minimum, s);
    var at := DisplayFrom(aps, minimum, s);
    forall k | 0 <= k < |shown|
      ensures shown[k] == sorted[at[k]] && !Repeated(aps, sorted, at[k])
    {
      assert s[at[k]] == shown[k];
      KeptIsFirst(aps, minimum, sorted, at[k]);
    }
    hide Deduplicated, Displayable;
    forall x | Displayable(aps, minimum, x)
      ensures exists k :: 0 <= k < |shown| && Ssid(aps, shown[k]) == aps[x].ssid
    {
      var f := PassingIsKept(aps, minimum, sorted, x);
      assert Displayable(aps, minimum, s[f]);
      var k :| 0 <= k < |at| && at[k] == f;
      assert Ssid(aps, shown[k]) == aps[x].ssid;
    }
    forall k, x | 0 <= k < |shown| && 0 <= x < |aps| && aps[x].ssid == Ssid(aps, shown[k])
      ensures 0 <= shown[k] < |aps| && aps[x].rssi <= aps[shown[k]].rssi
    {
      FirstIsStrongest(aps, sorted, at[k], x);
    }
    forall k, l | 0 <= k < l < |shown|
      ensures Ssid(aps, shown[k]) != Ssid(aps, shown[l])
    {
      assert at[k] < at[l];
    }
  }
}
