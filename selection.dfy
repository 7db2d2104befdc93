/** The selection pipeline shared by the `lookup` and `route` commands: drop the
    zero-jump artifacts of a search, order the rest by jump count with a stable
    sort (Python's `sorted` with a key), and take the first record. */
module Selection {
  import opened Wormholes

  /** A record the directory reports as zero jumps from the searched system
      although its destination is another system (the directory says zero
      jumps for wormhole space). Names are compared case-insensitively. */
  predicate IsArtifact(r: Connection, searchName: string) {
    r.jumps == 0 && Lower(r.destName) != Lower(searchName)
  }

  /** The list comprehension that discards artifacts, in payload order. */
  function DropArtifacts(rs: seq<Connection>, searchName: string): (kept: seq<Connection>)
    ensures |kept| <= |rs|
    ensures forall r :: r in kept <==> r in rs && !IsArtifact(r, searchName)
  {
    if rs == [] then []
    else (if IsArtifact(rs[0], searchName) then [] else [rs[0]]) + DropArtifacts(rs[1..], searchName)
  }

  /** `a` is `b` with some elements removed and the rest in their order. */
  predicate IsSubsequence(a: seq<Connection>, b: seq<Connection>)
    decreases |b|
  {
    if a == [] then true
    else if b == [] then false
    else (a[0] == b[0] && IsSubsequence(a[1..], b[1..])) || IsSubsequence(a, b[1..])
  }

  /** The filter keeps the payload's order. */
  lemma {:induction false} DropArtifactsIsSubsequence(rs: seq<Connection>, searchName: string)
    ensures IsSubsequence(DropArtifacts(rs, searchName), rs)
  {
    if rs != [] {
      DropArtifactsIsSubsequence(rs[1..], searchName);
      var kept := DropArtifacts(rs, searchName);
      if IsArtifact(rs[0], searchName) {
        assert kept == DropArtifacts(rs[1..], searchName);
      } else {
        assert kept[0] == rs[0] && kept[1..] == DropArtifacts(rs[1..], searchName);
      }
    }
  }

  /** A list without artifacts passes the filter unchanged. */
  lemma {:induction false} DropArtifactsOfClean(rs: seq<Connection>, searchName: string)
    requires forall r :: r in rs ==> !IsArtifact(r, searchName)
    ensures DropArtifacts(rs, searchName) == rs
  {
    if rs != [] {
      assert rs[0] in rs;
      assert forall r :: r in rs[1..] ==> r in rs;
      DropArtifactsOfClean(rs[1..], searchName);
      assert [rs[0]] + rs[1..] == rs;
    }
  }

  /** Filtering twice with the same search name is filtering once. */
  lemma DropArtifactsIdempotent(rs: seq<Connection>, searchName: string)
    ensures DropArtifacts(DropArtifacts(rs, searchName), searchName) == DropArtifacts(rs, searchName)
  {
    DropArtifactsOfClean(DropArtifacts(rs, searchName), searchName);
  }

  /** A record whose destination is the searched system, up to case, is never
      dropped, whatever its jump count. */
  lemma DropArtifactsKeepsTarget(rs: seq<Connection>, searchName: string, r: Connection)
    requires r in rs && Lower(r.destName) == Lower(searchName)
    ensures r in DropArtifacts(rs, searchName)
  {
  }

  /** Searching with any case variant of the name gives the same filtered list. */
  lemma {:induction false} DropArtifactsCaseInsensitive(rs: seq<Connection>, name1: string, name2: string)
    requires Lower(name1) == Lower(name2)
    ensures DropArtifacts(rs, name1) == DropArtifacts(rs, name2)
  {
    if rs != [] {
      DropArtifactsCaseInsensitive(rs[1..], name1, name2);
    }
  }

  predicate SortedByJumps(s: seq<Connection>) {
    forall i, j :: 0 <= i < j < |s| ==> s[i].jumps <= s[j].jumps
  }

  /** The records of `s` with exactly `k` jumps, in the order of `s`. */
  function WithJumps(s: seq<Connection>, k: nat): (t: seq<Connection>)
    ensures forall r :: r in t ==> r in s && r.jumps == k
  {
    if s == [] then []
    else (if s[0].jumps == k then [s[0]] else []) + WithJumps(s[1..], k)
  }

  /** Inserts `x` before the first record with at least as many jumps, which
      places it ahead of the records it preceded in the payload. */
  function Insert(x: Connection, s: seq<Connection>): (r: seq<Connection>)
    ensures |r| == |s| + 1
    ensures multiset(r) == multiset(s) + multiset{x}
    ensures r[0] == x || (s != [] && r[0] == s[0])
  {
    if s == [] || x.jumps <= s[0].jumps then [x] + s
    else
      assert s == [s[0]] + s[1..];
      [s[0]] + Insert(x, s[1..])
  }

  /** A stable sort by jump count (insertion sort from the back). */
  function SortByJumps(s: seq<Connection>): (sorted: seq<Connection>)
    ensures |sorted| == |s|
    ensures multiset(sorted) == multiset(s)
    ensures SortedByJumps(sorted)
  {
    if s == [] then []
    else
      assert s == [s[0]] + s[1..];
      InsertKeepsSorted(s[0], SortByJumps(s[1..]));
      Insert(s[0], SortByJumps(s[1..]))
  }

  lemma {:induction false} InsertKeepsSorted(x: Connection, s: seq<Connection>)
    requires SortedByJumps(s)
    ensures SortedByJumps(Insert(x, s))
  {
    if s != [] && x.jumps > s[0].jumps {
      var t := Insert(x, s[1..]);
      InsertKeepsSorted(x, s[1..]);
      assert t[0].jumps >= s[0].jumps;
      var r := [s[0]] + t;
      forall i, j | 0 <= i < j < |r| ensures r[i].jumps <= r[j].jumps {
        if i == 0 {
          assert r[j] == t[j - 1] && t[0].jumps <= t[j - 1].jumps;
        } else {
          assert r[i] == t[i - 1] && r[j] == t[j - 1];
        }
      }
    }
  }

  lemma WithJumpsCons(r: Connection, s: seq<Connection>, k: nat)
    ensures WithJumps([r] + s, k) == (if r.jumps == k then [r] else []) + WithJumps(s, k)
  {
    assert ([r] + s)[1..] == s;
  }

  lemma {:induction false} WithJumpsInsert(x: Connection, s: seq<Connection>, k: nat)
    ensures WithJumps(Insert(x, s), k) == (if x.jumps == k then [x] else []) + WithJumps(s, k)
  {
    if s == [] || x.jumps <= s[0].jumps {
      assert Insert(x, s) == [x] + s;
      WithJumpsCons(x, s, k);
    } else {
      var rest := Insert(x, s[1..]);
      assert Insert(x, s) == [s[0]] + rest;
      WithJumpsInsert(x, s[1..], k);
      WithJumpsCons(s[0], rest, k);
      assert WithJumps(s, k) == (if s[0].jumps == k then [s[0]] else []) + WithJumps(s[1..], k);
      if s[0].jumps == k {
        assert x.jumps != k;
        assert WithJumps(rest, k) == WithJumps(s[1..], k);
      } else {
        assert WithJumps(s, k) == WithJumps(s[1..], k);
        assert WithJumps(Insert(x, s), k) == WithJumps(rest, k);
      }
    }
  }

  /** Stability: for every jump count, the records with that count appear in
      the sorted list in their payload order. */
  lemma {:induction false} SortByJumpsIsStable(s: seq<Connection>, k: nat)
    ensures WithJumps(SortByJumps(s), k) == WithJumps(s, k)
  {
    if s != [] {
      SortByJumpsIsStable(s[1..], k);
      WithJumpsInsert(s[0], SortByJumps(s[1..]), k);
    }
  }

  /** A list already in jump order is left as it is. */
  lemma {:induction false} SortByJumpsOfSorted(s: seq<Connection>)
    requires SortedByJumps(s)
    ensures SortByJumps(s) == s
  {
    if s != [] {
      SortByJumpsOfSorted(s[1..]);
      assert [s[0]] + s[1..] == s;
    }
  }

  /** A stable sort by jump count is unique: any ordering of `s` by jump count
      that keeps each jump count's records in payload order is SortByJumps(s). */
  lemma SortByJumpsUnique(s: seq<Connection>, t: seq<Connection>)
    requires SortedByJumps(t)
    requires forall k :: WithJumps(t, k) == WithJumps(s, k)
    ensures t == SortByJumps(s)
  {
    var u := SortByJumps(s);
    forall k ensures WithJumps(u, k) == WithJumps(t, k) {
      SortByJumpsIsStable(s, k);
    }
    SortedWithSameGroupsEqual(u, t);
  }

  lemma {:induction false} SortedWithSameGroupsEqual(u: seq<Connection>, t: seq<Connection>)
    requires SortedByJumps(u) && SortedByJumps(t)
    requires forall k :: WithJumps(u, k) == WithJumps(t, k)
    ensures u == t
    decreases |u| + |t|
  {
    if u != [] || t != [] {
      SameHeads(u, t);
      TailsSameGroups(u, t);
      SortedWithSameGroupsEqual(u[1..], t[1..]);
      assert u == [u[0]] + u[1..] && t == [t[0]] + t[1..];
    }
  }

  /** Two sorted lists with the same jump-count groups, one of them non-empty,
      are both non-empty and start with the same record. */
  lemma SameHeads(u: seq<Connection>, t: seq<Connection>)
    requires SortedByJumps(u) && SortedByJumps(t)
    requires forall k :: WithJumps(u, k) == WithJumps(t, k)
    requires u != [] || t != []
    ensures u != [] && t != [] && u[0] == t[0]
  {
    if t != [] {
      HeadGroup(t);
      assert WithJumps(u, t[0].jumps) != [];
    }
    if u != [] {
      HeadGroup(u);
      assert WithJumps(t, u[0].jumps) != [];
    }
    var m := u[0].jumps;
    assert t[0].jumps == m;
    assert WithJumps(u, m)[0] == u[0] && WithJumps(t, m)[0] == t[0];
  }

  /** Removing the same head from two lists with the same jump-count groups
      leaves tails with the same groups. */
  lemma TailsSameGroups(u: seq<Connection>, t: seq<Connection>)
    requires u != [] && t != [] && u[0] == t[0]
    requires forall k :: WithJumps(u, k) == WithJumps(t, k)
    ensures forall k :: WithJumps(u[1..], k) == WithJumps(t[1..], k)
  {
    forall k ensures WithJumps(u[1..], k) == WithJumps(t[1..], k) {
      var head := if u[0].jumps == k then [u[0]] else [];
      assert WithJumps(u, k) == head + WithJumps(u[1..], k);
      assert WithJumps(t, k) == head + WithJumps(t[1..], k);
      assert (head + WithJumps(u[1..], k))[|head|..] == WithJumps(u[1..], k);
      assert (head + WithJumps(t[1..], k))[|head|..] == WithJumps(t[1..], k);
    }
  }

  /** In a non-empty sorted list the head's jump count is present, and it is
      the smallest jump count present. */
  lemma HeadGroup(s: seq<Connection>)
    requires SortedByJumps(s) && s != []
    ensures WithJumps(s, s[0].jumps) != []
    ensures forall k :: WithJumps(s, k) != [] ==> s[0].jumps <= k
  {
    forall k | WithJumps(s, k) != [] ensures s[0].jumps <= k {
      var r := WithJumps(s, k)[0];
      assert r in WithJumps(s, k);
      var i :| 0 <= i < |s| && s[i] == r;
      assert i == 0 || s[0].jumps <= s[i].jumps;
    }
  }

  /** Index `i` holds a record with the fewest jumps in `s`, and no earlier
      record has that few: the earliest-in-payload minimum. */
  predicate IsClosestAt(s: seq<Connection>, i: int) {
    0 <= i < |s|
    && (forall j :: 0 <= j < |s| ==> s[i].jumps <= s[j].jumps)
    && (forall j :: 0 <= j < i ==> s[j].jumps > s[i].jumps)
  }

  /** A linear scan for the earliest record with the fewest jumps; the
      reference the sort-then-take-first selection is measured against. */
  function ClosestIndex(s: seq<Connection>): (i: nat)
    requires s != []
    ensures IsClosestAt(s, i)
  {
    if |s| == 1 then 0
    else
      var i := ClosestIndex(s[1..]);
      if s[0].jumps <= s[1 + i].jumps then 0 else 1 + i
  }

  /** The head of the stably sorted list is the earliest record with the fewest
      jumps, which sits at ClosestIndex. */
  lemma {:induction false} SortedHeadIsClosest(s: seq<Connection>)
    requires s != []
    ensures SortByJumps(s)[0] == s[ClosestIndex(s)]
  {
    var rest := SortByJumps(s[1..]);
    if |s| > 1 {
      SortedHeadIsClosest(s[1..]);
      var i := ClosestIndex(s[1..]);
      assert rest[0] == s[1..][i];
    }
  }

  /** The earliest record with the fewest jumps is unique. */
  lemma ClosestAtUnique(s: seq<Connection>, i: int, j: int)
    requires IsClosestAt(s, i) && IsClosestAt(s, j)
    ensures i == j
  {
    assert s[i].jumps == s[j].jumps;
  }

  /** The artifact-free list sorted by jumps, as `lookup` and `route` build it
      in thera.py before indexing it. */
  function Candidates(payload: seq<Connection>, searchName: string): (sorted: seq<Connection>)
    ensures multiset(sorted) == multiset(DropArtifacts(payload, searchName))
    ensures SortedByJumps(sorted)
    ensures forall r :: r in sorted ==> r in payload && !IsArtifact(r, searchName)
  {
    var sorted := SortByJumps(DropArtifacts(payload, searchName));
    assert forall r :: r in sorted ==> r in multiset(sorted);
    sorted
  }

  /** Running the filter-then-sort pipeline on its own output changes nothing. */
  lemma CandidatesIdempotent(payload: seq<Connection>, searchName: string)
    ensures Candidates(Candidates(payload, searchName), searchName) == Candidates(payload, searchName)
  {
    var c := Candidates(payload, searchName);
    DropArtifactsOfClean(c, searchName);
    SortByJumpsOfSorted(c);
  }

  /** The first record of the sorted candidates, as `lookup` and `route` take
      it in thera.py; None stands for the IndexError Python raises when the
      list is empty. */
  function Closest(payload: seq<Connection>, searchName: string): (r: Option<Connection>)
    ensures r.None? <==> DropArtifacts(payload, searchName) == []
    ensures r.Some? ==> var kept := DropArtifacts(payload, searchName);
      r.value == kept[ClosestIndex(kept)]
  {
    var kept := DropArtifacts(payload, searchName);
    var sorted := Candidates(payload, searchName);
    if sorted == [] then None
    else
      SortedHeadIsClosest(kept);
      Some(sorted[0])
  }

  /** What the closest record is, stated without the sort: a record of the
      payload that is not an artifact, has no more jumps than any record the
      filter keeps, and is the first such in the payload. */
  lemma ClosestIsEarliestMinimum(payload: seq<Connection>, searchName: string)
    requires Closest(payload, searchName).Some?
    ensures var c := Closest(payload, searchName).value;
      && c in payload && !IsArtifact(c, searchName)
      && (forall r :: r in DropArtifacts(payload, searchName) ==> c.jumps <= r.jumps)
      && (exists i :: IsClosestAt(DropArtifacts(payload, searchName), i)
                      && DropArtifacts(payload, searchName)[i] == c)
      && exists i :: 0 <= i < |payload| && payload[i] == c
           && forall j :: 0 <= j < i ==> IsArtifact(payload[j], searchName) || payload[j].jumps > c.jumps
  {
    EarliestInPayload(payload, searchName);
    var kept := DropArtifacts(payload, searchName);
    var i := ClosestIndex(kept);
    assert IsClosestAt(kept, i) && kept[i] == Closest(payload, searchName).value;
    assert kept[i] in kept;
    forall r | r in kept ensures kept[i].jumps <= r.jumps {
      var j :| 0 <= j < |kept| && kept[j] == r;
    }
  }

  /** A record the filter keeps sits at a payload index before which every
      record is an artifact or one of the records kept ahead of it. */
  lemma {:induction false} KeptPayloadIndex(payload: seq<Connection>, searchName: string, k: nat)
    returns (i: nat)
    requires k < |DropArtifacts(payload, searchName)|
    ensures i < |payload| && payload[i] == DropArtifacts(payload, searchName)[k]
    ensures OnlyArtifactsOrAmong(payload, i, searchName, DropArtifacts(payload, searchName)[..k])
  {
    if IsArtifact(payload[0], searchName) {
      var i' := KeptPayloadIndex(payload[1..], searchName, k);
      SkipArtifactStep(payload, searchName, k, i');
      i := i' + 1;
    } else if k == 0 {
      assert DropArtifacts(payload, searchName)[0] == payload[0];
      i := 0;
    } else {
      var i' := KeptPayloadIndex(payload[1..], searchName, k - 1);
      KeepRecordStep(payload, searchName, k, i');
      i := i' + 1;
    }
  }

  lemma SkipArtifactStep(payload: seq<Connection>, searchName: string, k: nat, i: nat)
    requires payload != [] && IsArtifact(payload[0], searchName)
    requires k < |DropArtifacts(payload[1..], searchName)|
    requires i < |payload[1..]| && payload[1..][i] == DropArtifacts(payload[1..], searchName)[k]
    requires OnlyArtifactsOrAmong(payload[1..], i, searchName, DropArtifacts(payload[1..], searchName)[..k])
    ensures k < |DropArtifacts(payload, searchName)|
    ensures payload[i + 1] == DropArtifacts(payload, searchName)[k]
    ensures OnlyArtifactsOrAmong(payload, i + 1, searchName, DropArtifacts(payload, searchName)[..k])
  {
    var rest := DropArtifacts(payload[1..], searchName);
    assert DropArtifacts(payload, searchName) == rest;
    ShiftOnlyArtifactsOrAmong(payload, i, searchName, rest[..k], rest[..k]);
  }

  lemma KeepRecordStep(payload: seq<Connection>, searchName: string, k: nat, i: nat)
    requires payload != [] && !IsArtifact(payload[0], searchName) && k > 0
    requires k - 1 < |DropArtifacts(payload[1..], searchName)|
    requires i < |payload[1..]| && payload[1..][i] == DropArtifacts(payload[1..], searchName)[k - 1]
    requires OnlyArtifactsOrAmong(payload[1..], i, searchName, DropArtifacts(payload[1..], searchName)[..k - 1])
    ensures k < |DropArtifacts(payload, searchName)|
    ensures payload[i + 1] == DropArtifacts(payload, searchName)[k]
    ensures OnlyArtifactsOrAmong(payload, i + 1, searchName, DropArtifacts(payload, searchName)[..k])
  {
    var rest := DropArtifacts(payload[1..], searchName);
    var kept := DropArtifacts(payload, searchName);
    assert kept == [payload[0]] + rest;
    ConsPrefix(payload[0], rest, k);
    assert payload[i + 1] == payload[1..][i];
    ShiftOnlyArtifactsOrAmong(payload, i, searchName, rest[..k - 1], kept[..k]);
  }

  lemma ConsPrefix(x: Connection, rest: seq<Connection>, k: nat)
    requires 0 < k <= |rest|
    ensures ([x] + rest)[k] == rest[k - 1]
    ensures ([x] + rest)[..k] == [x] + rest[..k - 1]
  {
  }

  /** Every record of `payload` before index `i` is an artifact or in `prefix`. */
  predicate OnlyArtifactsOrAmong(payload: seq<Connection>, i: nat, searchName: string, prefix: seq<Connection>)
    requires i <= |payload|
  {
    forall j :: 0 <= j < i ==> IsArtifact(payload[j], searchName) || payload[j] in prefix
  }

  lemma ShiftOnlyArtifactsOrAmong(payload: seq<Connection>, i: nat, searchName: string,
                                  prefix: seq<Connection>, wider: seq<Connection>)
    requires payload != [] && i < |payload[1..]|
    requires OnlyArtifactsOrAmong(payload[1..], i, searchName, prefix)
    requires (IsArtifact(payload[0], searchName) && wider == prefix) || wider == [payload[0]] + prefix
    ensures OnlyArtifactsOrAmong(payload, i + 1, searchName, wider)
  {
    forall j | 0 <= j < i + 1
      ensures IsArtifact(payload[j], searchName) || payload[j] in wider
    {
      if j > 0 {
        assert payload[j] == payload[1..][j - 1];
      }
    }
  }

  /** The earliest kept record with the fewest jumps sits at a payload index
      before which every record is an artifact or has more jumps. */
  lemma EarliestInPayload(payload: seq<Connection>, searchName: string)
    requires DropArtifacts(payload, searchName) != []
    ensures var kept := DropArtifacts(payload, searchName);
      var c := kept[ClosestIndex(kept)];
      exists i :: 0 <= i < |payload| && payload[i] == c
        && forall j :: 0 <= j < i ==> IsArtifact(payload[j], searchName) || payload[j].jumps > c.jumps
  {
    var kept := DropArtifacts(payload, searchName);
    var k := ClosestIndex(kept);
    var i := KeptPayloadIndex(payload, searchName, k);
    assert OnlyArtifactsOrAmong(payload, i, searchName, kept[..k]);
    forall j | 0 <= j < i && !IsArtifact(payload[j], searchName)
      ensures payload[j].jumps > kept[k].jumps
    {
      var m :| 0 <= m < k && kept[..k][m] == payload[j];
      assert kept[m] == payload[j];
    }
  }

  /** The filter keeps every copy of a non-artifact record and no copy of an
      artifact: together with the subsequence property this fixes its output. */
  lemma {:induction false} DropArtifactsCounts(rs: seq<Connection>, searchName: string)
    ensures forall r :: multiset(DropArtifacts(rs, searchName))[r]
                        == if IsArtifact(r, searchName) then 0 else multiset(rs)[r]
  {
    if rs != [] {
      DropArtifactsCounts(rs[1..], searchName);
      assert rs == [rs[0]] + rs[1..];
      assert multiset(rs) == multiset{rs[0]} + multiset(rs[1..]);
    }
  }
}
