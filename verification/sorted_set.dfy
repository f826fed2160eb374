/**
 A Redis sorted set: entries in ascending order of score, ties broken by the bytes of the member.
 Only the commands the feed cache uses are here: ZADD, ZREM, ZREMRANGEBYRANK and ZREVRANGE.
 */
module SortedSets {
  import opened Common

  type Member = string

  datatype Entry = Entry(member: Member, score: real)

  type ZSet = seq<Entry>

  // ---------- the order ----------

  predicate LexLess(a: string, b: string) {
    b != "" && (a == "" || a[0] < b[0] || (a[0] == b[0] && LexLess(a[1..], b[1..])))
  }

  predicate Below(a: Entry, b: Entry) {
    a.score < b.score || (a.score == b.score && LexLess(a.member, b.member))
  }

  lemma {:induction false} LexTransitive(a: string, b: string, c: string)
    requires LexLess(a, b) && LexLess(b, c)
    ensures LexLess(a, c)
  {
    if a != "" && a[0] == b[0] == c[0] {
      LexTransitive(a[1..], b[1..], c[1..]);
    }
  }

  lemma {:induction false} LexTotal(a: string, b: string)
    ensures LexLess(a, b) || LexLess(b, a) || a == b
    ensures !(LexLess(a, b) && LexLess(b, a)) && !LexLess(a, a)
  {
    if a != "" {
      LexTotal(a[1..], a[1..]);
      if b != "" && a[0] == b[0] {
        LexTotal(a[1..], b[1..]);
        assert a == [a[0]] + a[1..] && b == [b[0]] + b[1..];
      }
    }
  }

  /** Lower is what is a proper beginning of the other, or has the smaller character where the two first differ. */
  lemma {:induction false} LexLessExactly(a: string, b: string)
    ensures LexLess(a, b) <==>
            exists k :: 0 <= k <= |a| && k < |b| && a[..k] == b[..k] && (k == |a| || a[k] < b[k])
  {
    if a == "" {
      if b != "" { assert a[..0] == b[..0]; }
    } else if b != "" && a[0] == b[0] {
      LexLessExactly(a[1..], b[1..]);
      if k :| 0 <= k <= |a[1..]| && k < |b[1..]| && a[1..][..k] == b[1..][..k] && (k == |a[1..]| || a[1..][k] < b[1..][k]) {
        assert a[..k + 1] == [a[0]] + a[1..][..k] && b[..k + 1] == [b[0]] + b[1..][..k];
        assert k + 1 == |a| || a[k + 1] < b[k + 1];
      }
      if k :| 0 <= k <= |a| && k < |b| && a[..k] == b[..k] && (k == |a| || a[k] < b[k]) {
        assert k > 0;
        assert a[1..][..k - 1] == a[..k][1..] && b[1..][..k - 1] == b[..k][1..];
        assert k - 1 == |a[1..]| || a[1..][k - 1] < b[1..][k - 1];
      }
    } else if b != "" {
      if a[0] < b[0] { assert a[..0] == b[..0]; }
      forall k | 0 < k <= |a| && k < |b| ensures a[..k] != b[..k] {
        assert a[..k][0] == a[0] && b[..k][0] == b[0];
      }
    }
  }

  lemma BelowTransitive(a: Entry, b: Entry, c: Entry)
    requires Below(a, b) && Below(b, c)
    ensures Below(a, c)
  {
    if a.score == b.score == c.score {
      LexTransitive(a.member, b.member, c.member);
    }
  }

  lemma BelowTotal(a: Entry, b: Entry)
    ensures a == b || Below(a, b) || Below(b, a)
    ensures !(Below(a, b) && Below(b, a)) && !Below(a, a)
  {
    LexTotal(a.member, b.member);
    LexTotal(a.member, a.member);
  }

  // ---------- well-formed sorted sets ----------

  predicate Sorted(z: ZSet) {
    forall i, j | 0 <= i < j < |z| :: Below(z[i], z[j])
  }

  predicate DistinctMembers(z: ZSet) {
    forall i, j | 0 <= i < j < |z| :: z[i].member != z[j].member
  }

  predicate WellFormed(z: ZSet) {
    Sorted(z) && DistinctMembers(z)
  }

  predicate Has(z: ZSet, x: Member) {
    exists i | 0 <= i < |z| :: z[i].member == x
  }

  // ---------- commands ----------

  /** ZREM of every member that `drop` selects. */
  function Filter(z: ZSet, drop: Member -> bool): ZSet {
    if z == [] then []
    else (if drop(z[0].member) then [] else [z[0]]) + Filter(z[1..], drop)
  }

  function Insert(z: ZSet, e: Entry): ZSet {
    if z == [] then [e]
    else if Below(e, z[0]) then [e] + z
    else [z[0]] + Insert(z[1..], e)
  }

  /** ZADD of one member: an existing member moves to its new score. */
  function ZAdd(z: ZSet, e: Entry): ZSet {
    Insert(Filter(z, m => m == e.member), e)
  }

  /** Redis turns a negative index into one counted from the end. */
  function FromEnd(index: int, n: nat): int {
    if index < 0 then index + n else index
  }

  /** The slice [start, stop] that a rank range denotes, after Redis has clipped it. */
  function RankLow(n: nat, start: int): nat {
    Max(0, FromEnd(start, n))
  }

  function RankHigh(n: nat, start: int, stop: int): (hi: nat)
    ensures hi <= n
    ensures RankLow(n, start) <= hi || hi == 0
  {
    var lo, last := RankLow(n, start), FromEnd(stop, n);
    if lo > last || lo >= n then 0 else Min(last, n - 1) + 1
  }

  function ZRemRangeByRank(z: ZSet, start: int, stop: int): ZSet {
    var lo, hi := RankLow(|z|, start), RankHigh(|z|, start, stop);
    if lo < hi then z[..lo] + z[hi..] else z
  }

  function Reverse(z: ZSet): (r: ZSet)
    ensures |r| == |z|
    ensures forall i | 0 <= i < |z| :: r[i] == z[|z| - 1 - i]
  {
    if z == [] then [] else Reverse(z[1..]) + [z[0]]
  }

  function ZRevRange(z: ZSet, start: int, stop: int): ZSet {
    var lo, hi := RankLow(|z|, start), RankHigh(|z|, start, stop);
    if lo < hi then Reverse(z)[lo..hi] else []
  }

  // ---------- what the commands do ----------

  /** ZREMRANGEBYRANK key 0 -(k + 1) leaves the k highest entries. */
  lemma RemoveLowestLeavesTop(z: ZSet, k: nat)
    ensures ZRemRangeByRank(z, 0, -(k + 1)) == if |z| <= k then z else z[|z| - k..]
  {
  }

  /** ZREVRANGE key 0 (limit - 1) takes limit entries from the top; a limit below one counts from the far end instead. */
  lemma RevRangeTakesFromTop(z: ZSet, limit: int)
    ensures ZRevRange(z, 0, limit - 1) ==
            Reverse(z)[..if limit >= 1 then Min(limit, |z|) else Max(0, |z| + limit)]
  {
  }

  lemma {:induction false} FilterElements(z: ZSet, drop: Member -> bool)
    ensures forall e :: e in Filter(z, drop) <==> e in z && !drop(e.member)
    ensures |Filter(z, drop)| <= |z|
    ensures (forall e | e in z :: !drop(e.member)) ==> Filter(z, drop) == z
  {
    if z != [] {
      FilterElements(z[1..], drop);
      assert z == [z[0]] + z[1..];
    }
  }

  lemma {:induction false} FilterWellFormed(z: ZSet, drop: Member -> bool)
    requires WellFormed(z)
    ensures WellFormed(Filter(z, drop))
  {
    if z != [] {
      var rest := Filter(z[1..], drop);
      FilterWellFormed(z[1..], drop);
      forall j | 0 <= j < |rest| ensures Below(z[0], rest[j]) && z[0].member != rest[j].member {
        FilterElements(z[1..], drop);
        assert rest[j] in z[1..];
      }
    }
  }

  /** Dropping one member of a well-formed set takes away exactly its one entry. */
  lemma {:induction false} FilterOne(z: ZSet, x: Member)
    requires WellFormed(z)
    ensures |Filter(z, m => m == x)| == |z| - (if Has(z, x) then 1 else 0)
  {
    if z != [] {
      FilterElements(z[1..], m => m == x);
      if z[0].member == x {
        forall e | e in z[1..] ensures e.member != x {}
        assert Filter(z[1..], m => m == x) == z[1..];
      } else {
        FilterOne(z[1..], x);
        assert Has(z, x) <==> Has(z[1..], x) by {
          assert forall i | 1 <= i < |z| :: z[i] == z[1..][i - 1];
          assert forall i | 0 <= i < |z[1..]| :: z[1..][i] == z[i + 1];
        }
      }
    }
  }

  lemma {:induction false} InsertElements(z: ZSet, e: Entry)
    ensures |Insert(z, e)| == |z| + 1
    ensures forall f :: f in Insert(z, e) <==> f in z || f == e
  {
    if z != [] {
      assert z == [z[0]] + z[1..];
      InsertElements(z[1..], e);
    }
  }

  lemma {:induction false} InsertWellFormed(z: ZSet, e: Entry)
    requires WellFormed(z) && !Has(z, e.member)
    ensures WellFormed(Insert(z, e))
  {
    if z == [] {
    } else if Below(e, z[0]) {
      forall j | 0 < j < |z| ensures Below(e, z[j]) {
        BelowTransitive(e, z[0], z[j]);
      }
    } else {
      BelowTotal(e, z[0]);
      assert forall i | 0 <= i < |z[1..]| :: z[1..][i] == z[i + 1];
      InsertWellFormed(z[1..], e);
      InsertElements(z[1..], e);
      var rest := Insert(z[1..], e);
      forall j | 0 <= j < |rest| ensures Below(z[0], rest[j]) && z[0].member != rest[j].member {
        assert rest[j] in rest;
      }
    }
  }

  /** ZADD leaves a well-formed set that holds `e` and every entry of another member. */
  lemma ZAddElements(z: ZSet, e: Entry)
    requires WellFormed(z)
    ensures WellFormed(ZAdd(z, e))
    ensures forall f :: f in ZAdd(z, e) <==> f == e || (f in z && f.member != e.member)
    ensures |ZAdd(z, e)| == |z| + (if Has(z, e.member) then 0 else 1)
  {
    var kept := Filter(z, m => m == e.member);
    FilterElements(z, m => m == e.member);
    FilterWellFormed(z, m => m == e.member);
    FilterOne(z, e.member);
    assert !Has(kept, e.member) by {
      forall i | 0 <= i < |kept| ensures kept[i].member != e.member { assert kept[i] in kept; }
    }
    InsertElements(kept, e);
    InsertWellFormed(kept, e);
  }

  lemma HasEntry(z: ZSet, x: Member)
    ensures Has(z, x) <==> exists e | e in z :: e.member == x
  {
  }

  /** A well-formed set is determined by its entries. */
  lemma {:induction false} SameEntries(y: ZSet, z: ZSet)
    requires WellFormed(y) && WellFormed(z)
    requires forall e :: e in y <==> e in z
    ensures y == z
  {
    LowestIsEntry(y);
    LowestIsEntry(z);
    if y != [] {
      LowestEntry(y, z);
      forall e ensures e in y[1..] <==> e in z[1..] {
        TailEntries(y, e);
        TailEntries(z, e);
      }
      SameEntries(y[1..], z[1..]);
      assert y == [y[0]] + y[1..] && z == [z[0]] + z[1..];
    }
  }

  lemma LowestIsEntry(z: ZSet)
    ensures z == [] || z[0] in z
  {}

  lemma TailEntries(z: ZSet, e: Entry)
    requires WellFormed(z) && z != []
    ensures e in z[1..] <==> e in z && e != z[0]
  {
  }

  lemma LowestEntry(y: ZSet, z: ZSet)
    requires WellFormed(y) && WellFormed(z) && y != [] && z != []
    requires forall e :: e in y <==> e in z
    ensures y[0] == z[0]
  {
    assert y[0] in y && z[0] in z;
    var i :| 0 <= i < |z| && z[i] == y[0];
    var j :| 0 <= j < |y| && y[j] == z[0];
    BelowTotal(y[0], z[0]);
  }
}
