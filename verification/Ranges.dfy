/**
 Sorted free-range lists, as kept by the physical allocator and the kernel heap:
 what set of addresses a list stands for, and the in-place array edits both share.
 */
module Ranges {
  import opened Wrappers
  import opened Units


  /** The half-open range [start, end). */
  datatype Region = Region(start: nat, end: nat)

  ghost predicate Covers(s: seq<Region>, a: int) {
    exists i :: 0 <= i < |s| && s[i].start <= a < s[i].end
  }

  /** Non-empty, sorted and never adjacent: each region is a maximal run. */
  ghost predicate Canonical(s: seq<Region>) {
    && (forall i :: 0 <= i < |s| ==> s[i].start < s[i].end)
    && (forall i, j :: 0 <= i < j < |s| ==> s[i].end < s[j].start)
  }

  ghost function Size(s: seq<Region>): int {
    if s == [] then 0 else Size(s[..|s| - 1]) + s[|s| - 1].end - s[|s| - 1].start
  }

  // ---------------------------------------------------------- concatenation

  lemma CoversJoin(s: seq<Region>, t: seq<Region>, a: int)
    ensures Covers(s + t, a) <==> Covers(s, a) || Covers(t, a)
  {
    var u := s + t;
    if Covers(u, a) {
      var i :| 0 <= i < |u| && u[i].start <= a < u[i].end;
      assert if i < |s| then s[i] == u[i] else t[i - |s|] == u[i];
    }
    if Covers(s, a) {
      var i :| 0 <= i < |s| && s[i].start <= a < s[i].end;
      assert u[i] == s[i];
    }
    if Covers(t, a) {
      var i :| 0 <= i < |t| && t[i].start <= a < t[i].end;
      assert u[|s| + i] == t[i];
    }
  }

  lemma {:induction false} SizeJoin(s: seq<Region>, t: seq<Region>)
    ensures Size(s + t) == Size(s) + Size(t)
  {
    if t == [] {
      assert s + t == s;
    } else {
      assert (s + t)[..|s + t| - 1] == s + t[..|t| - 1];
      SizeJoin(s, t[..|t| - 1]);
    }
  }

  lemma CanonicalJoin(s: seq<Region>, t: seq<Region>)
    requires Canonical(s) && Canonical(t)
    requires s != [] && t != [] ==> s[|s| - 1].end < t[0].start
    ensures Canonical(s + t)
  {
    forall i, j | 0 <= i < j < |s + t|
      ensures (s + t)[i].end < (s + t)[j].start
    {
      if i < |s| <= j {
        assert s[i].end <= s[|s| - 1].end;
        assert t[0].start <= t[j - |s|].start;
      }
    }
  }

  lemma CanonicalSplit(s: seq<Region>, i: nat)
    requires Canonical(s) && i <= |s|
    ensures Canonical(s[..i]) && Canonical(s[i..])
  {
  }

  // ------------------------------------------------------------- uniqueness

  /** A list in canonical form is the only one for the set it covers. */
  lemma {:induction false} CanonicalUnique(s: seq<Region>, t: seq<Region>)
    requires Canonical(s) && Canonical(t)
    requires forall a :: Covers(s, a) <==> Covers(t, a)
    ensures s == t
    decreases |s|
  {
    hide Covers, Canonical;
    if s == [] || t == [] {
      EmptyCover(s);
      EmptyCover(t);
    } else {
      HeadBelow(s, t);
      HeadBelow(t, s);
      CanonicalSplit(s, 1);
      CanonicalSplit(t, 1);
      forall a
        ensures Covers(s[1..], a) <==> Covers(t[1..], a)
      {
        CoversTail(s, a);
        CoversTail(t, a);
      }
      CanonicalUnique(s[1..], t[1..]);
      assert s == [s[0]] + s[1..] && t == [t[0]] + t[1..];
    }
  }

  lemma EmptyCover(s: seq<Region>)
    requires Canonical(s)
    ensures s == [] <==> forall a :: !Covers(s, a)
  {
    if s != [] {
      assert Covers(s, s[0].start);
    }
  }

  lemma HeadBelow(s: seq<Region>, t: seq<Region>)
    requires Canonical(s) && Canonical(t) && s != [] && t != []
    requires forall a :: Covers(s, a) <==> Covers(t, a)
    ensures t[0].start <= s[0].start && t[0].end <= s[0].end
  {
    var e := s[0].end;
    assert Covers(s, s[0].start) && Covers(t, t[0].start);
    assert Covers(s, e) <==> Covers(t, e);
    assert t[0].start <= e < t[0].end ==> Covers(t, e);
  }

  lemma CoversTail(s: seq<Region>, a: int)
    requires Canonical(s) && s != []
    ensures Covers(s[1..], a) <==> Covers(s, a) && s[0].end <= a
  {
    assert s == [s[0]] + s[1..];
    CoversJoin([s[0]], s[1..], a);
    if Covers(s[1..], a) {
      var i :| 0 <= i < |s[1..]| && s[1..][i].start <= a < s[1..][i].end;
      assert s[1..][i] == s[i + 1];
    }
  }

  // ----------------------------------------------------------- cardinality

  ghost function Interval(a: int, b: int): (r: set<int>)
    ensures forall x :: x in r <==> a <= x < b
    ensures a <= b ==> |r| == b - a
    decreases b - a
  {
    if a < b then Interval(a, b - 1) + {b - 1} else {}
  }

  /** The set of addresses a list stands for. */
  ghost function Bytes(s: seq<Region>): set<int> {
    if s == [] then {} else Bytes(s[..|s| - 1]) + Interval(s[|s| - 1].start, s[|s| - 1].end)
  }

  lemma {:induction false} BytesCovered(s: seq<Region>)
    ensures forall a :: a in Bytes(s) <==> Covers(s, a)
  {
    if s != [] {
      var init, last := s[..|s| - 1], s[|s| - 1];
      BytesCovered(init);
      assert s == init + [last];
      forall a
        ensures a in Bytes(s) <==> Covers(s, a)
      {
        CoversJoin(init, [last], a);
        assert Covers([last], a) <==> [last][0].start <= a < [last][0].end;
      }
    }
  }

  /** The recorded size of a canonical list is the number of addresses it covers. */
  lemma {:induction false} SizeIsCardinality(s: seq<Region>)
    requires Canonical(s)
    ensures |Bytes(s)| == Size(s)
  {
    if s != [] {
      var init, last := s[..|s| - 1], s[|s| - 1];
      CanonicalSplit(s, |s| - 1);
      SizeIsCardinality(init);
      BytesCovered(init);
      assert Bytes(init) !! Interval(last.start, last.end);
    }
  }

  lemma SizeMonotone(s: seq<Region>, t: seq<Region>)
    requires Canonical(s) && Canonical(t)
    requires forall a :: Covers(s, a) ==> Covers(t, a)
    ensures Size(s) <= Size(t)
  {
    SizeIsCardinality(s);
    SizeIsCardinality(t);
    BytesCovered(s);
    BytesCovered(t);
    SubsetSize(Bytes(s), Bytes(t));
  }

  lemma SubsetSize(a: set<int>, b: set<int>)
    requires a <= b
    ensures |a| <= |b|
  {
    assert b == a + (b - a);
  }

  // ------------------------------------------------------------------ edits

  function OneIfNonEmpty(start: nat, end: nat): seq<Region> {
    if start < end then [Region(start, end)] else []
  }

  /** `s` without [a, b), which lies inside its region `i`. */
  function Carve(s: seq<Region>, i: nat, a: nat, b: nat): seq<Region>
    requires i < |s|
  {
    s[..i] + (OneIfNonEmpty(s[i].start, a) + OneIfNonEmpty(b, s[i].end)) + s[i + 1..]
  }

  lemma CarveKeeps(s: seq<Region>, i: nat, a: nat, b: nat)
    requires Canonical(s) && i < |s| && s[i].start <= a < b <= s[i].end
    ensures Canonical(Carve(s, i, a, b))
    ensures Size(Carve(s, i, a, b)) == Size(s) - (b - a)
    ensures forall x :: Covers(Carve(s, i, a, b), x) <==> Covers(s, x) && !(a <= x < b)
  {
    CarveCanonical(s, i, a, b);
    CarveSize(s, i, a, b);
    forall x
      ensures Covers(Carve(s, i, a, b), x) <==> Covers(s, x) && !(a <= x < b)
    {
      CarveCovers(s, i, a, b, x);
    }
  }

  lemma CarveCanonical(s: seq<Region>, i: nat, a: nat, b: nat)
    requires Canonical(s) && i < |s| && s[i].start <= a < b <= s[i].end
    ensures Canonical(Carve(s, i, a, b))
  {
    hide Canonical, OneIfNonEmpty;
    AroundRegion(s, i);
    CarveOne(s[i], a, b);
    var mid := OneIfNonEmpty(s[i].start, a) + OneIfNonEmpty(b, s[i].end);
    JoinWithin(s[..i], mid, s[i + 1..], s[i]);
  }

  lemma AroundRegion(s: seq<Region>, i: nat)
    requires Canonical(s) && i < |s|
    ensures Canonical(s[..i]) && Canonical(s[i + 1..]) && s[i].start <= s[i].end
    ensures forall k :: 0 <= k < |s[..i]| ==> s[..i][k].end < s[i].start
    ensures var right := s[i + 1..]; forall k :: 0 <= k < |right| ==> s[i].end < right[k].start
  {
    CanonicalSplit(s, i);
    CanonicalSplit(s, i + 1);
  }

  lemma CarveOne(region: Region, a: nat, b: nat)
    requires region.start <= a < b <= region.end
    ensures var mid := OneIfNonEmpty(region.start, a) + OneIfNonEmpty(b, region.end);
            Canonical(mid) && forall i :: 0 <= i < |mid| ==> region.start <= mid[i].start && mid[i].end <= region.end
  {
    CanonicalJoin(OneIfNonEmpty(region.start, a), OneIfNonEmpty(b, region.end));
  }

  /** Replacing what lies between two parts of a canonical list by something inside it. */
  lemma JoinWithin(left: seq<Region>, mid: seq<Region>, right: seq<Region>, gap: Region)
    requires Canonical(left) && Canonical(mid) && Canonical(right)
    requires forall i :: 0 <= i < |left| ==> left[i].end < gap.start
    requires forall i :: 0 <= i < |mid| ==> gap.start <= mid[i].start && mid[i].end <= gap.end
    requires forall i :: 0 <= i < |right| ==> gap.end < right[i].start
    requires gap.start <= gap.end
    ensures Canonical(left + mid + right)
  {
    CanonicalJoin(left, mid);
    var head := left + mid;
    assert forall i :: 0 <= i < |head| ==> head[i].end <= gap.end;
    hide Canonical;
    CanonicalJoin(head, right);
  }

  lemma CarveSize(s: seq<Region>, i: nat, a: nat, b: nat)
    requires i < |s| && s[i].start <= a < b <= s[i].end
    ensures Size(Carve(s, i, a, b)) == Size(s) - (b - a)
  {
    hide Size, OneIfNonEmpty;
    var left, right := s[..i], s[i + 1..];
    var p, q := OneIfNonEmpty(s[i].start, a), OneIfNonEmpty(b, s[i].end);
    assert s == left + [s[i]] + right;
    SizeJoin(left, [s[i]]);
    SizeJoin(left + [s[i]], right);
    SizeJoin(p, q);
    SizeJoin(left, p + q);
    SizeJoin(left + (p + q), right);
    SizeOne(s[i].start, s[i].end);
    SizeOne(s[i].start, a);
    SizeOne(b, s[i].end);
  }

  lemma SizeOne(start: nat, end: nat)
    requires start <= end
    ensures Size(OneIfNonEmpty(start, end)) == end - start && Size([Region(start, end)]) == end - start
  {
    assert [Region(start, end)][..0] == [];
  }

  lemma CarveCovers(s: seq<Region>, i: nat, a: nat, b: nat, x: int)
    requires Canonical(s) && i < |s| && s[i].start <= a < b <= s[i].end
    ensures Covers(Carve(s, i, a, b), x) <==> Covers(s, x) && !(a <= x < b)
  {
    var left, right := s[..i], s[i + 1..];
    var p, q := OneIfNonEmpty(s[i].start, a), OneIfNonEmpty(b, s[i].end);
    assert s == left + [s[i]] + right;
    CoversJoin(left, [s[i]], x);
    CoversJoin(left + [s[i]], right, x);
    CoversJoin(p, q, x);
    CoversJoin(left, p + q, x);
    CoversJoin(left + (p + q), right, x);
    CoversOne(s[i].start, s[i].end, x);
    CoversOne(s[i].start, a, x);
    CoversOne(b, s[i].end, x);
    OutsideOthers(s, i, x);
  }

  lemma CoversOne(start: nat, end: nat, x: int)
    ensures Covers(OneIfNonEmpty(start, end), x) <==> start <= x < end
    ensures Covers([Region(start, end)], x) <==> start <= x < end
  {
    var one := [Region(start, end)];
    assert start <= x < end ==> one[0].start <= x < one[0].end;
  }

  /** An address of region `i` is in no other region. */
  lemma OutsideOthers(s: seq<Region>, i: nat, x: int)
    requires Canonical(s) && i < |s|
    ensures s[i].start <= x < s[i].end ==> !Covers(s[..i], x) && !Covers(s[i + 1..], x)
  {
  }

  /** Region `i` is the first that does not start before `a`. */
  ghost predicate StartsAt(s: seq<Region>, i: nat, a: int) {
    i <= |s| && (i > 0 ==> s[i - 1].start < a) && (i < |s| ==> a <= s[i].start)
  }

  /** [a, b) can be put back in front of region `i`: it meets no region of `s`. */
  predicate Gap(s: seq<Region>, i: nat, a: nat, b: nat) {
    i <= |s| && (i > 0 ==> s[i - 1].end <= a) && (i < |s| ==> b <= s[i].start)
  }

  predicate TouchesLeft(s: seq<Region>, i: nat, a: nat) {
    0 < i <= |s| && s[i - 1].end == a
  }

  predicate TouchesRight(s: seq<Region>, i: nat, b: nat) {
    i < |s| && s[i].start == b
  }

  /** `s` with [a, b) put back in front of region `i`, coalesced with its neighbours. */
  function Fuse(s: seq<Region>, i: nat, a: nat, b: nat): seq<Region>
    requires i <= |s|
  {
    match (TouchesLeft(s, i, a), TouchesRight(s, i, b))
    case (true, true) => s[..i - 1] + [Region(s[i - 1].start, s[i].end)] + s[i + 1..]
    case (true, false) => s[..i - 1] + [Region(s[i - 1].start, b)] + s[i..]
    case (false, true) => s[..i] + [Region(a, s[i].end)] + s[i + 1..]
    case (false, false) => s[..i] + [Region(a, b)] + s[i..]
  }

  /** In a canonical list, meeting [a, b) shows in the neighbours of the insertion point. */
  lemma GapIsDisjoint(s: seq<Region>, i: nat, a: nat, b: nat)
    requires Canonical(s) && StartsAt(s, i, a) && a < b
    ensures Gap(s, i, a, b) <==> forall x :: a <= x < b ==> !Covers(s, x)
    ensures Gap(s, i, a, b) ==> (TouchesLeft(s, i, a) <==> Covers(s, a - 1))
    ensures Gap(s, i, a, b) ==> (TouchesRight(s, i, b) <==> Covers(s, b))
  {
    if i > 0 && a < s[i - 1].end {
      assert Covers(s, a);
    }
    if i < |s| && s[i].start < b {
      assert Covers(s, s[i].start);
    }
    if TouchesLeft(s, i, a) {
      assert s[i - 1].start <= a - 1 < s[i - 1].end;
    }
    if TouchesRight(s, i, b) {
      assert s[i].start <= b < s[i].end;
    }
  }

  lemma FuseKeeps(s: seq<Region>, i: nat, a: nat, b: nat)
    requires Canonical(s) && StartsAt(s, i, a) && Gap(s, i, a, b) && a < b
    ensures Canonical(Fuse(s, i, a, b))
    ensures Size(Fuse(s, i, a, b)) == Size(s) + (b - a)
    ensures forall x :: Covers(Fuse(s, i, a, b), x) <==> Covers(s, x) || a <= x < b
  {
    var lo, hi, x, y := FuseShape(s, i, a, b);
    FuseCanonical(s, lo, hi, x, y);
    hide Canonical, Fuse, StartsAt, Gap, Size;
    FuseSize(s, lo, hi, x, y, a, b);
    forall z
      ensures Covers(Fuse(s, i, a, b), z) <==> Covers(s, z) || a <= z < b
    {
      FuseCovers(s, lo, hi, x, y, a, b, z);
    }
  }

  /** Fusing replaces regions lo..hi, the touching neighbours, by the one region [x, y). */
  lemma FuseShape(s: seq<Region>, i: nat, a: nat, b: nat) returns (lo: nat, hi: nat, x: nat, y: nat)
    requires Canonical(s) && StartsAt(s, i, a) && Gap(s, i, a, b) && a < b
    ensures lo <= i <= hi <= |s| && x <= a < b <= y
    ensures Fuse(s, i, a, b) == s[..lo] + [Region(x, y)] + s[hi..]
    ensures s[lo..hi] == OneIfNonEmpty(x, a) + OneIfNonEmpty(b, y)
    ensures lo > 0 ==> s[lo - 1].end < x
    ensures hi < |s| ==> y < s[hi].start
  {
    lo, x := FuseLeft(s, i, a);
    hi, y := FuseRight(s, i, b);
    hide Canonical, StartsAt;
    assert s[lo..hi] == s[lo..i] + s[i..hi];
  }

  lemma FuseLeft(s: seq<Region>, i: nat, a: nat) returns (lo: nat, x: nat)
    requires Canonical(s) && i <= |s| && (i > 0 ==> s[i - 1].end <= a)
    ensures lo == if TouchesLeft(s, i, a) then i - 1 else i
    ensures x == if TouchesLeft(s, i, a) then s[i - 1].start else a
    ensures x <= a && s[lo..i] == OneIfNonEmpty(x, a) && (lo > 0 ==> s[lo - 1].end < x)
  {
    lo, x := i, a;
    if TouchesLeft(s, i, a) {
      assert s[i - 1..i] == [s[i - 1]];
      lo, x := i - 1, s[i - 1].start;
    }
  }

  lemma FuseRight(s: seq<Region>, i: nat, b: nat) returns (hi: nat, y: nat)
    requires Canonical(s) && i <= |s| && (i < |s| ==> b <= s[i].start)
    ensures hi == if TouchesRight(s, i, b) then i + 1 else i
    ensures y == if TouchesRight(s, i, b) then s[i].end else b
    ensures b <= y && s[i..hi] == OneIfNonEmpty(b, y) && (hi < |s| ==> y < s[hi].start)
  {
    hi, y := i, b;
    if TouchesRight(s, i, b) {
      assert s[i..i + 1] == [s[i]];
      hi, y := i + 1, s[i].end;
    }
  }

  lemma FuseSize(s: seq<Region>, lo: nat, hi: nat, x: nat, y: nat, a: nat, b: nat)
    requires lo <= hi <= |s| && x <= a < b <= y
    requires s[lo..hi] == OneIfNonEmpty(x, a) + OneIfNonEmpty(b, y)
    ensures Size(s[..lo] + [Region(x, y)] + s[hi..]) == Size(s) + (b - a)
  {
    hide Size, OneIfNonEmpty;
    assert s == s[..lo] + s[lo..hi] + s[hi..];
    SizeJoin(s[..lo], s[lo..hi]);
    SizeJoin(s[..lo] + s[lo..hi], s[hi..]);
    SizeJoin(s[..lo], [Region(x, y)]);
    SizeJoin(s[..lo] + [Region(x, y)], s[hi..]);
    SizeJoin(OneIfNonEmpty(x, a), OneIfNonEmpty(b, y));
    SizeOne(x, y);
    SizeOne(x, a);
    SizeOne(b, y);
  }

  lemma FuseCovers(s: seq<Region>, lo: nat, hi: nat, x: nat, y: nat, a: nat, b: nat, z: int)
    requires lo <= hi <= |s| && x <= a < b <= y
    requires s[lo..hi] == OneIfNonEmpty(x, a) + OneIfNonEmpty(b, y)
    ensures Covers(s[..lo] + [Region(x, y)] + s[hi..], z) <==> Covers(s, z) || a <= z < b
  {
    assert s == s[..lo] + s[lo..hi] + s[hi..];
    CoversJoin(s[..lo], s[lo..hi], z);
    CoversJoin(s[..lo] + s[lo..hi], s[hi..], z);
    CoversJoin(s[..lo], [Region(x, y)], z);
    CoversJoin(s[..lo] + [Region(x, y)], s[hi..], z);
    CoversJoin(OneIfNonEmpty(x, a), OneIfNonEmpty(b, y), z);
    CoversOne(x, y, z);
    CoversOne(x, a, z);
    CoversOne(b, y, z);
  }

  lemma FuseCanonical(s: seq<Region>, lo: nat, hi: nat, x: nat, y: nat)
    requires Canonical(s) && lo <= hi <= |s| && x < y
    requires lo > 0 ==> s[lo - 1].end < x
    requires hi < |s| ==> y < s[hi].start
    ensures Canonical(s[..lo] + [Region(x, y)] + s[hi..])
  {
    CanonicalSplit(s, lo);
    CanonicalSplit(s, hi);
    CanonicalJoin(s[..lo], [Region(x, y)]);
    CanonicalJoin(s[..lo] + [Region(x, y)], s[hi..]);
  }

  // -------------------------------------------------------------- fitting

  /** Rounding up to an alignment with u64 overflow; `value & !(alignment - 1)` for powers of two. */
  function AlignUp(value: nat, alignment: nat): Option<nat>
    requires alignment > 0
  {
    var rounded := value + alignment - 1;
    if rounded > U64_MAX then None else Some(rounded - rounded % alignment)
  }

  /** Where an aligned block of `size` bytes goes in region `r`, if it goes there at all. */
  function FitIn(r: Region, size: nat, alignment: nat): Option<nat>
    requires alignment > 0
  {
    match AlignUp(r.start, alignment)
    case None => None
    case Some(start) => if start + size > U64_MAX || start + size > r.end then None else Some(start)
  }

  /** [a, a + size) is aligned and lies in the set `s` stands for. */
  ghost predicate Fits(s: seq<Region>, a: nat, size: nat, alignment: nat)
    requires alignment > 0
  {
    a % alignment == 0 && forall x :: a <= x < a + size ==> Covers(s, x)
  }

  /** No aligned block of `size` bytes is free. */
  ghost predicate NoFit(s: seq<Region>, size: nat, alignment: nat)
    requires alignment > 0
  {
    forall a: nat :: !Fits(s, a, size, alignment)
  }

  lemma AlignUpLeast(value: nat, alignment: nat, x: nat)
    requires alignment > 0
    ensures var up := value + alignment - 1 - (value + alignment - 1) % alignment;
            up % alignment == 0 && value <= up && (x % alignment == 0 && value <= x ==> up <= x)
  {
    var rounded := value + alignment - 1;
    var q, k := rounded / alignment, x / alignment;
    assert rounded == alignment * q + rounded % alignment;
    assert x == alignment * k + x % alignment;
    MultipleHasNoRest(alignment, q);
    if x % alignment == 0 && k < q {
      MulMonotone(alignment, k, q - 1);
      assert alignment * (q - 1) == alignment * q - alignment;
    } else if x % alignment == 0 {
      MulMonotone(alignment, q, k);
    }
  }

  lemma MulMonotone(c: nat, x: int, y: int)
    requires x <= y
    ensures c * x <= c * y
  {
  }

  lemma MultipleHasNoRest(c: nat, q: nat)
    requires c > 0
    ensures c * q % c == 0
  {
    var d, r := c * q / c, c * q % c;
    assert c * q == c * d + r;
    assert c * (q - d) == r;
    if q < d {
      MulMonotone(c, q - d, -1);
    } else if q > d {
      MulMonotone(c, 1, q - d);
    }
  }

  predicate PowerOfTwo(n: nat) {
    n == 1 || (n > 1 && n % 2 == 0 && PowerOfTwo(n / 2))
  }

  lemma {:induction false} PowersDivide(p: nat, n: nat)
    requires PowerOfTwo(p) && PowerOfTwo(n) && p <= n
    ensures n % p == 0
  {
    if p > 1 {
      PowersDivide(p / 2, n / 2);
      var q := n / 2 / (p / 2);
      assert n / 2 == p / 2 * q;
      assert n == p * q;
      MultipleHasNoRest(p, q);
    }
  }

  lemma {:induction false} TimesPower(n: nat, k: nat)
    requires PowerOfTwo(n) && PowerOfTwo(k)
    ensures PowerOfTwo(n * k)
    decreases k
  {
    if k > 1 {
      TimesPower(n, k / 2);
      assert n * k == 2 * (n * (k / 2));
    }
  }

  lemma TimesSixteenBits(n: nat)
    requires PowerOfTwo(n)
    ensures PowerOfTwo(n * 0x1_0000)
  {
    assert PowerOfTwo(0x10);
    TimesPower(0x10, 0x10);
    TimesPower(0x100, 0x100);
    TimesPower(n, 0x1_0000);
  }

  /** Every power of two below 2^64 divides 2^64. */
  lemma DividesAddressSpace(p: nat)
    requires PowerOfTwo(p) && p <= U64_MAX
    ensures (U64_MAX + 1) % p == 0
  {
    TimesSixteenBits(1);
    TimesSixteenBits(0x1_0000);
    TimesSixteenBits(0x1_0000_0000);
    TimesSixteenBits(0x1_0000_0000_0000);
    PowersDivide(p, U64_MAX + 1);
  }

  /** An aligned address with a full alignment unit above it is never lost to overflow. */
  lemma RoundingFits(alignment: nat, a: nat)
    requires alignment > 0 && (U64_MAX + 1) % alignment == 0 && a % alignment == 0 && a <= U64_MAX
    ensures a + alignment - 1 <= U64_MAX
  {
    var q, k := (U64_MAX + 1) / alignment, a / alignment;
    assert U64_MAX + 1 == alignment * q && a == alignment * k;
    if k >= q {
      MulMonotone(alignment, q, k);
    } else {
      MulMonotone(alignment, k + 1, q);
      assert alignment * (k + 1) == alignment * k + alignment;
    }
  }

  /** `FitIn` finds the lowest fit inside the region, and misses none. */
  lemma FitInIsLowest(r: Region, size: nat, alignment: nat, a: nat)
    requires PowerOfTwo(alignment) && alignment <= U64_MAX && r.end <= U64_MAX
    ensures FitIn(r, size, alignment).Some? ==>
              var start := FitIn(r, size, alignment).value;
              start % alignment == 0 && r.start <= start && start + size <= r.end
    ensures a % alignment == 0 && r.start <= a && a + size <= r.end ==>
              FitIn(r, size, alignment).Some? && FitIn(r, size, alignment).value <= a
  {
    AlignUpLeast(r.start, alignment, a);
    DividesAddressSpace(alignment);
    if a % alignment == 0 && r.start <= a && a + size <= r.end {
      RoundingFits(alignment, a);
    }
  }

  /** In a canonical list a block is covered exactly when one region holds all of it. */
  lemma BlockInOneRegion(s: seq<Region>, a: nat, b: nat)
    requires Canonical(s) && a < b
    ensures (forall x :: a <= x < b ==> Covers(s, x)) <==>
            exists i :: 0 <= i < |s| && s[i].start <= a && b <= s[i].end
  {
    if forall x :: a <= x < b ==> Covers(s, x) {
      assert Covers(s, a);
      var i :| 0 <= i < |s| && s[i].start <= a < s[i].end;
      var e := s[i].end;
      assert !Covers(s, e);
    }
  }

  /** `s` with `r`, which starts above it, extending the last run when `r` continues it. */
  function Append(s: seq<Region>, r: Region): seq<Region> {
    if s != [] && s[|s| - 1].end == r.start then s[..|s| - 1] + [Region(s[|s| - 1].start, r.end)] else s + [r]
  }

  // ----------------------------------------------------------- array edits

  /** Opens slot `index` among the first `len` and stores `region` there. */
  method InsertAt(slots: array<Region>, len: nat, index: nat, region: Region)
    requires index <= len < slots.Length
    modifies slots
    ensures slots[..len + 1] == old(slots[..index]) + [region] + old(slots[index..len])
  {
    ghost var s := slots[..];
    var slot := len;
    while slot > index
      invariant index <= slot <= len
      invariant slots[..slot] == s[..slot]
      invariant slots[slot + 1..len + 1] == s[slot..len]
    {
      slot := slot - 1;
      slots[slot + 1] := slots[slot];
    }
    slots[index] := region;
    assert slots[..len + 1] == slots[..index] + [region] + slots[index + 1..len + 1];
  }

  /** Closes slot `index` among the first `len`; the vacated slot is cleared. */
  method RemoveAt(slots: array<Region>, len: nat, index: nat)
    requires index < len <= slots.Length
    modifies slots
    ensures slots[..len - 1] == old(slots[..index]) + old(slots[index + 1..len])
    ensures slots[len - 1] == Region(0, 0)
  {
    ghost var s := slots[..];
    var slot := index;
    while slot < len - 1
      invariant index <= slot <= len - 1
      invariant slots[..slot] == s[..index] + s[index + 1..slot + 1]
      invariant slots[slot..] == s[slot..]
    {
      slots[slot] := slots[slot + 1];
      slot := slot + 1;
    }
    slots[len - 1] := Region(0, 0);
  }

  lemma CarveForms(s: seq<Region>, i: nat, a: nat, b: nat)
    requires i < |s| && s[i].start <= a < b <= s[i].end
    ensures Carve(s, i, a, b) ==
            if s[i].start < a && b < s[i].end then s[..i] + [Region(s[i].start, a)] + [Region(b, s[i].end)] + s[i + 1..]
            else if s[i].start < a then s[i := Region(s[i].start, a)]
            else if b < s[i].end then s[i := Region(b, s[i].end)]
            else s[..i] + s[i + 1..]
  {
  }

  /** Takes [a, b) out of slot `index`, in place. */
  method CarveAt(slots: array<Region>, len: nat, index: nat, a: nat, b: nat) returns (len': nat)
    requires index < len <= slots.Length && slots[index].start <= a < b <= slots[index].end
    requires len < slots.Length || a == slots[index].start || b == slots[index].end
    modifies slots
    ensures len' <= slots.Length && slots[..len'] == Carve(old(slots[..len]), index, a, b)
  {
    hide Carve;
    ghost var s := slots[..len];
    CarveForms(s, index, a, b);
    var region := slots[index];
    var hasPrefix, hasSuffix := a > region.start, b < region.end;
    len' := len;
    if hasPrefix && hasSuffix {
      slots[index] := Region(region.start, a);
      InsertAt(slots, len, index + 1, Region(b, region.end));
      len' := len + 1;
    } else if hasPrefix {
      slots[index] := Region(region.start, a);
    } else if hasSuffix {
      slots[index] := Region(b, region.end);
    } else {
      RemoveAt(slots, len, index);
      len' := len - 1;
    }
  }

  lemma FuseForms(s: seq<Region>, i: nat, a: nat, b: nat)
    requires i <= |s|
    ensures Fuse(s, i, a, b) ==
            match (TouchesLeft(s, i, a), TouchesRight(s, i, b))
            case (true, true) =>
              s[i - 1 := Region(s[i - 1].start, s[i].end)][..i] + s[i - 1 := Region(s[i - 1].start, s[i].end)][i + 1..]
            case (true, false) => s[i - 1 := Region(s[i - 1].start, b)]
            case (false, true) => s[i := Region(a, s[i].end)]
            case (false, false) => s[..i] + [Region(a, b)] + s[i..]
  {
  }

  /** Puts [a, b) back in front of slot `index`, in place; refuses when a new slot is needed and none is left. */
  method FuseAt(slots: array<Region>, len: nat, index: nat, a: nat, b: nat) returns (ok: bool, len': nat)
    requires index <= len <= slots.Length
    modifies slots
    ensures len' <= slots.Length
    ensures ok <==>
            len < slots.Length || TouchesLeft(old(slots[..len]), index, a) || TouchesRight(old(slots[..len]), index, b)
    ensures ok ==> slots[..len'] == Fuse(old(slots[..len]), index, a, b)
    ensures !ok ==> len' == len && slots[..len] == old(slots[..len])
  {
    hide Fuse;
    ghost var s := slots[..len];
    FuseForms(s, index, a, b);
    var mergeLeft := index > 0 && slots[index - 1].end == a;
    var mergeRight := index < len && slots[index].start == b;
    assert mergeLeft == TouchesLeft(s, index, a) && mergeRight == TouchesRight(s, index, b);
    ok, len' := true, len;
    if mergeLeft && mergeRight {
      slots[index - 1] := Region(slots[index - 1].start, slots[index].end);
      assert slots[..len] == s[index - 1 := Region(s[index - 1].start, s[index].end)];
      RemoveAt(slots, len, index);
      len' := len - 1;
    } else if mergeLeft {
      slots[index - 1] := Region(slots[index - 1].start, b);
      assert slots[..len] == s[index - 1 := Region(s[index - 1].start, b)];
    } else if mergeRight {
      slots[index] := Region(a, slots[index].end);
      assert slots[..len] == s[index := Region(a, s[index].end)];
    } else if len == slots.Length {
      ok := false;
    } else {
      InsertAt(slots, len, index, Region(a, b));
      len' := len + 1;
    }
  }

  /** The first of the `len` slots that does not start before `a`. */
  method FindSlot(slots: array<Region>, len: nat, a: nat) returns (index: nat)
    requires len <= slots.Length
    ensures StartsAt(slots[..len], index, a)
  {
    index := 0;
    while index < len && slots[index].start < a
      invariant index <= len && (index > 0 ==> slots[index - 1].start < a)
    {
      index := index + 1;
    }
  }

  /** Adds `region` above the first `len` slots, in place, if there is room. */
  method AppendAt(slots: array<Region>, len: nat, region: Region) returns (ok: bool, len': nat)
    requires len <= slots.Length
    modifies slots
    ensures len' <= slots.Length
    ensures ok <==> |Append(old(slots[..len]), region)| <= slots.Length
    ensures slots[..len'] == if ok then Append(old(slots[..len]), region) else old(slots[..len])
  {
    ok, len' := true, len;
    if len > 0 && slots[len - 1].end == region.start {
      slots[len - 1] := Region(slots[len - 1].start, region.end);
    } else if len == slots.Length {
      ok := false;
    } else {
      slots[len] := region;
      len' := len + 1;
    }
  }
}
