/** `ORDER BY`: a strict total order on a set of ids admits exactly one listing. */
module Listing {
  import opened Common

  type Relation = (nat, nat) -> bool

  ghost predicate StrictTotal(before: Relation, ids: set<nat>) {
    && (forall a | a in ids :: !before(a, a))
    && (forall a, b | a in ids && b in ids && a != b :: before(a, b) <==> !before(b, a))
    && (forall a, b, c | a in ids && b in ids && c in ids && before(a, b) && before(b, c) :: before(a, c))
  }

  ghost predicate Ascending(s: seq<nat>, before: Relation) {
    forall i, j :: 0 <= i < j < |s| ==> before(s[i], s[j])
  }

  /** `s` lists exactly `ids`, each once, in the given order. */
  ghost predicate IsListing(s: seq<nat>, ids: set<nat>, before: Relation) {
    ToSet(s) == ids && Ascending(s, before)
  }

  ghost predicate IsFirst(m: nat, ids: set<nat>, before: Relation) {
    m in ids && forall x | x in ids && x != m :: before(m, x)
  }

  lemma ListingDistinct(s: seq<nat>, ids: set<nat>, before: Relation)
    requires StrictTotal(before, ids) && IsListing(s, ids, before)
    ensures Distinct(s)
  {
    forall i, j | 0 <= i < j < |s| ensures s[i] != s[j] {
      assert s[i] in ids;
    }
  }

  lemma {:induction false} DistinctCount(s: seq<nat>)
    requires Distinct(s)
    ensures |ToSet(s)| == |s|
  {
    if s != [] {
      var front := s[..|s| - 1];
      DistinctCount(front);
      assert ToSet(s) == ToSet(front) + {s[|s| - 1]};
      assert s[|s| - 1] !in ToSet(front);
    }
  }

  lemma {:induction false} FirstExists(ids: set<nat>, before: Relation)
    requires ids != {} && StrictTotal(before, ids)
    ensures exists m :: IsFirst(m, ids, before)
    decreases |ids|
  {
    var m :| m in ids;
    var rest := ids - {m};
    if rest == {} {
      assert ids == {m};
      assert IsFirst(m, ids, before);
    } else {
      FirstExists(rest, before);
      var n :| IsFirst(n, rest, before);
      var first := if before(m, n) then m else n;
      forall x | x in ids && x != first ensures before(first, x) {
        if x != m {
          assert x in rest;
        }
      }
      assert IsFirst(first, ids, before);
    }
  }

  lemma PrependFirst(m: nat, t: seq<nat>, ids: set<nat>, before: Relation)
    requires IsFirst(m, ids, before) && IsListing(t, ids - {m}, before)
    ensures IsListing([m] + t, ids, before)
  {
    var s := [m] + t;
    forall i, j | 0 <= i < j < |s| ensures before(s[i], s[j]) {
      assert s[j] == t[j - 1] && t[j - 1] in ToSet(t);
      if i > 0 {
        assert s[i] == t[i - 1];
      }
    }
    assert ToSet(s) == {m} + ToSet(t);
  }

  lemma {:induction false} ListingExists(ids: set<nat>, before: Relation)
    requires StrictTotal(before, ids)
    ensures exists s :: IsListing(s, ids, before)
    decreases |ids|
  {
    if ids == {} {
      assert IsListing([], ids, before);
    } else {
      FirstExists(ids, before);
      var m :| IsFirst(m, ids, before);
      ListingExists(ids - {m}, before);
      var t :| IsListing(t, ids - {m}, before);
      PrependFirst(m, t, ids, before);
    }
  }

  lemma HeadAndTail(s: seq<nat>, ids: set<nat>, before: Relation)
    requires StrictTotal(before, ids) && IsListing(s, ids, before) && s != []
    ensures IsFirst(s[0], ids, before)
    ensures IsListing(s[1..], ids - {s[0]}, before)
  {
    ListingDistinct(s, ids, before);
    assert s[0] in ToSet(s);
    forall x | x in ids && x != s[0] ensures before(s[0], x) && x in s[1..] {
      assert x in ToSet(s);
      var k :| 0 <= k < |s| && s[k] == x;
      assert s[1..][k - 1] == x;
    }
    assert ToSet(s[1..]) == ids - {s[0]};
  }

  lemma {:induction false} ListingUnique(s: seq<nat>, t: seq<nat>, ids: set<nat>, before: Relation)
    requires StrictTotal(before, ids)
    requires IsListing(s, ids, before) && IsListing(t, ids, before)
    ensures s == t
    decreases |s|
  {
    if s == [] {
      ListingDistinct(t, ids, before);
      DistinctCount(t);
    } else {
      assert s[0] in ToSet(t);
      HeadAndTail(s, ids, before);
      HeadAndTail(t, ids, before);
      ListingUnique(s[1..], t[1..], ids - {s[0]}, before);
    }
  }

  /** The listing an `ORDER BY` yields. */
  ghost function Listed(ids: set<nat>, before: Relation): (s: seq<nat>)
    requires StrictTotal(before, ids)
    ensures IsListing(s, ids, before)
    ensures Distinct(s) && |s| == |ids|
  {
    ListingExists(ids, before);
    var s :| IsListing(s, ids, before);
    ListingDistinct(s, ids, before);
    DistinctCount(s);
    s
  }

  method First(ids: set<nat>, before: Relation) returns (m: nat)
    requires ids != {} && StrictTotal(before, ids)
    ensures IsFirst(m, ids, before)
  {
    m :| m in ids;
    var left := ids - {m};
    while left != {}
      invariant left <= ids && m !in left
      invariant IsFirst(m, ids - left, before)
      decreases |left|
    {
      var x :| x in left;
      if before(x, m) {
        m := x;
      }
      left := left - {x};
    }
    assert ids - left == ids;
  }

  lemma AppendFirst(s: seq<nat>, m: nat, done: set<nat>, left: set<nat>, before: Relation)
    requires IsListing(s, done, before) && IsFirst(m, left, before)
    requires forall x, y | x in done && y in left :: before(x, y)
    ensures IsListing(s + [m], done + {m}, before)
  {
    assert ToSet(s + [m]) == ToSet(s) + {m};
    forall i | 0 <= i < |s| ensures before(s[i], m) {
      assert s[i] in ToSet(s);
    }
  }

  /** The database's sort: repeatedly take the first of what is left. */
  method OrderBy(ids: set<nat>, before: Relation) returns (s: seq<nat>)
    requires StrictTotal(before, ids)
    ensures s == Listed(ids, before)
  {
    s := [];
    var left := ids;
    while left != {}
      invariant left <= ids
      invariant IsListing(s, ids - left, before)
      invariant forall x, y | x in ids - left && y in left :: before(x, y)
      decreases |left|
    {
      var m := First(left, before);
      AppendFirst(s, m, ids - left, left, before);
      assert ids - (left - {m}) == (ids - left) + {m};
      s := s + [m];
      left := left - {m};
    }
    assert ids - left == ids;
    ListingUnique(s, Listed(ids, before), ids, before);
  }

  // ------------------------------------------------------------------ taking the first rows of a listing

  /** Nothing outside the first `n` rows of a listing precedes a row inside them. */
  lemma TopAreFirst(ids: set<nat>, before: Relation, n: nat, inside: nat, outside: nat)
    requires StrictTotal(before, ids)
    requires inside in Slice(Listed(ids, before), 0, n)
    requires outside in ids && outside !in Slice(Listed(ids, before), 0, n)
    ensures before(inside, outside)
  {
    var s := Listed(ids, before);
    var top := Slice(s, 0, n);
    var i :| 0 <= i < |top| && s[i] == inside;
    assert outside in ToSet(s);
    var j :| 0 <= j < |s| && s[j] == outside;
    assert forall k | 0 <= k < |top| :: s[k] == top[k];
    assert forall k | 0 <= k < |top| :: top[k] in top;
  }

  lemma TopSize(ids: set<nat>, before: Relation, n: nat)
    requires StrictTotal(before, ids)
    ensures ToSet(Slice(Listed(ids, before), 0, n)) <= ids
    ensures |ToSet(Slice(Listed(ids, before), 0, n))| == Min(n, |ids|)
    ensures Distinct(Slice(Listed(ids, before), 0, n))
  {
    var s := Listed(ids, before);
    var top := Slice(s, 0, n);
    assert forall x <- top :: x in ToSet(s);
    DistinctCount(top);
  }

  /** Every entry is one of `ids` and has just as many of them before it as its place says, counting from `offset`. */
  ghost predicate Placed(s: seq<nat>, offset: nat, ids: set<nat>, goesFirst: Relation) {
    forall k | 0 <= k < |s| :: s[k] in ids && |set x | x in ids && goesFirst(x, s[k])| == offset + k
  }

  /** Entries stand in order. */
  ghost predicate InTurn(s: seq<nat>, goesFirst: Relation) {
    forall i, j | 0 <= i < j < |s| :: goesFirst(s[i], s[j]) && !goesFirst(s[j], s[i])
  }

  /** Two descriptions of one order on `ids`. */
  ghost predicate SameOrder(before: Relation, goesFirst: Relation, ids: set<nat>) {
    forall a, b | a in ids && b in ids :: goesFirst(a, b) <==> before(a, b)
  }

  lemma PlaceInListing(ids: set<nat>, before: Relation, goesFirst: Relation, i: nat)
    requires StrictTotal(before, ids) && SameOrder(before, goesFirst, ids) && i < |ids|
    ensures var s := Listed(ids, before);
            s[i] in ids && |set x | x in ids && goesFirst(x, s[i])| == i
  {
    hide StrictTotal;
    var s := Listed(ids, before);
    assert s[i] in ToSet(s);
    var earlier := set x | x in ids && goesFirst(x, s[i]);
    EarlierInListing(ids, before, s, i);
    forall x ensures x in earlier <==> x in ToSet(s[..i]) {
      if x in s[..i] {
        assert x in ToSet(s);
      }
    }
    assert earlier == ToSet(s[..i]);
    DistinctCount(s[..i]);
  }

  lemma EarlierInListing(ids: set<nat>, before: Relation, s: seq<nat>, i: nat)
    requires StrictTotal(before, ids) && IsListing(s, ids, before) && i < |s|
    ensures forall x | x in ids :: before(x, s[i]) <==> x in s[..i]
  {
    forall x | x in ids ensures before(x, s[i]) <==> x in s[..i] {
      assert x in ToSet(s);
      var k :| 0 <= k < |s| && s[k] == x;
      assert s[i] in ToSet(s);
      if k < i {
        assert s[..i][k] == x;
      }
    }
  }

  lemma EntriesInTurn(ids: set<nat>, before: Relation, goesFirst: Relation, s: seq<nat>)
    requires StrictTotal(before, ids) && SameOrder(before, goesFirst, ids) && IsListing(s, ids, before)
    ensures InTurn(s, goesFirst)
  {
    forall i, j | 0 <= i < j < |s| ensures goesFirst(s[i], s[j]) && !goesFirst(s[j], s[i]) {
      assert s[i] in ToSet(s) && s[j] in ToSet(s);
    }
  }

  lemma SliceInTurn(s: seq<nat>, goesFirst: Relation, offset: nat, limit: nat)
    requires InTurn(s, goesFirst)
    ensures InTurn(Slice(s, offset, limit), goesFirst)
  {
    var page := Slice(s, offset, limit);
    assert forall k | 0 <= k < |page| :: page[k] == s[offset + k];
  }

  /** A page of a listing consists of the rows whose turn it is. */
  lemma SliceIsPlaced(ids: set<nat>, before: Relation, goesFirst: Relation, offset: nat, limit: nat)
    requires StrictTotal(before, ids) && SameOrder(before, goesFirst, ids)
    ensures var page := Slice(Listed(ids, before), offset, limit);
            && Placed(page, offset, ids, goesFirst) && InTurn(page, goesFirst)
            && |page| == Max(0, Min(limit, |ids| - offset))
  {
    hide StrictTotal, SameOrder, InTurn, IsListing, Distinct;
    var s := Listed(ids, before);
    var page := Slice(s, offset, limit);
    forall k | 0 <= k < |page| ensures page[k] in ids && |set x | x in ids && goesFirst(x, page[k])| == offset + k {
      PlaceInListing(ids, before, goesFirst, offset + k);
    }
    EntriesInTurn(ids, before, goesFirst, s);
    SliceInTurn(s, goesFirst, offset, limit);
  }

  /** What is placed later goes later, on whatever page. */
  lemma LaterPlaceGoesLater(ids: set<nat>, before: Relation, goesFirst: Relation, a: nat, b: nat)
    requires StrictTotal(before, ids) && SameOrder(before, goesFirst, ids) && a in ids && b in ids
    requires |set x | x in ids && goesFirst(x, a)| < |set x | x in ids && goesFirst(x, b)|
    ensures goesFirst(a, b)
  {
    if a == b {
      assert false;
    } else if goesFirst(b, a) {
      var ofA, ofB := set x | x in ids && goesFirst(x, a), set x | x in ids && goesFirst(x, b);
      forall x | x in ofB ensures x in ofA {
        assert before(x, b) && before(b, a);
      }
      PartIsSmaller(ofB, ofA);
      assert false;
    }
  }

  lemma PartIsSmaller(a: set<nat>, b: set<nat>)
    requires a <= b
    ensures |a| <= |b|
  {
    assert b == a + (b - a);
  }

  /** Successive pages of any positive size put together are the whole listing: every row once, in order. */
  lemma PagesListEverything(ids: set<nat>, before: Relation, limit: nat)
    requires StrictTotal(before, ids) && 0 < limit
    ensures Flatten(Chunks(Listed(ids, before), limit)) == Listed(ids, before)
    ensures forall page: nat :: 0 <= page * limit
    ensures forall page: nat :: Slice(Listed(ids, before), page * limit, limit)
                                == (if page < |Chunks(Listed(ids, before), limit)|
                                    then Chunks(Listed(ids, before), limit)[page] else [])
  {
    var s := Listed(ids, before);
    ChunksCover(s, limit);
    forall page: nat
      ensures 0 <= page * limit
      ensures Slice(s, page * limit, limit) == (if page < |Chunks(s, limit)| then Chunks(s, limit)[page] else [])
    {
      PageIsChunk(s, limit, page);
    }
  }
}

/** The orders the repository's queries put on the rows of the proxies table. */
module Ranking {
  import opened Listing
  import opened Common
  import opened Scoring
  import opened PoolTable

  /** The orders the repository's queries ask for. Ties a query leaves open are settled by id. */
  datatype Order =
    | WorstFirst
    | BestFirst
    | ServiceThenBest
    | OldestId
    | LongestUnchecked
    | ScoreOnly
    | ServiceQueue

  /** Position of a value in ascending order with NULL in front. */
  predicate NullsFirst(a: Option<int>, b: Option<int>) {
    b.Some? && (a.None? || a.value < b.value)
  }

  /** `score DESC, latency_ms IS NULL, latency_ms ASC, id ASC` */
  predicate Better(a: nat, r: Row, b: nat, s: Row) {
    if r.score != s.score then r.score > s.score
    else if r.latency.None? != s.latency.None? then r.latency.Some?
    else if r.latency != s.latency then r.latency.Some? && s.latency.Some? && r.latency.value < s.latency.value
    else a < b
  }

  /** `score ASC, latency_ms IS NULL DESC, latency_ms DESC, id ASC` */
  predicate Worse(a: nat, r: Row, b: nat, s: Row) {
    if r.score != s.score then r.score < s.score
    else if r.latency.None? != s.latency.None? then r.latency.None?
    else if r.latency != s.latency then r.latency.Some? && s.latency.Some? && r.latency.value > s.latency.value
    else a < b
  }

  predicate Precedes(ord: Order, a: nat, r: Row, b: nat, s: Row) {
    match ord
    case WorstFirst => Worse(a, r, b, s)
    case BestFirst => Better(a, r, b, s)
    case ServiceThenBest =>
      if r.service.Passed? != s.service.Passed? then r.service.Passed? else Better(a, r, b, s)
    case OldestId => a < b
    case LongestUnchecked => if r.lastChecked != s.lastChecked then NullsFirst(r.lastChecked, s.lastChecked) else a < b
    case ScoreOnly => if r.score != s.score then r.score > s.score else a < b
    case ServiceQueue =>
      if r.score != s.score then r.score > s.score
      else if r.latency != s.latency then NullsFirst(r.latency, s.latency)
      else a < b
  }

  lemma PrecedesIsStrictTotal(ord: Order, a: nat, r: Row, b: nat, s: Row, c: nat, t: Row)
    requires a == b ==> r == s
    ensures !Precedes(ord, a, r, a, r)
    ensures a != b ==> (Precedes(ord, a, r, b, s) <==> !Precedes(ord, b, s, a, r))
    ensures Precedes(ord, a, r, b, s) && Precedes(ord, b, s, c, t) ==> Precedes(ord, a, r, c, t)
  {
  }

  function InOrder(ord: Order, rows: Table): Relation {
    (a, b) => a in rows && b in rows && Precedes(ord, a, rows[a], b, rows[b])
  }

  lemma RowsAreOrdered(ord: Order, rows: Table)
    ensures StrictTotal(InOrder(ord, rows), rows.Keys)
    ensures forall ids: set<nat> | ids <= rows.Keys :: StrictTotal(InOrder(ord, rows), ids)
  {
    var before := InOrder(ord, rows);
    forall a | a in rows ensures !before(a, a) {
      PrecedesIsStrictTotal(ord, a, rows[a], a, rows[a], a, rows[a]);
    }
    forall a, b | a in rows && b in rows && a != b ensures before(a, b) <==> !before(b, a) {
      PrecedesIsStrictTotal(ord, a, rows[a], b, rows[b], a, rows[a]);
    }
    forall a, b, c | a in rows && b in rows && c in rows && before(a, b) && before(b, c) ensures before(a, c) {
      PrecedesIsStrictTotal(ord, a, rows[a], b, rows[b], c, rows[c]);
    }
  }
}
