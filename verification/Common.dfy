/** Small vocabulary shared by the models: options, minima, and sequences cut into chunks. */
module Common {
  datatype Option<+T> = None | Some(value: T)
  {
    function GetOr(other: T): T { if Some? then value else other }
  }

  function Min(a: int, b: int): int { if a < b then a else b }

  function Max(a: int, b: int): int { if a < b then b else a }

  function Flatten<T>(parts: seq<seq<T>>): seq<T> {
    if parts == [] then [] else parts[0] + Flatten(parts[1..])
  }

  /** `items` cut into pieces of `size`, the last one possibly shorter. */
  function Chunks<T>(items: seq<T>, size: nat): seq<seq<T>>
    requires 0 < size
  {
    if items == [] then []
    else if |items| <= size then [items]
    else [items[..size]] + Chunks(items[size..], size)
  }

  /** Rows `offset .. offset + limit` of a listing, as `LIMIT ? OFFSET ?` selects them. */
  function Slice<T>(s: seq<T>, offset: nat, limit: nat): seq<T> {
    s[Min(offset, |s|)..Min(offset + limit, |s|)]
  }

  predicate Distinct<T(==)>(s: seq<T>) {
    forall i, j :: 0 <= i < j < |s| ==> s[i] != s[j]
  }

  function ToSet<T>(s: seq<T>): set<T> { set x | x in s }

  /** The chunking loop of the repository. */
  method Chunked<T>(items: seq<T>, size: nat) returns (out: seq<seq<T>>)
    requires 0 < size
    ensures out == Chunks(items, size)
    ensures Flatten(out) == items
    ensures forall c <- out :: 0 < |c| <= size
  {
    out := [];
    var start := 0;
    while start < |items|
      invariant 0 <= start
      invariant out + Chunks(items[Min(start, |items|)..], size) == Chunks(items, size)
      decreases |items| - start
    {
      ghost var rest := items[start..];
      out := out + [items[start..Min(start + size, |items|)]];
      if start + size < |items| {
        assert rest[size..] == items[start + size..];
        assert rest[..size] == items[start..start + size];
      } else {
        assert items[start..|items|] == rest;
      }
      start := start + size;
    }
    ChunksCover(items, size);
  }

  lemma Associate<T>(x: seq<T>, y: seq<T>, z: seq<T>)
    ensures x + (y + z) == (x + y) + z
  {
  }

  lemma {:induction false} FlattenConcat<T>(a: seq<seq<T>>, b: seq<seq<T>>)
    ensures Flatten(a + b) == Flatten(a) + Flatten(b)
  {
    if a == [] {
      assert a + b == b;
    } else {
      FlattenConcat(a[1..], b);
      assert (a + b)[0] == a[0] && (a + b)[1..] == a[1..] + b;
      Associate(a[0], Flatten(a[1..]), Flatten(b));
    }
  }

  lemma FlattenPrefix<T>(parts: seq<seq<T>>, i: nat)
    requires i < |parts|
    ensures Flatten(parts[..i + 1]) == Flatten(parts[..i]) + parts[i]
  {
    hide Flatten;
    FlattenOne(parts[i]);
    FlattenConcat(parts[..i], [parts[i]]);
    assert parts[..i + 1] == parts[..i] + [parts[i]];
  }

  lemma FlattenSuffix<T>(parts: seq<seq<T>>, i: nat)
    requires i < |parts|
    ensures Flatten(parts[i..]) == parts[i] + Flatten(parts[i + 1..])
  {
    assert parts[i..][0] == parts[i] && parts[i..][1..] == parts[i + 1..];
  }

  /** Chunk `i` sits between the chunks before and after it. */
  lemma FlattenAt<T>(parts: seq<seq<T>>, i: nat)
    requires i < |parts|
    ensures Flatten(parts[..i + 1]) == Flatten(parts[..i]) + parts[i]
    ensures Flatten(parts[i..]) == parts[i] + Flatten(parts[i + 1..])
    ensures Flatten(parts) == Flatten(parts[..i]) + parts[i] + Flatten(parts[i + 1..])
  {
    hide Flatten;
    FlattenPrefix(parts, i);
    FlattenSuffix(parts, i);
    FlattenConcat(parts[..i + 1], parts[i + 1..]);
    assert parts[..i + 1] + parts[i + 1..] == parts;
  }

  lemma FlattenOne<T>(part: seq<T>)
    ensures Flatten([part]) == part
  {
    assert [part][1..] == [];
    assert Flatten([part]) == part + Flatten([part][1..]);
  }

  lemma FirstChunkFirst<T>(items: seq<T>, size: nat)
    requires 0 < size < |items|
    ensures Chunks(items, size) == [items[..size]] + Chunks(items[size..], size)
    ensures items[..size] + items[size..] == items
    ensures Flatten(Chunks(items, size)) == items[..size] + Flatten(Chunks(items[size..], size))
  {
    FlattenOne(items[..size]);
    FlattenConcat([items[..size]], Chunks(items[size..], size));
  }

  lemma {:induction false} ChunksCover<T>(items: seq<T>, size: nat)
    requires 0 < size
    ensures Flatten(Chunks(items, size)) == items
    ensures forall c <- Chunks(items, size) :: 0 < |c| <= size
  {
    if items == [] {
    } else if |items| <= size {
      FlattenOne(items);
    } else {
      hide Flatten, Chunks;
      FirstChunkFirst(items, size);
      ChunksCover(items[size..], size);
    }
  }

  /** Where a page starts, by counting. */
  function PageStart(page: nat, limit: nat): nat { if page == 0 then 0 else PageStart(page - 1, limit) + limit }

  lemma {:induction false} PageStartsAt(page: nat, limit: nat)
    ensures PageStart(page, limit) == page * limit
  {
    if page > 0 {
      PageStartsAt(page - 1, limit);
      assert page * limit == (page - 1) * limit + limit;
    }
  }

  lemma SliceLater<T>(s: seq<T>, size: nat, offset: nat, limit: nat)
    requires size <= |s|
    ensures Slice(s, offset + size, limit) == Slice(s[size..], offset, limit)
  {
  }

  lemma FirstPage<T>(s: seq<T>, limit: nat)
    requires 0 < limit
    ensures Slice(s, 0, limit) == if s == [] then [] else Chunks(s, limit)[0]
    ensures s == [] <==> Chunks(s, limit) == []
  {
  }

  lemma ShortList<T>(s: seq<T>, limit: nat, offset: nat)
    requires 0 < limit && |s| <= limit <= offset
    ensures Slice(s, offset, limit) == [] && |Chunks(s, limit)| <= 1
  {
  }

  lemma {:induction false} ChunkFromStart<T>(s: seq<T>, limit: nat, page: nat)
    requires 0 < limit
    ensures Slice(s, PageStart(page, limit), limit) == if page < |Chunks(s, limit)| then Chunks(s, limit)[page] else []
    decreases page
  {
    hide Slice, Flatten, Chunks;
    if page == 0 {
      FirstPage(s, limit);
    } else if |s| > limit {
      ChunkFromStart(s[limit..], limit, page - 1);
      SliceLater(s, limit, PageStart(page - 1, limit), limit);
      FirstChunkFirst(s, limit);
    } else {
      ShortList(s, limit, PageStart(page, limit));
    }
  }

  /** Page number `page` of a listing is its chunk number `page`; pages past the end are empty. */
  lemma PageIsChunk<T>(s: seq<T>, limit: nat, page: nat)
    requires 0 < limit
    ensures 0 <= page * limit
    ensures page < |Chunks(s, limit)| ==> Slice(s, page * limit, limit) == Chunks(s, limit)[page]
    ensures page >= |Chunks(s, limit)| ==> Slice(s, page * limit, limit) == []
  {
    hide Slice, Chunks, PageStart;
    PageStartsAt(page, limit);
    ChunkFromStart(s, limit, page);
  }
}
