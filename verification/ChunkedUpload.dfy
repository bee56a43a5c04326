/** Chunked upload of `backend/app/services/document_pipeline_service.py`: parts arrive in any
    order, may be sent again, and are assembled when as many are there as were announced. */
module ChunkedUpload {
  import opened Finite

  type Byte = b: int | 0 <= b < 256
  type Bytes = seq<Byte>

  const MAX_CHUNK := 5 * 1024 * 1024

  /** A hash function that takes its input in byte by byte. */
  datatype Hasher<!S> = Hasher(start: S, step: (S, Byte) -> S)

  function Feed<S>(h: Hasher<S>, s: S, data: Bytes): S {
    if data == [] then s else Feed(h, h.step(s, data[0]), data[1..])
  }

  /** The hash of a whole file. */
  function HashOf<S>(h: Hasher<S>, data: Bytes): S {
    Feed(h, h.start, data)
  }

  /** The name of a part file. */
  datatype Name = Part(index: int)

  /** The part files of one upload. */
  type Parts = map<Name, Bytes>

  /** The names of the parts below `n`. */
  function Names(n: nat): (s: set<Name>)
    ensures forall p :: p in s <==> 0 <= p.index < n
  {
    if n == 0 then {} else Names(n - 1) + {Part(n - 1)}
  }

  lemma {:induction false} NamesSize(n: nat)
    ensures |Names(n)| == n
  {
    if n > 0 {
      NamesSize(n - 1);
    }
  }

  datatype Outcome<S> =
    | ChunkTooLarge
    | Waiting
    | FileTooLarge
    | Assembled(content: Bytes, hash: S)

  /** The parts that are there, in index order. */
  function Concat(parts: Parts, n: nat): Bytes {
    if n == 0 then []
    else Concat(parts, n - 1) + (if Part(n - 1) in parts then parts[Part(n - 1)] else [])
  }

  function Sizes(parts: Parts): map<Name, int> {
    map p | p in parts :: |parts[p]|
  }

  ghost function TotalSize(parts: Parts): int {
    Sum(Sizes(parts))
  }

  lemma TotalSizeWithout(parts: Parts, k: Name)
    requires k in parts
    ensures TotalSize(parts) == |parts[k]| + TotalSize(parts - {k})
  {
    SumWithout(Sizes(parts), k);
    assert Sizes(parts) - {k} == Sizes(parts - {k});
  }

  class UploadDir<S> {
    const hasher: Hasher<S>
    var parts: Parts

    constructor (hasher: Hasher<S>)
      ensures this.hasher == hasher && parts == map[]
    {
      this.hasher := hasher;
      parts := map[];
    }

    /** The sizes of all part files, added up in whatever order the directory lists them. */
    method Measure() returns (size: nat)
      ensures size == TotalSize(parts)
    {
      size := 0;
      var rest := parts;
      while rest != map[]
        invariant TotalSize(parts) == size + TotalSize(rest)
        decreases |rest|
      {
        var k :| k in rest;
        TotalSizeWithout(rest, k);
        size := size + |rest[k]|;
        rest := rest - {k};
      }
      assert |Sizes(rest)| == 0;
    }

    method Reassemble(total: nat) returns (content: Bytes, hash: S)
      modifies this
      ensures content == Concat(old(parts), total)
      ensures hash == HashOf(hasher, content)
      ensures parts == old(parts) - Names(total)
    {
      content, hash := [], hasher.start;
      for i := 0 to total
        invariant parts == old(parts) - Names(i)
        invariant content == Concat(old(parts), i) && hash == HashOf(hasher, content)
      {
        if Part(i) in parts {
          var chunk := parts[Part(i)];
          FeedAppend(hasher, hasher.start, content, chunk);
          hash := Feed(hasher, hash, chunk);
          content := content + chunk;
          parts := parts - {Part(i)};
        }
      }
    }

    method UploadChunk(index: int, total: int, maxSize: nat, chunk: Bytes) returns (r: Outcome<S>)
      modifies this
      ensures (parts, r) == UploadStep(hasher, old(parts), index, total, maxSize, chunk)
    {
      if |chunk| > MAX_CHUNK {
        return ChunkTooLarge;
      }
      parts := parts[Part(index) := chunk];
      var received := |parts|;
      if received == total {
        var size := Measure();
        if size > maxSize {
          parts := map[];
          return FileTooLarge;
        }
        var content, hash := Reassemble(total);
        return Assembled(content, hash);
      }
      return Waiting;
    }
  }

  /** What one request does to the part files, and its outcome. */
  ghost function UploadStep<S>(h: Hasher<S>, parts: Parts, index: int, total: int, maxSize: nat, chunk: Bytes): (Parts, Outcome<S>) {
    if |chunk| > MAX_CHUNK then (parts, ChunkTooLarge)
    else
      var now := parts[Part(index) := chunk];
      if |now| != total then (now, Waiting)
      else if TotalSize(now) > maxSize then (map[], FileTooLarge)
      else (now - Names(total), Assembled(Concat(now, total), HashOf(h, Concat(now, total))))
  }

  lemma {:induction false} FeedAppend<S>(h: Hasher<S>, s: S, a: Bytes, b: Bytes)
    ensures Feed(h, s, a + b) == Feed(h, Feed(h, s, a), b)
  {
    if a == [] {
      assert a + b == b;
    } else {
      assert (a + b)[1..] == a[1..] + b;
      FeedAppend(h, h.step(s, a[0]), a[1..], b);
    }
  }

  /** A hash is built up byte by byte from the start value. */
  lemma HashIsFold<S>(h: Hasher<S>, data: Bytes, b: Byte)
    ensures HashOf(h, []) == h.start
    ensures HashOf(h, data + [b]) == h.step(HashOf(h, data), b)
  {
    FeedAppend(h, h.start, data, [b]);
  }

  // ----- arrivals -----

  datatype Arrival = Arrival(index: int, chunk: Bytes)

  /** The latest accepted content of every index. */
  function Latest(arrivals: seq<Arrival>): Parts {
    if arrivals == [] then map[]
    else
      var a := arrivals[|arrivals| - 1];
      var before := Latest(arrivals[..|arrivals| - 1]);
      if |a.chunk| > MAX_CHUNK then before else before[Part(a.index) := a.chunk]
  }

  predicate InRange(arrivals: seq<Arrival>, total: nat) {
    forall i :: 0 <= i < |arrivals| ==> 0 <= arrivals[i].index < total
  }

  /** Some announced index has not arrived yet. */
  predicate Missing(arrivals: seq<Arrival>, total: nat) {
    exists i :: 0 <= i < total && Part(i) !in Latest(arrivals)
  }

  /** The part files after a series of requests for the same upload. */
  ghost function Run<S>(h: Hasher<S>, arrivals: seq<Arrival>, total: nat, maxSize: nat): Parts {
    if arrivals == [] then map[]
    else
      var a := arrivals[|arrivals| - 1];
      UploadStep(h, Run(h, arrivals[..|arrivals| - 1], total, maxSize), a.index, total, maxSize, a.chunk).0
  }

  /** The outcome of one more request. */
  ghost function Next<S>(h: Hasher<S>, arrivals: seq<Arrival>, a: Arrival, total: nat, maxSize: nat): Outcome<S> {
    UploadStep(h, Run(h, arrivals, total, maxSize), a.index, total, maxSize, a.chunk).1
  }

  lemma {:induction false} LatestInRange(arrivals: seq<Arrival>, total: nat)
    requires InRange(arrivals, total)
    ensures Latest(arrivals).Keys <= Names(total)
  {
    if arrivals != [] {
      LatestInRange(arrivals[..|arrivals| - 1], total);
    }
  }

  /** Indices in range: the number of parts is the announced number exactly when none is
      missing. */
  lemma CountTellsMissing(arrivals: seq<Arrival>, total: nat)
    requires InRange(arrivals, total)
    ensures |Latest(arrivals)| == total <==> !Missing(arrivals, total)
  {
    LatestInRange(arrivals, total);
    NamesSize(total);
    SubsetIsSmaller(Latest(arrivals).Keys, Names(total));
    if !Missing(arrivals, total) {
      assert Latest(arrivals).Keys == Names(total);
    }
  }

  /** While an index is missing the part files are the latest contents. */
  lemma {:induction false} PartsAreLatest<S>(h: Hasher<S>, arrivals: seq<Arrival>, total: nat, maxSize: nat)
    requires InRange(arrivals, total) && Missing(arrivals, total)
    ensures Run(h, arrivals, total, maxSize) == Latest(arrivals)
  {
    if arrivals != [] {
      var p := arrivals[..|arrivals| - 1];
      var i :| 0 <= i < total && Part(i) !in Latest(arrivals);
      assert Part(i) !in Latest(p);
      PartsAreLatest(h, p, total, maxSize);
      CountTellsMissing(arrivals, total);
    }
  }

  /** For any order of arrival, with parts sent again: as long as an index is missing the
      request waits; the request that brings the last missing index, and no other, triggers
      assembly. If the size check passes the result is the index-order concatenation of the
      latest contents, its hash is that of the whole file, and no part remains. */
  lemma AssemblyOnLastMissing<S>(h: Hasher<S>, arrivals: seq<Arrival>, a: Arrival, total: nat, maxSize: nat)
    requires InRange(arrivals, total) && Missing(arrivals, total) && 0 <= a.index < total
    ensures var all, r := arrivals + [a], Next(h, arrivals, a, total, maxSize);
            && (r.ChunkTooLarge? <==> |a.chunk| > MAX_CHUNK)
            && (r.Waiting? <==> |a.chunk| <= MAX_CHUNK && Missing(all, total))
            && (r.FileTooLarge? <==> !Missing(all, total) && |Concat(Latest(all), total)| > maxSize)
            && (r.FileTooLarge? ==> Run(h, all, total, maxSize) == map[])
            && (r.Assembled? ==>
                  && r.content == Concat(Latest(all), total)
                  && r.hash == HashOf(h, r.content)
                  && Run(h, all, total, maxSize) == map[])
  {
    var all := arrivals + [a];
    Snoc(h, arrivals, a, total, maxSize);
    PartsAreLatest(h, arrivals, total, maxSize);
    CountTellsMissing(all, total);
    if !Missing(all, total) {
      LatestInRange(all, total);
      CompleteParts(Latest(all), total);
    }
  }

  lemma Snoc<S>(h: Hasher<S>, arrivals: seq<Arrival>, a: Arrival, total: nat, maxSize: nat)
    ensures Run(h, arrivals + [a], total, maxSize)
            == UploadStep(h, Run(h, arrivals, total, maxSize), a.index, total, maxSize, a.chunk).0
    ensures Latest(arrivals + [a])
            == if |a.chunk| > MAX_CHUNK then Latest(arrivals) else Latest(arrivals)[Part(a.index) := a.chunk]
  {
    assert (arrivals + [a])[..|arrivals + [a]| - 1] == arrivals;
  }

  lemma CompleteParts(parts: Parts, total: nat)
    requires parts.Keys <= Names(total) && forall i :: 0 <= i < total ==> Part(i) in parts
    ensures TotalSize(parts) == |Concat(parts, total)| && parts - Names(total) == map[]
  {
    assert parts.Keys == Names(total) by {
      forall p | p in Names(total) ensures p in parts {
        assert p == Part(p.index);
      }
    }
    ConcatSize(parts, total);
  }

  /** The size that is checked is the size of the assembled file. */
  lemma {:induction false} ConcatSize(parts: Parts, n: nat)
    requires parts.Keys == Names(n)
    ensures |Concat(parts, n)| == TotalSize(parts)
  {
    if n > 0 {
      var last := Part(n - 1);
      var rest := parts - {last};
      ConcatSize(rest, n - 1);
      TotalSizeWithout(parts, last);
      ConcatIgnores(parts, n - 1, last);
    } else {
      assert |Sizes(parts)| == 0;
    }
  }

  lemma {:induction false} ConcatIgnores(parts: Parts, n: nat, k: Name)
    requires k.index >= n
    ensures Concat(parts - {k}, n) == Concat(parts, n)
  {
    if n > 0 {
      ConcatIgnores(parts, n - 1, k);
    }
  }

  // ----- indices outside the announced range -----

  /** The part files that the last request of `arrivals + [a]` finds once its own is written. */
  ghost function Found<S>(h: Hasher<S>, arrivals: seq<Arrival>, a: Arrival, total: nat, maxSize: nat): Parts {
    Run(h, arrivals, total, maxSize)[Part(a.index) := a.chunk]
  }

  predicate AllBelow(parts: Parts, total: nat) {
    forall k :: k in parts ==> 0 <= k.index < total
  }

  predicate NoneMissing(parts: Parts, total: nat) {
    forall i :: 0 <= i < total ==> Part(i) in parts
  }

  /** Indices are not checked against the total, and assembly goes by the count alone. After
      any run, an assembled file lacks no part, and no part is left over, in each case exactly
      when no part file's index lies outside the announced range; then the file is as long as
      the size that was checked. */
  lemma CountIsNotEnough<S>(h: Hasher<S>, arrivals: seq<Arrival>, a: Arrival, total: nat, maxSize: nat)
    requires Next(h, arrivals, a, total, maxSize).Assembled?
    ensures var now, r := Found(h, arrivals, a, total, maxSize), Next(h, arrivals, a, total, maxSize);
            && r.content == Concat(now, total) && r.hash == HashOf(h, r.content)
            && (NoneMissing(now, total) <==> AllBelow(now, total))
            && (Run(h, arrivals + [a], total, maxSize) == map[] <==> AllBelow(now, total))
            && (AllBelow(now, total) ==> |r.content| == TotalSize(now) <= maxSize)
  {
    Snoc(h, arrivals, a, total, maxSize);
    var now := Found(h, arrivals, a, total, maxSize);
    FullOrOutside(now, total);
    if AllBelow(now, total) {
      assert now.Keys <= Names(total);
      CompleteParts(now, total);
    }
  }

  lemma FullOrOutside(parts: Parts, total: nat)
    requires |parts| == total
    ensures NoneMissing(parts, total) <==> AllBelow(parts, total)
    ensures parts - Names(total) == map[] <==> AllBelow(parts, total)
  {
    NamesSize(total);
    if AllBelow(parts, total) {
      assert parts.Keys <= Names(total);
      SubsetIsSmaller(parts.Keys, Names(total));
    }
    if NoneMissing(parts, total) {
      forall p | p in Names(total) ensures p in parts {
        assert p == Part(p.index);
      }
      SubsetIsSmaller(Names(total), parts.Keys);
    }
    if parts - Names(total) == map[] {
      forall k | k in parts ensures 0 <= k.index < total {
        assert k !in parts - Names(total);
      }
    }
  }

  /** No request of `arrivals` has reached the announced number. */
  ghost predicate Untriggered<S>(h: Hasher<S>, arrivals: seq<Arrival>, total: nat, maxSize: nat) {
    arrivals == [] ||
    var g, r := arrivals[..|arrivals| - 1], Next(h, arrivals[..|arrivals| - 1], arrivals[|arrivals| - 1], total, maxSize);
    Untriggered(h, g, total, maxSize) && (r.Waiting? || r.ChunkTooLarge?)
  }

  lemma {:induction false} UntriggeredIsLatest<S>(h: Hasher<S>, arrivals: seq<Arrival>, total: nat, maxSize: nat)
    requires Untriggered(h, arrivals, total, maxSize)
    ensures Run(h, arrivals, total, maxSize) == Latest(arrivals)
  {
    if arrivals != [] {
      UntriggeredIsLatest(h, arrivals[..|arrivals| - 1], total, maxSize);
    }
  }

  /** The first assembly of an upload, whatever the indices: it misses no announced index, and
      leaves nothing over, exactly when every accepted chunk had an index in range. */
  lemma FirstAssembly<S>(h: Hasher<S>, arrivals: seq<Arrival>, a: Arrival, total: nat, maxSize: nat)
    requires Untriggered(h, arrivals, total, maxSize) && Next(h, arrivals, a, total, maxSize).Assembled?
    ensures var all := arrivals + [a];
            && Next(h, arrivals, a, total, maxSize).content == Concat(Latest(all), total)
            && (!Missing(all, total) <==> AcceptedInRange(all, total))
            && (Run(h, all, total, maxSize) == map[] <==> AcceptedInRange(all, total))
  {
    var all := arrivals + [a];
    UntriggeredIsLatest(h, arrivals, total, maxSize);
    Snoc(h, arrivals, a, total, maxSize);
    CountIsNotEnough(h, arrivals, a, total, maxSize);
    LatestIsAccepted(all, total);
  }

  /** Every chunk that was not too large had an index below the total. */
  predicate AcceptedInRange(arrivals: seq<Arrival>, total: nat) {
    forall i :: 0 <= i < |arrivals| && |arrivals[i].chunk| <= MAX_CHUNK ==> 0 <= arrivals[i].index < total
  }

  lemma {:induction false} LatestIsAccepted(arrivals: seq<Arrival>, total: nat)
    ensures AllBelow(Latest(arrivals), total) <==> AcceptedInRange(arrivals, total)
  {
    if arrivals != [] {
      var g, a := arrivals[..|arrivals| - 1], arrivals[|arrivals| - 1];
      LatestIsAccepted(g, total);
      assert arrivals == g + [a];
      if |a.chunk| <= MAX_CHUNK {
        assert Latest(arrivals) == Latest(g)[Part(a.index) := a.chunk];
      }
    }
  }

  /** Two chunks for a total of two, the second with index 5: the file is assembled from the
      first chunk alone, although index 1 never came. */
  lemma IncompleteAssembly<S>(h: Hasher<S>, x: Byte, y: Byte)
    ensures var first, second := Arrival(0, [x]), Arrival(5, [y]);
            && Next(h, [first], second, 2, 2) == Assembled([x], HashOf(h, [x]))
            && Missing([first, second], 2)
            && Run(h, [first, second], 2, 2) == map[Part(5) := [y]]
  {
    var first, second := Arrival(0, [x]), Arrival(5, [y]);
    assert [] + [first] == [first] && [first] + [second] == [first, second];
    Snoc(h, [], first, 2, 2);
    Snoc(h, [first], second, 2, 2);
    assert map[][Part(0) := [x]] == map[Part(0) := [x]];
    assert Latest([first]) == map[Part(0) := [x]];
    OneOfTwo(h, x, y);
    assert Part(1) !in Latest([first, second]);
  }

  lemma OneOfTwo<S>(h: Hasher<S>, x: Byte, y: Byte)
    ensures UploadStep(h, map[Part(0) := [x]], 5, 2, 2, [y]) == (map[Part(5) := [y]], Assembled([x], HashOf(h, [x])))
  {
    var now: Parts := map[Part(0) := [x]][Part(5) := [y]];
    assert now.Keys == {Part(0), Part(5)};
    assert |now| == |now.Keys| == 2;
    SizeOfTwo(now, Part(0), Part(5));
    assert Concat(now, 1) == [x] && Concat(now, 2) == [x];
    assert now - Names(2) == map[Part(5) := [y]];
  }

  lemma SizeOfTwo(parts: Parts, p: Name, q: Name)
    requires parts.Keys == {p, q} && p != q
    ensures TotalSize(parts) == |parts[p]| + |parts[q]|
  {
    TotalSizeWithout(parts, p);
    TotalSizeWithout(parts - {p}, q);
    assert |Sizes(parts - {p} - {q})| == 0;
  }

  /** Every part contributes its bytes at the place its predecessors leave it. */
  lemma {:induction false} ConcatPlaces(parts: Parts, n: nat, i: nat)
    requires i < n && Part(i) in parts
    ensures |Concat(parts, i)| + |parts[Part(i)]| <= |Concat(parts, n)|
    ensures Concat(parts, n)[|Concat(parts, i)|..|Concat(parts, i)| + |parts[Part(i)]|] == parts[Part(i)]
  {
    if i < n - 1 {
      ConcatPlaces(parts, n - 1, i);
    }
  }
}
