/**
 Upserting chunks into the vector store (internal/indexer/indexer.go), with the
 store as a map from point ids to points and the embedder as a pure function:
 why at-least-once execution and re-ingestion leave the same store.
 */
module Indexing {
  import opened Codec
  import opened Chunking
  import PointId
  import PointDistance

  type Vector = seq<real>

  datatype Chunk = Chunk(docId: seq<byte>, chunkId: seq<byte>, title: string, text: string)

  datatype Point = Point(vector: Vector, docId: seq<byte>, title: string, text: string)

  type Store = map<nat, Point>

  /** The embedder: a vector for a chunk id and its text. */
  type Embedder = (seq<byte>, string) -> Vector

  function IdOf(c: Chunk): nat {
    PointId.HashFrom(PointId.OFFSET, c.chunkId)
  }

  function PointOf(embed: Embedder, c: Chunk): Point {
    Point(embed(c.chunkId, c.text), c.docId, c.title, c.text)
  }

  function Upsert(m: Store, embed: Embedder, c: Chunk): Store {
    m[IdOf(c) := PointOf(embed, c)]
  }

  function UpsertAll(m: Store, embed: Embedder, chunks: seq<Chunk>): Store
    decreases |chunks|
  {
    if chunks == [] then m
    else Upsert(UpsertAll(m, embed, chunks[..|chunks| - 1]), embed, chunks[|chunks| - 1])
  }

  /** Different chunks have different point ids. */
  ghost predicate DistinctIds(chunks: set<Chunk>) {
    forall c, d :: c in chunks && d in chunks && IdOf(c) == IdOf(d) ==> c == d
  }

  // ---- At least once equals exactly once ----

  /** With distinct ids the store ends up holding every chunk's own point, and is unchanged elsewhere. */
  lemma {:induction false} UpsertAllWrites(m: Store, embed: Embedder, chunks: seq<Chunk>, all: set<Chunk>, id: nat)
    requires DistinctIds(all) && forall c :: c in chunks ==> c in all
    ensures var r := UpsertAll(m, embed, chunks);
            && (forall c :: c in chunks && IdOf(c) == id ==> id in r && r[id] == PointOf(embed, c))
            && ((forall c :: c in chunks ==> IdOf(c) != id) ==> (id in r <==> id in m) && (id in m ==> r[id] == m[id]))
    decreases |chunks|
  {
    if chunks != [] {
      var last, before := chunks[|chunks| - 1], chunks[..|chunks| - 1];
      assert chunks == before + [last];
      UpsertAllWrites(m, embed, before, all, id);
    }
  }

  /** Every order and every duplication of upserts that covers the same chunks leaves the same store. */
  lemma AtLeastOnceIsExactlyOnce(m: Store, embed: Embedder, xs: seq<Chunk>, ys: seq<Chunk>)
    requires (set c | c in xs) == (set c | c in ys)
    requires DistinctIds(set c | c in xs)
    ensures UpsertAll(m, embed, xs) == UpsertAll(m, embed, ys)
  {
    var all := set c | c in xs;
    var r, s := UpsertAll(m, embed, xs), UpsertAll(m, embed, ys);
    assert forall c :: c in xs <==> c in all;
    assert forall c :: c in ys <==> c in all;
    forall id: nat
      ensures id in r <==> id in s
      ensures id in r ==> r[id] == s[id]
    {
      UpsertAllWrites(m, embed, xs, all, id);
      UpsertAllWrites(m, embed, ys, all, id);
      if exists c :: c in xs && IdOf(c) == id {
        var c :| c in xs && IdOf(c) == id;
        assert c in ys;
      }
    }
    assert r == s;
  }

  // ---- Re-ingestion ----

  /** The last write to an id wins, so what m held there before does not matter. */
  lemma {:induction false} LastWriteWins(m1: Store, m2: Store, embed: Embedder, chunks: seq<Chunk>, id: nat)
    requires exists c :: c in chunks && IdOf(c) == id
    ensures var r, s := UpsertAll(m1, embed, chunks), UpsertAll(m2, embed, chunks);
            id in r && id in s && r[id] == s[id]
    decreases |chunks|
  {
    var last, before := chunks[|chunks| - 1], chunks[..|chunks| - 1];
    assert chunks == before + [last];
    if IdOf(last) != id {
      LastWriteWins(m1, m2, embed, before, id);
    }
  }

  lemma {:induction false} UntouchedStays(m: Store, embed: Embedder, chunks: seq<Chunk>, id: nat)
    requires forall c :: c in chunks ==> IdOf(c) != id
    ensures id in UpsertAll(m, embed, chunks) <==> id in m
    ensures id in m ==> UpsertAll(m, embed, chunks)[id] == m[id]
    decreases |chunks|
  {
    if chunks != [] {
      var last, before := chunks[|chunks| - 1], chunks[..|chunks| - 1];
      assert chunks == before + [last];
      UntouchedStays(m, embed, before, id);
    }
  }

  /** A full pass after a partial one leaves what a full pass alone leaves, even if ids collide. */
  lemma RetryIsExactlyOnce(m: Store, embed: Embedder, chunks: seq<Chunk>, k: nat)
    requires k <= |chunks|
    ensures UpsertAll(UpsertAll(m, embed, chunks[..k]), embed, chunks) == UpsertAll(m, embed, chunks)
  {
    var half := UpsertAll(m, embed, chunks[..k]);
    var r, s := UpsertAll(m, embed, chunks), UpsertAll(half, embed, chunks);
    forall id: nat
      ensures id in s <==> id in r
      ensures id in r ==> s[id] == r[id]
    {
      if exists c :: c in chunks && IdOf(c) == id {
        LastWriteWins(m, half, embed, chunks, id);
      } else {
        UntouchedStays(m, embed, chunks, id);
        UntouchedStays(half, embed, chunks, id);
        UntouchedStays(m, embed, chunks[..k], id);
      }
    }
    assert s == r;
  }

  /** Upserting the same sequence again changes nothing, even if ids collide. */
  lemma ReingestionIsIdempotent(m: Store, embed: Embedder, chunks: seq<Chunk>)
    ensures UpsertAll(UpsertAll(m, embed, chunks), embed, chunks) == UpsertAll(m, embed, chunks)
  {
    assert chunks[..|chunks|] == chunks;
    RetryIsExactlyOnce(m, embed, chunks, |chunks|);
  }

  // ---- Ingesting a document ----

  function Digits(n: nat): seq<byte> {
    if n < 10 then [48 + n] else Digits(n / 10) + [48 + n % 10]
  }

  /** docID + "-" + i. */
  function ChunkId(docId: seq<byte>, i: nat): seq<byte> {
    docId + [45] + Digits(i)
  }

  /** The chunks of a document, in order. */
  function DocumentChunks(docId: seq<byte>, title: string, passages: seq<string>): seq<Chunk> {
    seq(|passages|, i requires 0 <= i < |passages| => Chunk(docId, ChunkId(docId, i), title, passages[i]))
  }

  /** How one passage fares: written and confirmed, failed before the store changed, or failed after it changed. */
  datatype Attempt = Confirmed | Failed(landed: bool)

  /** How many chunks a run of the loop has written: those confirmed, and one more if the failing upsert landed. */
  ghost function Landed(attempt: nat -> Attempt, confirmed: nat, total: nat): (k: nat)
    requires confirmed <= total
    ensures confirmed <= k <= total
  {
    if confirmed < total && attempt(confirmed) == Failed(true) then confirmed + 1 else confirmed
  }

  class Index {
    var points: Store

    /**
     Embedding and upserting one passage after the other; `attempt(i)` says how
     passage i fares. The ids confirmed so far are returned even on a failure.
     */
    method IngestDocument(embed: Embedder, attempt: nat -> Attempt, docId: seq<byte>, title: string, text: string, chunkSize: int)
        returns (chunkIds: seq<seq<byte>>, ok: bool)
      requires |text| <= MAX_INT && chunkSize <= MAX_INT
      modifies this
      ensures var chunks := DocumentChunks(docId, title, Chunks(text, chunkSize));
              && |chunkIds| <= |chunks|
              && (forall i :: 0 <= i < |chunkIds| ==> chunkIds[i] == chunks[i].chunkId && attempt(i) == Confirmed)
              && points == UpsertAll(old(points), embed, chunks[..Landed(attempt, |chunkIds|, |chunks|)])
              && (ok <==> chunks != [] && |chunkIds| == |chunks|)
              && (!ok && chunks != [] ==> attempt(|chunkIds|).Failed?)
    {
      var passages := ChunkText(text, chunkSize);
      ghost var chunks := DocumentChunks(docId, title, passages);
      chunkIds := [];
      assert chunks[..0] == [];
      if |passages| == 0 {
        return [], false;
      }
      for i := 0 to |passages|
        invariant |chunkIds| == i
        invariant forall j :: 0 <= j < i ==> chunkIds[j] == chunks[j].chunkId && attempt(j) == Confirmed
        invariant points == UpsertAll(old(points), embed, chunks[..i])
      {
        var chunkId := ChunkId(docId, i);
        var outcome := attempt(i);
        if outcome == Failed(false) {
          return chunkIds, false;
        }
        var c := Chunk(docId, chunkId, title, passages[i]);
        assert chunks[i] == c && chunks[..i + 1][..i] == chunks[..i];
        points := Upsert(points, embed, c);
        if outcome.Failed? {
          return chunkIds, false;
        }
        chunkIds := chunkIds + [chunkId];
      }
      return chunkIds, true;
    }
  }

  /**
   Ingesting an unchanged document again: whatever became of the first attempt,
   a second that succeeds leaves the store as one successful attempt would have.
   */
  method IngestTwice(index: Index, embed: Embedder, first: nat -> Attempt, second: nat -> Attempt,
                     docId: seq<byte>, title: string, text: string, chunkSize: int)
      returns (ok: bool)
    requires |text| <= MAX_INT && chunkSize <= MAX_INT
    modifies index
    ensures ok <==> Chunks(text, chunkSize) != [] && forall i :: 0 <= i < |Chunks(text, chunkSize)| ==> second(i) == Confirmed
    ensures ok ==>
              index.points == UpsertAll(old(index.points), embed, DocumentChunks(docId, title, Chunks(text, chunkSize)))
  {
    ghost var chunks := DocumentChunks(docId, title, Chunks(text, chunkSize));
    var ids, _ := index.IngestDocument(embed, first, docId, title, text, chunkSize);
    ghost var k := Landed(first, |ids|, |chunks|);
    var again, ok2 := index.IngestDocument(embed, second, docId, title, text, chunkSize);
    ok := ok2;
    assert ok ==> chunks[..Landed(second, |again|, |chunks|)] == chunks;
    RetryIsExactlyOnce(old(index.points), embed, chunks, k);
  }

  // ---- Chunk ids ----

  lemma {:induction false} DigitsAreInjective(m: nat, n: nat)
    requires Digits(m) == Digits(n)
    ensures m == n
    decreases m
  {
    var a, b := Digits(m), Digits(n);
    assert a[|a| - 1] == 48 + m % 10 && b[|b| - 1] == 48 + n % 10;
    DigitsNotEmpty(m / 10);
    DigitsNotEmpty(n / 10);
    if m >= 10 && n >= 10 {
      assert Digits(m / 10) == a[..|a| - 1] == Digits(n / 10);
      DigitsAreInjective(m / 10, n / 10);
    }
  }

  /** The number that decimal digits stand for, read from the left. */
  ghost function ReadDecimal(ds: seq<byte>): int {
    if ds == [] then 0 else 10 * ReadDecimal(ds[..|ds| - 1]) + (ds[|ds| - 1] as int - 48)
  }

  /** The digits of a number read as that number, and do not start with a zero unless it is zero. */
  lemma {:induction false} DigitsRead(n: nat)
    ensures ReadDecimal(Digits(n)) == n
    ensures |Digits(n)| >= 1 && (n > 0 ==> Digits(n)[0] != 48)
    decreases n
  {
    if n < 10 {
      assert Digits(n)[..0] == [];
      assert ReadDecimal([]) == 0;
    } else {
      DigitsRead(n / 10);
      var ds := Digits(n);
      assert ds[..|ds| - 1] == Digits(n / 10);
    }
  }

  lemma DigitsNotEmpty(n: nat)
    ensures |Digits(n)| >= 1
  {
  }

  /** Within a document, different positions have different chunk ids. */
  lemma ChunkIdsDiffer(docId: seq<byte>, i: nat, j: nat)
    requires ChunkId(docId, i) == ChunkId(docId, j)
    ensures i == j
  {
    assert Digits(i) == ChunkId(docId, i)[|docId| + 1..];
    assert Digits(j) == ChunkId(docId, j)[|docId| + 1..];
    DigitsAreInjective(i, j);
  }

  lemma {:induction false} DigitsAreDigits(n: nat)
    ensures PointDistance.AllDigits(Digits(n))
    ensures |Digits(n)| == if n < 10 then 1 else 1 + |Digits(n / 10)|
    decreases n
  {
    if n >= 10 {
      DigitsAreDigits(n / 10);
    }
  }

  /**
   Two chunks of a document whose numbers have equally many digits, at most four,
   never share a point id: so neither do the chunks 0 to 9, nor 10 to 99, nor 100
   to 999, nor 1000 to 9999 among themselves.
   */
  lemma SameLengthChunksNeverCollide(docId: seq<byte>, i: nat, j: nat)
    requires i != j && |Digits(i)| == |Digits(j)| <= 4
    ensures PointId.HashFrom(PointId.OFFSET, ChunkId(docId, i)) != PointId.HashFrom(PointId.OFFSET, ChunkId(docId, j))
  {
    DigitsAreDigits(i);
    DigitsAreDigits(j);
    if Digits(i) == Digits(j) {
      DigitsAreInjective(i, j);
    }
    PointDistance.FourDigitsNeverCollide(PointId.OFFSET, docId + [45], Digits(i), Digits(j));
  }

  /** The chunks of a document of at most ten never share a point id, so at-least-once applies to it. */
  lemma TenChunksNeverCollide(docId: seq<byte>, title: string, passages: seq<string>)
    requires |passages| <= 10
    ensures DistinctIds(set c | c in DocumentChunks(docId, title, passages))
  {
    var chunks := DocumentChunks(docId, title, passages);
    forall i, j | 0 <= i < j < |chunks|
      ensures IdOf(chunks[i]) != IdOf(chunks[j])
    {
      SameLengthChunksNeverCollide(docId, i, j);
    }
  }

  /**
   What a document leaves in the store, field by field: under the hash of docID,
   "-" and the decimal number i, passage i with its title and its own vector.
   */
  lemma DocumentIsStored(m: Store, embed: Embedder, docId: seq<byte>, title: string, passages: seq<string>, i: nat)
    requires i < |passages| && DistinctIds(set c | c in DocumentChunks(docId, title, passages))
    ensures var r := UpsertAll(m, embed, DocumentChunks(docId, title, passages));
            var chunkId := docId + [45] + Digits(i);
            var id := PointId.HashFrom(PointId.OFFSET, chunkId);
            && id in r
            && r[id].vector == embed(chunkId, passages[i])
            && r[id].docId == docId && r[id].title == title && r[id].text == passages[i]
  {
    var chunks := DocumentChunks(docId, title, passages);
    var all := set c | c in chunks;
    assert chunks[i] in chunks;
    UpsertAllWrites(m, embed, chunks, all, IdOf(chunks[i]));
  }
}
