/** Content verification of an archive's manifests (agent_files/cli/vexfs_archive.cpp).

    The verifier walks a manifest's chunk rows in order and compares running totals. Proved here: it
    accepts exactly the canonical split of a file into 65536-byte chunks with matching checksums, so
    a byte's chunk and position follow from its offset alone.
 */
module ArchiveChunks {
  import opened Basics
  import opened ArchivePackage

  const CHUNK: int := 65536
  const HEX_LENGTH: int := 64

  datatype Row = Row(chunkNo: int, chunk: Chunk)

  type Sha = seq<Byte> -> string
  type ManifestSum = (int, seq<(int, string)>) -> string

  ghost function Pieces(fileSize: int): int
    requires fileSize >= 0
  {
    (fileSize + CHUNK - 1) / CHUNK
  }

  /** The size of chunk `i` of a file: full, except for what is left at the end. */
  ghost function PieceSize(fileSize: int, i: int): int {
    if fileSize - CHUNK * i < CHUNK then fileSize - CHUNK * i else CHUNK
  }

  /** The row is chunk `i` of a file of this size, and its content matches its checksum. */
  ghost predicate IsPiece(fileSize: int, sha: Sha, i: int, row: Row) {
    && row.chunkNo == i
    && row.chunk.size == PieceSize(fileSize, i) == |row.chunk.content|
    && |row.chunk.checksum| == HEX_LENGTH && sha(row.chunk.content) == row.chunk.checksum
  }

  ghost function Sums(rows: seq<Row>): seq<(int, string)> {
    if rows == [] then []
    else Sums(rows[..|rows| - 1]) + [(rows[|rows| - 1].chunk.size, rows[|rows| - 1].chunk.checksum)]
  }

  /** The canonical split: as many chunks as the size needs, numbered from 0, each of its own size. */
  ghost predicate Canonical(m: Manifest, sha: Sha, sum: ManifestSum, rows: seq<Row>) {
    && m.fileSize >= 0 && |m.checksum| == HEX_LENGTH
    && |rows| == m.chunkCount == Pieces(m.fileSize)
    && (forall i :: 0 <= i < |rows| ==> IsPiece(m.fileSize, sha, i, rows[i]))
    && sum(m.fileSize, Sums(rows)) == m.checksum
  }

  lemma PieceTotals(fileSize: int, i: int)
    requires 0 <= i && 0 <= fileSize
    ensures i < Pieces(fileSize) <==> PieceSize(fileSize, i) > 0
    ensures PieceSize(fileSize, i) == CHUNK ==> CHUNK * (i + 1) <= fileSize
    ensures 0 < PieceSize(fileSize, i) < CHUNK ==> i + 1 == Pieces(fileSize)
    ensures CHUNK * i >= fileSize ==> Pieces(fileSize) <= i
  {
  }

  /** The running total after `i` pieces: full chunks, capped at the file size. */
  ghost function Total(fileSize: int, i: int): int {
    if CHUNK * i < fileSize then CHUNK * i else fileSize
  }

  /** The chunk loop of the verifier for one manifest, over its rows in chunk order. */
  method VerifyManifest(m: Manifest, sha: Sha, sum: ManifestSum, rows: seq<Row>) returns (ok: bool)
    ensures ok <==> Canonical(m, sha, sum, rows)
  {
    if m.fileSize < 0 || m.chunkCount < 0 || |m.checksum| != HEX_LENGTH {
      return false;
    }
    var total, chunkNo := 0, 0;
    var sums := [];
    while chunkNo < |rows|
      invariant 0 <= chunkNo <= |rows| && chunkNo <= Pieces(m.fileSize)
      invariant total == Total(m.fileSize, chunkNo)
      invariant sums == Sums(rows[..chunkNo])
      invariant forall i :: 0 <= i < chunkNo ==> IsPiece(m.fileSize, sha, i, rows[i])
    {
      var row := rows[chunkNo];
      var expected := if CHUNK < m.fileSize - total then CHUNK else m.fileSize - total;
      PieceTotals(m.fileSize, chunkNo);
      if row.chunkNo != chunkNo || expected <= 0 || row.chunk.size != expected ||
         |row.chunk.content| != row.chunk.size || |row.chunk.checksum| != HEX_LENGTH {
        assert !IsPiece(m.fileSize, sha, chunkNo, rows[chunkNo]) || Pieces(m.fileSize) <= chunkNo;
        return false;
      }
      if sha(row.chunk.content) != row.chunk.checksum {
        assert !IsPiece(m.fileSize, sha, chunkNo, rows[chunkNo]);
        return false;
      }
      assert rows[..chunkNo + 1][..chunkNo] == rows[..chunkNo];
      sums := sums + [(row.chunk.size, row.chunk.checksum)];
      total := total + row.chunk.size;
      chunkNo := chunkNo + 1;
    }
    assert rows[..|rows|] == rows;
    PieceTotals(m.fileSize, chunkNo);
    return total == m.fileSize && chunkNo == m.chunkCount && sum(m.fileSize, sums) == m.checksum;
  }

  // ----- Reading a verified file -----

  ghost function Content(rows: seq<Row>): seq<Byte> {
    if rows == [] then [] else Content(rows[..|rows| - 1]) + rows[|rows| - 1].chunk.content
  }

  lemma {:induction false} PrefixContent(fileSize: int, sha: Sha, rows: seq<Row>, n: nat)
    requires fileSize >= 0 && n <= |rows| <= Pieces(fileSize)
    requires forall i :: 0 <= i < |rows| ==> IsPiece(fileSize, sha, i, rows[i])
    ensures |Content(rows[..n])| == Total(fileSize, n)
    ensures forall o :: 0 <= o < Total(fileSize, n) ==>
              o / CHUNK < n && o % CHUNK < |rows[o / CHUNK].chunk.content| &&
              Content(rows[..n])[o] == rows[o / CHUNK].chunk.content[o % CHUNK]
  {
    if n > 0 {
      PrefixContent(fileSize, sha, rows, n - 1);
      assert rows[..n][..n - 1] == rows[..n - 1];
      PieceTotals(fileSize, n - 1);
      var last := rows[n - 1].chunk.content;
      assert IsPiece(fileSize, sha, n - 1, rows[n - 1]);
      assert Total(fileSize, n - 1) == CHUNK * (n - 1);
      forall o | 0 <= o < Total(fileSize, n)
        ensures o / CHUNK < n && o % CHUNK < |rows[o / CHUNK].chunk.content| &&
                Content(rows[..n])[o] == rows[o / CHUNK].chunk.content[o % CHUNK]
      {
        if o >= CHUNK * (n - 1) {
          assert o / CHUNK == n - 1 && o % CHUNK == o - CHUNK * (n - 1);
        }
      }
    }
  }

  /** Byte `o` of a verified file is byte `o % 65536` of chunk `o / 65536`, and the chunks add up to
      the file size. */
  lemma ByteAddress(m: Manifest, sha: Sha, sum: ManifestSum, rows: seq<Row>)
    requires Canonical(m, sha, sum, rows)
    ensures |Content(rows)| == m.fileSize
    ensures forall o :: 0 <= o < m.fileSize ==>
              o / CHUNK < |rows| && o % CHUNK < |rows[o / CHUNK].chunk.content| &&
              Content(rows)[o] == rows[o / CHUNK].chunk.content[o % CHUNK]
  {
    PrefixContent(m.fileSize, sha, rows, |rows|);
    assert rows[..|rows|] == rows;
    PieceTotals(m.fileSize, |rows|);
  }

  // ----- All manifests of a package -----

  /** `rows` are the chunk rows of manifest `m`, ordered by chunk number. */
  ghost predicate RowsOf(p: Package, m: Id, rows: seq<Row>) {
    && (forall i :: 0 <= i < |rows| ==>
          ChunkKey(m, rows[i].chunkNo) in p.chunks && p.chunks[ChunkKey(m, rows[i].chunkNo)] == rows[i].chunk)
    && (forall i, j :: 0 <= i < j < |rows| ==> rows[i].chunkNo < rows[j].chunkNo)
    && (forall k :: k in p.chunks && k.manifest == m ==> exists i :: 0 <= i < |rows| && rows[i].chunkNo == k.chunkNo)
  }

  /** The package's chunk table holds exactly the pieces of manifest `m`. */
  ghost predicate PiecesInTable(p: Package, sha: Sha, m: Id)
    requires m in p.manifests
  {
    var manifest := p.manifests[m];
    && manifest.fileSize >= 0 && |manifest.checksum| == HEX_LENGTH
    && manifest.chunkCount == Pieces(manifest.fileSize)
    && (forall k :: k in p.chunks && k.manifest == m ==> 0 <= k.chunkNo < manifest.chunkCount)
    && (forall i :: 0 <= i < manifest.chunkCount ==>
          ChunkKey(m, i) in p.chunks && IsPiece(manifest.fileSize, sha, i, Row(i, p.chunks[ChunkKey(m, i)])))
  }

  lemma CanonicalFillsTable(p: Package, sha: Sha, sum: ManifestSum, m: Id, rows: seq<Row>)
    requires m in p.manifests && RowsOf(p, m, rows) && Canonical(p.manifests[m], sha, sum, rows)
    ensures PiecesInTable(p, sha, m)
  {
    forall i | 0 <= i < |rows|
      ensures ChunkKey(m, i) in p.chunks && Row(i, p.chunks[ChunkKey(m, i)]) == rows[i]
    {
      assert IsPiece(p.manifests[m].fileSize, sha, i, rows[i]);
    }
    forall k | k in p.chunks && k.manifest == m ensures 0 <= k.chunkNo < p.manifests[m].chunkCount {
      var i :| 0 <= i < |rows| && rows[i].chunkNo == k.chunkNo;
      assert IsPiece(p.manifests[m].fileSize, sha, i, rows[i]);
    }
  }

  /** Every manifest passed the content check. */
  ghost predicate ContentOk(p: Package, sha: Sha) {
    && (forall m :: m in p.manifests ==> PiecesInTable(p, sha, m))
    && (forall k :: k in p.chunks ==> k.manifest in p.manifests)
  }

  lemma ChunkMatches(p: Package, sha: Sha, k: ChunkKey)
    requires ContentOk(p, sha) && k in p.chunks
    ensures |p.chunks[k].content| == p.chunks[k].size && sha(p.chunks[k].content) == p.chunks[k].checksum
  {
    var i := k.chunkNo;
    assert PiecesInTable(p, sha, k.manifest);
    assert ChunkKey(k.manifest, i) == k;
    assert IsPiece(p.manifests[k.manifest].fileSize, sha, i, Row(i, p.chunks[k]));
  }
}
