/** The metadata helpers of `TorrentInfo` (`src/bittorent.rs`): splitting the
    `pieces` string into SHA-1 digests, and the total length. */
module Bittorrent {
  import opened Bytes
  import opened Wrappers

  datatype FileEntry = FileEntry(length: u64, path: seq<string>)

  /** The `info` dictionary of a torrent. */
  datatype TorrentInfo = TorrentInfo(
    name: string,
    length: u64,
    pieceLength: u64,
    pieces: seq<byte>,
    files: Option<seq<FileEntry>>)

  datatype InfoError = InvalidPiecesLength  // `pieces` is not a whole number of digests

  /** `chunks_exact(20)`, each chunk copied into a digest; a trailing
      partial chunk is dropped. */
  function Chunks20(p: seq<byte>): seq<Bytes20>
    decreases |p|
  {
    if |p| < 20 then [] else [p[..20]] + Chunks20(p[20..])
  }

  /** The digests laid end to end. */
  function Concat(hashes: seq<Bytes20>): seq<byte>
  {
    if hashes == [] then [] else hashes[0] + Concat(hashes[1..])
  }

  /** `TorrentInfo::piece_hashes`. */
  function PieceHashes(info: TorrentInfo): (r: Result<seq<Bytes20>, InfoError>)
    ensures r.Err? <==> |info.pieces| % 20 != 0
    ensures r.Err? ==> r.error == InvalidPiecesLength
    ensures r.Ok? ==> |r.value| == |info.pieces| / 20
    ensures r.Ok? ==> forall i :: 0 <= i < |r.value| ==> r.value[i] == info.pieces[20 * i..20 * i + 20]
    ensures r.Ok? ==> Concat(r.value) == info.pieces
  {
    if |info.pieces| % 20 != 0 then Err(InvalidPiecesLength)
    else
      Chunks20Meaning(info.pieces);
      ConcatChunks20(info.pieces);
      Ok(Chunks20(info.pieces))
  }

  /** `Chunks20` yields `|p| / 20` digests, digest `i` read from bytes
      [20i, 20i + 20). */
  lemma {:induction false} Chunks20Meaning(p: seq<byte>)
    ensures |Chunks20(p)| == |p| / 20
    ensures forall i :: 0 <= i < |p| / 20 ==> Chunks20(p)[i] == p[20 * i..20 * i + 20]
    decreases |p|
  {
    if |p| >= 20 {
      Chunks20Meaning(p[20..]);
      forall i | 1 <= i < |p| / 20
        ensures Chunks20(p)[i] == p[20 * i..20 * i + 20]
      {
        assert p[20..][20 * (i - 1)..20 * (i - 1) + 20] == p[20 * i..20 * i + 20];
      }
    }
  }

  /** Splitting a whole number of digests and concatenating them gives the
      bytes back. */
  lemma {:induction false} ConcatChunks20(p: seq<byte>)
    requires |p| % 20 == 0
    ensures Concat(Chunks20(p)) == p
    decreases |p|
  {
    if |p| >= 20 {
      ConcatChunks20(p[20..]);
      assert p[..20] + p[20..] == p;
    }
  }

  /** Concatenating digests and splitting them again gives the digests
      back: `piece_hashes` inverts the layout of the `pieces` string. */
  lemma {:induction false} PieceHashesOfConcat(info: TorrentInfo, hashes: seq<Bytes20>)
    requires info.pieces == Concat(hashes)
    ensures |info.pieces| == 20 * |hashes|
    ensures PieceHashes(info) == Ok(hashes)
  {
    Chunks20OfConcat(hashes);
  }

  lemma {:induction false} Chunks20OfConcat(hashes: seq<Bytes20>)
    ensures |Concat(hashes)| == 20 * |hashes|
    ensures Chunks20(Concat(hashes)) == hashes
  {
    if hashes != [] {
      Chunks20OfConcat(hashes[1..]);
      var c := Concat(hashes);
      assert c[..20] == hashes[0];
      assert c[20..] == Concat(hashes[1..]);
      assert [hashes[0]] + hashes[1..] == hashes;
    }
  }

  // ---------------------------------------------------------------------
  // total_length
  // ---------------------------------------------------------------------

  /** The sum of the file lengths. */
  function FilesLength(files: seq<FileEntry>): nat
  {
    if files == [] then 0 else files[0].length + FilesLength(files[1..])
  }

  /** `if let Some(len) = scrutinee { len } else { otherwise }`. */
  function IfLetSome(scrutinee: Option<u64>, otherwise: u64): u64
  {
    match scrutinee
    case Some(len) => len
    case None => otherwise
  }

  /** The `else` branch of `total_length`: the files' lengths summed in
      `u64` (wrapping, as a release build does), or 0 without a file list. */
  function FilesTotal(files: Option<seq<FileEntry>>): u64
  {
    match files
    case None => 0
    case Some(fs) => FilesLength(fs) % 0x1_0000_0000_0000_0000
  }

  /** `TorrentInfo::total_length` as written: its scrutinee is
      `Some(self.length)`, which always matches. */
  function TotalLength(info: TorrentInfo): (n: u64)
    ensures n == info.length
  {
    IfLetSome(Some(info.length), FilesTotal(info.files))
  }

  /** `total_length` is the `length` field whatever `files` holds. */
  lemma TotalLengthIsLength(info: TorrentInfo, files: Option<seq<FileEntry>>)
    ensures TotalLength(info) == info.length
    ensures TotalLength(info.(files := files)) == TotalLength(info)
  {
  }

  /** For a multi-file torrent, whose `length` key is absent and so
      defaults to 0, `total_length` reports 0 bytes for a torrent of one
      5-byte file. */
  lemma TotalLengthOfMultiFile()
    ensures var info := TorrentInfo("t", 0, 0x4000, [], Some([FileEntry(5, ["a"])]));
      TotalLength(info) == 0 && FilesLength(info.files.value) == 5
  {
    var fs := [FileEntry(5, ["a"])];
    assert fs[1..] == [];
  }

  /** The total length evidently intended at bittorent.rs:43-52: the
      `length` field of a single-file torrent, the sum of the file lengths
      of a multi-file one. */
  function TotalLengthIntended(info: TorrentInfo): nat
  {
    match info.files
    case None => info.length
    case Some(fs) => FilesLength(fs)
  }

  /** The intended total agrees with `total_length` on single-file
      torrents, counts every file of a multi-file one (the total over a
      file list split in two is the sum of the two totals), and gives the
      5 bytes of the one-file example. */
  lemma TotalLengthIntendedMeaning(info: TorrentInfo, a: seq<FileEntry>, b: seq<FileEntry>)
    ensures info.files.None? ==> TotalLengthIntended(info) == TotalLength(info) == info.length
    ensures TotalLengthIntended(info.(files := Some(a + b)))
         == TotalLengthIntended(info.(files := Some(a))) + TotalLengthIntended(info.(files := Some(b)))
    ensures TotalLengthIntended(TorrentInfo("t", 0, 0x4000, [], Some([FileEntry(5, ["a"])]))) == 5
  {
    FilesLengthAppend(a, b);
    var fs := [FileEntry(5, ["a"])];
    assert fs[1..] == [];
  }

  lemma {:induction false} FilesLengthAppend(a: seq<FileEntry>, b: seq<FileEntry>)
    ensures FilesLength(a + b) == FilesLength(a) + FilesLength(b)
  {
    if a != [] {
      assert (a + b)[1..] == a[1..] + b;
      FilesLengthAppend(a[1..], b);
    } else {
      assert a + b == b;
    }
  }
}
