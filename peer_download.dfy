/** `download_first_piece` in `src/Peers/peer.rs`: send `interested`, wait
    for unchoke and for piece 0 to be advertised, request piece 0 in 16 KiB
    blocks, copy `piece` payloads into a buffer until enough bytes have been
    counted, then compare the buffer's SHA-1 with the expected digest. The
    stream is the sequence of bytes the peer sends; SHA-1 is a parameter. */
module PeerDownload {
  import opened Bytes
  import opened Wrappers
  import opened PeerWire

  /** The block size of the request loop, 16 KiB. */
  const BlockSize: nat := 16 * 1024

  datatype DownloadError =
    | DisconnectedBeforeUnchoke   // "peer disconnected before unchoke/bitfield"
    | DisconnectedWhileDownloading
    | FrameTruncated              // a body shorter than its length prefix
    | HashMismatch                // "piece 0 hash mismatch"

  /** One message as `read_msg` yields it. */
  datatype Msg = Msg(id: byte, payload: seq<byte>)

  /** `stream` decodes, one `read_msg` after another, into `msgs` and leaves
      `rest` unread. */
  ghost predicate Consumes(stream: seq<byte>, msgs: seq<Msg>, rest: seq<byte>)
    decreases |msgs|
  {
    if msgs == [] then rest == stream
    else match ReadMsg(stream)
      case Frame(id, payload, after) => msgs[0] == Msg(id, payload) && Consumes(after, msgs[1..], rest)
      case _ => false
  }

  /** Reading one more frame extends what has been consumed. */
  lemma {:induction false} ConsumesSnoc(stream: seq<byte>, msgs: seq<Msg>, rest: seq<byte>, id: byte, payload: seq<byte>, after: seq<byte>)
    requires Consumes(stream, msgs, rest)
    requires ReadMsg(rest) == Frame(id, payload, after)
    ensures Consumes(stream, msgs + [Msg(id, payload)], after)
    decreases |msgs|
  {
    if msgs == [] {
      assert [Msg(id, payload)][1..] == [];
    } else {
      var next := ReadMsg(stream);
      assert (msgs + [Msg(id, payload)])[1..] == msgs[1..] + [Msg(id, payload)];
      ConsumesSnoc(next.rest, msgs[1..], rest, id, payload, after);
    }
  }

  // ---------------------------------------------------------------------
  // Waiting for unchoke and for piece 0
  // ---------------------------------------------------------------------

  /** The two flags of the wait loop. */
  datatype WaitState = WaitState(choked: bool, havePiece0: bool)

  const Initial := WaitState(true, false)

  predicate Ready(s: WaitState)
  {
    !s.choked && s.havePiece0
  }

  /** A `have` for index 0, or a bitfield whose first byte has its most
      significant bit (piece 0) set. */
  predicate AnnouncesPiece0(m: Msg)
  {
    || (m.id == Have && |m.payload| >= 4 && BigEndian(m.payload[..4]) == 0)
    || (m.id == Bitfield && |m.payload| > 0 && m.payload[0] >= 0x80)
  }

  /** The effect of one message on the flags (the `match id` of the loop):
      only `choke` and `unchoke` move the choke flag, only a message that
      announces piece 0 sets the other, and nothing clears it. */
  function Observe(s: WaitState, m: Msg): (r: WaitState)
    ensures r.choked != s.choked ==> m.id == Choke || m.id == Unchoke
    ensures m.id == Choke ==> r.choked
    ensures m.id == Unchoke ==> !r.choked
    ensures s.havePiece0 ==> r.havePiece0
    ensures r.havePiece0 != s.havePiece0 ==> AnnouncesPiece0(m)
  {
    if m.id == Choke then s.(choked := true)
    else if m.id == Unchoke then s.(choked := false)
    else if AnnouncesPiece0(m) then s.(havePiece0 := true)
    else s
  }

  /** The flags after the messages `msgs`, starting from choked and without
      piece 0. */
  function ObserveAll(msgs: seq<Msg>): WaitState
  {
    if msgs == [] then Initial else Observe(ObserveAll(msgs[..|msgs| - 1]), msgs[|msgs| - 1])
  }

  /** After any messages, the peer is unchoked exactly when some `unchoke`
      was seen with no `choke` after it, and piece 0 is known exactly when
      some message announced it. */
  lemma {:induction false} ObserveAllMeaning(msgs: seq<Msg>)
    ensures !ObserveAll(msgs).choked <==>
      exists i :: 0 <= i < |msgs| && msgs[i].id == Unchoke
        && forall j :: i < j < |msgs| ==> msgs[j].id != Choke
    ensures ObserveAll(msgs).havePiece0 <==> exists i :: 0 <= i < |msgs| && AnnouncesPiece0(msgs[i])
  {
    if msgs != [] {
      var front, last := msgs[..|msgs| - 1], msgs[|msgs| - 1];
      ObserveAllMeaning(front);
      assert forall i :: 0 <= i < |front| ==> front[i] == msgs[i];
      if !ObserveAll(msgs).choked && last.id != Unchoke {
        var i :| 0 <= i < |front| && front[i].id == Unchoke
          && forall j :: i < j < |front| ==> front[j].id != Choke;
        assert msgs[i].id == Unchoke;
      }
      if last.id == Unchoke {
        assert msgs[|msgs| - 1].id == Unchoke;
      }
      if ObserveAll(msgs).havePiece0 && !AnnouncesPiece0(last) {
        var i :| 0 <= i < |front| && AnnouncesPiece0(front[i]);
        assert AnnouncesPiece0(msgs[i]);
      }
    }
  }

  /** `have_piece0` never reverts to false. */
  lemma HavePiece0Persists(msgs: seq<Msg>, more: seq<Msg>)
    requires ObserveAll(msgs).havePiece0
    ensures ObserveAll(msgs + more).havePiece0
  {
    ObserveAllMeaning(msgs);
    ObserveAllMeaning(msgs + more);
    var i :| 0 <= i < |msgs| && AnnouncesPiece0(msgs[i]);
    assert (msgs + more)[i] == msgs[i];
  }

  /** The first loop of `download_first_piece`. On success it has read the
      messages `seen` and stops right after the first one that leaves the
      peer unchoked with piece 0 known; the bytes after them are returned.
      It fails when the stream ends or a frame is truncated first. */
  method AwaitUnchoke(stream: seq<byte>)
    returns (r: Result<seq<byte>, DownloadError>, ghost seen: seq<Msg>, ghost unread: seq<byte>)
    ensures Consumes(stream, seen, unread)
    ensures forall k :: 0 <= k < |seen| ==> !Ready(ObserveAll(seen[..k]))
    ensures r.Ok? ==> r.value == unread && Ready(ObserveAll(seen))
    ensures r.Err? ==> !Ready(ObserveAll(seen))
    ensures r == Err(DisconnectedBeforeUnchoke) ==> ReadMsg(unread).Eof?
    ensures r == Err(FrameTruncated) ==> ReadMsg(unread).Truncated?
    ensures r.Err? ==> r.error in {DisconnectedBeforeUnchoke, FrameTruncated}
  {
    var choked, havePiece0 := true, false;
    var cur := stream;
    seen := [];
    while choked || !havePiece0
      invariant Consumes(stream, seen, cur)
      invariant WaitState(choked, havePiece0) == ObserveAll(seen)
      invariant forall k :: 0 <= k < |seen| ==> !Ready(ObserveAll(seen[..k]))
      decreases |cur|
    {
      var read := ReadMsg(cur);
      if read.Eof? {
        unread, r := cur, Err(DisconnectedBeforeUnchoke);
        return;
      } else if read.Truncated? {
        unread, r := cur, Err(FrameTruncated);
        return;
      }
      var id, payload := read.id, read.payload;
      if id == Choke {
        choked := true;
      } else if id == Unchoke {
        choked := false;
      } else if id == Have {
        if |payload| >= 4 {
          var idx := BigEndian(payload[..4]);
          if idx == 0 {
            havePiece0 := true;
          }
        }
      } else if id == Bitfield {
        // piece 0 is the most significant bit of the first byte
        if |payload| > 0 && payload[0] >= 0x80 {
          havePiece0 := true;
        }
      }
      ConsumesSnoc(stream, seen, cur, id, payload, read.rest);
      WaitStep(seen, Msg(id, payload));
      seen := seen + [Msg(id, payload)];
      cur := read.rest;
    }
    unread, r := cur, Ok(cur);
  }

  /** One more message while still waiting: the flags follow `Observe`, and
      no prefix of the longer sequence was ready. */
  lemma WaitStep(seen: seq<Msg>, m: Msg)
    requires forall k :: 0 <= k < |seen| ==> !Ready(ObserveAll(seen[..k]))
    requires !Ready(ObserveAll(seen))
    ensures ObserveAll(seen + [m]) == Observe(ObserveAll(seen), m)
    ensures forall k :: 0 <= k < |seen + [m]| ==> !Ready(ObserveAll((seen + [m])[..k]))
  {
    var longer := seen + [m];
    assert longer[..|longer| - 1] == seen;
    forall k | 0 <= k < |longer|
      ensures !Ready(ObserveAll(longer[..k]))
    {
      assert longer[..k] == seen[..k];
      if k == |seen| {
        assert seen[..k] == seen;
      }
    }
  }

  // ---------------------------------------------------------------------
  // Requesting piece 0
  // ---------------------------------------------------------------------

  /** The (piece index, offset, length) of one `request`. */
  datatype BlockRange = BlockRange(index: nat, begin: nat, length: nat)

  /** `min(piece_len, total_len)`: the length the source assumes for piece 0. */
  function PieceZeroLength(pieceLen: u64, totalLen: u64): nat
  {
    Min(pieceLen, totalLen)
  }

  /** ceil(len / 16384), the number of blocks of a piece of length `len`. */
  function BlockCount(len: nat): nat
  {
    (len + 0x3FFF) / 0x4000
  }

  /** `k` blocks are fewer than needed exactly when they cannot hold `len`
      bytes. */
  lemma BlockCountBound(len: nat, k: nat)
    ensures k <= BlockCount(len) <==> k == 0 || 0x4000 * (k - 1) < len
    ensures BlockCount(len) == k <==> 0x4000 * k >= len && (k == 0 || 0x4000 * (k - 1) < len)
  {
  }

  /** The blocks piece 0 is requested in: consecutive 16 KiB ranges from
      offset 0, the last one possibly shorter. */
  function BlockPlan(len: nat): seq<BlockRange>
  {
    seq(BlockCount(len), i requires 0 <= i < BlockCount(len) =>
      BlockCountBound(len, i + 1);
      BlockRange(0, 0x4000 * i, Min(0x4000, len - 0x4000 * i)))
  }

  function SumLengths(blocks: seq<BlockRange>): nat
  {
    if blocks == [] then 0 else SumLengths(blocks[..|blocks| - 1]) + blocks[|blocks| - 1].length
  }

  /** The plan has ceil(len / 16384) blocks; block `i` starts at 16384 * i,
      inside the piece, and has length min(16384, len - 16384 * i), between
      1 and 16384; each starts where the previous ended, and their lengths
      add up to the piece length. */
  lemma BlockPlanCovers(len: nat)
    ensures |BlockPlan(len)| == BlockCount(len)
    ensures len > 0 ==> BlockPlan(len)[0].begin == 0
    ensures forall i :: 0 <= i < |BlockPlan(len)| ==>
      BlockPlan(len)[i].index == 0 && 0 < BlockPlan(len)[i].length <= BlockSize
    ensures forall i :: 0 <= i < |BlockPlan(len)| ==>
      BlockPlan(len)[i].begin == BlockSize * i && BlockSize * i < len
      && BlockPlan(len)[i].length == Min(BlockSize, len - BlockSize * i)
    ensures forall i :: 0 < i < |BlockPlan(len)| ==>
      BlockPlan(len)[i].begin == BlockPlan(len)[i - 1].begin + BlockPlan(len)[i - 1].length
    ensures SumLengths(BlockPlan(len)) == len
  {
    var plan := BlockPlan(len);
    var n := |plan|;
    BlockCountBound(len, n);
    forall i | 0 <= i < n
      ensures plan[i].index == 0 && 0 < plan[i].length <= BlockSize
      ensures plan[i].begin == BlockSize * i && BlockSize * i < len
      ensures plan[i].length == Min(BlockSize, len - BlockSize * i)
    {
      BlockCountBound(len, i + 1);
    }
    forall i | 0 < i < n
      ensures plan[i].begin == plan[i - 1].begin + plan[i - 1].length
    {
      BlockCountBound(len, i + 1);
    }
    PlanPrefixSum(len, n);
    assert plan[..n] == plan;
  }

  lemma {:induction false} PlanPrefixSum(len: nat, k: nat)
    requires k <= BlockCount(len)
    ensures SumLengths(BlockPlan(len)[..k]) == Min(len, 0x4000 * k)
  {
    if k > 0 {
      var plan := BlockPlan(len);
      assert plan[..k][..k - 1] == plan[..k - 1];
      BlockCountBound(len, k);
      PlanPrefixSum(len, k - 1);
    }
  }

  /** The `request` frames for `blocks`, in order. Every field goes through
      an `as u32` cast; only the offset can exceed 32 bits, and it wraps
      modulo 2^32. */
  function WireRequests(blocks: seq<BlockRange>): seq<byte>
  {
    if blocks == [] then []
    else
      var b := blocks[|blocks| - 1];
      WireRequests(blocks[..|blocks| - 1])
        + RequestFrame(b.index % 0x1_0000_0000, b.begin % 0x1_0000_0000, b.length % 0x1_0000_0000)
  }

  /** The second loop of `download_first_piece`: one `send_request` per
      16 KiB block of piece 0, offsets increasing from 0. */
  method RequestBlocks(len: nat) returns (blocks: seq<BlockRange>, sent: seq<byte>)
    ensures blocks == BlockPlan(len) && sent == WireRequests(blocks)
  {
    var off := 0;
    blocks, sent := [], [];
    while off < len
      invariant |blocks| <= BlockCount(len)
      invariant off == Min(len, 0x4000 * |blocks|)
      invariant blocks == BlockPlan(len)[..|blocks|]
      invariant sent == WireRequests(blocks)
      decreases len - off
    {
      var want := Min(0x4000, len - off);
      var m := SendRequest(0, off % 0x1_0000_0000, want);
      PlanStep(len, |blocks|);
      WireRequestsSnoc(blocks, BlockRange(0, off, want));
      blocks := blocks + [BlockRange(0, off, want)];
      sent := sent + m;
      off := off + want;
    }
    BlockCountBound(len, |blocks|);
  }

  /** The block after the first `k` is the next 16 KiB (or what is left). */
  lemma PlanStep(len: nat, k: nat)
    requires 0x4000 * k < len
    ensures k < BlockCount(len)
    ensures BlockPlan(len)[..k + 1] == BlockPlan(len)[..k] + [BlockRange(0, 0x4000 * k, Min(0x4000, len - 0x4000 * k))]
    ensures Min(len, 0x4000 * (k + 1)) == 0x4000 * k + Min(0x4000, len - 0x4000 * k)
  {
    BlockCountBound(len, k + 1);
  }

  lemma WireRequestsSnoc(blocks: seq<BlockRange>, b: BlockRange)
    requires b.index == 0 && b.length < 0x1_0000_0000
    ensures WireRequests(blocks + [b]) == WireRequests(blocks) + RequestFrame(0, b.begin % 0x1_0000_0000, b.length)
  {
    var s := blocks + [b];
    assert s[..|s| - 1] == blocks && s[|s| - 1] == b;
    assert b.index % 0x1_0000_0000 == 0 && b.length % 0x1_0000_0000 == b.length;
  }

  // ---------------------------------------------------------------------
  // Collecting piece 0
  // ---------------------------------------------------------------------

  /** Where a `piece` payload lands in a buffer of length `len`: nothing if
      it is shorter than 8 bytes, is not for index 0 or starts at or past the
      end; otherwise its offset and the `min(|data|, len - begin)` bytes that
      fit. */
  function Landing(payload: seq<byte>, len: nat): Option<(nat, seq<byte>)>
  {
    if |payload| < 8 || BigEndian(payload[..4]) != 0 || BigEndian(payload[4..8]) >= len then None
    else
      var begin := BigEndian(payload[4..8]);
      Some((begin, payload[8..8 + Min(|payload| - 8, len - begin)]))
  }

  /** The buffer after one `piece` payload has been copied into it: its
      length is kept, and a payload that does not land leaves it as it was. */
  function Store(buf: seq<byte>, payload: seq<byte>): (r: seq<byte>)
    ensures |r| == |buf|
    ensures Landing(payload, |buf|).None? ==> r == buf
  {
    match Landing(payload, |buf|)
    case None => buf
    case Some((begin, data)) => buf[..begin] + data + buf[begin + |data|..]
  }

  /** How much one `piece` payload adds to `received`. */
  function Counted(payload: seq<byte>, len: nat): nat
  {
    match Landing(payload, len)
    case None => 0
    case Some((_, data)) => |data|
  }

  /** Storing a payload keeps the buffer's length; an ignored payload
      changes nothing; an accepted one puts exactly `min(|data|, len - begin)`
      bytes at its offset and leaves every other byte as it was. */
  lemma StoreMeaning(buf: seq<byte>, payload: seq<byte>)
    ensures |Store(buf, payload)| == |buf|
    ensures Landing(payload, |buf|).None? ==> Store(buf, payload) == buf && Counted(payload, |buf|) == 0
    ensures Landing(payload, |buf|).Some? ==>
      var begin := BigEndian(payload[4..8]);
      var n := Counted(payload, |buf|);
      && |payload| >= 8 && BigEndian(payload[..4]) == 0 && begin < |buf|
      && n == Min(|payload| - 8, |buf| - begin)
      && (forall i :: begin <= i < begin + n ==> Store(buf, payload)[i] == payload[8 + i - begin])
      && (forall i :: 0 <= i < |buf| && !(begin <= i < begin + n) ==> Store(buf, payload)[i] == buf[i])
  {
  }

  /** The body of the collecting loop for a `piece` message: copy the block
      into `buf` in place and report how many bytes were copied. */
  method StoreBlock(buf: array<byte>, payload: seq<byte>) returns (n: nat)
    modifies buf
    ensures buf[..] == Store(old(buf[..]), payload)
    ensures n == Counted(payload, buf.Length)
  {
    n := 0;
    if |payload| < 8 {
      return;
    }
    var index := BigEndian(payload[..4]);
    if index != 0 {
      return;
    }
    var begin := BigEndian(payload[4..8]);
    if begin >= buf.Length {
      return;
    }
    var data := payload[8..];
    var end := Min(begin + |data|, buf.Length);
    n := end - begin;
    ghost var was := buf[..];
    forall i | begin <= i < end {
      buf[i] := data[i - begin];
    }
    StoreMeaning(was, payload);
    assert buf[..] == Store(was, payload);
  }

  /** The buffer after the messages `msgs`: every `piece` message is stored
      in turn and every other message is ignored. */
  function Assemble(buf: seq<byte>, msgs: seq<Msg>): seq<byte>
  {
    if msgs == [] then buf
    else
      var before := Assemble(buf, msgs[..|msgs| - 1]);
      var m := msgs[|msgs| - 1];
      if m.id == Piece then Store(before, m.payload) else before
  }

  /** The `received` counter after the messages `msgs`. */
  function ReceivedAll(msgs: seq<Msg>, len: nat): nat
  {
    if msgs == [] then 0
    else
      var m := msgs[|msgs| - 1];
      ReceivedAll(msgs[..|msgs| - 1], len) + (if m.id == Piece then Counted(m.payload, len) else 0)
  }

  /** Byte `i` is written by the `piece` message `m`. */
  predicate Writes(m: Msg, len: nat, i: nat)
  {
    m.id == Piece && Landing(m.payload, len).Some? && Landing(m.payload, len).value.0 <= i
      && i < Landing(m.payload, len).value.0 + |Landing(m.payload, len).value.1|
  }

  /** Assembling keeps the buffer's length, and a byte that no message
      writes keeps its initial value. */
  lemma {:induction false} AssembleUnwritten(buf: seq<byte>, msgs: seq<Msg>, i: nat)
    requires i < |buf|
    requires forall j :: 0 <= j < |msgs| ==> !Writes(msgs[j], |buf|, i)
    ensures |Assemble(buf, msgs)| == |buf|
    ensures Assemble(buf, msgs)[i] == buf[i]
  {
    if msgs != [] {
      var front := msgs[..|msgs| - 1];
      assert forall j :: 0 <= j < |front| ==> front[j] == msgs[j];
      AssembleUnwritten(buf, front, i);
      StoreMeaning(Assemble(buf, front), msgs[|msgs| - 1].payload);
    }
  }

  /** The third loop of `download_first_piece`, on the buffer `buf` of the
      piece's length. It reads until the counter reaches the length and
      returns the buffer and the bytes after the last message read. */
  method CollectPiece(stream: seq<byte>, len: nat)
    returns (r: Result<(seq<byte>, seq<byte>), DownloadError>, ghost seen: seq<Msg>, ghost unread: seq<byte>)
    ensures Consumes(stream, seen, unread)
    ensures forall k :: 0 <= k < |seen| ==> ReceivedAll(seen[..k], len) < len
    ensures r.Ok? ==>
      r.value.0 == Assemble(Zeros(len), seen) && r.value.1 == unread && ReceivedAll(seen, len) >= len
    ensures r.Err? ==> ReceivedAll(seen, len) < len
    ensures r == Err(DisconnectedWhileDownloading) ==> ReadMsg(unread).Eof?
    ensures r == Err(FrameTruncated) ==> ReadMsg(unread).Truncated?
    ensures r.Err? ==> r.error in {DisconnectedWhileDownloading, FrameTruncated}
  {
    var buf := new byte[len](_ => 0);
    assert buf[..] == Zeros(len);
    var received := 0;
    var cur := stream;
    seen := [];
    while received < len
      invariant buf.Length == len
      invariant Consumes(stream, seen, cur)
      invariant buf[..] == Assemble(Zeros(len), seen)
      invariant received == ReceivedAll(seen, len)
      invariant forall k :: 0 <= k < |seen| ==> ReceivedAll(seen[..k], len) < len
      decreases |cur|
    {
      var read := ReadMsg(cur);
      if read.Eof? {
        unread, r := cur, Err(DisconnectedWhileDownloading);
        return;
      } else if read.Truncated? {
        unread, r := cur, Err(FrameTruncated);
        return;
      }
      if read.id == Piece {
        var n := StoreBlock(buf, read.payload);
        received := received + n;
      }
      ConsumesSnoc(stream, seen, cur, read.id, read.payload, read.rest);
      CollectStep(Zeros(len), seen, Msg(read.id, read.payload), len);
      seen := seen + [Msg(read.id, read.payload)];
      cur := read.rest;
    }
    unread, r := cur, Ok((buf[..], cur));
  }

  /** One more message while fewer than `len` bytes are counted: the buffer
      and the counter follow the last message, and no prefix of the longer
      sequence reached `len`. */
  lemma CollectStep(buf: seq<byte>, seen: seq<Msg>, m: Msg, len: nat)
    requires forall k :: 0 <= k < |seen| ==> ReceivedAll(seen[..k], len) < len
    requires ReceivedAll(seen, len) < len
    ensures Assemble(buf, seen + [m]) == if m.id == Piece then Store(Assemble(buf, seen), m.payload) else Assemble(buf, seen)
    ensures ReceivedAll(seen + [m], len) == ReceivedAll(seen, len) + if m.id == Piece then Counted(m.payload, len) else 0
    ensures forall k :: 0 <= k < |seen + [m]| ==> ReceivedAll((seen + [m])[..k], len) < len
  {
    var longer := seen + [m];
    assert longer[..|longer| - 1] == seen;
    forall k | 0 <= k < |longer|
      ensures ReceivedAll(longer[..k], len) < len
    {
      assert longer[..k] == seen[..k];
      if k == |seen| {
        assert seen[..k] == seen;
      }
    }
  }

  /** `received` adds up bytes without regard to where they land: two copies
      of a one-byte block at offset 0 of a two-byte piece count 2, which ends
      the loop although byte 1 was never written (it keeps the value 0). */
  lemma DuplicatesCounted()
    ensures var m := Msg(Piece, [0, 0, 0, 0, 0, 0, 0, 0, 7]);
      && ReceivedAll([m, m], 2) == 2
      && !Writes(m, 2, 1)
      && Assemble(Zeros(2), [m, m]) == [7, 0]
  {
    var p := [0, 0, 0, 0, 0, 0, 0, 0, 7];
    var m := Msg(Piece, p);
    OneByteBlock();
    assert Zeros(2) == [0, 0];
    assert [m, m][..1] == [m];
    assert [m][..0] == [];
    assert Assemble(Zeros(2), [m]) == [7, 0];
    assert ReceivedAll([m], 2) == 1;
  }

  /** The block of `DuplicatesCounted` lands at offset 0 and is one byte. */
  lemma OneByteBlock()
    ensures var p := [0, 0, 0, 0, 0, 0, 0, 0, 7];
      && Landing(p, 2) == Some((0, [7])) && Counted(p, 2) == 1
      && Store([0, 0], p) == [7, 0] && Store([7, 0], p) == [7, 0]
  {
    var p := [0, 0, 0, 0, 0, 0, 0, 0, 7];
    BigEndianZeros(4);
    assert Zeros(4) == [0, 0, 0, 0];
    assert p[..4] == Zeros(4) && p[4..8] == Zeros(4);
    assert p[8..9] == [7];
  }

  // ---------------------------------------------------------------------
  // The whole operation
  // ---------------------------------------------------------------------

  /** `download_first_piece`. `sent` is everything written to the peer:
      the `interested` frame, then, once the wait is over, the requests for
      every block of piece 0. On success the result is the buffer assembled
      from the `piece` messages read after the wait, of length
      `min(piece_len, total_len)`, and its digest is the expected one. Each
      phase stops at the first message that ends it, so the outcome is fixed
      by the stream: a failure names the end of the stream or the truncated
      frame that caused it, and the download succeeds exactly when the peer
      becomes ready, the counted bytes reach the length and the digest
      matches. */
  method DownloadFirstPiece(stream: seq<byte>, pieceLen: u64, totalLen: u64, pieceHash: Bytes20, sha1: seq<byte> -> Bytes20)
    returns (sent: seq<byte>, r: Result<seq<byte>, DownloadError>,
             ghost waited: seq<Msg>, ghost mid: seq<byte>, ghost pieces: seq<Msg>, ghost unread: seq<byte>)
    ensures Consumes(stream, waited, mid) && Consumes(mid, pieces, unread)
    ensures forall k :: 0 <= k < |waited| ==> !Ready(ObserveAll(waited[..k]))
    ensures !Ready(ObserveAll(waited)) ==>
      && r.Err? && r.error in {DisconnectedBeforeUnchoke, FrameTruncated}
      && sent == InterestedFrame && pieces == [] && mid == unread
      && (r == Err(DisconnectedBeforeUnchoke) ==> ReadMsg(mid).Eof?)
      && (r == Err(FrameTruncated) ==> ReadMsg(mid).Truncated?)
    ensures Ready(ObserveAll(waited)) ==>
      var len := PieceZeroLength(pieceLen, totalLen);
      && sent == InterestedFrame + WireRequests(BlockPlan(len))
      && (r.Err? ==> r.error in {DisconnectedWhileDownloading, FrameTruncated, HashMismatch})
      && (forall k :: 0 <= k < |pieces| ==> ReceivedAll(pieces[..k], len) < len)
      && (r == Err(DisconnectedWhileDownloading) ==> ReadMsg(unread).Eof? && ReceivedAll(pieces, len) < len)
      && (r == Err(FrameTruncated) ==> ReadMsg(unread).Truncated? && ReceivedAll(pieces, len) < len)
    ensures r.Ok? <==>
      var len := PieceZeroLength(pieceLen, totalLen);
      Ready(ObserveAll(waited)) && ReceivedAll(pieces, len) >= len && sha1(Assemble(Zeros(len), pieces)) == pieceHash
    ensures r.Ok? || r == Err(HashMismatch) ==>
      var len := PieceZeroLength(pieceLen, totalLen);
      Ready(ObserveAll(waited)) && ReceivedAll(pieces, len) >= len
    ensures r.Ok? ==>
      r.value == Assemble(Zeros(PieceZeroLength(pieceLen, totalLen)), pieces)
      && |r.value| == PieceZeroLength(pieceLen, totalLen)
      && sha1(r.value) == pieceHash
    ensures r == Err(HashMismatch) ==>
      sha1(Assemble(Zeros(PieceZeroLength(pieceLen, totalLen)), pieces)) != pieceHash
  {
    var len := PieceZeroLength(pieceLen, totalLen);
    sent := InterestedFrame;
    pieces := [];
    var wait;
    wait, waited, mid := AwaitUnchoke(stream);
    unread := mid;
    if wait.Err? {
      r := Err(wait.error);
      return;
    }
    var blocks, requests := RequestBlocks(len);
    sent := sent + requests;
    var collected;
    collected, pieces, unread := CollectPiece(wait.value, len);
    if collected.Err? {
      r := Err(collected.error);
      return;
    }
    var buf := collected.value.0;
    AssembleLength(Zeros(len), pieces);
    if sha1(buf) != pieceHash {
      r := Err(HashMismatch);
      return;
    }
    r := Ok(buf);
  }

  lemma {:induction false} AssembleLength(buf: seq<byte>, msgs: seq<Msg>)
    ensures |Assemble(buf, msgs)| == |buf|
  {
    if msgs != [] {
      AssembleLength(buf, msgs[..|msgs| - 1]);
      StoreMeaning(Assemble(buf, msgs[..|msgs| - 1]), msgs[|msgs| - 1].payload);
    }
  }
}
