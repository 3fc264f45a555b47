/** Serving data to the debugger in pieces, each as large as a request and a buffer allow. */
module Transfers {
  import opened Words

  /** Sums of the host's word, which wrap around. */
  function WrapWide(n: nat): u64 {
    n % 0x1_0000_0000_0000_0000
  }

  /** The request asks for a range whose end wraps around to below its start, from within the
      data; the program panics on it. */
  predicate Panics(data: seq<byte>, offset: u64, length: u64) {
    offset <= |data| && offset + length >= 0x1_0000_0000_0000_0000
  }

  /** The piece of `data` that answers a request for `length` bytes from `offset` on, with a
      buffer of `room` bytes. */
  function Piece(data: seq<byte>, offset: nat, length: nat, room: nat): seq<byte> {
    if offset > |data| then [] else data[offset..offset + Min(Min(length, room), |data| - offset)]
  }

  method CopyToBuf(data: seq<byte>, buf: array<byte>) returns (n: nat)
    modifies buf
    ensures n == Min(buf.Length, |data|)
    ensures buf[..n] == data[..n] && buf[n..] == old(buf[..])[n..]
  {
    n := Min(buf.Length, |data|);
    for i := 0 to n
      invariant buf[..i] == data[..i] && buf[i..] == old(buf[..])[i..]
    {
      buf[i] := data[i];
      assert buf[..i + 1] == buf[..i] + [buf[i]];
    }
  }

  /** Copies a piece and returns its length; `None` is a panic. */
  method CopyRangeToBuf(data: seq<byte>, offset: u64, length: u64, buf: array<byte>) returns (n: Option<nat>)
    requires |data| < 0x1_0000_0000_0000_0000
    modifies buf
    ensures n.None? <==> Panics(data, offset, length)
    ensures n.Some? ==> n.value <= buf.Length && buf[..n.value] == Piece(data, offset, length, buf.Length)
    ensures n.Some? ==> buf[n.value..] == old(buf[..])[n.value..]
    ensures n.None? ==> buf[..] == old(buf[..])
  {
    if offset > |data| {
      return Some(0);
    }
    WrapsBelow(offset, length);
    var start, end := offset, Min(WrapWide(offset + length), |data|);
    if start > end {
      return None;
    }
    var copied := CopyToBuf(data[start..end], buf);
    assert data[start..end][..copied] == data[start..start + copied];
    n := Some(copied);
  }

  lemma WrapsBelow(offset: u64, length: u64)
    ensures if offset + length < 0x1_0000_0000_0000_0000 then WrapWide(offset + length) == offset + length
            else WrapWide(offset + length) < offset
  {
    if offset + length >= 0x1_0000_0000_0000_0000 {
      assert WrapWide(offset + length) == offset + length - 0x1_0000_0000_0000_0000;
    }
  }

  /** A reply is empty exactly at the end of the data, unless nothing was asked for. */
  lemma EmptyIffDone(data: seq<byte>, offset: nat, length: nat, room: nat)
    requires length > 0 && room > 0
    ensures Piece(data, offset, length, room) == [] <==> offset >= |data|
  {
    if offset < |data| {
      assert Piece(data, offset, length, room)[0] == data[offset];
    }
  }

  datatype Request = Request(length: u64, room: u64)

  /** What a client has that asks piece by piece, each time from where the last reply ended, or
      `None` when one of its requests makes the program panic. */
  function Download(data: seq<byte>, offset: nat, requests: seq<Request>): Option<seq<byte>>
    requires offset <= |data| < 0x1_0000_0000_0000_0000
    decreases requests
  {
    if requests == [] then Some([])
    else if Panics(data, offset, requests[0].length) then None
    else
      var piece := Piece(data, offset, requests[0].length, requests[0].room);
      match Download(data, offset + |piece|, requests[1..])
      case None => None
      case Some(rest) => Some(piece + rest)
  }

  /** How far the requests reach when nothing but their sizes limits them. */
  function Capacity(requests: seq<Request>): nat {
    if requests == [] then 0 else Min(requests[0].length, requests[0].room) + Capacity(requests[1..])
  }

  /** No request, from the place that those before it reach, overflows the host's word. */
  predicate Representable(size: nat, offset: nat, requests: seq<Request>)
    decreases requests
  {
    requests == [] ||
    (&& offset + requests[0].length < 0x1_0000_0000_0000_0000
     && Representable(size, Min(offset + Min(requests[0].length, requests[0].room), size), requests[1..]))
  }

  /** However the requests are sized, the pieces join up: as long as none of them overflows, the
      client has the data in order, as far as the requests reach. */
  lemma {:induction false} PiecesJoin(data: seq<byte>, offset: nat, requests: seq<Request>)
    requires offset <= |data| < 0x1_0000_0000_0000_0000
    ensures Download(data, offset, requests).Some? <==> Representable(|data|, offset, requests)
    ensures var r := Download(data, offset, requests);
            r.Some? ==> |r.value| == Min(Capacity(requests), |data| - offset) && IsSlice(data, offset, r.value)
    decreases requests
  {
    hide Piece, Capacity;
    CapacityHead(requests);
    if requests != [] && !Panics(data, offset, requests[0].length) {
      var piece := Piece(data, offset, requests[0].length, requests[0].room);
      var next := offset + |piece|;
      PieceIsSlice(data, offset, requests[0]);
      assert IsSlice(data, offset, piece);
      PiecesJoin(data, next, requests[1..]);
      hide IsSlice;
      if Download(data, next, requests[1..]).Some? {
        SliceJoin(data, offset, piece, Download(data, next, requests[1..]).value);
      }
    }
  }

  lemma CapacityHead(requests: seq<Request>)
    ensures Capacity(requests) ==
            if requests == [] then 0 else Min(requests[0].length, requests[0].room) + Capacity(requests[1..])
  {
  }

  /** `piece` is what `data` holds from `offset` on. */
  predicate IsSlice(data: seq<byte>, offset: nat, piece: seq<byte>) {
    offset + |piece| <= |data| && piece == data[offset..offset + |piece|]
  }

  lemma SliceJoin(data: seq<byte>, offset: nat, a: seq<byte>, b: seq<byte>)
    requires IsSlice(data, offset, a) && IsSlice(data, offset + |a|, b)
    ensures IsSlice(data, offset, a + b)
  {
  }

  lemma PieceIsSlice(data: seq<byte>, offset: nat, r: Request)
    requires offset <= |data|
    ensures var piece := Piece(data, offset, r.length, r.room);
            |piece| == Min(Min(r.length, r.room), |data| - offset) && IsSlice(data, offset, piece)
  {
  }

  /** So a client has all of the data exactly when its requests reach the end of it and none of
      them overflows. */
  lemma DownloadsAllIff(data: seq<byte>, requests: seq<Request>)
    requires |data| < 0x1_0000_0000_0000_0000
    ensures Download(data, 0, requests) == Some(data)
       <==> Representable(|data|, 0, requests) && Capacity(requests) >= |data|
  {
    PiecesJoin(data, 0, requests);
    assert data[0..|data|] == data;
  }
}
