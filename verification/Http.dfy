/**
 Framing of requests on a connection (hw4/HttpConnection.cc): the bytes that arrive
 in chunks are cut after each empty line, section 5 of RFC 2616.
 */
module Http {
  import opened Common

  type Bytes = seq<Byte>

  const BUFSIZE := 1024
  const HEADER_END_LEN := 4

  // CR LF CR LF at place i.
  predicate EndsAt(s: Bytes, i: int)
  {
    0 <= i && i + 4 <= |s| && s[i] == 13 && s[i + 1] == 10 && s[i + 2] == 13 && s[i + 3] == 10
  }

  // string::find of the header end.
  function FindEnd(s: Bytes): (r: Option<nat>)
    ensures r.Some? ==> EndsAt(s, r.value) && forall i :: 0 <= i < r.value ==> !EndsAt(s, i)
    ensures r.None? ==> forall i :: !EndsAt(s, i)
  {
    FindEndFrom(s, 0)
  }

  function FindEndFrom(s: Bytes, from: nat): (r: Option<nat>)
    requires from <= |s|
    ensures r.Some? ==> from <= r.value && EndsAt(s, r.value) && forall i :: from <= i < r.value ==> !EndsAt(s, i)
    ensures r.None? ==> forall i :: from <= i ==> !EndsAt(s, i)
    decreases |s| - from
  {
    if EndsAt(s, from) then Some(from) else if from == |s| then None else FindEndFrom(s, from + 1)
  }

  // ----- the stream, cut after each first header end -----

  function Blocks(s: Bytes): seq<Bytes>
    decreases |s|
  {
    match FindEnd(s)
    case None => []
    case Some(i) => [s[..i + 4]] + Blocks(s[i + 4..])
  }

  function Rest(s: Bytes): Bytes
    decreases |s|
  {
    match FindEnd(s)
    case None => s
    case Some(i) => Rest(s[i + 4..])
  }

  function Joined(bs: seq<Bytes>): Bytes
  {
    if bs == [] then [] else bs[0] + Joined(bs[1..])
  }

  // A block ends with its first header end.
  predicate IsBlock(b: Bytes)
  {
    FindEnd(b) == Some(|b| - 4)
  }

  ghost predicate AllBlocks(bs: seq<Bytes>)
  {
    forall k :: 0 <= k < |bs| ==> IsBlock(bs[k])
  }

  // A header end that lies in a prefix is the first one of the whole, too.
  lemma EndInPrefix(a: Bytes, b: Bytes)
    requires FindEnd(a).Some?
    ensures FindEnd(a + b) == FindEnd(a)
  {
    var i := FindEnd(a).value;
    assert EndsAt(a + b, i);
    forall k | 0 <= k < i
      ensures !EndsAt(a + b, k)
    {
      assert !EndsAt(a, k);
    }
  }

  lemma CutIsBlock(s: Bytes)
    requires FindEnd(s).Some?
    ensures IsBlock(s[..FindEnd(s).value + 4])
  {
    var i := FindEnd(s).value;
    var b := s[..i + 4];
    assert EndsAt(b, i);
    forall k | 0 <= k < i
      ensures !EndsAt(b, k)
    {
      assert !EndsAt(s, k);
    }
  }

  // The blocks and the rest are the whole stream, and no block is hidden in another or
  // in the rest.
  lemma {:induction false} BlocksPartition(s: Bytes)
    ensures Joined(Blocks(s)) + Rest(s) == s
    ensures AllBlocks(Blocks(s)) && FindEnd(Rest(s)) == None
    decreases |s|
  {
    hide *;
    if FindEnd(s).None? {
      NoBlocks(s);
    } else {
      FirstBlock(s);
      var i := FindEnd(s).value;
      var block, more := s[..i + 4], s[i + 4..];
      CutIsBlock(s);
      BlocksPartition(more);
      BlocksCons(block, Blocks(more));
      assert s == block + (Joined(Blocks(more)) + Rest(more));
    }
  }

  lemma NoBlocks(s: Bytes)
    requires FindEnd(s).None?
    ensures Blocks(s) == [] && Rest(s) == s && AllBlocks([]) && Joined([]) + s == s
  {
    hide FindEnd;
  }

  lemma FirstBlock(s: Bytes)
    requires FindEnd(s).Some?
    ensures var i := FindEnd(s).value;
            && i + 4 <= |s| && Blocks(s) == [s[..i + 4]] + Blocks(s[i + 4..]) && Rest(s) == Rest(s[i + 4..])
  {
    hide FindEnd;
  }

  lemma BlocksCons(b: Bytes, bs: seq<Bytes>)
    requires IsBlock(b) && AllBlocks(bs)
    ensures AllBlocks([b] + bs) && Joined([b] + bs) == b + Joined(bs)
  {
    hide FindEnd;
    assert ([b] + bs)[1..] == bs;
  }

  // There is only one way to cut a stream into blocks.
  lemma {:induction false} OneCut(bs: seq<Bytes>, rest: Bytes)
    requires AllBlocks(bs) && FindEnd(rest) == None
    ensures Blocks(Joined(bs) + rest) == bs && Rest(Joined(bs) + rest) == rest
  {
    if bs == [] {
      assert Joined(bs) + rest == rest;
    } else {
      var s, tail := Joined(bs) + rest, Joined(bs[1..]) + rest;
      assert IsBlock(bs[0]) && s == bs[0] + tail;
      EndInPrefix(bs[0], tail);
      assert s[|bs[0]|..] == tail && s[..|bs[0]|] == bs[0];
      OneCut(bs[1..], rest);
    }
  }

  // A header end is two line ends, each of a carriage return and a line feed.
  lemma HeaderEnds(s: Bytes, i: int)
    ensures EndsAt(s, i) <==> 0 <= i <= |s| - 4 && s[i..i + 4] == Chars("\r\n\r\n")
  {
    if 0 <= i <= |s| - 4 {
      var end := s[i..i + 4];
      assert end[0] == s[i] && end[1] == s[i + 1] && end[2] == s[i + 2] && end[3] == s[i + 3];
    }
  }

  // A stream of one request and the beginning of another.
  lemma TwoRequests()
    ensures var s := Chars("A\r\n\r\nB\r\n");
            Blocks(s) == [Chars("A\r\n\r\n")] && Rest(s) == Chars("B\r\n")
  {
    var block, rest := Chars("A\r\n\r\n"), Chars("B\r\n");
    assert EndsAt(block, 1) && !EndsAt(block, 0);
    assert IsBlock(block) && FindEnd(rest) == None;
    OneCut([block], rest);
    assert Joined([block]) == block + Joined([]) == block;
    assert Chars("A\r\n\r\nB\r\n") == block + rest;
  }

  // ----- the connection -----

  // What the coming reads deliver, up to the first that fails or finds the end.
  function Coming(chunks: seq<Bytes>): Bytes
  {
    if chunks == [] || chunks[0] == [] then [] else chunks[0] + Coming(chunks[1..])
  }

  class HttpConnection {
    var buffer: Bytes
    var pending: seq<Bytes>  // the outcomes of the reads to come; empty for an error or the end

    constructor (chunks: seq<Bytes>)
      requires forall k :: 0 <= k < |chunks| ==> |chunks[k]| <= BUFSIZE
      ensures Valid() && Stream() == Coming(chunks)
    {
      pending, buffer := chunks, [];
    }

    ghost predicate Valid()
      reads this
    {
      forall k :: 0 <= k < |pending| ==> |pending[k]| <= BUFSIZE
    }

    // The bytes that were read and not yet passed on, and those to come.
    ghost function Stream(): Bytes
      reads this
    {
      buffer + Coming(pending)
    }

    method WrappedRead() returns (res: Bytes)
      requires Valid()
      modifies this`pending
      ensures Valid() && |res| <= BUFSIZE && Coming(old(pending)) == res + (if res == [] then [] else Coming(pending))
      ensures res != [] ==> |pending| < |old(pending)|
    {
      if pending == [] {
        return [];
      }
      res := pending[0];
      pending := pending[1..];
    }

    // The block that is handed to the parser, or None for the result false.  It is the
    // first block of the stream, whatever the chunks were.
    method GetNextRequest() returns (r: Option<Bytes>)
      requires Valid()
      modifies this
      ensures Valid()
      ensures r.None? <==> Blocks(old(Stream())) == []
      ensures r.None? ==> buffer == old(Stream())
      ensures r.Some? ==>
                && r.value == Blocks(old(Stream()))[0] && old(Stream()) == r.value + Stream()
                && Blocks(Stream()) == Blocks(old(Stream()))[1..] && Rest(Stream()) == Rest(old(Stream()))
    {
      hide FindEnd;
      ghost var stream := Stream();
      var found := FindEnd(buffer);
      while found == None
        invariant Valid() && Stream() == stream && found == FindEnd(buffer)
        decreases |pending|
      {
        ghost var coming := Coming(pending);
        var res := WrappedRead();
        if res == [] {
          assert buffer + coming == buffer;
          return None;
        }
        assert buffer + coming == buffer + res + Coming(pending);
        buffer := buffer + res;
        found := FindEnd(buffer);
      }
      var end := found.value + HEADER_END_LEN;
      EndInPrefix(buffer, Coming(pending));
      assert stream[..end] == buffer[..end] && stream[end..] == buffer[end..] + Coming(pending);
      r := Some(buffer[..end]);
      buffer := buffer[end..];
      assert stream == r.value + Stream();
    }
  }

  // The request does not end the conversation: it does not ask to close, and the write
  // of the response, which is the k-th, succeeds.
  predicate GoesOn(closes: Bytes -> bool, writes: nat -> bool, request: Bytes, k: nat)
  {
    !closes(request) && writes(k)
  }

  lemma GoesOnValue(closes: Bytes -> bool, writes: nat -> bool, request: Bytes, k: nat)
    ensures GoesOn(closes, writes, request, k) <==> !closes(request) && writes(k)
  {
  }

  // The loop over one client (HttpServer_ThrFn in hw4/HttpServer.cc): requests are
  // read and answered until the stream has no more, one of them asks to close, or a
  // response cannot be written.  A request to close is not answered.
  method HandleClient(conn: HttpConnection, closes: Bytes -> bool, writes: nat -> bool)
    returns (requests: seq<Bytes>, responses: nat)
    requires conn.Valid()
    modifies conn
    ensures conn.Valid() && requests <= Blocks(old(conn.Stream()))
    ensures forall k :: 0 <= k < |requests| - 1 ==> GoesOn(closes, writes, requests[k], k)
    ensures requests == [] || GoesOn(closes, writes, requests[|requests| - 1], |requests| - 1) ==>
              requests == Blocks(old(conn.Stream())) && conn.buffer == Rest(old(conn.Stream()))
    ensures responses == |requests| - if requests != [] && closes(requests[|requests| - 1]) then 1 else 0
  {
    hide *;
    requests, responses := [], 0;
    ghost var stream := conn.Stream();
    ServedNone(stream);
    while true
      invariant conn.Valid() && Served(stream, requests, conn.Stream())
      invariant forall k :: 0 <= k < |requests| ==> GoesOn(closes, writes, requests[k], k) && !closes(requests[k])
      invariant responses == |requests|
      decreases |Blocks(conn.Stream())|
    {
      ghost var before := conn.Stream();
      ServedAll(stream, requests, before);
      var request := conn.GetNextRequest();
      if request.None? {
        return;
      }
      ServedNext(stream, requests, before, request.value, conn.Stream());
      GoesOnValue(closes, writes, request.value, |requests|);
      requests := requests + [request.value];
      if closes(request.value) {
        return;
      }
      responses := responses + 1;
      if !writes(responses - 1) {
        return;
      }
    }
  }

  // The requests are the first blocks of the stream, and the others are to come.
  ghost predicate Served(stream: Bytes, requests: seq<Bytes>, coming: Bytes)
  {
    Blocks(stream) == requests + Blocks(coming) && Rest(stream) == Rest(coming)
  }

  lemma ServedNone(stream: Bytes)
    ensures Served(stream, [], stream)
  {
  }

  lemma ServedAll(stream: Bytes, requests: seq<Bytes>, coming: Bytes)
    requires Served(stream, requests, coming)
    ensures requests <= Blocks(stream)
    ensures Blocks(coming) == [] ==> requests == Blocks(stream) && coming == Rest(stream)
  {
  }

  lemma ServedNext(stream: Bytes, requests: seq<Bytes>, before: Bytes, block: Bytes, after: Bytes)
    requires Served(stream, requests, before) && Blocks(before) != [] && block == Blocks(before)[0]
    requires Blocks(after) == Blocks(before)[1..] && Rest(after) == Rest(before)
    ensures Served(stream, requests + [block], after) && requests + [block] <= Blocks(stream)
  {
    hide Blocks, Rest;
    assert Blocks(before) == [block] + Blocks(after);
  }
}
