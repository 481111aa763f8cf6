/** The TCP link of Networking.py: send_data puts a two-byte big-endian length in
    front of every message (the length counts those two bytes too), receive_data
    cuts the byte chunks that recv hands back into those messages again, carrying
    an unfinished message over to the next chunk in the TCP object's buffer, and a
    move travels as the type byte TCP_DATA_TYPE["Move"] followed by one byte for
    each coordinate. int_to_bytes is the shortest big-endian encoding of a port
    number that the UDP announcement sends. */
module Framing {
  import opened Constants
  import opened Seqs

  /** One byte of a Python `bytes` value. */
  type byte = x: int | 0 <= x < 256

  function Pow256(n: nat): nat
  {
    if n == 0 then 1 else 256 * Pow256(n - 1)
  }

  function Pow2(n: nat): nat
  {
    if n == 0 then 1 else 2 * Pow2(n - 1)
  }

  /** int.from_bytes(s, "big"). */
  function FromBytes(s: seq<byte>): nat
  {
    if s == [] then 0 else FromBytes(s[..|s| - 1]) * 256 + s[|s| - 1]
  }

  /** x.to_bytes(n, "big"), for a value that fits in n bytes (Python raises
      OverflowError otherwise, which the callers below model). */
  function ToBytes(x: nat, n: nat): (r: seq<byte>)
    requires x < Pow256(n)
    ensures |r| == n
    ensures FromBytes(r) == x
  {
    if n == 0 then [] else
      var r := ToBytes(x / 256, n - 1) + [x % 256];
      assert r[..|r| - 1] == ToBytes(x / 256, n - 1);
      r
  }

  /** x.bit_length() of a non-negative x. */
  function BitLength(x: nat): nat
  {
    if x == 0 then 0 else 1 + BitLength(x / 2)
  }

  lemma {:induction false} BitLengthBounds(x: nat)
    ensures x < Pow2(BitLength(x))
    ensures x > 0 ==> Pow2(BitLength(x) - 1) <= x
  {
    if x > 0 {
      BitLengthBounds(x / 2);
    }
  }

  lemma {:induction false} Pow256IsPow2(n: nat)
    ensures Pow256(n) == Pow2(8 * n)
  {
    if n > 0 {
      Pow256IsPow2(n - 1);
      assert Pow2(8 * n) == 256 * Pow2(8 * (n - 1)) by {
        var k := 8 * (n - 1);
        assert Pow2(k + 8) == 2 * Pow2(k + 7) == 4 * Pow2(k + 6) == 8 * Pow2(k + 5) == 16 * Pow2(k + 4);
        assert Pow2(k + 4) == 2 * Pow2(k + 3) == 4 * Pow2(k + 2) == 8 * Pow2(k + 1) == 16 * Pow2(k);
      }
    }
  }

  lemma {:induction false} Pow2Grows(a: nat, b: nat)
    requires a <= b
    ensures Pow2(a) <= Pow2(b)
    decreases b
  {
    if a < b {
      Pow2Grows(a, b - 1);
    }
  }

  lemma {:induction false} FromBytesBound(s: seq<byte>)
    ensures FromBytes(s) < Pow256(|s|)
    decreases |s|
  {
    if s != [] {
      FromBytesBound(s[..|s| - 1]);
    }
  }

  /** A zero byte in front does not change the value. */
  lemma {:induction false} LeadingZero(s: seq<byte>)
    requires s != [] && s[0] == 0
    ensures FromBytes(s) == FromBytes(s[1..])
    decreases |s|
  {
    if |s| > 1 {
      LeadingZero(s[..|s| - 1]);
      assert s[..|s| - 1][1..] == s[1..][..|s[1..]| - 1];
    } else {
      assert s[1..] == [];
    }
  }

  /** int_to_bytes(x): as many bytes as x has bits, rounded up to whole bytes;
      int.from_bytes reads x back, and the first byte is never a padding zero. */
  function IntToBytes(x: nat): (r: seq<byte>)
    ensures |r| == (BitLength(x) + 7) / 8
    ensures FromBytes(r) == x
    ensures r == [] <==> x == 0
    ensures r != [] ==> r[0] != 0
  {
    var n := (BitLength(x) + 7) / 8;
    BitLengthBounds(x);
    Pow256IsPow2(n);
    Pow2Grows(BitLength(x), 8 * n);
    NoPaddingByte(x, n);
    ToBytes(x, n)
  }

  lemma NoPaddingByte(x: nat, n: nat)
    requires n == (BitLength(x) + 7) / 8 && x < Pow256(n)
    ensures ToBytes(x, n) != [] ==> ToBytes(x, n)[0] != 0
  {
    var r := ToBytes(x, n);
    if r != [] && r[0] == 0 {
      BitLengthBounds(x);
      LeadingZero(r);
      FromBytesBound(r[1..]);
      Pow256IsPow2(n - 1);
      Pow2Grows(8 * (n - 1), BitLength(x) - 1);
      assert false;
    }
  }

  /** s[:i] with Python's reading of a negative or too large bound. */
  function Take<T>(s: seq<T>, i: int): (r: seq<T>)
    ensures |r| <= |s| && r == s[..|r|]
    ensures 0 <= i <= |s| ==> |r| == i
    ensures i >= |s| ==> r == s
  {
    if i < 0 then s[..if |s| + i < 0 then 0 else |s| + i]
    else if i > |s| then s
    else s[..i]
  }

  /** s[i:] with Python's reading of a negative or too large bound; it is what
      s[:i] leaves over. */
  function Drop<T>(s: seq<T>, i: int): (r: seq<T>)
    ensures Take(s, i) + r == s
    ensures 0 <= i <= |s| ==> |r| == |s| - i
    ensures i >= |s| ==> r == []
  {
    if i < 0 then s[if |s| + i < 0 then 0 else |s| + i..]
    else if i > |s| then []
    else s[i..]
  }

  // ---------------------------------------------------------------- sending

  /** A payload send_data can frame: its length plus two fits the two length bytes. */
  predicate Sendable(payload: seq<byte>)
  {
    |payload| + 2 < 65536
  }

  function FrameBytes(payload: seq<byte>): seq<byte>
    requires Sendable(payload)
  {
    assert Pow256(2) == 65536;
    ToBytes(|payload| + 2, 2) + payload
  }

  /** send_data: the bytes put on the socket, or None where `to_bytes(2, "big")`
      raises OverflowError. The first two bytes read back as the frame's own
      length and the payload follows them unchanged. */
  function Frame(payload: seq<byte>): (r: Option<seq<byte>>)
    ensures r.Some? <==> Sendable(payload)
    ensures r.Some? ==> |r.value| == |payload| + 2
    ensures r.Some? ==> LengthField(r.value) == |r.value| && r.value[2..] == payload
  {
    if Sendable(payload) then
      FrameHeader(payload, []);
      assert FrameBytes(payload) + [] == FrameBytes(payload);
      Some(FrameBytes(payload))
    else None
  }

  predicate AllSendable(ps: seq<seq<byte>>)
  {
    forall i :: 0 <= i < |ps| ==> Sendable(ps[i])
  }

  /** The bytes of several send_data calls, back to back on the stream. */
  function Frames(ps: seq<seq<byte>>): seq<byte>
    requires AllSendable(ps)
  {
    if ps == [] then [] else FrameBytes(ps[0]) + Frames(ps[1..])
  }

  /** A chunk that starts with a whole frame declares that frame's length. */
  lemma FrameHeader(p: seq<byte>, rest: seq<byte>)
    requires Sendable(p)
    ensures |FrameBytes(p) + rest| >= 2
    ensures LengthField(FrameBytes(p) + rest) == |p| + 2
  {
    LengthFieldIsFromBytes(FrameBytes(p) + rest);
    assert Take(FrameBytes(p) + rest, 2) == ToBytes(|p| + 2, 2);
  }

  // -------------------------------------------------------------- receiving

  /** int.from_bytes(s[0:2], "big"): the length field at the front of s, read
      from the bytes there are when s is shorter than two. */
  function LengthField(s: seq<byte>): nat
  {
    if |s| == 0 then 0 else if |s| == 1 then s[0] else s[0] as int * 256 + s[1]
  }

  lemma LengthFieldIsFromBytes(s: seq<byte>)
    ensures LengthField(s) == FromBytes(Take(s, 2))
  {
    var t := Take(s, 2);
    if |s| >= 2 {
      assert t == [s[0], s[1]];
      assert [s[0]][..0] == [];
      assert FromBytes([s[0]]) == s[0];
      assert t[..|t| - 1] == [s[0]];
      assert FromBytes(t) == FromBytes([s[0]]) * 256 + s[1];
    } else if |s| == 1 {
      assert t == [s[0]] && t[..0] == [];
    } else {
      assert t == [];
    }
  }

  /** What one call of the receive_data generator yields, and the buffer it leaves. */
  datatype Received = Received(payloads: seq<seq<byte>>, buffer: seq<byte>)

  /** receive_data as written. The length of the next frame comes from the carry
      buffer when it holds something, else from the chunk; when the chunk is too
      short the buffer is extended by `data[cutoff:]`, which is empty because
      cutoff exceeds the chunk's length. A zero length makes the source yield
      empty payloads for ever; the model yields the first and stops. */
  function SplitAsWritten(buffer: seq<byte>, data: seq<byte>): (r: Received)
    ensures buffer == [] ==> r.buffer == []
    decreases |data|, |buffer|
  {
    if data == [] then Received([], buffer)
    else
      var cutoff := if |buffer| > 0 then LengthField(buffer) - |buffer| else LengthField(data);
      if cutoff > |data| then Received([], buffer + Drop(data, cutoff))
      else
        var payload := Drop(buffer + Take(data, cutoff), 2);
        if buffer == [] && cutoff == 0 then Received([payload], [])
        else
          var rest := SplitAsWritten([], Drop(data, cutoff));
          Received([payload] + rest.payloads, rest.buffer)
  }

  function ReceiveAsWritten(buffer: seq<byte>, data: seq<byte>): (r: Received)
    ensures data == [] ==> r == Received([[]], buffer)
    ensures buffer == [] ==> r.buffer == []
  {
    if data == [] then Received([[]], buffer) else SplitAsWritten(buffer, data)
  }

  /** The carry buffer holds no whole frame: fewer than two bytes, or fewer bytes
      than the length they start with. */
  predicate Pending(buffer: seq<byte>)
  {
    |buffer| < 2 || LengthField(buffer) > |buffer|
  }

  /** receive_data with the carry corrected: the unfinished frame is kept, and the
      length is read from the buffer and the chunk together, so that a length
      split between two chunks is read whole. Everything else is as in the
      source, including a length of one (an empty payload, one byte consumed)
      and a length of zero (empty payloads for ever, modelled as one). The
      buffer left over is the unread tail of the stream and holds no whole frame. */
  function Split(stream: seq<byte>): (r: Received)
    ensures Pending(r.buffer)
    decreases |stream|
  {
    if |stream| < 2 then Received([], stream)
    else
      var length := LengthField(stream);
      if length > |stream| then Received([], stream)
      else if length == 0 then Received([[]], [])
      else
        var rest := Split(stream[length..]);
        Received([Drop(stream[..length], 2)] + rest.payloads, rest.buffer)
  }

  function Receive(buffer: seq<byte>, data: seq<byte>): (r: Received)
    ensures data == [] ==> r == Received([[]], buffer)
    ensures Pending(buffer) ==> Pending(r.buffer)
  {
    if data == [] then Received([[]], buffer) else Split(buffer + data)
  }

  /** The state receive_data keeps between chunks. */
  class TCP {
    var buffer: seq<byte>

    predicate Valid()
      reads this
    {
      Pending(buffer)
    }

    constructor ()
      ensures buffer == [] && Valid()
    {
      buffer := [];
    }

    /** receive_data(chunk), with the corrected carry: the payloads it yields, in
        order, and the new buffer, as Receive defines them. carried is the buffer
        as it stands at each yield: the empty chunk is passed on with the buffer
        untouched, and every payload cut from a chunk leaves the buffer empty. */
    method ReceiveData(chunk: seq<byte>) returns (payloads: seq<seq<byte>>, ghost carried: seq<seq<byte>>)
      requires Valid()
      modifies this
      ensures Valid()
      ensures Received(payloads, buffer) == Receive(old(buffer), chunk)
      ensures |carried| == |payloads|
      ensures chunk == [] ==> carried == [old(buffer)]
      ensures chunk != [] ==> forall i :: 0 <= i < |carried| ==> carried[i] == []
    {
      if chunk == [] {
        return [[]], [buffer];
      }
      ghost var whole := Receive(buffer, chunk);
      AppendNil(whole.payloads);
      payloads, carried := [], [];
      var data := chunk;
      while |data| > 0
        invariant Pending(buffer)
        invariant |data| == 0 ==> buffer == []
        invariant Continue(Received(payloads, buffer), data) == whole
        invariant |carried| == |payloads| && forall i :: 0 <= i < |carried| ==> carried[i] == []
        decreases |data|, |buffer|
      {
        var stream := buffer + data;
        if |stream| < 2 {
          AppendNil(payloads);
          buffer := stream;
          return;
        }
        var length := LengthField(stream);
        var cutoff := length - |buffer|;
        if cutoff > |data| {
          AppendNil(payloads);
          buffer := buffer + data;
          return;
        }
        if length == 0 {
          payloads := payloads + [[]];
          buffer := [];
          carried := carried + [buffer];
          return;
        }
        ContinueYields(payloads, buffer, data, cutoff);
        payloads := payloads + [Drop(buffer + data[..cutoff], 2)];
        data := data[cutoff..];
        buffer := [];
        carried := carried + [buffer];
      }
      assert Split(buffer + data) == Received([], []);
      AppendNil(payloads);
    }
  }

  /** One turn of receive_data's loop that yields a payload and clears the buffer. */
  lemma ContinueYields(sofar: seq<seq<byte>>, buffer: seq<byte>, data: seq<byte>, cutoff: int)
    requires |buffer + data| >= 2 && 0 <= cutoff <= |data|
    requires LengthField(buffer + data) == |buffer| + cutoff != 0
    ensures Continue(Received(sofar, buffer), data)
         == Continue(Received(sofar + [Drop(buffer + data[..cutoff], 2)], []), data[cutoff..])
  {
    var stream := buffer + data;
    var length := |buffer| + cutoff;
    var payload := Drop(buffer + data[..cutoff], 2);
    assert stream[..length] == buffer + data[..cutoff];
    assert stream[length..] == data[cutoff..] == [] + data[cutoff..];
    var rest := Split(data[cutoff..]);
    assert Split(stream) == Received([payload] + rest.payloads, rest.buffer);
    AppendAssociates(sofar, [payload], rest.payloads);
  }

  /** Successive receive_data calls over a list of chunks. */
  function Feed(buffer: seq<byte>, chunks: seq<seq<byte>>): Received
    decreases chunks
  {
    if chunks == [] then Received([], buffer)
    else
      var r := Receive(buffer, chunks[0]);
      var rest := Feed(r.buffer, chunks[1..]);
      Received(r.payloads + rest.payloads, rest.buffer)
  }

  function Concat(chunks: seq<seq<byte>>): seq<byte>
  {
    if chunks == [] then [] else chunks[0] + Concat(chunks[1..])
  }

  // ----------------------------------------------------------------- lemmas

  lemma SplitFrontFrame(p: seq<byte>, rest: seq<byte>)
    requires Sendable(p)
    ensures Split(FrameBytes(p) + rest) == Received([p] + Split(rest).payloads, Split(rest).buffer)
  {
    var s := FrameBytes(p) + rest;
    FrameHeader(p, rest);
    assert s[..|p| + 2] == FrameBytes(p);
    assert s[|p| + 2..] == rest;
  }

  lemma SplitAsWrittenFrontFrame(p: seq<byte>, rest: seq<byte>)
    requires Sendable(p)
    ensures SplitAsWritten([], FrameBytes(p) + rest)
         == Received([p] + SplitAsWritten([], rest).payloads, SplitAsWritten([], rest).buffer)
  {
    var s := FrameBytes(p) + rest;
    FrameHeader(p, rest);
    assert [] + Take(s, |p| + 2) == FrameBytes(p);
    assert Drop(FrameBytes(p), 2) == p;
    assert Drop(s, |p| + 2) == rest;
  }

  /** The buffer Split leaves is the unread tail of the stream. */
  lemma {:induction false} SplitLeavesTail(stream: seq<byte>)
    ensures |Split(stream).buffer| <= |stream|
    ensures Split(stream).buffer == stream[|stream| - |Split(stream).buffer|..]
    decreases |stream|
  {
    if |stream| >= 2 {
      var length := LengthField(stream);
      if 0 < length <= |stream| {
        var rest := stream[length..];
        SplitLeavesTail(rest);
        assert Split(stream).buffer == Split(rest).buffer;
        SuffixOfSuffix(stream, length, |Split(rest).buffer|);
      }
    }
  }

  /** Back-to-back frames in front of any bytes: their payloads come out first,
      in order, and the bytes behind them are split as if alone. */
  lemma {:induction false} SplitFrames(ps: seq<seq<byte>>, rest: seq<byte>)
    requires AllSendable(ps)
    ensures Split(Frames(ps) + rest) == Received(ps + Split(rest).payloads, Split(rest).buffer)
  {
    if ps != [] {
      var q := ps[1..];
      var tail := Frames(q) + rest;
      SplitFrames(q, rest);
      assert Frames(ps) == FrameBytes(ps[0]) + Frames(q);
      AppendAssociates(FrameBytes(ps[0]), Frames(q), rest);
      SplitFrontFrame(ps[0], tail);
      var xs := Split(rest).payloads;
      ConsAppend(ps, xs);
    } else {
      assert Frames(ps) + rest == rest;
      ConsAppend(ps, Split(rest).payloads);
    }
  }

  lemma {:induction false} SplitAsWrittenFrames(ps: seq<seq<byte>>, rest: seq<byte>)
    requires AllSendable(ps)
    ensures SplitAsWritten([], Frames(ps) + rest)
         == Received(ps + SplitAsWritten([], rest).payloads, SplitAsWritten([], rest).buffer)
  {
    if ps != [] {
      var q := ps[1..];
      var tail := Frames(q) + rest;
      SplitAsWrittenFrames(q, rest);
      assert Frames(ps) == FrameBytes(ps[0]) + Frames(q);
      AppendAssociates(FrameBytes(ps[0]), Frames(q), rest);
      SplitAsWrittenFrontFrame(ps[0], tail);
      var xs := SplitAsWritten([], rest).payloads;
      ConsAppend(ps, xs);
    } else {
      assert Frames(ps) + rest == rest;
      ConsAppend(ps, SplitAsWritten([], rest).payloads);
    }
  }

  /** One chunk of back-to-back frames, from an empty buffer: the payloads come
      out in the order they were sent and nothing is left over, as written and
      corrected alike. */
  lemma ReceiveFrames(ps: seq<seq<byte>>)
    requires ps != [] && AllSendable(ps)
    ensures Receive([], Frames(ps)) == Received(ps, [])
    ensures ReceiveAsWritten([], Frames(ps)) == Received(ps, [])
  {
    var T := Frames(ps);
    SplitFrames(ps, []);
    SplitAsWrittenFrames(ps, []);
    AppendNil(T);
    AppendNil(ps);
    assert |T| >= 2 by {
      assert T == FrameBytes(ps[0]) + Frames(ps[1..]);
    }
    assert Split([]) == Received([], []);
    assert SplitAsWritten([], []) == Received([], []);
    assert Receive([], T) == Split(T + []);
    assert ReceiveAsWritten([], T) == SplitAsWritten([], T + []);
  }

  /** The beginning of a frame that has not all arrived. */
  lemma PartialFrameWaits(p: seq<byte>, s: seq<byte>)
    requires Sendable(p) && |s| < |p| + 2 && s == FrameBytes(p)[..|s|]
    ensures Split(s) == Received([], s)
    ensures |s| >= 2 ==> SplitAsWritten([], s) == Received([], [])
  {
    if |s| >= 2 {
      FrameHeader(p, []);
      assert FrameBytes(p) + [] == FrameBytes(p);
    }
  }

  /** A chunk whose last frame is cut short: the whole frames before it are
      yielded and the generator stops. As written the cut frame is thrown away;
      corrected it waits in the buffer for the rest. */
  lemma TrailingPartialFrame(ps: seq<seq<byte>>, p: seq<byte>, s: seq<byte>)
    requires AllSendable(ps) && Sendable(p)
    requires 2 <= |s| < |p| + 2 && s == FrameBytes(p)[..|s|]
    ensures SplitAsWritten([], Frames(ps) + s) == Received(ps, [])
    ensures Split(Frames(ps) + s) == Received(ps, s)
  {
    PartialFrameWaits(p, s);
    SplitFrames(ps, s);
    SplitAsWrittenFrames(ps, s);
  }

  /** What has been yielded so far, followed by one more non-empty chunk. */
  function Continue(sofar: Received, data: seq<byte>): Received
  {
    var next := Split(sofar.buffer + data);
    Received(sofar.payloads + next.payloads, next.buffer)
  }

  /** A whole frame in front changes nothing but the payload it adds. */
  lemma ContinueFrontFrame(p: seq<byte>, x: seq<byte>, data: seq<byte>)
    requires Sendable(p)
    ensures Continue(Split(FrameBytes(p) + x), data)
         == Received([p] + Continue(Split(x), data).payloads, Continue(Split(x), data).buffer)
  {
    SplitFrontFrame(p, x);
    var a := Split(x);
    var b := Split(a.buffer + data);
    AppendAssociates([p], a.payloads, b.payloads);
  }

  /** Splitting a prefix of a frame stream and then the buffer together with the
      bytes that follow gives what splitting the longer prefix at once gives. */
  lemma {:induction false} SplitStep(ps: seq<seq<byte>>, n: nat, m: nat)
    requires AllSendable(ps) && n <= m <= |Frames(ps)|
    ensures Continue(Split(Frames(ps)[..n]), Frames(ps)[n..m]) == Split(Frames(ps)[..m])
    decreases ps
  {
    var T := Frames(ps);
    if ps == [] {
      assert T[..n] == [] && T[n..m] == [] && T[..m] == [];
    } else {
      var f := FrameBytes(ps[0]);
      var U := Frames(ps[1..]);
      assert T == f + U;
      if n < |f| {
        StepInsideFrame(ps[0], T[..n], T[n..m]);
        SliceJoin(T, n, m);
      } else {
        SplitStep(ps[1..], n - |f|, m - |f|);
        StepPastFrame(ps[0], U, n, m);
      }
    }
  }

  lemma StepPastFrame(p: seq<byte>, u: seq<byte>, n: nat, m: nat)
    requires Sendable(p) && |FrameBytes(p)| <= n <= m <= |FrameBytes(p)| + |u|
    requires var L := |FrameBytes(p)|;
      Continue(Split(u[..n - L]), u[n - L..m - L]) == Split(u[..m - L])
    ensures var t := FrameBytes(p) + u;
      Continue(Split(t[..n]), t[n..m]) == Split(t[..m])
  {
    var f, L := FrameBytes(p), |FrameBytes(p)|;
    var t, x, data, y := f + u, u[..n - L], u[n - L..m - L], u[..m - L];
    SliceOfAppend(f, u, n, m);
    SliceOfAppend(f, u, m, m);
    assert t[..n] == f + x && t[n..m] == data && t[..m] == f + y;
    ContinueFrontFrame(p, x, data);
    SplitFrontFrame(p, y);
    assert Continue(Split(x), data) == Split(y);
  }

  lemma StepInsideFrame(p: seq<byte>, s: seq<byte>, data: seq<byte>)
    requires Sendable(p) && |s| < |p| + 2 && s == FrameBytes(p)[..|s|]
    ensures Continue(Split(s), data) == Split(s + data)
  {
    PartialFrameWaits(p, s);
    AppendNil(Split(s + data).payloads);
  }

  lemma {:induction false} FeedFrom(ps: seq<seq<byte>>, n: nat, chunks: seq<seq<byte>>)
    requires AllSendable(ps) && n <= |Frames(ps)|
    requires forall i :: 0 <= i < |chunks| ==> chunks[i] != []
    requires Concat(chunks) == Frames(ps)[n..]
    ensures var first := Split(Frames(ps)[..n]);
            first.payloads + Feed(first.buffer, chunks).payloads == ps
            && Feed(first.buffer, chunks).buffer == []
    decreases chunks
  {
    var T := Frames(ps);
    var first := Split(T[..n]);
    if chunks == [] {
      assert T[..n] == T + [];
      SplitFrames(ps, []);
      assert Split([]) == Received([], []);
      AppendNil(ps);
    } else {
      var c := chunks[0];
      var m := n + |c|;
      assert T[n..] == c + Concat(chunks[1..]);
      assert T[n..m] == c;
      assert T[m..] == Concat(chunks[1..]);
      SplitStep(ps, n, m);
      FeedFrom(ps, m, chunks[1..]);
      var r := Receive(first.buffer, c);
      var rest := Feed(r.buffer, chunks[1..]);
      assert r == Split(first.buffer + c);
      AppendAssociates(first.payloads, r.payloads, rest.payloads);
    }
  }

  /** However the stream of frames is cut into chunks, feeding the chunks one
      after another to the corrected receive_data yields every payload once, in
      the order they were sent, and leaves the buffer empty. */
  lemma ChunkedRoundTrip(ps: seq<seq<byte>>, chunks: seq<seq<byte>>)
    requires AllSendable(ps)
    requires forall i :: 0 <= i < |chunks| ==> chunks[i] != []
    requires Concat(chunks) == Frames(ps)
    ensures Feed([], chunks) == Received(ps, [])
  {
    FeedFrom(ps, 0, chunks);
    assert Frames(ps)[..0] == [];
    assert Frames(ps)[0..] == Frames(ps);
  }

  /** The move (2, 3) is the frame [0, 5, 1, 2, 3]. */
  lemma MoveTwoThreeFrame()
    ensures EncodeMove(2, 3) == Some([1, 2, 3])
    ensures Frame([1, 2, 3]) == Some([0, 5, 1, 2, 3])
  {
    assert ToBytes(2, 1) == [2] && ToBytes(3, 1) == [3];
    assert ToBytes(0, 1) == [0] && ToBytes(5, 2) == [0, 5];
    assert EncodeMove(2, 3).value == [1] + [2] + [3] == [1, 2, 3];
    assert Frame([1, 2, 3]).value == [0, 5] + [1, 2, 3] == [0, 5, 1, 2, 3];
  }

  /** The frame of the move (2, 3) cut after its third byte: the source as written
      yields nothing from either piece, so the move is lost. Cut after its first
      byte, it yields the empty payload, which tcp_loop takes for a closed
      connection. */
  lemma AsWrittenLosesASplitFrame()
    ensures ReceiveAsWritten([], [0, 5, 1]) == Received([], [])
    ensures ReceiveAsWritten([], [2, 3]) == Received([], [])
    ensures ReceiveAsWritten([], [0]).payloads == [[]]
  {
  }

  /** The corrected carry delivers the same frame, cut either way. */
  lemma CorrectedKeepsASplitFrame()
    ensures Receive([], [0, 5, 1]) == Received([], [0, 5, 1])
    ensures Receive([0, 5, 1], [2, 3]) == Received([[1, 2, 3]], [])
    ensures Feed([], [[0], [5, 1, 2, 3]]) == Received([[1, 2, 3]], [])
  {
    var stream: seq<byte> := [0, 5, 1] + [2, 3];
    assert stream[..5] == stream && stream[5..] == [];
    assert Drop(stream, 2) == [1, 2, 3];
    assert Split(stream[5..]) == Received([], []);
    assert Receive([], [0]) == Received([], [0]);
    assert [0] + [5, 1, 2, 3] == stream;
    var chunks: seq<seq<byte>> := [[0], [5, 1, 2, 3]];
    assert chunks[1..][1..] == [];
    assert Feed([0], chunks[1..]) == Received([[1, 2, 3]], []);
  }

  // --------------------------------------------------------------- messages

  /** The move message of tcp_loop: TCP_DATA_TYPE["Move"] and one byte for each
      coordinate, or None where `to_bytes(1, "big")` raises OverflowError. */
  function EncodeMove(x: int, y: int): (r: Option<seq<byte>>)
    ensures r.Some? <==> 0 <= x < 256 && 0 <= y < 256
    ensures r.Some? ==> |r.value| == 3 && r.value[0] == TCP_MOVE
  {
    if 0 <= x < 256 && 0 <= y < 256 then Some([TCP_MOVE as byte] + ToBytes(x, 1) + ToBytes(y, 1)) else None
  }

  /** What tcp_loop makes of a payload, as far as moves go: the empty payload closes
      the connection, a move message gives its position, a move message too short
      for two coordinates raises IndexError, and the other message kinds are not
      part of this model. */
  datatype Message = Closed | MoveAt(x: int, y: int) | Truncated | Other

  function Dispatch(data: seq<byte>): (m: Message)
    ensures m == Closed <==> data == []
    ensures m.MoveAt? <==> |data| >= 3 && data[0] == TCP_MOVE
    ensures m.MoveAt? ==> m == MoveAt(data[1], data[2])
  {
    if data == [] then Closed
    else if data[0] != TCP_MOVE then Other
    else if |data| < 3 then Truncated
    else MoveAt(data[1], data[2])
  }

  /** A move sent with send_data reaches the other side, in one chunk, as that
      same move. */
  lemma MoveOverTheLink(x: int, y: int)
    requires 0 <= x < 256 && 0 <= y < 256
    ensures var message := EncodeMove(x, y).value;
            Sendable(message)
            && Receive([], Frame(message).value) == Received([message], [])
            && ReceiveAsWritten([], Frame(message).value) == Received([message], [])
            && Dispatch(message) == MoveAt(x, y)
  {
    var message := EncodeMove(x, y).value;
    assert message[1..2] == ToBytes(x, 1) && message[2..] == ToBytes(y, 1);
    assert Frames([message]) == Frame(message).value + [];
    ReceiveFrames([message]);
  }
}
