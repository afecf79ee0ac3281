/** Length-prefixed messages over a byte stream with partial and interrupted sends and receives.
    Source: common/common_utils.cpp (`cu_write_data_item`, `cu_read_data_item`). */
module Framing {
  import opened Common

  import opened Bytes

  const INT_LIMIT: nat := 0x8000_0000
  const HEADER: nat := 4

  /** What one `send` or `recv` may do: be interrupted, fail, report a closed connection, or move
      up to `limit` bytes. */
  datatype IoEvent = Interrupted | Failed | Closed | Moves(limit: nat)

  /** How a transfer of a fixed number of bytes ends. `Blocked` means that the events given were
      not enough to finish it. */
  datatype Transfer = Complete | Broken | Blocked

  predicate Benign(e: IoEvent) {
    e.Interrupted? || (e.Moves? && e.limit > 0)
  }

  predicate AllBenign(events: seq<IoEvent>) {
    forall i :: 0 <= i < |events| ==> Benign(events[i])
  }

  /** How many of the calls move data. */
  function MoveCount(events: seq<IoEvent>): nat {
    if events == [] then 0
    else MoveCount(events[..|events| - 1]) + if events[|events| - 1].Moves? then 1 else 0
  }

  /** Calls that suffice for `n` bytes, however little each of them moves. */
  predicate Suffices(events: seq<IoEvent>, n: nat) {
    AllBenign(events) && MoveCount(events) >= n
  }

  lemma {:induction false} MovesOfSplit(events: seq<IoEvent>, k: nat)
    requires k <= |events|
    ensures MoveCount(events) == MoveCount(events[..k]) + MoveCount(events[k..])
  {
    if k == |events| {
      assert events[..k] == events;
    } else {
      var n := |events| - 1;
      assert events[..n][..k] == events[..k] && events[k..][..n - k] == events[..n][k..];
      MovesOfSplit(events[..n], k);
    }
  }

  /** What is left of sufficient calls after a transfer that did not waste any. */
  lemma RestSuffices(events: seq<IoEvent>, used: nat, first: nat, second: nat)
    requires used <= |events| && Suffices(events, first + second) && MoveCount(events[..used]) <= first
    ensures Suffices(events[used..], second)
  {
    MovesOfSplit(events, used);
  }

  /** The calls made during a transfer: all of them were benign, except the last one if it broke
      the transfer. */
  ghost predicate Ended(status: Transfer, events: seq<IoEvent>, used: nat) {
    && used <= |events|
    && if status.Broken? then used > 0 && AllBenign(events[..used - 1]) && !Benign(events[used - 1])
       else AllBenign(events[..used])
  }

  // ---------- the wire format ----------

  predicate Message(m: seq<byte>) {
    0 < |m| < INT_LIMIT
  }

  function Frame(m: seq<byte>): seq<byte>
    requires |m| < INT_LIMIT
  {
    Pack32(|m|) + m
  }

  ghost predicate AllMessages(ms: seq<seq<byte>>) {
    forall i :: 0 <= i < |ms| ==> Message(ms[i])
  }

  function Frames(ms: seq<seq<byte>>): seq<byte>
    requires AllMessages(ms)
  {
    if ms == [] then []
    else
      assert Message(ms[0]);
      Frame(ms[0]) + Frames(ms[1..])
  }

  /** What the reader makes of the bytes it gets, given a buffer of `bufLen` bytes. */
  datatype Item = Received(m: seq<byte>) | Empty | TooLong | Incomplete

  function FirstItem(stream: seq<byte>, bufLen: nat): Item {
    if |stream| < HEADER then Incomplete
    else
      var size := Unpack32(stream);
      if size > bufLen then TooLong
      else if size == 0 then Empty
      else if |stream| < HEADER + size then Incomplete
      else Received(stream[HEADER..HEADER + size])
  }

  /** How many bytes of the stream that takes. */
  function Consumed(item: Item): nat {
    if item.Received? then HEADER + |item.m| else HEADER
  }

  /** The wire image of a message: its length in four bytes, most significant first, and the bytes. */
  lemma FrameLayout(m: seq<byte>)
    requires |m| < INT_LIMIT
    ensures var w := Frame(m);
            && |w| == 4 + |m| && w[4..] == m
            && w[0] == |m| / 0x100_0000 && w[1] == |m| / 0x1_0000 % 256 && w[2] == |m| / 256 % 256 && w[3] == |m| % 256
  {
    BigEndian32(|m|, []);
  }

  lemma FirstItemOfFrame(m: seq<byte>, rest: seq<byte>, bufLen: nat)
    requires Message(m)
    ensures FirstItem(Frame(m) + rest, bufLen) == if |m| <= bufLen then Received(m) else TooLong
    ensures |m| <= bufLen ==> (Frame(m) + rest)[HEADER + |m|..] == rest
  {
    var stream := Frame(m) + rest;
    assert stream == Pack32(|m|) + (m + rest);
    Unpack32OfPack32(|m|, m + rest);
    if |m| <= bufLen {
      assert stream[HEADER..HEADER + |m|] == m;
    }
  }

  /** A reader that keeps reading until the stream is used up; `None` if some item is rejected,
      empty or cut off. */
  function ReadAll(stream: seq<byte>, bufLen: nat): (r: Option<seq<seq<byte>>>)
    decreases |stream|
  {
    if stream == [] then Some([])
    else
      var item := FirstItem(stream, bufLen);
      if !item.Received? then None
      else
        var rest := ReadAll(stream[Consumed(item)..], bufLen);
        if rest.None? then None else Some([item.m] + rest.value)
  }

  ghost predicate AllFit(ms: seq<seq<byte>>, bufLen: nat) {
    forall i :: 0 <= i < |ms| ==> |ms[i]| <= bufLen
  }

  lemma AllFitSplits(ms: seq<seq<byte>>, bufLen: nat)
    requires ms != []
    ensures AllFit(ms, bufLen) <==> |ms[0]| <= bufLen && AllFit(ms[1..], bufLen)
  {
    if |ms[0]| <= bufLen && AllFit(ms[1..], bufLen) {
      assert forall i :: 0 < i < |ms| ==> ms[i] == ms[1..][i - 1];
    }
  }

  /** Reading on from a frame. */
  lemma ReadAllOfFrame(m: seq<byte>, rest: seq<byte>, bufLen: nat)
    requires Message(m)
    ensures ReadAll(Frame(m) + rest, bufLen)
            == if |m| > bufLen || ReadAll(rest, bufLen).None? then None else Some([m] + ReadAll(rest, bufLen).value)
  {
    FirstItemOfFrame(m, rest, bufLen);
  }

  /** A sequence of messages is recovered exactly and in order if every one of them fits the reader's
      buffer, and otherwise the reader rejects it. */
  lemma {:induction false} FramingExact(ms: seq<seq<byte>>, bufLen: nat)
    requires AllMessages(ms)
    ensures ReadAll(Frames(ms), bufLen) == if AllFit(ms, bufLen) then Some(ms) else None
  {
    if ms != [] {
      assert Message(ms[0]);
      ReadAllOfFrame(ms[0], Frames(ms[1..]), bufLen);
      FramingExact(ms[1..], bufLen);
      AllFitSplits(ms, bufLen);
      assert ms == [ms[0]] + ms[1..];
    }
  }

  /** Different message sequences have different wire images. */
  lemma FramesDecodable(ms: seq<seq<byte>>, ns: seq<seq<byte>>)
    requires AllMessages(ms) && AllMessages(ns) && Frames(ms) == Frames(ns)
    ensures ms == ns
  {
    FramingExact(ms, INT_LIMIT);
    FramingExact(ns, INT_LIMIT);
  }

  /** After an oversized item the reader is out of step: the rejected body stays in the stream and
      its first bytes are taken for the next length. */
  lemma OversizedItemDesynchronises(m: seq<byte>, rest: seq<byte>, bufLen: nat)
    requires Message(m) && |m| > bufLen && |m| >= HEADER
    ensures FirstItem(Frame(m) + rest, bufLen) == TooLong
    ensures var next := (Frame(m) + rest)[Consumed(TooLong)..];
            next == m + rest && Unpack32(next) == Unpack32(m)
  {
    FirstItemOfFrame(m, rest, bufLen);
    RestOfFrame(m, rest);
    HeaderWithin(m, rest);
  }

  lemma RestOfFrame(m: seq<byte>, rest: seq<byte>)
    requires |m| < INT_LIMIT
    ensures (Frame(m) + rest)[HEADER..] == m + rest
  {
  }

  lemma HeaderWithin(m: seq<byte>, rest: seq<byte>)
    requires |m| >= HEADER
    ensures Unpack32(m + rest) == Unpack32(m)
  {
    var header := m[..HEADER];
    assert (m + rest)[..HEADER] == header;
    SameHeader(header, m);
    SameHeader(header, m + rest);
  }

  lemma SameHeader(header: seq<byte>, stream: seq<byte>)
    requires |header| == HEADER <= |stream| && stream[..HEADER] == header
    ensures Unpack32(stream) == Unpack32(header)
  {
    assert stream[2..][0] == header[2..][0] && stream[2..][1] == header[2..][1];
    assert stream[0] == header[0] && stream[1] == header[1];
  }

  // ---------- the socket loops ----------

  class Connection {
    /** Bytes handed to the peer so far. */
    var sent: seq<byte>
    /** Bytes the peer sends, from the first one not yet read. */
    var incoming: seq<byte>

    constructor (incoming: seq<byte>)
      ensures sent == [] && this.incoming == incoming
    {
      sent := [];
      this.incoming := incoming;
    }

    /** The loop around `send`: `used` events are consumed. */
    method SendAll(data: seq<byte>, events: seq<IoEvent>) returns (status: Transfer, used: nat)
      requires |data| > 0
      modifies this`sent
      ensures Ended(status, events, used)
      ensures old(sent) <= sent <= old(sent) + data
      ensures status.Complete? ==> sent == old(sent) + data && MoveCount(events[..used]) <= |data|
      ensures status.Blocked? ==> used == |events| && MoveCount(events) < |data|
    {
      var offset := 0;
      used := 0;
      while used < |events|
        invariant used <= |events| && 0 <= offset < |data|
        invariant sent == old(sent) + data[..offset]
        invariant AllBenign(events[..used]) && MoveCount(events[..used]) <= offset
        decreases |events| - used
      {
        var e := events[used];
        used := used + 1;
        assert events[..used][..used - 1] == events[..used - 1];
        match e {
          case Interrupted =>
          case Failed => return Broken, used;
          case Closed => return Broken, used;
          case Moves(limit) =>
            if limit == 0 { return Broken, used; }
            var count := Min(limit, |data| - offset);
            Regroup(old(sent), data[..offset], data[offset..offset + count]);
            sent := sent + data[offset..offset + count];
            assert data[..offset] + data[offset..offset + count] == data[..offset + count];
            offset := offset + count;
            assert sent == old(sent) + data[..offset];
            if offset == |data| {
              assert data[..offset] == data;
              return Complete, used;
            }
        }
      }
      status := Blocked;
      assert events[..used] == events;
    }

    /** The loop around `recv`. Waiting for bytes that never come is `Blocked`. */
    method ReceiveExactly(want: nat, events: seq<IoEvent>) returns (status: Transfer, data: seq<byte>, used: nat)
      requires want > 0
      modifies this`incoming
      ensures Ended(status, events, used)
      ensures data + incoming == old(incoming) && |data| <= want
      ensures status.Complete? ==> |data| == want && MoveCount(events[..used]) <= want
      ensures status.Blocked? ==> |data| < want && (incoming == [] || (used == |events| && MoveCount(events) < want))
    {
      data := [];
      used := 0;
      while used < |events|
        invariant used <= |events| && |data| < want
        invariant data + incoming == old(incoming)
        invariant AllBenign(events[..used]) && MoveCount(events[..used]) <= |data|
        decreases |events| - used
      {
        var e := events[used];
        used := used + 1;
        assert events[..used][..used - 1] == events[..used - 1];
        match e {
          case Interrupted =>
          case Failed => return Broken, data, used;
          case Closed => return Broken, data, used;
          case Moves(limit) =>
            if limit == 0 { return Broken, data, used; }
            if incoming == [] { return Blocked, data, used; }
            var count := Min(Min(limit, want - |data|), |incoming|);
            assert data + incoming == (data + incoming[..count]) + incoming[count..];
            data := data + incoming[..count];
            incoming := incoming[count..];
            if |data| == want {
              return Complete, data, used;
            }
        }
      }
      status := Blocked;
      assert events[..used] == events;
    }

    /** `cu_write_data_item`. Whatever happens, the peer sees a prefix of the frame; enough
        benign calls get all of it across. */
    method WriteDataItem(buf: seq<byte>, events: seq<IoEvent>) returns (status: Transfer, used: nat)
      requires |buf| < INT_LIMIT
      modifies this`sent
      ensures used <= |events|
      ensures old(sent) <= sent <= old(sent) + Frame(buf)
      ensures |buf| == 0 ==> status.Broken? && sent == old(sent)
      ensures status.Complete? ==> sent == old(sent) + Frame(buf)
      ensures |buf| > 0 && AllBenign(events) ==> !status.Broken?
      ensures |buf| > 0 && Suffices(events, HEADER + |buf|) ==> status.Complete?
    {
      used := 0;
      if |buf| <= 0 { return Broken, 0; }
      status, used := SendAll(Pack32(|buf|), events);
      assert old(sent) + Pack32(|buf|) <= old(sent) + Frame(buf);
      if !status.Complete? { return; }
      if Suffices(events, HEADER + |buf|) {
        RestSuffices(events, used, HEADER, |buf|);
      }
      var more;
      status, more := SendAll(buf, events[used..]);
      used := used + more;
      assert old(sent) + Pack32(|buf|) + buf == old(sent) + Frame(buf);
    }

    /** `cu_read_data_item`. When both transfers finish, the item is what the bytes of the stream
        say, however they were split up. */
    method ReadDataItem(bufLen: int, events: seq<IoEvent>) returns (status: Transfer, item: Item, used: nat)
      requires bufLen < INT_LIMIT
      modifies this`incoming
      ensures used <= |events|
      ensures status.Complete? <==> !item.Incomplete?
      ensures bufLen <= 0 ==> status.Broken? && incoming == old(incoming)
      ensures status.Complete? ==> item == FirstItem(old(incoming), bufLen)
                                   && Consumed(item) <= |old(incoming)| && incoming == old(incoming)[Consumed(item)..]
      ensures bufLen > 0 && AllBenign(events) ==> !status.Broken?
      ensures bufLen > 0 ==> var first := FirstItem(old(incoming), bufLen);
                             !first.Incomplete? && Suffices(events, Consumed(first)) ==> status.Complete?
    {
      ghost var stream := incoming;
      if bufLen <= 0 { return Broken, Incomplete, 0; }
      var header, data, more;
      status, header, used := ReceiveExactly(HEADER, events);
      item := Incomplete;
      if !status.Complete? { return; }
      assert stream[..HEADER] == header && stream[HEADER..] == incoming;
      SameHeader(header, stream);
      var itemSize := Unpack32(header);
      if itemSize > bufLen { return Complete, TooLong, used; }
      if itemSize == 0 { return Complete, Empty, used; }
      if Suffices(events, HEADER + itemSize) {
        RestSuffices(events, used, HEADER, itemSize);
      }
      status, data, more := ReceiveExactly(itemSize, events[used..]);
      used := used + more;
      if !status.Complete? { return; }
      item := Received(data);
      assert stream == header + data + incoming;
    }
  }

  // ---------- a whole conversation ----------

  /** A sender that writes messages one after the other and stops at the first that does not go
      through. `events` lists what happens during each write. */
  method WriteMessages(c: Connection, ms: seq<seq<byte>>, events: seq<seq<IoEvent>>) returns (done: nat)
    requires AllMessages(ms) && |events| == |ms| && c.sent == []
    modifies c`sent
    ensures done <= |ms| && Frames(ms[..done]) <= c.sent
    ensures done == |ms| ==> c.sent == Frames(ms)
    ensures done < |ms| ==> !Suffices(events[done], HEADER + |ms[done]|)
  {
    done := 0;
    while done < |ms|
      invariant done <= |ms| && c.sent == Frames(ms[..done])
    {
      var status, used := c.WriteDataItem(ms[done], events[done]);
      if !status.Complete? { return; }
      FramesOfAppend(ms[..done], ms[done]);
      assert ms[..done + 1] == ms[..done] + [ms[done]];
      done := done + 1;
    }
    assert ms[..done] == ms;
  }

  lemma {:induction false} FramesOfAppend(ms: seq<seq<byte>>, m: seq<byte>)
    requires AllMessages(ms) && Message(m)
    ensures AllMessages(ms + [m]) && Frames(ms + [m]) == Frames(ms) + Frame(m)
  {
    if ms == [] {
      assert ms + [m] == [m];
      assert Frames([m]) == Frame(m) + Frames([]);
    } else {
      var longer := ms + [m];
      assert longer[0] == ms[0] && longer[1..] == ms[1..] + [m] && Message(ms[0]);
      FramesOfAppend(ms[1..], m);
      Regroup(Frame(ms[0]), Frames(ms[1..]), Frame(m));
    }
  }

  /** A reader on the other end: as long as its reads finish, it gets exactly the messages that
      were written, in order, whatever the chunks were. */
  method ReadMessages(c: Connection, ghost ms: seq<seq<byte>>, bufLen: nat, count: nat, events: seq<seq<IoEvent>>)
    returns (items: seq<seq<byte>>)
    requires AllMessages(ms) && c.incoming == Frames(ms) && count <= |ms| && |events| == count
    requires 0 < bufLen < INT_LIMIT && forall i :: 0 <= i < |ms| ==> |ms[i]| <= bufLen
    modifies c`incoming
    ensures |items| <= count && items == ms[..|items|]
    ensures |items| == count ==> c.incoming == Frames(ms[count..])
    ensures |items| < count ==> !Suffices(events[|items|], HEADER + |ms[|items|]|)
  {
    items := [];
    while |items| < count
      invariant |items| <= count && items == ms[..|items|]
      invariant c.incoming == Frames(ms[|items|..])
    {
      ghost var m := ms[|items|];
      FirstItemOfFrame(m, Frames(ms[|items| + 1..]), bufLen);
      assert ms[|items|..][1..] == ms[|items| + 1..];
      assert c.incoming == Frame(m) + Frames(ms[|items| + 1..]);
      var status, item, used := c.ReadDataItem(bufLen, events[|items|]);
      if !status.Complete? { return; }
      assert item == Received(m);
      items := items + [item.m];
    }
  }
}
