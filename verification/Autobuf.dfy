/** An owned `autobuf`: a growable byte buffer whose content starts at an offset, so that
    trimming the front costs nothing. It behaves as a plain sequence of bytes.
    Source: common/autobuf.cpp, common/autobuf.h. */
module Autobuf {
  import opened Bytes

  import opened Common

  const PAGE: nat := 4096
  /** The largest size whose rounding to whole pages stays within 32 bits. */
  const MAX_SIZE: nat := 0xffff_f000

  const WORD: nat := 0x1_0000_0000
  const INT_LIMIT: nat := 0x8000_0000

  /** What becomes of an unsigned 32-bit size that is passed or cast as `int`. */
  function AsInt(n: nat): int
    requires n < WORD
  {
    if n < INT_LIMIT then n else n - WORD
  }

  /** The bounds check of `ptr_offset_mutable`; the program aborts when it fails. */
  predicate MutableOffset(offset: nat, contentSize: nat)
    requires offset < WORD && contentSize < WORD
  {
    0 <= AsInt(offset) < AsInt(contentSize)
  }

  /** Offsets pass below the content size, as long as that is below 2^31. */
  lemma MutableOffsetExactly(offset: nat, contentSize: nat)
    requires offset < 0x1_0000_0000 && contentSize < 0x1_0000_0000
    ensures MutableOffset(offset, contentSize) <==> offset < contentSize < 0x8000_0000
    ensures ConstOffset(offset) <==> offset < 0x8000_0000
  {
  }

  /** The check of `ptr_offset_const`. */
  predicate ConstOffset(offset: nat)
    requires offset < WORD
  {
    AsInt(offset) >= 0
  }

  function RoundedToPages(size: nat): (r: nat)
    ensures size <= r < size + 4096 && r % 4096 == 0
    ensures size <= MAX_SIZE ==> r <= MAX_SIZE
  {
    (size / PAGE + if size % PAGE > 0 then 1 else 0) * PAGE
  }

  function Zeros(n: nat): (s: seq<byte>)
    ensures |s| == n && forall k :: 0 <= k < n ==> s[k] == 0
  {
    seq(n, _ => 0)
  }

  lemma SliceOfSlice(s: seq<byte>, begin: nat, size: nat, from: nat, to: nat)
    requires from <= to <= size && begin + size <= |s|
    ensures s[begin..begin + size][from..to] == s[begin + from..begin + to]
  {
    var left, right := s[begin..begin + size][from..to], s[begin + from..begin + to];
    forall k | 0 <= k < to - from ensures left[k] == right[k] {
      assert left[k] == s[begin..begin + size][from + k] == s[begin + (from + k)];
      assert right[k] == s[(begin + from) + k];
    }
  }

  class Autobuf {
    var writeableBuf: array<byte>
    var contentSize: nat
    var beginOffset: nat

    ghost predicate Valid()
      reads this, writeableBuf
    {
      && beginOffset + contentSize <= writeableBuf.Length <= MAX_SIZE
      && writeableBuf.Length % PAGE == 0
    }

    ghost function Contents(): (s: seq<byte>)
      requires Valid()
      reads this, writeableBuf
      ensures |s| == contentSize
    {
      writeableBuf[beginOffset..beginOffset + contentSize]
    }

    /** The methods replace the memory by fresh memory or keep it. */
    twostate predicate KeepsMemory()
      reads this
    {
      writeableBuf == old(writeableBuf) || fresh(writeableBuf)
    }

    constructor ()
      ensures Valid() && Contents() == [] && fresh(writeableBuf)
    {
      writeableBuf := new byte[0];
      contentSize, beginOffset := 0, 0;
    }

    /** Makes room for `size` bytes, moving the content to the start of the buffer first. */
    method Alloc(size: nat)
      requires Valid() && size <= MAX_SIZE
      modifies this, writeableBuf
      ensures Valid() && KeepsMemory()
      ensures beginOffset == 0 && size <= writeableBuf.Length
      ensures writeableBuf.Length == if size <= old(writeableBuf.Length) then old(writeableBuf.Length) else RoundedToPages(size)
      ensures Contents() == old(Contents()) && contentSize == old(contentSize)
    {
      ghost var was := Contents();
      if beginOffset > 0 {
        forall k | 0 <= k < contentSize {
          writeableBuf[k] := writeableBuf[beginOffset + k];
        }
        beginOffset := 0;
      }
      assert Contents() == was;
      if size > writeableBuf.Length {
        var grown := new byte[RoundedToPages(size)];
        forall k | 0 <= k < writeableBuf.Length {
          grown[k] := writeableBuf[k];
        }
        writeableBuf := grown;
        assert Contents() == was;
      }
    }

    method SetContent(src: seq<byte>)
      requires Valid() && |src| <= MAX_SIZE
      modifies this, writeableBuf
      ensures Valid() && KeepsMemory()
      ensures Contents() == src
    {
      Alloc(|src|);
      forall k | 0 <= k < |src| {
        writeableBuf[beginOffset + k] := src[k];
      }
      contentSize := |src|;
      beginOffset := 0;
    }

    method Append(src: seq<byte>)
      requires Valid() && contentSize + |src| <= MAX_SIZE
      modifies this, writeableBuf
      ensures Valid() && KeepsMemory()
      ensures Contents() == old(Contents()) + src
    {
      if |src| == 0 { return; }
      Alloc(contentSize + |src|);
      CopyToEnd(src);
    }

    /** `memcpy` behind the content, where room has been made. */
    method CopyToEnd(src: seq<byte>)
      requires Valid() && beginOffset + contentSize + |src| <= writeableBuf.Length
      modifies this`contentSize, writeableBuf
      ensures Valid() && Contents() == old(Contents()) + src
    {
      ghost var was := Contents();
      forall k | 0 <= k < |src| {
        writeableBuf[beginOffset + contentSize + k] := src[k];
      }
      contentSize := contentSize + |src|;
      assert Contents() == was + src;
    }

    /** Without enough room in front, the content is moved back by `ptr_offset_mutable`, whose
        bounds check is against the old content size, as an `int`; `ok` is false when that
        check aborts. */
    method Prepend(src: seq<byte>) returns (ok: bool)
      requires Valid() && contentSize + |src| <= MAX_SIZE
      modifies this, writeableBuf
      ensures Valid() && KeepsMemory()
      ensures ok <==> |src| == 0 || |src| <= old(beginOffset) || |src| < old(contentSize) < 0x8000_0000
      ensures Contents() == if ok then src + old(Contents()) else old(Contents())
    {
      ghost var was := Contents();
      if |src| == 0 { return true; }
      if beginOffset >= |src| {
        beginOffset := beginOffset - |src|;
        contentSize := contentSize + |src|;
        CopyToFront(src, was);
        return true;
      }
      Alloc(contentSize + |src|);
      if !MutableOffset(|src|, contentSize) { return false; }
      forall k | 0 <= k < contentSize {
        writeableBuf[|src| + k] := writeableBuf[k];
      }
      contentSize := contentSize + |src|;
      CopyToFront(src, was);
      ok := true;
    }

    /** `memcpy` to the start of the content, whose rest is in place. */
    method CopyToFront(src: seq<byte>, ghost rest: seq<byte>)
      requires Valid() && contentSize == |src| + |rest| && Contents()[|src|..] == rest
      modifies writeableBuf
      ensures Valid() && Contents() == src + rest
    {
      assert forall k :: 0 <= k < |rest| ==> Contents()[|src| + k] == Contents()[|src|..][k];
      forall k | 0 <= k < |src| {
        writeableBuf[beginOffset + k] := src[k];
      }
      assert Contents() == src + rest;
    }

    /** `operator+=`, which may be applied to the buffer itself. */
    method Concatenate(other: Autobuf)
      requires Valid() && other.Valid() && contentSize + other.contentSize <= MAX_SIZE
      requires other == this || other.writeableBuf != writeableBuf
      modifies this, writeableBuf
      ensures Valid() && KeepsMemory()
      ensures Contents() == old(Contents()) + old(other.Contents())
    {
      if other == this {
        Double();
      } else if other.contentSize == 0 {
      } else if contentSize == 0 {
        SetContent(other.Slice(0, other.contentSize));
      } else {
        AppendFrom(other);
      }
    }

    method Double()
      requires Valid() && contentSize * 2 <= MAX_SIZE
      modifies this, writeableBuf
      ensures Valid() && KeepsMemory()
      ensures Contents() == old(Contents()) + old(Contents())
    {
      if contentSize > 0 {
        Alloc(contentSize * 2);
        CopyToEnd(Slice(0, contentSize));
      }
    }

    method AppendFrom(other: Autobuf)
      requires Valid() && other.Valid() && contentSize + other.contentSize <= MAX_SIZE
      requires other != this && other.writeableBuf != writeableBuf
      modifies this, writeableBuf
      ensures Valid() && KeepsMemory()
      ensures Contents() == old(Contents()) + old(other.Contents())
    {
      Alloc(contentSize + other.contentSize);
      CopyToEnd(other.Slice(0, other.contentSize));
    }

    method TrimFront(len: nat)
      requires Valid()
      modifies this
      ensures Valid() && writeableBuf == old(writeableBuf)
      ensures Contents() == old(Contents())[Min(len, old(contentSize))..]
    {
      if len >= contentSize {
        beginOffset := contentSize;
        contentSize := 0;
      } else {
        beginOffset := beginOffset + len;
        contentSize := contentSize - len;
      }
    }

    method TrimRear(len: nat)
      requires Valid()
      modifies this
      ensures Valid() && writeableBuf == old(writeableBuf)
      ensures Contents() == old(Contents())[..old(contentSize) - Min(len, old(contentSize))]
    {
      if len >= contentSize {
        contentSize := 0;
        return;
      }
      contentSize := contentSize - len;
    }

    method Clear()
      requires Valid()
      modifies this
      ensures Valid() && writeableBuf == old(writeableBuf) && Contents() == []
    {
      contentSize := 0;
    }

    /** Whatever survives of the old content stays in place; the caller may have it zeroed. */
    method CreateEmptyBuffer(size: nat, zero: bool)
      requires Valid() && size <= MAX_SIZE
      modifies this, writeableBuf
      ensures Valid() && KeepsMemory() && contentSize == size
      ensures zero ==> Contents() == Zeros(size)
      ensures !zero ==> Contents()[..Min(size, old(contentSize))] == old(Contents())[..Min(size, old(contentSize))]
    {
      ghost var was := Contents();
      Alloc(size);
      contentSize := size;
      if zero {
        ZeroFrom(0);
        assert Contents() == Zeros(size);
      } else {
        assert forall k :: 0 <= k < Min(size, |was|) ==> Contents()[k] == writeableBuf[k] == was[k];
      }
    }

    /** `ok` is false when zeroing the new bytes aborts. */
    method GrowBuffer(size: nat, zero: bool) returns (ok: bool)
      requires Valid() && size <= MAX_SIZE
      modifies this, writeableBuf
      ensures Valid() && KeepsMemory() && contentSize == size
      ensures ok <==> !zero || size <= old(contentSize) || size < 0x8000_0000
      ensures Contents()[..Min(size, old(contentSize))] == old(Contents())[..Min(size, old(contentSize))]
      ensures ok && zero ==> Contents() == Resized(old(Contents()), size)
      ensures !ok ==> old(Contents()) <= Contents()
    {
      ghost var was := Contents();
      var oldSize := contentSize;
      CreateEmptyBuffer(size, false);
      ghost var kept := Contents()[..Min(size, oldSize)];
      if zero && size > oldSize {
        if !MutableOffset(oldSize, contentSize) { return false; }
        ZeroFrom(oldSize);
        assert kept == was;
      }
      ok := true;
    }

    /** `memset` of the content from `at` on. */
    method ZeroFrom(at: nat)
      requires Valid() && at <= contentSize
      modifies writeableBuf
      ensures Valid() && Contents() == old(Contents())[..at] + Zeros(contentSize - at)
    {
      ghost var kept := Contents()[..at];
      assert forall k :: 0 <= k < at ==> writeableBuf[beginOffset + k] == kept[k];
      forall k | at <= k < contentSize {
        writeableBuf[beginOffset + k] := 0;
      }
      assert forall k :: 0 <= k < contentSize ==> Contents()[k] == writeableBuf[beginOffset + k];
      assert Contents() == kept + Zeros(contentSize - at);
    }

    /** A stretch of the content. */
    function Slice(from: nat, to: nat): (s: seq<byte>)
      requires Valid() && from <= to <= contentSize
      reads this, writeableBuf
      ensures s == Contents()[from..to]
    {
      SliceOfSlice(writeableBuf[..], beginOffset, contentSize, from, to);
      assert writeableBuf[..][beginOffset..beginOffset + contentSize] == Contents();
      writeableBuf[beginOffset + from..beginOffset + to]
    }

    /** The three reads abort on a range error (`ok` is false), and those that go through
        `ptr_offset_const` also on an offset that is negative as an `int`. */
    method ReadFront(dest: Autobuf, len: nat) returns (ok: bool)
      requires Valid() && dest.Valid() && dest != this && dest.writeableBuf != writeableBuf
      modifies dest, dest.writeableBuf
      ensures dest.Valid() && dest.KeepsMemory()
      ensures ok <==> len <= contentSize
      ensures dest.Contents() == (if ok then Contents()[..len] else old(dest.Contents())) && Contents() == old(Contents())
    {
      if len > contentSize { return false; }
      dest.SetContent(Slice(0, len));
      ok := true;
    }

    method ReadRear(dest: Autobuf, len: nat) returns (ok: bool)
      requires Valid() && dest.Valid() && dest != this && dest.writeableBuf != writeableBuf
      modifies dest, dest.writeableBuf
      ensures dest.Valid() && dest.KeepsMemory()
      ensures ok <==> len <= contentSize < 0x8000_0000
      ensures dest.Contents() == (if ok then Contents()[contentSize - len..] else old(dest.Contents())) && Contents() == old(Contents())
    {
      if len > contentSize || !ConstOffset(contentSize) { return false; }
      dest.SetContent(Slice(contentSize - len, contentSize));
      ok := true;
    }

    method Read(dest: Autobuf, offset: nat, len: nat) returns (ok: bool)
      requires Valid() && dest.Valid() && dest != this && dest.writeableBuf != writeableBuf && offset + len < WORD
      modifies dest, dest.writeableBuf
      ensures dest.Valid() && dest.KeepsMemory()
      ensures ok <==> offset + len <= contentSize && offset < 0x8000_0000
      ensures dest.Contents() == (if ok then Contents()[offset..offset + len] else old(dest.Contents())) && Contents() == old(Contents())
    {
      if offset + len > contentSize || !ConstOffset(offset) { return false; }
      dest.SetContent(Slice(offset, offset + len));
      ok := true;
    }
  }

  /** `s` cut off or filled up with zeros to `size` bytes. */
  function Resized(s: seq<byte>, size: nat): (r: seq<byte>)
    ensures |r| == size
    ensures forall k :: 0 <= k < size ==> r[k] == if k < |s| then s[k] else 0
  {
    if size <= |s| then s[..size] else s + Zeros(size - |s|)
  }

  // ---------- every sequence of operations ----------

  datatype Operation =
    | Set(src: seq<byte>)
    | Add(src: seq<byte>)
    | Put(src: seq<byte>)
    | AddSelf
    | DropFront(len: nat)
    | DropRear(len: nat)
    | Blank(size: nat)
    | Grow(size: nat)
    | Empty

  /** What an operation means for a plain byte sequence. */
  function Effect(s: seq<byte>, op: Operation): seq<byte> {
    match op
    case Set(src) => src
    case Add(src) => s + src
    case Put(src) => src + s
    case AddSelf => s + s
    case DropFront(len) => s[Min(len, |s|)..]
    case DropRear(len) => s[..|s| - Min(len, |s|)]
    case Blank(size) => Zeros(size)
    case Grow(size) => Resized(s, size)
    case Empty => []
  }

  function Effects(s: seq<byte>, ops: seq<Operation>): seq<byte> {
    if ops == [] then s else Effect(Effects(s, ops[..|ops| - 1]), ops[|ops| - 1])
  }

  /** No operation in the sequence is bound to abort. */
  predicate NoneAborts(s: seq<byte>, ops: seq<Operation>) {
    if ops == [] then true
    else NoneAborts(s, ops[..|ops| - 1]) && !Aborts(Effects(s, ops[..|ops| - 1]), ops[|ops| - 1])
  }

  lemma OneMore(s: seq<byte>, ops: seq<Operation>, n: nat)
    requires n < |ops|
    ensures Effects(s, ops[..n + 1]) == Effect(Effects(s, ops[..n]), ops[n])
    ensures NoneAborts(s, ops[..n + 1]) == (NoneAborts(s, ops[..n]) && !Aborts(Effects(s, ops[..n]), ops[n]))
  {
    assert ops[..n + 1][..n] == ops[..n];
  }

  /** Sizes stay clear of the 32-bit limit throughout. */
  predicate SizesFit(s: seq<byte>, ops: seq<Operation>) {
    forall n :: 0 <= n <= |ops| ==> |Effects(s, ops[..n])| <= MAX_SIZE
  }

  /** A `prepend` can abort unless it is shorter than the content and the content is below 2^31
      bytes; growing with zeros aborts when it reaches 2^31 bytes. */
  predicate MayAbort(s: seq<byte>, op: Operation) {
    (op.Put? && 0 < |op.src| && !(|op.src| < |s| < 0x8000_0000)) || Aborts(s, op)
  }

  predicate Aborts(s: seq<byte>, op: Operation) {
    op.Grow? && |s| < op.size && 0x8000_0000 <= op.size
  }

  method Perform(a: Autobuf, op: Operation) returns (ok: bool)
    requires a.Valid() && |Effect(a.Contents(), op)| <= MAX_SIZE
    modifies a, a.writeableBuf
    ensures a.Valid() && a.KeepsMemory()
    ensures !ok ==> MayAbort(old(a.Contents()), op) && old(a.Contents()) <= a.Contents()
    ensures ok ==> !Aborts(old(a.Contents()), op) && a.Contents() == Effect(old(a.Contents()), op)
  {
    ok := true;
    match op {
      case Set(src) => a.SetContent(src);
      case Add(src) => a.Append(src);
      case Put(src) => ok := a.Prepend(src);
      case AddSelf => a.Concatenate(a);
      case DropFront(len) => a.TrimFront(len);
      case DropRear(len) => a.TrimRear(len);
      case Blank(size) => a.CreateEmptyBuffer(size, true);
      case Grow(size) => ok := a.GrowBuffer(size, true);
      case Empty => a.Clear();
    }
  }

  /** An owned autobuf refines a byte sequence under every sequence of operations, up to the first
      one whose bounds check aborts. A sequence of operations none of which may abort is
      carried out completely. */
  method PerformAll(a: Autobuf, ops: seq<Operation>) returns (done: nat)
    requires a.Valid() && SizesFit(a.Contents(), ops)
    modifies a, a.writeableBuf
    ensures done <= |ops| && a.Valid()
    ensures done < |ops| ==> MayAbort(Effects(old(a.Contents()), ops[..done]), ops[done])
    ensures done < |ops| ==> Effects(old(a.Contents()), ops[..done]) <= a.Contents()
    ensures NoneAborts(old(a.Contents()), ops[..done])
    ensures done == |ops| ==> a.Contents() == Effects(old(a.Contents()), ops)
  {
    ghost var s := a.Contents();
    done := 0;
    while done < |ops|
      invariant done <= |ops| && a.Valid() && a.KeepsMemory()
      invariant a.Contents() == Effects(s, ops[..done])
      invariant NoneAborts(s, ops[..done])
    {
      OneMore(s, ops, done);
      assert |Effects(s, ops[..done + 1])| <= MAX_SIZE;
      var ok := Perform(a, ops[done]);
      if !ok { return; }
      done := done + 1;
    }
    assert ops[..done] == ops;
  }
}
