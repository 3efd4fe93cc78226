/** The growing byte buffer: a window of readable bytes sliding over a vector. */
module Buffers {
  import opened BigEndian
  import opened Options
  import opened Prefixes

  const CHEAP_PREPEND := 8
  const INITIAL_SIZE := 1024
  const CR: Byte := 13
  const LF: Byte := 10

  function Max(a: int, b: int): int { if a < b then b else a }

  function Zeros(n: nat): (s: seq<Byte>)
    ensures |s| == n
  {
    seq(n, i => 0)
  }

  /** Where the readable bytes start, and the size of the vector. */
  datatype Window = Window(reader: nat, size: nat)

  /** The window after making room for need bytes behind the used ones: unchanged if they fit, grown if not even
      moving to the front makes room, else moved to the front. */
  function Roomed(w: Window, used: nat, need: nat): Window {
    if w.reader + used + need <= w.size then w
    else if w.size < used + need + CHEAP_PREPEND then Window(w.reader, w.reader + used + need)
    else Window(CHEAP_PREPEND, w.size)
  }

  /** The window after n bytes were read behind the used ones: what does not fit is appended to a full vector. */
  function Filled(w: Window, used: nat, n: nat): Window {
    if w.reader + used + n <= w.size then w else
    var fit := Max(w.size - w.reader - used, 0);
    Roomed(w, used + fit, n - fit)
  }

  /** s has CR LF at i. */
  predicate CRLFAt(s: seq<Byte>, i: int) {
    0 <= i < |s| - 1 && s[i] == CR && s[i + 1] == LF
  }

  class Buffer {
    var buffer: seq<Byte>
    var readerIndex: nat
    var writerIndex: nat
    ghost var peak: nat          // the most bytes ever readable, or asked for by a shrink

    ghost predicate Valid()
      reads this
    {
      && readerIndex <= writerIndex <= |buffer| && CHEAP_PREPEND + INITIAL_SIZE <= |buffer|
      && writerIndex - readerIndex <= peak
    }

    /** The readable bytes. */
    ghost function Contents(): seq<Byte>
      requires Valid()
      reads this
    {
      buffer[readerIndex..writerIndex]
    }

    ghost function CurrentWindow(): Window
      reads this
    {
      Window(readerIndex, |buffer|)
    }

    /** The vector never grows past about twice the largest content. */
    ghost predicate SizeBounded()
      reads this
    {
      |buffer| <= Max(CHEAP_PREPEND + INITIAL_SIZE, 2 * peak + 7)
    }

    constructor ()
      ensures Valid() && Contents() == [] && SizeBounded()
      ensures CurrentWindow() == Window(CHEAP_PREPEND, CHEAP_PREPEND + INITIAL_SIZE) && peak == 0
      ensures |buffer| == 1032 && readerIndex == 8
    {
      buffer := Zeros(CHEAP_PREPEND + INITIAL_SIZE);
      readerIndex := CHEAP_PREPEND;
      writerIndex := CHEAP_PREPEND;
      peak := 0;
    }

    function ReadableBytes(): (n: nat)
      requires Valid()
      reads this
      ensures n == |Contents()|
    {
      writerIndex - readerIndex
    }

    function WritableBytes(): nat
      requires Valid()
      reads this
    {
      |buffer| - writerIndex
    }

    function PrependableBytes(): nat
      reads this
    {
      readerIndex
    }

    // ---------- consuming ----------

    method Retrieve(len: nat)
      requires Valid() && len <= |Contents()|
      modifies this
      ensures Valid() && Contents() == old(Contents())[len..] && peak == old(peak) && buffer == old(buffer)
      ensures readerIndex == if len < |old(Contents())| then old(readerIndex) + len else 8
    {
      if len < ReadableBytes() {
        readerIndex := readerIndex + len;
      } else {
        RetrieveAll();
      }
    }

    method RetrieveAll()
      requires Valid()
      modifies this
      ensures Valid() && Contents() == [] && peak == old(peak) && buffer == old(buffer)
      ensures readerIndex == CHEAP_PREPEND
    {
      readerIndex := CHEAP_PREPEND;
      writerIndex := CHEAP_PREPEND;
    }

    /** Consumes everything before place end of the vector. */
    method RetrieveUntil(end: nat)
      requires Valid() && readerIndex <= end <= writerIndex
      modifies this
      ensures Valid() && Contents() == old(Contents())[end - old(readerIndex)..] && peak == old(peak)
      ensures buffer == old(buffer)
    {
      Retrieve(end - readerIndex);
    }

    method RetrieveAsString(len: nat) returns (result: seq<Byte>)
      requires Valid() && len <= |Contents()|
      modifies this
      ensures Valid() && result == old(Contents())[..len] && Contents() == old(Contents())[len..]
      ensures peak == old(peak) && buffer == old(buffer)
    {
      result := buffer[readerIndex..readerIndex + len];
      Retrieve(len);
    }

    /** The place of the first CR LF among the readable bytes. */
    method FindCRLF() returns (r: Option<nat>)
      requires Valid()
      ensures match r
              case None =>
                && (forall i :: !CRLFAt(Contents(), i))
                && forall i :: 0 <= i < |Contents()| - 1 ==> Contents()[i] != 13 || Contents()[i + 1] != 10
              case Some(p) =>
                && readerIndex <= p && p - readerIndex < |Contents()| - 1
                && Contents()[p - readerIndex] == 13 && Contents()[p - readerIndex + 1] == 10
                && CRLFAt(Contents(), p - readerIndex) && forall i :: i < p - readerIndex ==> !CRLFAt(Contents(), i)
    {
      var p := readerIndex;
      while p + 1 < writerIndex
        invariant readerIndex <= p
        invariant forall i :: i < p - readerIndex ==> !CRLFAt(Contents(), i)
        decreases writerIndex - p
      {
        if buffer[p] == CR && buffer[p + 1] == LF {
          assert CRLFAt(Contents(), p - readerIndex);
          return Some(p);
        }
        assert !CRLFAt(Contents(), p - readerIndex);
        p := p + 1;
      }
      forall i | 0 <= i < |Contents()| - 1 ensures Contents()[i] != 13 || Contents()[i + 1] != 10 {
        assert !CRLFAt(Contents(), i);
      }
      return None;
    }

    /** The readable bytes before place end of the vector. */
    lemma ContentsBefore(end: nat)
      requires Valid() && readerIndex <= end <= readerIndex + |Contents()|
      ensures end <= writerIndex <= |buffer| && buffer[readerIndex..end] == Contents()[..end - readerIndex]
    {
    }

    lemma SizeIs()
      requires SizeBounded()
      ensures |buffer| <= 1032 || |buffer| <= 2 * peak + 7
    {
    }

    // ---------- making room ----------

    /** Copies buffer[from..to] down to dest, byte by byte from the front; the ranges may overlap. */
    method CopyDown(from: nat, to: nat, dest: nat)
      requires dest <= from <= to <= |buffer|
      modifies this`buffer
      ensures |buffer| == |old(buffer)| && buffer[dest..dest + (to - from)] == old(buffer[from..to])
    {
      var k := 0;
      while k < to - from
        invariant 0 <= k <= to - from && |buffer| == |old(buffer)|
        invariant forall i :: dest <= i < dest + k ==> buffer[i] == old(buffer)[i - dest + from]
        invariant forall i :: dest + k <= i < |buffer| ==> buffer[i] == old(buffer)[i]
      {
        buffer := buffer[dest + k := buffer[from + k]];
        k := k + 1;
      }
    }

    /** Makes room for len more bytes, by growing the vector or by moving the content to the front. */
    method MakeSpace(len: nat)
      requires Valid() && WritableBytes() < len
      modifies this
      ensures Valid() && Contents() == old(Contents()) && len <= WritableBytes() && peak == old(peak)
      ensures CurrentWindow() == Roomed(old(CurrentWindow()), |Contents()|, len)
      ensures if |old(buffer)| - |Contents()| < len + 8
              then readerIndex == old(readerIndex) && |buffer| == old(writerIndex) + len
              else readerIndex == 8 && |buffer| == |old(buffer)|
    {
      if WritableBytes() + PrependableBytes() < len + CHEAP_PREPEND {
        buffer := buffer + Zeros(writerIndex + len - |buffer|);
      } else {
        assert CHEAP_PREPEND < readerIndex;
        var readable := ReadableBytes();
        CopyDown(readerIndex, writerIndex, CHEAP_PREPEND);
        readerIndex := CHEAP_PREPEND;
        writerIndex := readerIndex + readable;
        assert readable == ReadableBytes();
      }
    }

    method EnsureWritableBytes(len: nat)
      requires Valid()
      modifies this
      ensures Valid() && Contents() == old(Contents()) && len <= WritableBytes() && peak == old(peak)
      ensures CurrentWindow() == Roomed(old(CurrentWindow()), |Contents()|, len)
      ensures old(SizeBounded()) ==>
                |buffer| <= Max(CHEAP_PREPEND + INITIAL_SIZE, 2 * Max(peak, |Contents()| + len) + 7)
    {
      if WritableBytes() < len {
        MakeSpace(len);
      }
      assert WritableBytes() >= len;
    }

    // ---------- filling ----------

    method Append(data: seq<Byte>)
      requires Valid()
      modifies this
      ensures Valid() && Contents() == old(Contents()) + data && peak == Max(old(peak), |Contents()|)
      ensures old(SizeBounded()) ==> SizeBounded()
      ensures CurrentWindow() == Roomed(old(CurrentWindow()), |old(Contents())|, |data|)
    {
      EnsureWritableBytes(|data|);
      CopyIn(data, writerIndex);
      HasWritten(|data|);
    }

    /** Copies data into the vector at place at. */
    method CopyIn(data: seq<Byte>, at: nat)
      requires at + |data| <= |buffer|
      modifies this`buffer
      ensures buffer == old(buffer)[..at] + data + old(buffer)[at + |data|..]
    {
      buffer := buffer[..at] + data + buffer[at + |data|..];
    }

    /** Counts the next len bytes of the vector as content. */
    method HasWritten(len: nat)
      requires Valid() && len <= WritableBytes()
      modifies this
      ensures Valid() && buffer == old(buffer) && readerIndex == old(readerIndex)
              && writerIndex == old(writerIndex) + len
      ensures peak == Max(old(peak), |Contents()|)
    {
      writerIndex := writerIndex + len;
      peak := Max(peak, writerIndex - readerIndex);
    }

    method Prepend(data: seq<Byte>)
      requires Valid() && |data| <= PrependableBytes()
      modifies this
      ensures Valid() && Contents() == data + old(Contents()) && peak == Max(old(peak), |Contents()|)
      ensures old(SizeBounded()) ==> SizeBounded()
      ensures readerIndex == old(readerIndex) - |data| && |buffer| == |old(buffer)|
    {
      Overwritten(buffer, data, readerIndex - |data|, writerIndex);
      readerIndex := readerIndex - |data|;
      CopyIn(data, readerIndex);
      peak := Max(peak, writerIndex - readerIndex);
    }

    /** Exchanges the vectors of two buffers. */
    method Swap(rhs: Buffer)
      requires Valid() && rhs.Valid() && rhs != this
      modifies this, rhs
      ensures Valid() && rhs.Valid() && Contents() == old(rhs.Contents()) && rhs.Contents() == old(Contents())
      ensures buffer == old(rhs.buffer) && writerIndex == old(rhs.writerIndex)
      ensures peak == rhs.peak == old(Max(peak, rhs.peak))
    {
      buffer, rhs.buffer := rhs.buffer, buffer;
      readerIndex, rhs.readerIndex := rhs.readerIndex, readerIndex;
      writerIndex, rhs.writerIndex := rhs.writerIndex, writerIndex;
      peak, rhs.peak := Max(peak, rhs.peak), Max(peak, rhs.peak);
    }

    /** Moves the content to a vector with room for just reserve more bytes (or the initial size). */
    method Shrink(reserve: nat)
      requires Valid()
      modifies this
      ensures Valid() && Contents() == old(Contents()) && reserve <= WritableBytes()
      ensures CurrentWindow() == Window(CHEAP_PREPEND, CHEAP_PREPEND + Max(INITIAL_SIZE, |Contents()| + reserve))
      ensures |buffer| == if |Contents()| + reserve <= 1024 then 1032 else |Contents()| + reserve + 8
      ensures peak == Max(old(peak), |Contents()| + reserve) && SizeBounded()
    {
      var other := new Buffer();
      other.EnsureWritableBytes(ReadableBytes() + reserve);
      other.Append(buffer[readerIndex..writerIndex]);
      Swap(other);
      peak := Max(peak, ReadableBytes() + reserve);
    }

    /** Reads what a descriptor delivers into the vector and, beyond it, a stack buffer whose part is then
        appended. The result is the number of bytes, or negative if the read failed. */
    method ReadFd(incoming: seq<Byte>, failed: bool) returns (n: int)
      requires Valid() && |incoming| <= WritableBytes() + 65536
      modifies this
      ensures Valid() && Contents() == (if failed then old(Contents()) else old(Contents()) + incoming)
      ensures n == (if failed then -1 else |incoming|) && peak == Max(old(peak), |Contents()|)
      ensures CurrentWindow() == if failed then old(CurrentWindow())
                                 else Filled(old(CurrentWindow()), |old(Contents())|, |incoming|)
      ensures old(SizeBounded()) ==> SizeBounded()
    {
      hide Contents, Valid, SizeBounded;
      WritableIs();
      var writable := WritableBytes();
      if failed {
        n := -1;
      } else {
        n := |incoming|;
        if n <= writable {
          TakeIn(incoming);
        } else {
          var extrabuf := incoming[writable..];
          TakeIn(incoming[..writable]);
          Append(extrabuf);
          assert old(Contents()) + incoming[..writable] + extrabuf == old(Contents()) + incoming;
        }
      }
    }

    lemma WritableIs()
      requires Valid()
      ensures WritableBytes() == |buffer| - readerIndex - |Contents()| && 0 <= WritableBytes() && |Contents()| <= peak
    {
    }

    /** Bytes that readv put behind the content become content. */
    method TakeIn(data: seq<Byte>)
      requires Valid() && |data| <= WritableBytes()
      modifies this
      ensures Valid() && Contents() == old(Contents()) + data && CurrentWindow() == old(CurrentWindow())
      ensures peak == Max(old(peak), |Contents()|)
      ensures old(SizeBounded()) ==> SizeBounded()
    {
      CopyIn(data, writerIndex);
      HasWritten(|data|);
    }

    // ---------- integers in network byte order ----------

    method AppendInt(x: int, w: nat)
      requires Valid() && Fits(x, w)
      modifies this
      ensures Valid() && Contents() == old(Contents()) + Encode(x, w)
      ensures old(SizeBounded()) ==> SizeBounded()
    {
      Append(Encode(x, w));
    }

    method PeekInt(w: nat) returns (x: int)
      requires Valid() && w <= |Contents()|
      ensures x == Decode(Contents()[..w])
    {
      assert Contents()[..w] == buffer[readerIndex..readerIndex + w];
      x := Decode(buffer[readerIndex..readerIndex + w]);
    }

    method ReadInt(w: nat) returns (x: int)
      requires Valid() && w <= |Contents()|
      modifies this
      ensures Valid() && x == Decode(old(Contents())[..w]) && Contents() == old(Contents())[w..]
      ensures old(SizeBounded()) ==> SizeBounded()
    {
      x := PeekInt(w);
      Retrieve(w);
    }

    method PrependInt(x: int, w: nat)
      requires Valid() && Fits(x, w) && w <= PrependableBytes()
      modifies this
      ensures Valid() && Contents() == Encode(x, w) + old(Contents()) && readerIndex == old(readerIndex) - w
      ensures old(SizeBounded()) ==> SizeBounded()
    {
      Prepend(Encode(x, w));
    }
  }

  lemma ReadStep(items: seq<Item>, i: nat)
    requires AllFit(items) && i < |items|
    ensures var s, w := Appended(items[i..]), items[i].width;
            w <= |s| && Decode(s[..w]) == items[i].value && s[w..] == Appended(items[i + 1..])
  {
    hide *;
    SuffixFits(items, i);
    AppendedFront(items[i..]);
    SuffixStep(items, i);
    AppendSplits(Encode(items[i].value, items[i].width), Appended(items[i + 1..]));
    DecodeEncode(items[i].value, items[i].width);
  }

  lemma SuffixFits(items: seq<Item>, i: nat)
    requires AllFit(items) && i < |items|
    ensures AllFit(items[i..]) && AllFit(items[i + 1..]) && Fits(items[i].value, items[i].width)
  {
    hide Fits;
  }

  /** Integers appended to an empty buffer, in any mixture of widths, are read back in order. */
  method AppendThenRead(b: Buffer, items: seq<Item>) returns (xs: seq<int>)
    requires b.Valid() && b.Contents() == [] && AllFit(items)
    modifies b
    ensures xs == Values(items) && b.Valid() && b.Contents() == []
  {
    hide Encode, Decode, Fits, Appended, Values, Buffer.Valid, Buffer.Contents, Buffer.SizeBounded,
         Buffer.CurrentWindow;
    PrefixEnds(items);
    NoItems(items[..0], []);
    for i := 0 to |items|
      invariant b.Valid() && b.Contents() == Appended(items[..i])
    {
      AppendStep(items, i);
      b.AppendInt(items[i].value, items[i].width);
    }
    xs := [];
    for i := 0 to |items|
      invariant b.Valid() && b.Contents() == Appended(items[i..]) && xs == Values(items[..i])
    {
      ReadStep(items, i);
      ValuesStep(items, i);
      var x := b.ReadInt(items[i].width);
      xs := xs + [x];
    }
    NoItems(items[|items|..], []);
  }

  lemma AppendStep(items: seq<Item>, i: nat)
    requires AllFit(items) && i < |items|
    ensures Fits(items[i].value, items[i].width)
    ensures Appended(items[..i + 1]) == Appended(items[..i]) + Encode(items[i].value, items[i].width)
  {
    hide Encode, Fits;
    PrefixStep(items, i);
  }

  lemma ValuesStep(items: seq<Item>, i: nat)
    requires i < |items|
    ensures Values(items[..i + 1]) == Values(items[..i]) + [items[i].value]
  {
  }

  ghost function TotalWidth(items: seq<Item>): nat {
    if items == [] then 0 else TotalWidth(items[..|items| - 1]) + items[|items| - 1].width
  }

  lemma {:induction false} TotalWidthGrows(items: seq<Item>, i: nat)
    requires i <= |items|
    ensures TotalWidth(items[..i]) <= TotalWidth(items)
  {
    if i < |items| {
      TotalWidthGrows(items[..|items| - 1], i);
      assert items[..|items| - 1][..i] == items[..i];
    } else {
      assert items[..i] == items;
    }
  }

  /** The last of i + 1 prepended integers stands first. */
  lemma PrependStep(items: seq<Item>, i: nat, s: seq<Byte>)
    requires AllFit(items) && i < |items|
    ensures var it, t := items[i], Prepended(items[..i], s);
            && Prepended(items[..i + 1], s) == Encode(it.value, it.width) + t
            && TotalWidth(items[..i + 1]) == TotalWidth(items[..i]) + it.width
            && Reads(Encode(it.value, it.width) + t, Widths(Reversed(items[..i + 1]))) ==
                 [it.value] + Reads(t, Widths(Reversed(items[..i])))
            && Decode((Encode(it.value, it.width) + t)[..it.width]) == it.value
            && (Encode(it.value, it.width) + t)[it.width..] == t
  {
    hide Encode, Decode, Fits, Reads, Widths, Values;
    var it, front := items[i], items[..i + 1];
    assert front[..i] == items[..i];
    LastFirst(front, s);
    ItemsFront(it, Reversed(items[..i]));
    ReadOne(it.value, it.width, Prepended(items[..i], s), Widths(Reversed(items[..i])));
    DecodeEncode(it.value, it.width);
    assert (Encode(it.value, it.width) + Prepended(items[..i], s))[..it.width] == Encode(it.value, it.width);
  }

  /** Integers prepended as far as they fit, in any mixture of widths, are read back in reverse order, and leave
      what stood behind them. */
  method PrependThenRead(b: Buffer, items: seq<Item>) returns (xs: seq<int>)
    requires b.Valid() && AllFit(items) && TotalWidth(items) <= b.PrependableBytes()
    modifies b
    ensures xs == Values(Reversed(items)) && b.Valid() && b.Contents() == old(b.Contents())
    ensures old(b.SizeBounded()) ==> b.SizeBounded()
  {
    hide Encode, Decode, Fits, Reads, Widths, Values, Reversed, Prepended, TotalWidth, Buffer.Valid, Buffer.Contents;
    hide Buffer.SizeBounded;
    ghost var start := b.Contents();
    NothingPrepended(start);
    for i := 0 to |items|
      invariant b.Valid() && b.Contents() == Prepended(items[..i], start)
      invariant b.readerIndex == old(b.readerIndex) - TotalWidth(items[..i])
      invariant old(b.SizeBounded()) ==> b.SizeBounded()
    {
      PrependStep(items, i, start);
      TotalWidthGrows(items, i + 1);
      b.PrependInt(items[i].value, items[i].width);
    }
    assert items[..|items|] == items;
    ReadsPrepended(items, start, []);
    xs := [];
    for i := |items| downto 0
      invariant b.Valid() && b.Contents() == Prepended(items[..i], start)
      invariant xs + Reads(b.Contents(), Widths(Reversed(items[..i]))) == Values(Reversed(items))
      invariant old(b.SizeBounded()) ==> b.SizeBounded()
    {
      PrependStep(items, i, start);
      var x := b.ReadInt(items[i].width);
      xs := xs + [x];
    }
  }

  lemma NothingPrepended(s: seq<Byte>)
    ensures forall items: seq<Item> :: Prepended(items[..0], s) == s && TotalWidth(items[..0]) == 0
    ensures forall items: seq<Item> :: Widths(Reversed(items[..0])) == []
    ensures Reads(s, []) == [] && forall ws: seq<nat> :: ws + [] == ws
    ensures forall xs: seq<int> :: xs + [] == xs
  {
  }

  // ---------- all runs ----------

  /** What users and the network do to a buffer. */
  datatype Op =
    | OpAppend(data: seq<Byte>)
    | OpPrepend(data: seq<Byte>)
    | OpRetrieve(len: nat)
    | OpRead(incoming: seq<Byte>, failed: bool)
    | OpShrink(reserve: nat)

  /** The plain byte queue. */
  function Queue(ops: seq<Op>): seq<Byte> {
    if ops == [] then [] else
    var q := Queue(ops[..|ops| - 1]);
    match ops[|ops| - 1]
    case OpAppend(data) => q + data
    case OpPrepend(data) => data + q
    case OpRetrieve(len) => if len <= |q| then q[len..] else q
    case OpRead(incoming, failed) => if failed then q else q + incoming
    case OpShrink(reserve) => q
  }

  /** The largest length the queue ever had, or a shrink asked for. */
  function Peak(ops: seq<Op>): nat {
    if ops == [] then 0 else
    var now := |Queue(ops)| + (if ops[|ops| - 1].OpShrink? then ops[|ops| - 1].reserve else 0);
    Max(Peak(ops[..|ops| - 1]), now)
  }

  /** Where the content lies in the vector, and how large the vector is. */
  function WindowAfter(ops: seq<Op>): Window {
    if ops == [] then Window(CHEAP_PREPEND, CHEAP_PREPEND + INITIAL_SIZE) else
    var q, w := Queue(ops[..|ops| - 1]), WindowAfter(ops[..|ops| - 1]);
    match ops[|ops| - 1]
    case OpAppend(data) => Roomed(w, |q|, |data|)
    case OpPrepend(data) => if |data| <= w.reader then w.(reader := w.reader - |data|) else w
    case OpRetrieve(len) => w.(reader := if len < |q| then w.reader + len else CHEAP_PREPEND)
    case OpRead(incoming, failed) => if failed then w else Filled(w, |q|, |incoming|)
    case OpShrink(reserve) => Window(CHEAP_PREPEND, CHEAP_PREPEND + Max(INITIAL_SIZE, |q| + reserve))
  }

  /** Whether the callers keep to what the assertions of the buffer ask of them: prepends fit in front, retrieves
      take no more than there is; and readv delivers no more than it was given room for. */
  predicate Allowed(ops: seq<Op>) {
    ops == [] ||
    (var q, w := Queue(ops[..|ops| - 1]), WindowAfter(ops[..|ops| - 1]);
     Allowed(ops[..|ops| - 1]) &&
     match ops[|ops| - 1]
     case OpAppend(data) => true
     case OpPrepend(data) => |data| <= w.reader
     case OpRetrieve(len) => len <= |q|
     case OpRead(incoming, failed) => |incoming| <= w.size - w.reader - |q| + 65536
     case OpShrink(reserve) => true)
  }

  /** What the queue held, or a shrink asked for, at the end of a sequence. */
  function Held(ops: seq<Op>): nat {
    |Queue(ops)| + if ops != [] && ops[|ops| - 1].OpShrink? then ops[|ops| - 1].reserve else 0
  }

  /** The peak is the largest that was ever held, and was held. */
  lemma {:induction false} PeakIsLargest(ops: seq<Op>)
    ensures exists k :: 0 <= k <= |ops| && Peak(ops) == Held(ops[..k])
    ensures forall k :: 0 <= k <= |ops| ==> Held(ops[..k]) <= Peak(ops)
  {
    hide Queue;
    if ops == [] {
      assert ops[..0] == [] && Held([]) == |Queue([])| == 0 by { NoOps(); }
    } else {
      var n := |ops| - 1;
      PeakIsLargest(ops[..n]);
      assert forall k :: 0 <= k <= n ==> ops[..n][..k] == ops[..k];
      assert ops[..n + 1] == ops;
      assert Peak(ops) == Max(Peak(ops[..n]), Held(ops));
      var k :| 0 <= k <= n && Peak(ops[..n]) == Held(ops[..n][..k]);
      assert Peak(ops[..n]) == Held(ops[..k]);
    }
  }

  lemma {:induction false} AllowedBefore(ops: seq<Op>, i: nat)
    requires Allowed(ops) && i <= |ops|
    ensures Allowed(ops[..i])
  {
    if i == |ops| {
      assert ops[..i] == ops;
    } else {
      AllowedBefore(ops[..|ops| - 1], i);
      assert ops[..|ops| - 1][..i] == ops[..i];
    }
  }

  /** For every allowed sequence of operations on a fresh buffer: the buffer holds the byte queue of that sequence,
      and its vector never exceeds about twice the largest length that queue ever had. */
  method Run(ops: seq<Op>) returns (b: Buffer)
    requires Allowed(ops)
    ensures b.Valid() && b.Contents() == Queue(ops) && b.CurrentWindow() == WindowAfter(ops)
    ensures |b.buffer| <= 1032 || |b.buffer| <= 2 * Peak(ops) + 7
  {
    hide *;
    b := new Buffer();
    PrefixEnds(ops);
    NoOps();
    for i := 0 to |ops|
      invariant fresh(b) && b.Valid() && b.Contents() == Queue(ops[..i]) && b.CurrentWindow() == WindowAfter(ops[..i])
      invariant b.peak == Peak(ops[..i]) && b.SizeBounded()
    {
      AllowedBefore(ops, i + 1);
      PrefixStep(ops, i);
      Apply(b, ops[..i], ops[i]);
    }
    b.SizeIs();
  }

  lemma NoOps()
    ensures Queue([]) == [] && Peak([]) == 0
    ensures WindowAfter([]) == Window(CHEAP_PREPEND, CHEAP_PREPEND + INITIAL_SIZE)
  {
  }

  /** One operation more. */
  method Apply(b: Buffer, ghost before: seq<Op>, op: Op)
    requires b.Valid() && b.SizeBounded() && Allowed(before + [op])
    requires b.Contents() == Queue(before) && b.CurrentWindow() == WindowAfter(before) && b.peak == Peak(before)
    modifies b
    ensures b.Valid() && b.SizeBounded()
    ensures var ops := before + [op];
            b.Contents() == Queue(ops) && b.CurrentWindow() == WindowAfter(ops) && b.peak == Peak(ops)
  {
    hide Buffer.Valid, Buffer.Contents, Roomed, Filled;
    AppendSplits(before, [op]);
    b.WritableIs();
    match op
    case OpAppend(data) => b.Append(data);
    case OpPrepend(data) => b.Prepend(data);
    case OpRetrieve(len) => b.Retrieve(len);
    case OpRead(incoming, failed) => var n := b.ReadFd(incoming, failed);
    case OpShrink(reserve) => b.Shrink(reserve);
  }
}
