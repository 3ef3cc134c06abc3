/** The memory-mapped PCAP reader: a 24-byte global header whose magic number
    fixes the byte order, then records of a 16-byte header and `incl_len` payload
    bytes (sections 4 and 5 of the IETF draft "PCAP Capture File Format").
    The operating system calls are replaced by their outcomes: `open` is given the
    descriptor `::open` returned and the mapped file contents (None when `fstat` or
    `mmap` failed). Header words are read in the host's native order; the host is
    taken to be little-endian. */
module Pcap {
  import opened Bytes

  const GlobalHeaderSize: nat := 24
  const PacketHeaderSize: nat := 16

  const MagicMicros: nat := 0xa1b2c3d4
  const MagicNanos: nat := 0xa1b23c4d
  const MagicMicrosSwapped: nat := 0xd4c3b2a1
  const MagicNanosSwapped: nat := 0x4d3cb2a1

  /** Byte order from the magic number: Some(false) for a file written in the host's
      order, Some(true) for one that needs swapping, None for no PCAP file. */
  function MagicByteOrder(magic: nat): (r: Option<bool>)
    ensures r.Some? <==> magic in {MagicMicros, MagicNanos, MagicMicrosSwapped, MagicNanosSwapped}
    ensures r == Some(true) <==> magic in {MagicMicrosSwapped, MagicNanosSwapped}
  {
    if magic == MagicMicros || magic == MagicNanos then Some(false)
    else if magic == MagicMicrosSwapped || magic == MagicNanosSwapped then Some(true)
    else None
  }

  /** A file written on a host of the other byte order carries the byte-reversed
      magic number, and then the reader swaps. */
  lemma MagicOfOtherHost(magic: nat)
    requires magic < 0x1_0000_0000
    ensures MagicByteOrder(magic) == Some(false) ==> MagicByteOrder(Bswap32(magic)) == Some(true)
    ensures MagicByteOrder(magic) == Some(true) ==> MagicByteOrder(Bswap32(magic)) == Some(false)
  {
    if magic == MagicMicros {
      SwapWord(0xd4, 0xc3, 0xb2, 0xa1);
    } else if magic == MagicNanos {
      SwapWord(0x4d, 0x3c, 0xb2, 0xa1);
    } else if magic == MagicMicrosSwapped {
      SwapWord(0xa1, 0xb2, 0xc3, 0xd4);
    } else if magic == MagicNanosSwapped {
      SwapWord(0xa1, 0xb2, 0x3c, 0x4d);
    }
  }

  /** Byte-swapping the word stored as a, b, c, e gives the word read the other way. */
  lemma SwapWord(a: byte, b: byte, c: byte, e: byte)
    ensures a as int + 256 * (b as int + 256 * (c as int + 256 * e as int)) < 0x1_0000_0000
    ensures Bswap32(a as int + 256 * (b as int + 256 * (c as int + 256 * e as int)))
         == ((a as int * 256 + b as int) * 256 + c as int) * 256 + e as int
  {
    WordValues(a, b, c, e);
    BswapOfLe([a, b, c, e]);
  }

  /** The 32-bit word at `at`, read in the host's (little-endian) order. */
  function NativeWord(d: seq<byte>, at: nat): (w: nat)
    requires at + 4 <= |d|
    ensures w < 0x1_0000_0000
  {
    assert Pow256(4) == 0x1_0000_0000;
    LeValue(d[at..at + 4])
  }

  /** The `incl_len` field of the record header at `at`, byte-reversed when the
      file's byte order is not the host's. */
  function InclLen(d: seq<byte>, at: nat, swap: bool): (len: nat)
    requires at + PacketHeaderSize <= |d|
    ensures len < 0x1_0000_0000
  {
    var raw := NativeWord(d, at + 8);
    if swap then Bswap32(raw) else raw
  }

  /** `incl_len` is read in the file's own byte order: little-endian when no swap is
      needed, big-endian when the reader swaps. */
  lemma InclLenByteOrder(d: seq<byte>, at: nat, swap: bool)
    requires at + PacketHeaderSize <= |d|
    ensures InclLen(d, at, swap) == if swap then BeValue(d[at + 8..at + 12]) else LeValue(d[at + 8..at + 12])
  {
    BswapOfLe(d[at + 8..at + 12]);
  }

  // -----------------------------------------------------------------------
  // Reader state
  // -----------------------------------------------------------------------

  /** The fields `data_` (None for a null pointer), `size_`, `fd_` and `needs_swap_`. */
  datatype ReaderState = ReaderState(data: Option<seq<byte>>, size: nat, fd: int, needsSwap: bool)

  /** What holds of a reader between calls: an open reader maps a whole file that
      starts with a full global header and an accepted magic number, which fixed
      `needsSwap`, and owns a descriptor; a closed one has size 0 and owns none. */
  predicate Consistent(s: ReaderState) {
    match s.data
    case Some(d) =>
      && s.size == |d| && GlobalHeaderSize <= |d| && s.fd >= 0
      && MagicByteOrder(NativeWord(d, 0)) == Some(s.needsSwap)
    case None => s.size == 0 && s.fd < 0
  }

  /** The state `close()` leaves: nothing mapped, size 0, no descriptor. */
  function Closed(s: ReaderState): (c: ReaderState)
    ensures c.data == None && c.size == 0 && c.fd < 0 && c.needsSwap == s.needsSwap
    ensures Consistent(c)
  {
    ReaderState(None, 0, if s.fd >= 0 then -1 else s.fd, s.needsSwap)
  }

  /** Closing twice leaves the same state as closing once. */
  lemma CloseIdempotent(s: ReaderState)
    ensures Closed(Closed(s)) == Closed(s)
  {
  }

  /** The state `open()` leaves, from the state before, the descriptor `::open`
      returned and the mapped contents (None when `fstat` or `mmap` failed). */
  function Opened(s: ReaderState, fd: int, mapping: Option<seq<byte>>): (o: ReaderState)
    ensures Consistent(o)
    ensures o.data.Some? <==>
              && fd >= 0 && mapping.Some? && GlobalHeaderSize <= |mapping.value|
              && MagicByteOrder(NativeWord(mapping.value, 0)).Some?
    ensures o.data.Some? ==>
              o.data == mapping && o.size == |mapping.value| && o.fd == fd
              && o.needsSwap == MagicByteOrder(NativeWord(mapping.value, 0)).value
    ensures o.data.None? ==> o.size == 0 && o.needsSwap == s.needsSwap
  {
    var c := Closed(s);
    if fd < 0 then c.(fd := fd)
    else if mapping.None? then c.(fd := -1)
    else
      var d := mapping.value;
      if |d| < GlobalHeaderSize then Closed(ReaderState(Some(d), |d|, fd, c.needsSwap))
      else
        match MagicByteOrder(NativeWord(d, 0))
        case Some(swap) => ReaderState(Some(d), |d|, fd, swap)
        case None => Closed(ReaderState(Some(d), |d|, fd, c.needsSwap))
  }

  /** The state a move leaves in its source. */
  function MovedFrom(s: ReaderState): (m: ReaderState)
    ensures m.data == None && m.size == 0 && m.fd == -1 && m.needsSwap == s.needsSwap
    ensures Consistent(m)
  {
    ReaderState(None, 0, -1, s.needsSwap)
  }

  // -----------------------------------------------------------------------
  // The packet walk
  // -----------------------------------------------------------------------

  /** The payload handed to the callback: `data_ + offset`, `len` bytes. */
  datatype Slice = Slice(offset: nat, len: nat)

  function End(s: Slice): nat {
    s.offset + s.len
  }

  /** The payloads of the records from `at` on, walking until fewer than 16 bytes
      remain or a record's payload would run past the end of the file. */
  function Walk(d: seq<byte>, swap: bool, at: nat): (ps: seq<Slice>)
    ensures |ps| == 0 || at + PacketHeaderSize * |ps| <= |d|
    decreases |d| - at
  {
    if at + PacketHeaderSize > |d| then []
    else
      var len := InclLen(d, at, swap);
      if at + PacketHeaderSize + len > |d| then []
      else [Slice(at + PacketHeaderSize, len)] + Walk(d, swap, at + PacketHeaderSize + len)
  }

  /** The walk stops at a record whose payload would run past the end of the file. */
  lemma WalkStop(d: seq<byte>, swap: bool, at: nat)
    requires at + PacketHeaderSize <= |d|
    requires at + PacketHeaderSize + InclLen(d, at, swap) > |d|
    ensures Walk(d, swap, at) == []
  {
  }

  /** The walk takes a record whose payload fits and carries on after it. */
  lemma WalkTake(d: seq<byte>, swap: bool, at: nat, len: nat)
    requires at + PacketHeaderSize + len <= |d| && len == InclLen(d, at, swap)
    ensures Walk(d, swap, at) == [Slice(at + PacketHeaderSize, len)] + Walk(d, swap, at + PacketHeaderSize + len)
  {
  }

  /** What the packet loop has done on reaching `at` with `payloads` handed on:
      the walk from `at` completes the walk of the whole file. */
  ghost predicate WalkResumes(d: seq<byte>, swap: bool, at: nat, payloads: seq<Slice>) {
    && GlobalHeaderSize <= at <= |d|
    && Walk(d, swap, GlobalHeaderSize) == payloads + Walk(d, swap, at)
  }

  /** The loop's invariant carries over a record whose payload fits. */
  lemma WalkAdvance(d: seq<byte>, swap: bool, at: nat, len: nat, payloads: seq<Slice>, start: nat, next: nat)
    requires WalkResumes(d, swap, at, payloads)
    requires start == at + PacketHeaderSize && next == start + len
    requires next <= |d| && len == InclLen(d, at, swap)
    ensures WalkResumes(d, swap, next, payloads + [Slice(start, len)])
  {
    WalkTake(d, swap, at, len);
    SeqAssoc(payloads, [Slice(start, len)], Walk(d, swap, next));
  }

  /** Where the walk over `ps` started from `at` stands after its last payload. */
  function WalkEnd(at: nat, ps: seq<Slice>): nat {
    if |ps| == 0 then at else End(ps[|ps| - 1])
  }

  /** Each payload starts 16 bytes (its record header) after the previous one ends,
      the first 16 bytes after `at`. */
  ghost predicate Adjacent(at: nat, ps: seq<Slice>) {
    && (|ps| > 0 ==> ps[0].offset == at + PacketHeaderSize)
    && forall i, j {:trigger ps[i], ps[j]} :: 0 <= i < j < |ps| && j == i + 1 ==>
         ps[j].offset == End(ps[i]) + PacketHeaderSize
  }

  /** Each payload lies inside the file, after its record header, and that header's
      `incl_len` is the payload's length. */
  ghost predicate HeadersMatch(d: seq<byte>, swap: bool, ps: seq<Slice>) {
    forall i :: 0 <= i < |ps| ==>
      PacketHeaderSize <= ps[i].offset && End(ps[i]) <= |d|
      && InclLen(d, ps[i].offset - PacketHeaderSize, swap) == ps[i].len
  }

  /** At `e` the next record header or its payload would be truncated. */
  ghost predicate Truncated(d: seq<byte>, swap: bool, e: nat) {
    e + PacketHeaderSize > |d| || e + PacketHeaderSize + InclLen(d, e, swap) > |d|
  }

  /** The payloads of a walk from `at`: each is preceded by its own 16-byte record
      header whose `incl_len` gives its length, each starts right after the previous
      one ends, all lie inside the file, and the walk stops exactly where the next
      header or payload would be truncated. */
  ghost predicate WellChained(d: seq<byte>, swap: bool, at: nat, ps: seq<Slice>) {
    Adjacent(at, ps) && HeadersMatch(d, swap, ps) && Truncated(d, swap, WalkEnd(at, ps))
  }

  lemma AdjacentStep(at: nat, s: Slice, rest: seq<Slice>)
    requires s.offset == at + PacketHeaderSize && Adjacent(End(s), rest)
    ensures Adjacent(at, [s] + rest)
  {
    var ps := [s] + rest;
    forall i, j | 0 <= i < j < |ps| && j == i + 1
      ensures ps[j].offset == End(ps[i]) + PacketHeaderSize
    {
      assert ps[j] == rest[j - 1];
      if i == 0 {
        assert ps[i] == s;
      } else {
        assert ps[i] == rest[i - 1];
      }
    }
  }

  lemma HeadersStep(d: seq<byte>, swap: bool, s: Slice, rest: seq<Slice>)
    requires PacketHeaderSize <= s.offset && End(s) <= |d|
    requires InclLen(d, s.offset - PacketHeaderSize, swap) == s.len
    requires HeadersMatch(d, swap, rest)
    ensures HeadersMatch(d, swap, [s] + rest)
  {
    var ps := [s] + rest;
    forall i | 1 <= i < |ps|
      ensures PacketHeaderSize <= ps[i].offset && End(ps[i]) <= |d|
      ensures InclLen(d, ps[i].offset - PacketHeaderSize, swap) == ps[i].len
    {
      assert ps[i] == rest[i - 1];
    }
  }

  /** One record in front of a well-chained walk keeps it well chained. */
  lemma ChainStep(d: seq<byte>, swap: bool, at: nat, len: nat, rest: seq<Slice>)
    requires at + PacketHeaderSize + len <= |d| && len == InclLen(d, at, swap)
    requires WellChained(d, swap, at + PacketHeaderSize + len, rest)
    ensures WellChained(d, swap, at, [Slice(at + PacketHeaderSize, len)] + rest)
  {
    var s := Slice(at + PacketHeaderSize, len);
    var ps := [s] + rest;
    AdjacentStep(at, s, rest);
    HeadersStep(d, swap, s, rest);
    assert WalkEnd(at, ps) == WalkEnd(End(s), rest) by {
      if |rest| > 0 {
        assert ps[|ps| - 1] == rest[|rest| - 1];
      }
    }
  }

  lemma {:induction false} WalkChained(d: seq<byte>, swap: bool, at: nat)
    ensures WellChained(d, swap, at, Walk(d, swap, at))
    decreases |d| - at
  {
    if at + PacketHeaderSize <= |d| && at + PacketHeaderSize + InclLen(d, at, swap) <= |d| {
      var len := InclLen(d, at, swap);
      WalkChained(d, swap, at + PacketHeaderSize + len);
      ChainStep(d, swap, at, len, Walk(d, swap, at + PacketHeaderSize + len));
      WalkTake(d, swap, at, len);
    } else {
      if at + PacketHeaderSize <= |d| {
        WalkStop(d, swap, at);
      }
      assert Truncated(d, swap, WalkEnd(at, []));
    }
  }

  lemma {:induction false} AdjacentOrdered(at: nat, ps: seq<Slice>, i: nat, j: nat)
    requires Adjacent(at, ps) && i < j < |ps|
    ensures at + PacketHeaderSize <= ps[i].offset
    ensures End(ps[i]) + PacketHeaderSize <= ps[j].offset
    decreases j
  {
    assert ps[j].offset == End(ps[j - 1]) + PacketHeaderSize;
    if i < j - 1 {
      AdjacentOrdered(at, ps, i, j - 1);
    } else if i > 0 {
      AdjacentOrdered(at, ps, i - 1, i);
    } else {
      assert ps[0].offset == at + PacketHeaderSize;
    }
  }

  /** Payloads are visited in strictly increasing, non-overlapping order, each inside
      the file after the global header and its own record header. */
  lemma PayloadsOrdered(d: seq<byte>, swap: bool, i: nat, j: nat)
    requires i <= j < |Walk(d, swap, GlobalHeaderSize)|
    ensures var ps := Walk(d, swap, GlobalHeaderSize);
      && GlobalHeaderSize + PacketHeaderSize <= ps[i].offset
      && End(ps[j]) <= |d|
      && (i < j ==> End(ps[i]) + PacketHeaderSize <= ps[j].offset)
  {
    var ps := Walk(d, swap, GlobalHeaderSize);
    WalkChained(d, swap, GlobalHeaderSize);
    if i < j {
      AdjacentOrdered(GlobalHeaderSize, ps, i, j);
    } else if i > 0 {
      AdjacentOrdered(GlobalHeaderSize, ps, i - 1, i);
    }
  }

  // -----------------------------------------------------------------------
  // The reader object
  // -----------------------------------------------------------------------

  /** `PcapReader`. */
  class PcapReader {
    var data: Option<seq<byte>>
    var size: nat
    var fd: int
    var needsSwap: bool

    function State(): ReaderState
      reads this
    {
      ReaderState(data, size, fd, needsSwap)
    }

    ghost predicate Valid()
      reads this
    {
      Consistent(State())
    }

    /** The default constructor: nothing open. */
    constructor ()
      ensures State() == ReaderState(None, 0, -1, false)
      ensures Valid()
    {
      data, size, fd, needsSwap := None, 0, -1, false;
    }

    /** `PcapReader(filename)`: construct, then `open`. */
    constructor FromFile(fdReturned: int, mapping: Option<seq<byte>>)
      ensures State() == Opened(ReaderState(None, 0, -1, false), fdReturned, mapping)
      ensures Valid()
    {
      data, size, fd, needsSwap := None, 0, -1, false;
      new;
      var _ := Open(fdReturned, mapping);
    }

    /** The move constructor: takes the source's state and leaves it empty. */
    constructor Moved(other: PcapReader)
      requires other.Valid()
      modifies other
      ensures Valid() && other.Valid()
      ensures State() == old(other.State())
      ensures other.State() == MovedFrom(old(other.State()))
    {
      data, size, fd, needsSwap := other.data, other.size, other.fd, other.needsSwap;
      new;
      other.data, other.size, other.fd := None, 0, -1;
    }

    /** Move assignment: a self-move changes nothing; otherwise this reader closes,
        takes the source's state and leaves the source empty. */
    method MoveAssign(other: PcapReader)
      requires other.Valid()
      modifies this, other
      ensures Valid() && other.Valid()
      ensures other == this ==> State() == old(State())
      ensures other != this ==> State() == old(other.State())
      ensures other != this ==> other.State() == MovedFrom(old(other.State()))
    {
      if this != other {
        Close();
        data, size, fd, needsSwap := other.data, other.size, other.fd, other.needsSwap;
        other.data, other.size, other.fd := None, 0, -1;
      }
    }

    /** `open`: close, then adopt the file if it holds a global header with an
        accepted magic number. */
    method Open(fdReturned: int, mapping: Option<seq<byte>>) returns (ok: bool)
      modifies this
      ensures State() == Opened(old(State()), fdReturned, mapping)
      ensures ok == data.Some?
    {
      Close();
      fd := fdReturned;
      if fd < 0 {
        return false;
      }
      if mapping.None? {
        fd := -1;
        return false;
      }
      size := |mapping.value|;
      data := mapping;
      if size < GlobalHeaderSize {
        Close();
        return false;
      }
      var magic := NativeWord(data.value, 0);
      if magic == MagicMicros || magic == MagicNanos {
        needsSwap := false;
      } else if magic == MagicMicrosSwapped || magic == MagicNanosSwapped {
        needsSwap := true;
      } else {
        Close();
        return false;
      }
      return true;
    }

    /** `close`: unmap, release the descriptor, forget the size. */
    method Close()
      modifies this
      ensures State() == Closed(old(State()))
    {
      if data != None {
        data := None;
      }
      if fd >= 0 {
        fd := -1;
      }
      size := 0;
    }

    /** `is_open`: an open reader always holds at least a global header. */
    function IsOpen(): (open: bool)
      reads this
      requires Valid()
      ensures open <==> data.Some?
      ensures open ==> GlobalHeaderSize <= size
    {
      data != None
    }

    /** `file_size`: zero whenever the reader is not open. */
    function FileSize(): (n: nat)
      reads this
      requires Valid()
      ensures !IsOpen() ==> n == 0
      ensures IsOpen() ==> n == |data.value|
    {
      size
    }

    /** `for_each_packet`: the payloads handed to the callback, in order; the
        returned count is the number of callback invocations. */
    method ForEachPacket() returns (count: nat, payloads: seq<Slice>)
      requires Valid()
      ensures count == |payloads|
      ensures !IsOpen() ==> count == 0 && payloads == []
      ensures IsOpen() ==> payloads == Walk(data.value, needsSwap, GlobalHeaderSize)
    {
      if !IsOpen() {
        return 0, [];
      }
      count, payloads := WalkPayloads(data.value, needsSwap, size);
    }
  }

  /** The loop of `for_each_packet` over the mapped bytes `d` of length `fileSize`:
      from just past the global header, read each record's `incl_len` (byte-swapped
      when the file's order is not the host's), hand on the payload, and stop when
      no full record header remains or a payload would run past the end. */
  method WalkPayloads(d: seq<byte>, swap: bool, fileSize: nat) returns (count: nat, payloads: seq<Slice>)
    requires fileSize == |d| && GlobalHeaderSize <= fileSize
    ensures count == |payloads|
    ensures payloads == Walk(d, swap, GlobalHeaderSize)
  {
    var offset := GlobalHeaderSize;
    count, payloads := 0, [];
    while offset + PacketHeaderSize <= fileSize
      invariant WalkResumes(d, swap, offset, payloads)
      invariant count == |payloads|
      decreases fileSize - offset
    {
      ghost var at := offset;
      var inclLen := NativeWord(d, offset + 8);
      if swap {
        inclLen := Bswap32(inclLen);
      }
      assert inclLen == InclLen(d, at, swap);
      offset := offset + PacketHeaderSize;
      if offset + inclLen > fileSize {
        WalkStop(d, swap, at);
        break;
      }
      WalkAdvance(d, swap, at, inclLen, payloads, offset, offset + inclLen);
      payloads := payloads + [Slice(offset, inclLen)];
      offset := offset + inclLen;
      count := count + 1;
    }
  }
}
