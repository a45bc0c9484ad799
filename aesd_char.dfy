/** The AESD character device: writes are assembled into newline-terminated
    entries of the ring, reads return bytes of one entry at a time at the
    file position. */
module AesdChar {
  import opened Bytes
  import opened CircularBuffer

  // ---------------------------------------------------------------------
  // Write assembly
  // ---------------------------------------------------------------------

  /** What one write does with the pending bytes and the bytes it received:
      either they form a completed entry, or they are held as the new
      pending partial write. */
  datatype WriteOutcome = Completed(entry: seq<byte>) | Held(partial: seq<byte>)

  /** A write whose bytes all arrived: the pending partial bytes followed by
      the received bytes form an entry exactly when the combined buffer ends
      in a newline; only that last byte decides. Either way the outcome holds
      exactly the pending bytes followed by the received ones. */
  function Assemble(pending: seq<byte>, received: seq<byte>): (r: WriteOutcome)
    ensures r.Completed? <==> EndsWithNewline(pending + received)
    ensures match r
            case Completed(e) => e == pending + received
            case Held(p) => p == pending + received
  {
    var combined := pending + received;
    if EndsWithNewline(combined) then Completed(combined) else Held(combined)
  }

  /** One write of the user buffer `buf`, of which `copy_from_user`
      delivered the first `copied` bytes and zero-filled the rest. A short
      copy ends the combined buffer in a 0 byte, so it never completes an
      entry: the pending bytes and the delivered ones are held, even when
      the delivered ones end in a newline. A full copy is `Assemble`. */
  function WriteStep(pending: seq<byte>, buf: seq<byte>, copied: nat): (r: WriteOutcome)
    requires copied <= |buf|
    ensures r.Completed? <==> copied == |buf| && EndsWithNewline(pending + buf)
    ensures match r
            case Completed(e) => e == pending + buf && |e| == |pending| + |buf|
            case Held(p) => p == pending + buf[..copied]
  {
    if copied < |buf| then Held(pending + buf[..copied])
    else
      assert buf[..copied] == buf;
      Assemble(pending, buf)
  }

  /** A short copy whose delivered bytes end in a newline is not an entry of
      its own: "a\nb" with two bytes delivered holds "a\n", and the next
      write "b\n" then stores the one entry "a\nb\n". */
  lemma ShortCopyGluedToNextWrite()
    ensures WriteStep([], [97, NEWLINE, 98], 2) == Held([97, NEWLINE])
    ensures WriteStep([97, NEWLINE], [98, NEWLINE], 2) == Completed([97, NEWLINE, 98, NEWLINE])
  {
    assert [97, NEWLINE, 98][..2] == [97, NEWLINE];
  }

  /** A newline inside the received bytes does not split them: when the
      last byte is not a newline, everything is held as pending, whatever
      newlines come before it. */
  lemma OnlyLastByteDecides(pending: seq<byte>, received: seq<byte>, i: nat)
    requires i < |received| - 1 && received[i] == NEWLINE
    requires received[|received| - 1] != NEWLINE
    ensures Assemble(pending, received) == Held(pending + received)
  {
  }

  /** The write "a\nb" on an idle device is held entirely as pending. */
  lemma EmbeddedNewlineHeld()
    ensures Assemble([], [97, NEWLINE, 98]) == Held([97, NEWLINE, 98])
  {
  }

  /** The entries a series of writes completes, oldest first, and the bytes
      they leave pending. */
  datatype Fed = Fed(entries: seq<seq<byte>>, left: seq<byte>)

  /** The entries completed and the bytes left pending after a series of
      writes that each received all their bytes. */
  function FeedAll(pending: seq<byte>, writes: seq<seq<byte>>): Fed
    decreases |writes|
  {
    if writes == [] then Fed([], pending)
    else
      match Assemble(pending, writes[0])
      case Completed(e) =>
        var rest := FeedAll([], writes[1..]);
        Fed([e] + rest.entries, rest.left)
      case Held(p) => FeedAll(p, writes[1..])
  }

  /** Over any series of writes, the completed entries followed by what is
      still pending are exactly the bytes written, in order. */
  lemma {:induction false} FeedAllConserves(pending: seq<byte>, writes: seq<seq<byte>>)
    ensures Concat(FeedAll(pending, writes).entries) + FeedAll(pending, writes).left
              == pending + Concat(writes)
    decreases |writes|
  {
    if writes != [] {
      var out := Assemble(pending, writes[0]);
      var tail := Concat(writes[1..]);
      assert Concat(writes) == writes[0] + tail;
      if out.Completed? {
        var rest := FeedAll([], writes[1..]);
        FeedAllConserves([], writes[1..]);
        assert ([out.entry] + rest.entries)[1..] == rest.entries;
        calc {
          Concat(FeedAll(pending, writes).entries) + FeedAll(pending, writes).left;
          Concat([out.entry] + rest.entries) + rest.left;
          (out.entry + Concat(rest.entries)) + rest.left;
          out.entry + (Concat(rest.entries) + rest.left);
          (pending + writes[0]) + tail;
        }
      } else {
        FeedAllConserves(out.partial, writes[1..]);
      }
    }
  }

  /** Every entry a series of writes completes ends in a newline, and after
      at least one write the bytes left pending never do. */
  lemma {:induction false} FeedAllTerminated(pending: seq<byte>, writes: seq<seq<byte>>)
    ensures forall k :: 0 <= k < |FeedAll(pending, writes).entries| ==>
              EndsWithNewline(FeedAll(pending, writes).entries[k])
    ensures writes != [] || !EndsWithNewline(pending) ==>
              !EndsWithNewline(FeedAll(pending, writes).left)
    decreases |writes|
  {
    if writes != [] {
      var out := Assemble(pending, writes[0]);
      if out.Completed? {
        var rest := FeedAll([], writes[1..]);
        FeedAllTerminated([], writes[1..]);
        assert FeedAll(pending, writes).entries == [out.entry] + rest.entries;
      } else {
        FeedAllTerminated(out.partial, writes[1..]);
      }
    }
  }

  /** Two writes "ab" and "c\n" make the one entry "abc\n" and leave
      nothing pending. */
  lemma SplitWriteJoined()
    ensures FeedAll([], [[97, 98], [99, NEWLINE]]) == Fed([[97, 98, 99, NEWLINE]], [])
  {
    var writes: seq<seq<byte>> := [[97, 98], [99, NEWLINE]];
    assert Assemble([], writes[0]) == Held([97, 98]);
    assert [97, 98] + writes[1] == [97, 98, 99, NEWLINE];
    assert Assemble([97, 98], writes[1]) == Completed([97, 98, 99, NEWLINE]);
    assert FeedAll([], writes) == FeedAll([97, 98], writes[1..]);
    assert writes[1..][1..] == [];
    assert FeedAll([], writes[1..][1..]) == Fed([], []);
  }

  // ---------------------------------------------------------------------
  // Read
  // ---------------------------------------------------------------------

  /** The bytes one read returns: `count` is the size of the user buffer,
      `writable` how many of its first bytes can be written before
      `copy_to_user` faults. At most the rest of the one entry holding
      `fpos` is returned, and nothing when no entry holds it. */
  function ReadBytes(es: seq<seq<byte>>, fpos: nat, count: nat, writable: nat): (r: seq<byte>)
    ensures |r| <= Min(count, writable)
    ensures r == [] || fpos + |r| <= Total(es)
  {
    match Locate(es, fpos)
    case None => []
    case Some(p) =>
      LocateSuffix(es, fpos);
      var e := es[p.index];
      var n := Min(Min(count, |e| - p.offset), writable);
      e[p.offset..p.offset + n]
  }

  /** A read never runs past the end of the entry holding `fpos`; at or
      past the total it returns nothing. */
  lemma ReadBounds(es: seq<seq<byte>>, fpos: nat, count: nat, writable: nat)
    ensures fpos >= Total(es) ==> ReadBytes(es, fpos, count, writable) == []
    ensures Locate(es, fpos).Some? ==>
              var p := Locate(es, fpos).value;
              p.index < |es| && p.offset <= |es[p.index]| &&
              ReadBytes(es, fpos, count, writable) ==
                es[p.index][p.offset..p.offset + |ReadBytes(es, fpos, count, writable)|]
  {
  }

  /** Whatever one read returns is exactly the bytes of the concatenated
      entries at `fpos`, and a read with room for a byte at a position
      below the total returns at least one. */
  lemma ReadMatchesDump(es: seq<seq<byte>>, fpos: nat, count: nat, writable: nat)
    ensures var r := ReadBytes(es, fpos, count, writable);
            fpos + |r| <= |Concat(es)| ==> r == Concat(es)[fpos..fpos + |r|]
    ensures fpos < Total(es) && count >= 1 && writable >= 1 ==>
              |ReadBytes(es, fpos, count, writable)| >= 1
  {
    LocateNoneIff(es, fpos);
    if Locate(es, fpos).Some? {
      ReadLocated(es, fpos, count, writable);
    }
  }

  /** The located case of `ReadMatchesDump`: the read is a non-empty slice
      of the located entry when there is room for a byte, and it is the
      dump's slice at `fpos`. */
  lemma ReadLocated(es: seq<seq<byte>>, fpos: nat, count: nat, writable: nat)
    requires Locate(es, fpos).Some?
    ensures var r := ReadBytes(es, fpos, count, writable);
            fpos + |r| <= |Concat(es)| && r == Concat(es)[fpos..fpos + |r|] &&
            (count >= 1 && writable >= 1 ==> |r| >= 1)
  {
    LocateSuffix(es, fpos);
    var p := Locate(es, fpos).value;
    var e := es[p.index];
    var n := Min(Min(count, |e| - p.offset), writable);
    var r := ReadBytes(es, fpos, count, writable);
    assert r == e[p.offset..p.offset + n] && |r| == n;
    assert count >= 1 && writable >= 1 ==> n >= 1;
    SliceOfSuffix(Concat(es), fpos, e, p.offset, Concat(es[p.index + 1..]), n);
  }

  /** A slice taken at `fpos` of a sequence whose suffix from `fpos` starts
      with `e[off..]` is the matching slice of `e`. */
  lemma SliceOfSuffix(d: seq<byte>, fpos: nat, e: seq<byte>, off: nat, rest: seq<byte>, n: nat)
    requires fpos <= |d| && off + n <= |e| && d[fpos..] == e[off..] + rest
    ensures fpos + n <= |d| && d[fpos..fpos + n] == e[off..off + n]
  {
    assert d[fpos..fpos + n] == d[fpos..][..n];
  }

  /** Reading again and again from `fpos` into a buffer of `count` bytes
      whose first `writable` bytes can be written, each read starting where
      the previous one left the file position, until a read returns
      nothing: when the buffer has room for a byte, the reads together
      return every retained byte from `fpos` on, in order, and nothing else. */
  function ReadToEnd(es: seq<seq<byte>>, fpos: nat, count: nat, writable: nat): (d: seq<byte>)
    requires count >= 1 && writable >= 1 && fpos <= Total(es)
    ensures d == Concat(es)[fpos..]
    decreases Total(es) - fpos
  {
    var r := ReadBytes(es, fpos, count, writable);
    ReadMatchesDump(es, fpos, count, writable);
    if r == [] then []
    else
      var dump := Concat(es);
      assert fpos + |r| <= |dump| && r == dump[fpos..fpos + |r|];
      assert dump[fpos..] == dump[fpos..fpos + |r|] + dump[fpos + |r|..];
      r + ReadToEnd(es, fpos + |r|, count, writable)
  }

  // ---------------------------------------------------------------------
  // The device
  // ---------------------------------------------------------------------

  /** The file position `*f_pos` that the kernel passes to every read. */
  class FilePos {
    var pos: nat

    constructor (p: nat)
      ensures pos == p
    {
      pos := p;
    }
  }

  /** The device state: the ring of completed entries and the pending
      partial write. `partialWrite` is the buffer the driver's pointer
      refers to (None where it is NULL); its first `partialLen` bytes are
      the ones carried to the next write. */
  class AesdDev {
    const buff: Ring
    var partialWrite: Option<seq<byte>>
    var partialLen: nat

    ghost predicate PartialValid()
      reads this
    {
      match partialWrite
      case None => partialLen == 0
      case Some(b) => partialLen <= |b|
    }

    /** The partial bytes carried to the next write. */
    function Pending(): (p: seq<byte>)
      reads this
      requires PartialValid()
      ensures |p| == partialLen
    {
      match partialWrite
      case None => []
      case Some(b) => b[..partialLen]
    }

    ghost predicate Valid()
      reads this, buff
    {
      buff.Valid() && PartialValid()
    }

    /** The device as module initialisation leaves it: an empty ring and
        no partial write. */
    constructor (capacity: nat)
      requires 1 <= capacity
      ensures Valid() && fresh(buff) && fresh(buff.slots) && buff.cap == capacity
      ensures buff.Entries() == [] && partialWrite == None && partialLen == 0
    {
      buff := new Ring(capacity);
      partialWrite := None;
      partialLen := 0;
    }

    /** A write of the user buffer `buf`, of which `copy_from_user`
        delivers the first `copied` bytes and zero-fills the rest. The new
        buffer holds the pending bytes followed by those `|buf|` bytes. When
        its last byte is a newline it becomes one entry of the ring, of size
        `partialLen + |buf|`, and the pending write is cleared; otherwise it
        becomes the pending write, whose length grows by the bytes
        delivered, and the ring is left alone. Returns the number of bytes
        delivered. */
    method Write(buf: seq<byte>, copied: nat) returns (retval: nat)
      requires Valid() && copied <= |buf|
      modifies this, buff, buff.slots
      ensures Valid() && retval == copied && retval <= |buf|
      ensures match WriteStep(old(Pending()), buf, copied)
              case Completed(e) =>
                buff.Entries() == AddEntry(old(buff.Entries()), e, buff.cap) &&
                |e| == old(partialLen) + |buf| &&
                partialWrite == None && partialLen == 0
              case Held(p) =>
                unchanged(buff, buff.slots) &&
                partialWrite == Some(p + Zeros(|buf| - copied)) &&
                partialLen == old(partialLen) + retval && Pending() == p
    {
      ghost var pending := Pending();
      var newBuf: seq<byte> := [];
      if partialWrite.Some? {
        newBuf := partialWrite.value[..partialLen];
      }
      retval := copied;
      newBuf := newBuf + buf[..copied] + Zeros(|buf| - copied);
      assert newBuf == pending + buf[..copied] + Zeros(|buf| - copied);
      assert copied < |buf| ==> newBuf[|newBuf| - 1] == 0;
      assert copied == |buf| ==> newBuf == pending + buf;
      if |newBuf| > 0 && newBuf[|newBuf| - 1] == NEWLINE {
        buff.Add(newBuf);
        partialWrite := None;
        partialLen := 0;
      } else {
        partialWrite := Some(newBuf);
        partialLen := partialLen + retval;
        assert Pending() == newBuf[..partialLen] == pending + buf[..copied];
      }
    }

    /** A read into a user buffer of `count` bytes whose first `writable`
        bytes can be written: the bytes of the entry holding `fpos.pos`
        from its intra-entry offset, at most `count` of them and never past
        the entry's end; the file position advances by exactly the number
        returned. Nothing but the file position changes. */
    method Read(count: nat, fpos: FilePos, writable: nat) returns (retval: nat, data: seq<byte>)
      requires Valid()
      modifies fpos
      ensures data == ReadBytes(buff.Entries(), old(fpos.pos), count, writable)
      ensures retval == |data| && fpos.pos == old(fpos.pos) + retval
      ensures Locate(buff.Entries(), old(fpos.pos)) == None ==> retval == 0 && fpos.pos == old(fpos.pos)
      ensures unchanged(this, buff, buff.slots)
    {
      var found := buff.FindEntryOffsetForFpos(fpos.pos);
      if found == None {
        return 0, [];
      }
      LocateFound(buff.Entries(), fpos.pos);
      var p := found.value;
      var entry := buff.Entry(p.index);
      var bytesToCopy := if |entry| - p.offset > count then count else |entry| - p.offset;
      var notCopied := bytesToCopy - Min(bytesToCopy, writable);
      retval := bytesToCopy - notCopied;
      data := entry[p.offset..p.offset + retval];
      fpos.pos := fpos.pos + retval;
    }
  }

  /** Writing "hello\n" to a freshly initialised device with ten slots,
      then reading from position 0, returns "hello\n". */
  method HelloRoundTrip() returns (data: seq<byte>)
    ensures data == [104, 101, 108, 108, 111, NEWLINE]
  {
    var hello: seq<byte> := [104, 101, 108, 108, 111, NEWLINE];
    HelloSteps(hello);
    var dev := new AesdDev(10);
    var n := dev.Write(hello, 6);
    assert dev.buff.Entries() == [hello];
    var f := new FilePos(0);
    n, data := dev.Read(100, f, 100);
  }

  /** The three steps of `HelloRoundTrip` on values: the write completes,
      the empty ring then holds that one entry, and a read at 0 returns it. */
  lemma HelloSteps(hello: seq<byte>)
    requires hello == [104, 101, 108, 108, 111, NEWLINE]
    ensures WriteStep([], hello, 6) == Completed(hello)
    ensures AddEntry([], hello, 10) == [hello]
    ensures ReadBytes([hello], 0, 100, 100) == hello
  {
    assert [] + hello == hello;
    assert Locate([hello], 0) == Some(Position(0, 0));
    assert hello[0..6] == hello;
  }

  /** A ring of two slots fed "one\n", "two\n", "three\n" retains
      "two\n" and "three\n" and a full dump reads "two\nthree\n". */
  lemma TwoSlotRingKeepsLastTwo()
    ensures var one: seq<byte> := [111, 110, 101, NEWLINE];
            var two: seq<byte> := [116, 119, 111, NEWLINE];
            var three: seq<byte> := [116, 104, 114, 101, 101, NEWLINE];
            Concat(AddAll([], [one, two, three], 2)) == two + three
  {
    var one: seq<byte> := [111, 110, 101, NEWLINE];
    var two: seq<byte> := [116, 119, 111, NEWLINE];
    var three: seq<byte> := [116, 104, 114, 101, 101, NEWLINE];
    AddAllKeepsLatest([], [one, two, three], 2);
    assert [] + [one, two, three] == [one, two, three];
    assert [two, three][1..] == [three];
    assert Concat([three]) == three;
  }

  // ---------------------------------------------------------------------
  // The write as the driver's code has it
  // ---------------------------------------------------------------------

  /** The outcome of one write computed as the driver's code does it. */
  datatype AsWritten =
    | StoredEntry(entry: seq<byte>, size: nat, retval: nat)
    | HeldPartial(buffer: seq<byte>, partialLen: nat, retval: nat)
    | OutOfBoundsRead(index: int, bufferSize: nat)

  /** The driver's write as written: a buffer of `|pending| + |buf|` bytes
      holds the pending bytes, the `copied` bytes delivered by
      `copy_from_user` and the zeros it fills the rest with; the byte at
      `|buf| + |pending| - 1`, computed in `size_t`, decides, and a stored
      entry's size is `|pending| + |buf|`. The index is outside the buffer
      exactly when both are empty; an entry is stored only after a full
      copy; a held buffer starts with the pending and delivered bytes. */
  function WriteAsWritten(pending: seq<byte>, buf: seq<byte>, copied: nat): (r: AsWritten)
    requires copied <= |buf|
    requires |pending| + |buf| < SIZE_T_MODULUS
    ensures r.OutOfBoundsRead? <==> |pending| + |buf| == 0
    ensures r.StoredEntry? ==> copied == |buf| && r.entry == pending + buf && r.size == |r.entry|
    ensures r.HeldPartial? ==>
              r.partialLen == |pending| + copied <= |r.buffer| &&
              r.buffer == pending + buf[..copied] + Zeros(|buf| - copied)
  {
    var newBuf := pending + buf[..copied] + Zeros(|buf| - copied);
    var last := (|buf| + |pending| - 1) % SIZE_T_MODULUS;
    if last >= |newBuf| then OutOfBoundsRead(last, |newBuf|)
    else if newBuf[last] == NEWLINE then
      assert copied == |buf| && buf[..copied] == buf;
      StoredEntry(newBuf, |pending| + |buf|, copied)
    else HeldPartial(newBuf, |pending| + copied, copied)
  }

  /** Whenever the write is not empty, the code as written and `WriteStep`
      agree: the same entry and size, or the same held bytes, and the same
      return value, whether or not `copy_from_user` delivered every byte. */
  lemma AsWrittenAgrees(pending: seq<byte>, buf: seq<byte>, copied: nat)
    requires copied <= |buf|
    requires 0 < |pending| + |buf| < SIZE_T_MODULUS
    ensures match WriteAsWritten(pending, buf, copied)
            case StoredEntry(e, size, r) =>
              WriteStep(pending, buf, copied) == Completed(e) && size == |e| && r == copied
            case HeldPartial(b, len, r) =>
              WriteStep(pending, buf, copied) == Held(b[..len]) && r == copied
            case OutOfBoundsRead(_, _) => false
  {
    var r := WriteAsWritten(pending, buf, copied);
    if r.HeldPartial? {
      assert r.buffer[..r.partialLen] == pending + buf[..copied];
    }
  }

  /** A zero-byte write with nothing pending: the code as written indexes
      byte 2^64 - 1 of a zero-byte buffer, while the corrected write holds
      the empty buffer and stores nothing. */
  lemma ZeroLengthWrite()
    ensures WriteAsWritten([], [], 0) == OutOfBoundsRead(SIZE_T_MODULUS - 1, 0)
    ensures WriteStep([], [], 0) == Held([])
  {
  }
}
