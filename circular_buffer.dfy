/** The driver's ring of completed writes. Its implementation file is not part
    of this model; what follows is the behaviour the driver relies on when it
    calls the ring's add and find-by-offset operations: a fixed number of slots,
    a write cursor that overwrites the oldest entry once every slot is in use,
    and a walk over the occupied entries, oldest first, that turns a global
    byte offset into an entry and an offset inside it. */
module CircularBuffer {
  import opened Bytes

  /** Where a global byte offset falls: the entry's place among the
      occupied entries (0 is the oldest) and the offset inside that entry. */
  datatype Position = Position(index: nat, offset: nat)

  /** The retained entries, oldest first, after adding `e` to a ring of
      capacity `cap` that held `es`: once the ring is full the oldest entry
      is overwritten. */
  function AddEntry(es: seq<seq<byte>>, e: seq<byte>, cap: nat): (r: seq<seq<byte>>)
    requires 1 <= cap && |es| <= cap
    ensures 1 <= |r| <= cap && r[|r| - 1] == e
    ensures |r| == if |es| < cap then |es| + 1 else cap
  {
    if |es| < cap then es + [e] else es[1..] + [e]
  }

  /** The retained entries after adding every entry of `adds` in order. */
  function AddAll(es: seq<seq<byte>>, adds: seq<seq<byte>>, cap: nat): (r: seq<seq<byte>>)
    requires 1 <= cap && |es| <= cap
    ensures |r| <= cap
    decreases |adds|
  {
    if adds == [] then es else AddAll(AddEntry(es, adds[0], cap), adds[1..], cap)
  }

  function Min(a: nat, b: nat): nat
  {
    if a <= b then a else b
  }

  /** A ring of capacity `cap` keeps exactly the latest `cap` entries ever
      added, oldest first, and nothing older. */
  lemma {:induction false} AddAllKeepsLatest(es: seq<seq<byte>>, adds: seq<seq<byte>>, cap: nat)
    requires 1 <= cap && |es| <= cap
    ensures var all := es + adds;
            AddAll(es, adds, cap) == all[|all| - Min(|all|, cap)..]
    decreases |adds|
  {
    var all := es + adds;
    if adds == [] {
      assert all == es;
    } else {
      var es' := AddEntry(es, adds[0], cap);
      var all' := es' + adds[1..];
      AddAllKeepsLatest(es', adds[1..], cap);
      if |es| < cap {
        assert all' == all;
      } else {
        assert all' == all[1..];
        assert all'[|all'| - cap..] == all[|all| - cap..];
      }
    }
  }

  /** Shifts a position found in a suffix back to the whole sequence. */
  function Shift(o: Option<Position>, k: nat): Option<Position>
  {
    match o
    case None => None
    case Some(p) => Some(Position(p.index + k, p.offset))
  }

  /** The entry and intra-entry offset of global byte offset `fpos`: the
      occupied entries are walked oldest first, adding up their sizes; an
      entry of size 0 is stepped over, and an offset on an entry boundary
      belongs to the next entry. None when `fpos` is at or past the total. */
  function Locate(es: seq<seq<byte>>, fpos: nat): (r: Option<Position>)
    ensures r.Some? ==> r.value.index < |es|
  {
    if es == [] then None
    else if fpos < |es[0]| then Some(Position(0, fpos))
    else Shift(Locate(es[1..], fpos - |es[0]|), 1)
  }

  /** No entry is found exactly when the offset is at or past the total size. */
  lemma {:induction false} LocateNoneIff(es: seq<seq<byte>>, fpos: nat)
    ensures Locate(es, fpos) == None <==> fpos >= Total(es)
  {
    if es != [] && fpos >= |es[0]| {
      LocateNoneIff(es[1..], fpos - |es[0]|);
    }
  }

  /** A found position lies inside its entry, and the sizes of the entries
      before it plus the offset give back `fpos`. */
  lemma {:induction false} LocateFound(es: seq<seq<byte>>, fpos: nat)
    requires Locate(es, fpos).Some?
    ensures var p := Locate(es, fpos).value;
            p.index < |es| && p.offset < |es[p.index]| &&
            Total(es[..p.index]) + p.offset == fpos
  {
    var p := Locate(es, fpos).value;
    if fpos >= |es[0]| {
      LocateFound(es[1..], fpos - |es[0]|);
      var q := Locate(es[1..], fpos - |es[0]|).value;
      assert p.index == q.index + 1;
      assert es[..p.index] == [es[0]] + es[1..][..q.index];
      TotalAppend([es[0]], es[1..][..q.index]);
    }
  }

  /** Conversely, every byte of every entry is found where it lies: the
      position is unique. */
  lemma {:induction false} LocateExact(es: seq<seq<byte>>, i: nat, off: nat)
    requires i < |es| && off < |es[i]|
    ensures Locate(es, Total(es[..i]) + off) == Some(Position(i, off))
  {
    if i > 0 {
      assert es[..i] == [es[0]] + es[1..][..i - 1];
      TotalAppend([es[0]], es[1..][..i - 1]);
      LocateExact(es[1..], i - 1, off);
    }
  }

  /** The dump read from `fpos` onwards starts with the rest of the found
      entry and continues with the entries after it. */
  lemma {:induction false} LocateSuffix(es: seq<seq<byte>>, fpos: nat)
    requires Locate(es, fpos).Some?
    ensures var p := Locate(es, fpos).value;
            p.index < |es| && p.offset < |es[p.index]| && fpos < |Concat(es)| &&
            Concat(es)[fpos..] == es[p.index][p.offset..] + Concat(es[p.index + 1..])
  {
    var p := Locate(es, fpos).value;
    LocateNoneIff(es, fpos);
    if fpos < |es[0]| {
      assert Concat(es)[fpos..] == es[0][fpos..] + Concat(es[1..]);
    } else {
      LocateSuffix(es[1..], fpos - |es[0]|);
      assert es[1..][p.index - 1 + 1..] == es[p.index + 1..];
      assert Concat(es)[fpos..] == Concat(es[1..])[fpos - |es[0]|..];
    }
  }

  /** The walk from entry `k` stops in that entry when the offset left
      falls inside it. */
  lemma LocateHere(es: seq<seq<byte>>, k: nat, d: nat)
    requires k < |es| && d < |es[k]|
    ensures Locate(es[k..], d) == Some(Position(0, d))
  {
    assert es[k..][0] == es[k];
  }

  /** Otherwise the walk moves on to entry `k + 1` with the size of entry
      `k` taken off the offset. */
  lemma LocateStep(es: seq<seq<byte>>, k: nat, d: nat)
    requires k < |es| && d >= |es[k]|
    ensures Shift(Locate(es[k..], d), k) == Shift(Locate(es[k + 1..], d - |es[k]|), k + 1)
  {
    assert es[k..][0] == es[k];
    assert es[k..][1..] == es[k + 1..];
  }

  /** Slot `start + k` of a ring of `n` slots, wrapping past the last slot. */
  function Wrap(start: nat, k: nat, n: nat): (i: nat)
    requires start < n && k < n
    ensures i < n
  {
    if start + k < n then start + k else start + k - n
  }

  /** The slot after `i` in a ring of `n` slots. */
  function NextSlot(i: nat, n: nat): (j: nat)
    requires i < n
    ensures j < n && j == (i + 1) % n
  {
    if i + 1 == n then 0 else i + 1
  }

  /** The `len` entries of the slots `s` read in ring order from slot `start`. */
  function RingView(s: seq<seq<byte>>, start: nat, len: nat): (r: seq<seq<byte>>)
    requires start < |s| && len <= |s|
    ensures |r| == len
  {
    seq(len, k requires 0 <= k < len => s[Wrap(start, k, |s|)])
  }

  /** Writing the free slot just after the `len` occupied ones appends the
      new entry to the ring-order view and keeps every older entry. */
  lemma RingViewExtend(s: seq<seq<byte>>, start: nat, len: nat, e: seq<byte>)
    requires start < |s| && len < |s|
    ensures RingView(s[Wrap(start, len, |s|) := e], start, len + 1) == RingView(s, start, len) + [e]
  {
  }

  /** Overwriting the oldest slot of a full ring drops the oldest entry and
      appends the new one; the view then starts at the following slot. */
  lemma RingViewOverwrite(s: seq<seq<byte>>, start: nat, e: seq<byte>)
    requires start < |s|
    ensures RingView(s[start := e], NextSlot(start, |s|), |s|) == RingView(s, start, |s|)[1..] + [e]
  {
  }

  /** A fixed-capacity ring of byte-sequence entries. */
  class Ring {
    /** The number of slots, fixed when the ring is made. */
    const cap: nat
    /** The slots; a slot not yet written holds the empty entry. */
    const slots: array<seq<byte>>
    /** The write cursor: the slot the next add overwrites. */
    var inOffs: nat
    /** How many slots hold an entry. */
    var used: nat

    ghost predicate Valid()
      reads this
    {
      1 <= cap && slots.Length == cap && inOffs < cap && used <= cap
    }

    /** The slot of the oldest occupied entry: `used` slots before the cursor. */
    function Oldest(): (i: nat)
      reads this
      requires Valid()
      ensures i < cap
      ensures used < cap ==> Wrap(i, used, cap) == inOffs
      ensures used == cap ==> i == inOffs
    {
      if used <= inOffs then inOffs - used else inOffs + cap - used
    }

    /** The `k`-th occupied entry, counting from the oldest. */
    function Entry(k: nat): seq<byte>
      reads this, slots
      requires Valid() && k < used
    {
      slots[Wrap(Oldest(), k, cap)]
    }

    /** The occupied entries in ring order, oldest first. */
    function Entries(): (es: seq<seq<byte>>)
      reads this, slots
      requires Valid()
      ensures |es| == used <= cap
      ensures forall k :: 0 <= k < used ==> es[k] == Entry(k)
    {
      RingView(slots[..], Oldest(), used)
    }

    /** An empty ring: every slot free, cursor at slot 0. */
    constructor (capacity: nat)
      requires 1 <= capacity
      ensures Valid() && cap == capacity && fresh(slots)
      ensures inOffs == 0 && Entries() == []
    {
      cap := capacity;
      slots := new seq<byte>[capacity](_ => []);
      inOffs := 0;
      used := 0;
    }

    /** Stores `e` at the write cursor, overwriting the oldest entry when
        every slot is in use, and advances the cursor modulo the capacity. */
    method Add(e: seq<byte>)
      requires Valid()
      modifies this, slots
      ensures Valid()
      ensures inOffs == (old(inOffs) + 1) % cap
      ensures slots[old(inOffs)] == e
      ensures Entries() == AddEntry(old(Entries()), e, cap)
    {
      ghost var s := slots[..];
      ghost var oldest := Oldest();
      slots[inOffs] := e;
      assert slots[..] == s[old(inOffs) := e];
      inOffs := NextSlot(inOffs, cap);
      if used < cap {
        used := used + 1;
        assert Oldest() == oldest;
        RingViewExtend(s, oldest, used - 1, e);
      } else {
        RingViewOverwrite(s, oldest, e);
      }
    }

    /** The entry holding global offset `fpos` of the concatenated entries,
        and the offset inside it; None when no entry holds it. */
    method FindEntryOffsetForFpos(fpos: nat) returns (r: Option<Position>)
      requires Valid()
      ensures r == Locate(Entries(), fpos)
    {
      ghost var es := Entries();
      var k: nat := 0;
      var acc: nat := 0;
      while k < used
        invariant k <= used && acc <= fpos
        invariant Locate(es, fpos) == Shift(Locate(es[k..], fpos - acc), k)
      {
        var e := Entry(k);
        if fpos - acc < |e| {
          LocateHere(es, k, fpos - acc);
          return Some(Position(k, fpos - acc));
        }
        LocateStep(es, k, fpos - acc);
        acc := acc + |e|;
        k := k + 1;
      }
      assert es[k..] == [];
      return None;
    }
  }
}
