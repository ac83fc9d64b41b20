/**
 * Clock (second-chance) page replacement, after prac2/clockmmu.py.
 *
 * The simulator owns a fixed number of page frames. Each frame is empty or
 * holds one page and its dirty flag; each frame also has a reference bit, and
 * a clock hand points at the next frame to examine. A page table maps every
 * resident page to its frame. Requests are reads and writes of a page; the
 * simulator counts page faults, disk reads and disk writes.
 *
 * The first half of the module is an abstract model on values (ClockState,
 * Sweep, Access) with the properties proved about it; the second half is the
 * class ClockMmu, which updates arrays in place and is proved to follow the
 * abstract model step by step.
 */
module Clock {

  /** The contents of one page frame: nothing yet, or a page and its dirty flag. */
  datatype Frame = Empty | Loaded(page: int, dirty: bool)

  /** Where one sweep of the clock hand stops: the victim frame, the reference
      bits after the sweep, and the new position of the hand. */
  datatype SweepResult = SweepResult(victim: nat, bits: seq<bool>, hand: nat)

  /** The whole simulator state, field for field as in the class, except
      that the frame count `frames` is not stored: it is the length of the
      frame list (and of the bit list). */
  datatype ClockState = ClockState(
    frames: seq<Frame>,
    bits: seq<bool>,
    hand: nat,
    pageTable: map<int, nat>,
    pageFaults: nat,
    diskReads: nat,
    diskWrites: nat)

  // ---------------------------------------------------------------------------
  // The clock sweep
  // ---------------------------------------------------------------------------

  /** Number of reference bits that are set. Every frame the hand passes over
      has its bit cleared, so this number bounds the length of a sweep. */
  function Ones(bits: seq<bool>): nat
  {
    if bits == [] then 0 else (if bits[0] then 1 else 0) + Ones(bits[1..])
  }

  lemma {:induction false} OnesBound(bits: seq<bool>)
    ensures Ones(bits) <= |bits|
  {
    if bits != [] {
      OnesBound(bits[1..]);
    }
  }

  /** Clearing one set bit lowers the count by exactly one. */
  lemma {:induction false} OnesClear(bits: seq<bool>, i: nat)
    requires i < |bits| && bits[i]
    ensures Ones(bits[i := false]) == Ones(bits) - 1
  {
    if i == 0 {
      assert bits[i := false][1..] == bits[1..];
    } else {
      assert bits[i := false][1..] == bits[1..][i - 1 := false];
      OnesClear(bits[1..], i - 1);
    }
  }

  /** The frame `i` steps ahead of frame `hand` on a clock of `n` frames,
      that is (hand + i) % n. */
  function Ahead(hand: nat, i: nat, n: nat): (r: nat)
    requires hand < n && i <= n
    ensures r < n
  {
    if hand + i < n then hand + i else hand + i - n
  }

  /** How many steps ahead of frame `hand` frame `j` lies on a clock of `n`
      frames, that is (j - hand) % n. */
  function Distance(hand: nat, j: nat, n: nat): (r: nat)
    requires hand < n && j < n
    ensures r < n && Ahead(hand, r, n) == j
  {
    if hand <= j then j - hand else j + n - hand
  }

  /** Ahead is the modular arithmetic the source writes as (hand + i) % n. */
  lemma AheadModulo(hand: nat, i: nat, n: nat)
    requires hand < n && i <= n
    ensures Ahead(hand, i, n) == (hand + i) % n
  {
    ModuloShift(Ahead(hand, i, n), n);
  }

  /** A frame number is its own remainder, also after one full turn. */
  lemma ModuloShift(x: int, n: int)
    requires 0 <= x < n
    ensures x % n == x && (x + n) % n == x
  {
  }

  /** The victim search of find_victim_frame: starting at `hand`, a frame whose
      bit is set has it cleared and is passed over; the first frame whose bit
      is clear is the victim, and the hand stops one past it. The sweep ends
      because every pass clears a bit. */
  function Sweep(bits: seq<bool>, hand: nat): (r: SweepResult)
    requires hand < |bits|
    ensures r.victim < |bits| && |r.bits| == |bits|
    ensures r.hand == Ahead(r.victim, 1, |bits|)
    ensures !r.bits[r.victim]
    ensures forall j :: 0 <= j < |bits| && r.bits[j] ==> bits[j]
    decreases Ones(bits)
  {
    if !bits[hand] then
      SweepResult(hand, bits, Ahead(hand, 1, |bits|))
    else
      OnesClear(bits, hand);
      Sweep(bits[hand := false], Ahead(hand, 1, |bits|))
  }

  /** Number of frames the sweep examines, the victim included. */
  function Steps(bits: seq<bool>, hand: nat): (r: nat)
    requires hand < |bits|
    ensures 1 <= r <= Ones(bits) + 1
    ensures r <= |bits| + 1
    decreases Ones(bits)
  {
    OnesBound(bits);
    if !bits[hand] then
      1
    else
      OnesClear(bits, hand);
      1 + Steps(bits[hand := false], Ahead(hand, 1, |bits|))
  }

  /** Where the sweep stops, stated without recursion: with k frames passed
      over, those are the k frames directly ahead of the hand and each had its
      bit set; the victim is the next frame, whose bit was clear, unless the
      hand went all the way round, in which case k is the number of frames and
      the victim is the frame the hand started at. */
  lemma {:induction false} SweepFindsFirstClear(bits: seq<bool>, hand: nat)
    requires hand < |bits|
    ensures var n, k, r := |bits|, Steps(bits, hand) - 1, Sweep(bits, hand);
      && k <= n
      && r.victim == Ahead(hand, k, n)
      && (forall i :: 0 <= i < k ==> bits[Ahead(hand, i, n)])
      && (k < n ==> !bits[r.victim])
      && (k == n ==> r.victim == hand)
    decreases Ones(bits)
  {
    var n := |bits|;
    if bits[hand] {
      OnesClear(bits, hand);
      var bits', hand' := bits[hand := false], Ahead(hand, 1, n);
      SweepFindsFirstClear(bits', hand');
      var k := Steps(bits, hand) - 1;
      assert k - 1 == Steps(bits', hand') - 1;
      assert Sweep(bits, hand) == Sweep(bits', hand');
      assert Ahead(hand', k - 1, n) == Ahead(hand, k, n);
      forall i | 1 <= i < k
        ensures bits[Ahead(hand, i, n)]
      {
        assert Ahead(hand', i - 1, n) == Ahead(hand, i, n);
      }
    }
  }

  /** The sweep clears exactly the bits of the frames it passes over. */
  lemma {:induction false} SweepClearsPassed(bits: seq<bool>, hand: nat)
    requires hand < |bits|
    ensures var n, k, r := |bits|, Steps(bits, hand) - 1, Sweep(bits, hand);
      forall j :: 0 <= j < n ==> r.bits[j] == (bits[j] && Distance(hand, j, n) >= k)
    decreases Ones(bits)
  {
    var n := |bits|;
    if bits[hand] {
      OnesClear(bits, hand);
      var bits', hand' := bits[hand := false], Ahead(hand, 1, n);
      SweepClearsPassed(bits', hand');
      assert Sweep(bits, hand) == Sweep(bits', hand');
      forall j | 0 <= j < n && j != hand
        ensures Distance(hand', j, n) == Distance(hand, j, n) - 1
      {
      }
    }
  }

  // ---------------------------------------------------------------------------
  // The abstract simulator
  // ---------------------------------------------------------------------------

  /** The page table and the frames agree: every resident page sits in the
      frame the table names, and every occupied frame is named by the table.
      Faults and disk reads move together, and a disk write only happens
      during a fault. */
  ghost predicate Consistent(s: ClockState)
  {
    && |s.frames| == |s.bits| > 0
    && s.hand < |s.frames|
    && (forall p :: p in s.pageTable ==>
          s.pageTable[p] < |s.frames| && s.frames[s.pageTable[p]] .Loaded? && s.frames[s.pageTable[p]].page == p)
    && (forall i :: 0 <= i < |s.frames| && s.frames[i].Loaded? ==>
          s.frames[i].page in s.pageTable && s.pageTable[s.frames[i].page] == i)
    && s.pageFaults == s.diskReads
    && s.diskWrites <= s.pageFaults
  }

  /** The state the constructor builds for `n` frames. */
  function Init(n: nat): (s: ClockState)
    requires n > 0
    ensures Consistent(s)
    ensures |s.frames| == n && s.pageTable == map[]
  {
    ClockState(seq(n, _ => Empty), seq(n, _ => false), 0, map[], 0, 0, 0)
  }

  /** True when the frame holds a page whose dirty flag is set. */
  predicate IsDirty(f: Frame)
  {
    f.Loaded? && f.dirty
  }

  /** The shape a request relies on: as many bits as frames, at least one
      frame, the hand on a frame and every page-table entry naming a frame. */
  ghost predicate Shaped(s: ClockState)
  {
    && |s.frames| == |s.bits| > 0
    && s.hand < |s.frames|
    && forall p :: p in s.pageTable ==> s.pageTable[p] < |s.frames|
  }

  /** One request: a read (`write` false) or a write of `page`. */
  function Access(s: ClockState, page: int, write: bool): ClockState
    requires Shaped(s)
  {
    if page in s.pageTable then Hit(s, page, write) else Fault(s, page, write)
  }

  /** A request for a resident page sets the bit of its frame; a write also
      marks the page dirty. */
  function Hit(s: ClockState, page: int, write: bool): ClockState
    requires Shaped(s) && page in s.pageTable
  {
    var i := s.pageTable[page];
    s.(bits := s.bits[i := true],
       frames := if write then s.frames[i := Loaded(page, true)] else s.frames)
  }

  /** A page fault: sweep for a victim frame, write its page back when dirty
      and drop it from the page table, then load `page` there with its bit
      set, dirty exactly when the request is a write. */
  function Fault(s: ClockState, page: int, write: bool): ClockState
    requires Shaped(s)
  {
    var sweep := Sweep(s.bits, s.hand);
    var i := sweep.victim;
    var evicted := s.frames[i];
    var table := if evicted.Loaded? && evicted.page in s.pageTable then s.pageTable - {evicted.page} else s.pageTable;
    ClockState(
      frames := s.frames[i := Loaded(page, write)],
      bits := sweep.bits[i := true],
      hand := sweep.hand,
      pageTable := table[page := i],
      pageFaults := s.pageFaults + 1,
      diskReads := s.diskReads + 1,
      diskWrites := if IsDirty(evicted) then s.diskWrites + 1 else s.diskWrites)
  }

  /** Every request keeps the page table and the frames in agreement. */
  lemma AccessPreservesConsistent(s: ClockState, page: int, write: bool)
    requires Consistent(s)
    ensures Consistent(Access(s, page, write))
  {
    if page !in s.pageTable {
      var t := Access(s, page, write);
      var i := Sweep(s.bits, s.hand).victim;
      forall p | p in t.pageTable
        ensures t.pageTable[p] < |t.frames| && t.frames[t.pageTable[p]] == if p == page then Loaded(page, write) else s.frames[s.pageTable[p]]
      {
      }
    }
  }

  /** A hit changes no counter, the page table or the hand; it sets the bit of
      the page's frame, and a write hit marks the page dirty. Nothing else changes. */
  lemma AccessHit(s: ClockState, page: int, write: bool)
    requires Consistent(s) && page in s.pageTable
    ensures var t, i := Access(s, page, write), s.pageTable[page];
      && t.pageFaults == s.pageFaults && t.diskReads == s.diskReads && t.diskWrites == s.diskWrites
      && t.pageTable == s.pageTable && t.hand == s.hand
      && t.bits[i] && t.frames[i] == Loaded(page, write || s.frames[i].dirty)
      && (forall j :: 0 <= j < |s.frames| && j != i ==> t.frames[j] == s.frames[j] && t.bits[j] == s.bits[j])
  {
  }

  /** A miss costs one fault and one disk read, and one disk write exactly when
      the victim frame held a dirty page. The victim's page leaves the page
      table, the new page takes its frame, clean for a read and dirty for a
      write, with the frame's bit set on top of the bits the sweep left, and
      the hand ends where the sweep left it. Every other frame and every
      other page-table entry stays as it was. */
  lemma AccessMiss(s: ClockState, page: int, write: bool)
    requires Consistent(s) && page !in s.pageTable
    ensures var t, r := Access(s, page, write), Sweep(s.bits, s.hand);
      && t.pageFaults == s.pageFaults + 1 && t.diskReads == s.diskReads + 1
      && t.diskWrites == s.diskWrites + (if IsDirty(s.frames[r.victim]) then 1 else 0)
      && (s.frames[r.victim].Loaded? ==> s.frames[r.victim].page !in t.pageTable)
      && t.pageTable.Keys == s.pageTable.Keys - (if s.frames[r.victim].Loaded? then {s.frames[r.victim].page} else {}) + {page}
      && t.pageTable[page] == r.victim
      && (forall p :: p in t.pageTable && p != page ==> p in s.pageTable && t.pageTable[p] == s.pageTable[p])
      && t.frames == s.frames[r.victim := Loaded(page, write)]
      && t.bits == r.bits[r.victim := true]
      && t.hand == r.hand
  {
  }

  /** No more pages are resident than there are frames. */
  lemma ResidentBound(s: ClockState)
    requires Consistent(s)
    ensures |s.pageTable| <= |s.frames|
  {
    forall p, q | p in s.pageTable && q in s.pageTable && p != q
      ensures s.pageTable[p] != s.pageTable[q]
    {
    }
    InjectiveBound(s.pageTable, |s.frames|);
  }

  /** A map that sends distinct keys to distinct numbers below `n` has at most `n` keys. */
  lemma {:induction false} InjectiveBound(m: map<int, nat>, n: nat)
    requires forall p :: p in m ==> m[p] < n
    requires forall p, q :: p in m && q in m && p != q ==> m[p] != m[q]
    ensures |m| <= n
    decreases n
  {
    if n == 0 {
      assert forall p :: p !in m;
      assert m.Keys == {};
    } else if p :| p in m && m[p] == n - 1 {
      var rest := m - {p};
      assert rest.Keys == m.Keys - {p};
      InjectiveBound(rest, n - 1);
    } else {
      InjectiveBound(m, n - 1);
    }
  }

  // ---------------------------------------------------------------------------
  // The simulator object
  // ---------------------------------------------------------------------------

  /** ClockMmu from prac2/clockmmu.py: frames_list and reference_bits are
      arrays updated in place, the page table a map the methods reassign. */
  class ClockMmu {
    const frames: nat
    var diskReads: nat
    var diskWrites: nat
    var pageFaults: nat
    var pageTable: map<int, nat>
    const framesList: array<Frame>
    const referenceBits: array<bool>
    var clockHand: nat

    /** The abstract value of the object. */
    ghost function State(): ClockState
      reads this, framesList, referenceBits
    {
      ClockState(framesList[..], referenceBits[..], clockHand, pageTable, pageFaults, diskReads, diskWrites)
    }

    ghost predicate Valid()
      reads this, framesList, referenceBits
    {
      && framesList.Length == frames
      && referenceBits.Length == frames
      && Consistent(State())
    }

    /** A simulator with `frames` empty frames, every bit clear, the hand at
        frame 0 and every counter at zero. */
    constructor (frames: nat)
      requires frames > 0
      ensures Valid() && fresh(framesList) && fresh(referenceBits)
      ensures State() == Init(frames)
    {
      this.frames := frames;
      diskReads, diskWrites, pageFaults := 0, 0, 0;
      pageTable := map[];
      framesList := new Frame[frames](_ => Empty);
      referenceBits := new bool[frames](_ => false);
      clockHand := 0;
      new;
      assert framesList[..] == Init(frames).frames;
      assert referenceBits[..] == Init(frames).bits;
    }

    /** find_victim_frame: turns the hand, clearing set bits, until it finds a
        frame whose bit is clear; returns that frame with the hand one past it. */
    method FindVictimFrame() returns (victim: nat)
      requires referenceBits.Length == frames && clockHand < frames
      modifies this`clockHand, referenceBits
      ensures clockHand < frames && victim < frames
      ensures var r := Sweep(old(referenceBits[..]), old(clockHand));
        victim == r.victim && referenceBits[..] == r.bits && clockHand == r.hand
    {
      while true
        invariant clockHand < frames
        invariant Sweep(referenceBits[..], clockHand) == Sweep(old(referenceBits[..]), old(clockHand))
        decreases Ones(referenceBits[..])
      {
        AheadModulo(clockHand, 1, frames);
        if !referenceBits[clockHand] {
          victim := clockHand;
          clockHand := (clockHand + 1) % frames;
          return;
        }
        OnesClear(referenceBits[..], clockHand);
        referenceBits[clockHand] := false;
        clockHand := (clockHand + 1) % frames;
      }
    }

    /** The page-fault branch shared by read_memory and write_memory: count the
        fault and the disk read, pick a victim frame, write its page back if it
        is dirty and drop it from the page table, then load `page` there with
        the given dirty flag and its bit set. */
    method HandleFault(page: int, dirty: bool)
      requires framesList.Length == frames && referenceBits.Length == frames
      requires Shaped(State()) && page !in pageTable
      modifies this, framesList, referenceBits
      ensures State() == Fault(old(State()), page, dirty)
    {
      ghost var s := State();
      pageFaults := pageFaults + 1;
      diskReads := diskReads + 1;
      var i := FindVictimFrame();
      assert framesList[i] == s.frames[i];
      match framesList[i] {
        case Loaded(victimPage, isDirty) =>
          if isDirty {
            diskWrites := diskWrites + 1;
          }
          if victimPage in pageTable {
            pageTable := pageTable - {victimPage};
          }
        case Empty =>
      }
      framesList[i] := Loaded(page, dirty);
      assert framesList[..] == s.frames[i := Loaded(page, dirty)];
      pageTable := pageTable[page := i];
      assert referenceBits[..] == Sweep(s.bits, s.hand).bits;
      referenceBits[i] := true;
    }

    /** read_memory: on a hit set the frame's bit; on a miss load the page clean. */
    method ReadMemory(page: int)
      requires Valid()
      modifies this, framesList, referenceBits
      ensures Valid()
      ensures State() == Access(old(State()), page, false)
    {
      AccessPreservesConsistent(State(), page, false);
      if page in pageTable {
        var i := pageTable[page];
        referenceBits[i] := true;
      } else {
        HandleFault(page, false);
      }
    }

    /** write_memory: on a hit set the frame's bit and mark the page dirty; on a
        miss load the page dirty. */
    method WriteMemory(page: int)
      requires Valid()
      modifies this, framesList, referenceBits
      ensures Valid()
      ensures State() == Access(old(State()), page, true)
    {
      AccessPreservesConsistent(State(), page, true);
      if page in pageTable {
        var i := pageTable[page];
        referenceBits[i] := true;
        framesList[i] := Loaded(page, true);
      } else {
        HandleFault(page, true);
      }
    }

    /** get_total_disk_reads: every disk read comes with a page fault. */
    method GetTotalDiskReads() returns (r: nat)
      requires Valid()
      ensures r == diskReads && r == pageFaults
    {
      r := diskReads;
    }

    /** get_total_disk_writes: a write-back only happens during a page fault. */
    method GetTotalDiskWrites() returns (r: nat)
      requires Valid()
      ensures r == diskWrites && r <= pageFaults
    {
      r := diskWrites;
    }

    /** get_total_page_faults. */
    method GetTotalPageFaults() returns (r: nat)
      requires Valid()
      ensures r == pageFaults && r == diskReads && r >= diskWrites
    {
      r := pageFaults;
    }
  }
}
