/**
 * Random page replacement, after prac2/randmmu.py.
 *
 * The simulator keeps the resident pages in a list, `memory`, in the order
 * they were loaded, and a page table that maps a page to its dirty flag. A
 * request for a page in the list is a hit; any other request is a page fault,
 * which reads the page from disk and appends it to the list. When the list is
 * full, a victim drawn at random from the list is removed first, and written
 * back to disk when the page table says it is dirty. The page table keeps the
 * entries of evicted pages; a later fault on such a page overwrites its entry.
 *
 * The random draw is modelled as a choice: the abstract step Access takes the
 * victim as a parameter, constrained to be a resident page whenever one is
 * needed, and the class RandMmu picks it with `:|` (any resident page).
 */
module Rand {

  /** The whole simulator state, field for field as in the class. */
  datatype RandState = RandState(
    frames: nat,
    pageTable: map<int, bool>,
    memory: seq<int>,
    diskReads: nat,
    diskWrites: nat,
    pageFaults: nat)

  // ---------------------------------------------------------------------------
  // The list of resident pages
  // ---------------------------------------------------------------------------

  /** No page occurs twice in `xs`. */
  ghost predicate NoDuplicates(xs: seq<int>)
  {
    forall i, j :: 0 <= i < j < |xs| ==> xs[i] != xs[j]
  }

  /** `list.remove(x)`: drop the first occurrence of `x`, keeping the order of the rest. */
  function RemoveFirst(xs: seq<int>, x: int): (r: seq<int>)
    ensures x !in xs ==> r == xs
    ensures |r| == if x in xs then |xs| - 1 else |xs|
  {
    if xs == [] then []
    else if xs[0] == x then xs[1..]
    else [xs[0]] + RemoveFirst(xs[1..], x)
  }

  /**
   * Removing a page from a list without duplicates removes that page entirely,
   * keeps every other page and introduces no duplicate.
   */
  lemma {:induction false} RemoveFirstExact(xs: seq<int>, x: int)
    requires NoDuplicates(xs)
    ensures NoDuplicates(RemoveFirst(xs, x))
    ensures forall y :: y in RemoveFirst(xs, x) <==> y in xs && y != x
  {
    if xs == [] {
    } else if xs[0] == x {
      forall y | y in xs[1..] ensures y != x {
        var j :| 0 <= j < |xs[1..]| && xs[1..][j] == y;
        assert xs[0] != xs[j + 1];
      }
    } else {
      var tail := xs[1..];
      assert NoDuplicates(tail) by {
        forall i, j | 0 <= i < j < |tail| ensures tail[i] != tail[j] {
          assert xs[i + 1] != xs[j + 1];
        }
      }
      RemoveFirstExact(tail, x);
      var rest := RemoveFirst(tail, x);
      assert xs[0] !in rest by {
        forall y | y in tail ensures y != xs[0] {
          var j :| 0 <= j < |tail| && tail[j] == y;
          assert xs[0] != xs[j + 1];
        }
      }
      var r := [xs[0]] + rest;
      forall i, j | 0 <= i < j < |r| ensures r[i] != r[j] {
        if i == 0 {
          assert r[j] == rest[j - 1];
          assert rest[j - 1] in rest;
        } else {
          assert r[i] == rest[i - 1] && r[j] == rest[j - 1];
        }
      }
      assert xs == [xs[0]] + tail;
    }
  }

  /** Appending a page that is not in the list keeps it free of duplicates. */
  lemma AppendFresh(xs: seq<int>, x: int)
    requires NoDuplicates(xs) && x !in xs
    ensures NoDuplicates(xs + [x])
  {
    var r := xs + [x];
    forall i, j | 0 <= i < j < |r| ensures r[i] != r[j] {
      if j == |xs| {
        assert r[i] == xs[i];
      }
    }
  }

  // ---------------------------------------------------------------------------
  // The abstract simulator
  // ---------------------------------------------------------------------------

  /** `page_table.get(page, (False,))[0]`: a page without an entry counts as clean. */
  predicate Dirty(pageTable: map<int, bool>, page: int)
  {
    page in pageTable && pageTable[page]
  }

  /** The state after `__init__(frames)`. */
  function Init(frames: nat): (s: RandState)
    ensures frames > 0 ==> Inv(s)
    ensures s.memory == [] && s.pageTable == map[]
    ensures s.diskReads == 0 && s.diskWrites == 0 && s.pageFaults == 0
  {
    RandState(frames, map[], [], 0, 0, 0)
  }

  /** The memory list is full: a fault has to evict. */
  predicate Full(s: RandState)
  {
    |s.memory| >= s.frames
  }

  /**
   * A victim is acceptable for a request when it is resident, or when the
   * request does not need one (a hit, or a fault while memory is not full).
   */
  predicate VictimOk(s: RandState, page: int, victim: int)
  {
    page in s.memory || !Full(s) || victim in s.memory
  }

  /**
   * The invariant kept by every request: at least one frame, no more resident
   * pages than frames and no page twice, a page-table entry for every resident
   * page, one disk read per fault and no more write-backs than faults.
   */
  ghost predicate Inv(s: RandState)
  {
    && s.frames > 0
    && |s.memory| <= s.frames
    && NoDuplicates(s.memory)
    && (forall p :: p in s.memory ==> p in s.pageTable)
    && s.diskReads == s.pageFaults
    && s.diskWrites <= s.pageFaults
  }

  /** The miss path of read_memory and write_memory. */
  function Fault(s: RandState, page: int, write: bool, victim: int): (t: RandState)
    requires !Full(s) || victim in s.memory
  {
    var counted := s.(pageFaults := s.pageFaults + 1, diskReads := s.diskReads + 1);
    var placed :=
      if !Full(s) then counted.(memory := s.memory + [page])
      else counted.(
        diskWrites := if Dirty(s.pageTable, victim) then s.diskWrites + 1 else s.diskWrites,
        memory := RemoveFirst(s.memory, victim) + [page]);
    placed.(pageTable := s.pageTable[page := write])
  }

  /** One request: read_memory when `write` is false, write_memory when it is true. */
  function Access(s: RandState, page: int, write: bool, victim: int): (t: RandState)
    requires VictimOk(s, page, victim)
  {
    if page in s.memory then
      if write then s.(pageTable := s.pageTable[page := true]) else s
    else
      Fault(s, page, write, victim)
  }

  // ---------------------------------------------------------------------------
  // Properties of a request
  // ---------------------------------------------------------------------------

  /** Under the invariant a victim can always be drawn when one is needed. */
  lemma VictimExists(s: RandState, page: int)
    requires Inv(s)
    ensures exists v :: VictimOk(s, page, v)
  {
    if Full(s) {
      assert VictimOk(s, page, s.memory[0]);
    } else {
      assert VictimOk(s, page, page);
    }
  }

  /** Every request keeps the invariant. */
  lemma AccessPreservesInv(s: RandState, page: int, write: bool, victim: int)
    requires Inv(s) && VictimOk(s, page, victim)
    ensures Inv(Access(s, page, write, victim))
  {
    if page !in s.memory {
      if Full(s) {
        RemoveFirstExact(s.memory, victim);
        AppendFresh(RemoveFirst(s.memory, victim), page);
      } else {
        AppendFresh(s.memory, page);
      }
    }
  }

  /** A read hit changes nothing at all. */
  lemma ReadHit(s: RandState, page: int, victim: int)
    requires page in s.memory
    ensures Access(s, page, false, victim) == s
  {
  }

  /** A write hit marks the page dirty and changes nothing else. */
  lemma WriteHit(s: RandState, page: int, victim: int)
    requires page in s.memory
    ensures Access(s, page, true, victim) == s.(pageTable := s.pageTable[page := true])
  {
  }

  /**
   * A miss counts one fault and one disk read, and a write-back exactly when
   * memory was full and the victim's entry is dirty.
   */
  lemma MissCounters(s: RandState, page: int, write: bool, victim: int)
    requires VictimOk(s, page, victim) && page !in s.memory
    ensures Access(s, page, write, victim).pageFaults == s.pageFaults + 1
    ensures Access(s, page, write, victim).diskReads == s.diskReads + 1
    ensures Access(s, page, write, victim).diskWrites ==
      if Full(s) && Dirty(s.pageTable, victim) then s.diskWrites + 1 else s.diskWrites
  {
  }

  /** A miss records the page as clean on a read and as dirty on a write, and leaves the other entries alone. */
  lemma MissRecordsDirty(s: RandState, page: int, write: bool, victim: int)
    requires VictimOk(s, page, victim) && page !in s.memory
    ensures Access(s, page, write, victim).pageTable == s.pageTable[page := write]
  {
  }

  /** While memory is not full, a miss appends the page and evicts nothing. */
  lemma MissAppends(s: RandState, page: int, write: bool, victim: int)
    requires page !in s.memory && !Full(s)
    ensures Access(s, page, write, victim).memory == s.memory + [page]
  {
  }

  /**
   * When memory is full, a miss replaces exactly the victim by the new page:
   * the length is unchanged, the new page is last, the victim is gone and every
   * other resident page stays.
   */
  lemma MissReplacesVictim(s: RandState, page: int, write: bool, victim: int)
    requires Inv(s) && page !in s.memory && Full(s) && victim in s.memory
    ensures |Access(s, page, write, victim).memory| == |s.memory|
    ensures Access(s, page, write, victim).memory == RemoveFirst(s.memory, victim) + [page]
    ensures forall p :: p in Access(s, page, write, victim).memory <==>
      p == page || (p in s.memory && p != victim)
  {
    RemoveFirstExact(s.memory, victim);
  }

  /** After any request the page is resident. */
  lemma AccessMakesResident(s: RandState, page: int, write: bool, victim: int)
    requires VictimOk(s, page, victim)
    ensures page in Access(s, page, write, victim).memory
  {
  }

  // ---------------------------------------------------------------------------
  // The simulator object
  // ---------------------------------------------------------------------------

  class RandMmu {
    const frames: nat
    var pageTable: map<int, bool>
    var memory: seq<int>
    var diskReads: nat
    var diskWrites: nat
    var pageFaults: nat

    /** The abstract value of the object. */
    ghost function State(): RandState
      reads this
    {
      RandState(frames, pageTable, memory, diskReads, diskWrites, pageFaults)
    }

    ghost predicate Valid()
      reads this
    {
      Inv(State())
    }

    /** __init__: an empty memory of `frames` frames. */
    constructor (frames: nat)
      requires frames > 0
      ensures Valid() && State() == Init(frames)
    {
      this.frames := frames;
      pageTable := map[];
      memory := [];
      diskReads := 0;
      diskWrites := 0;
      pageFaults := 0;
    }

    /**
     * The miss path shared by read_memory and write_memory; `dirty` is the
     * flag recorded for the new page. Returns the victim drawn, when one was.
     */
    method LoadPage(page: int, dirty: bool) returns (ghost victim: int)
      requires frames > 0 && |memory| <= frames
      modifies this
      ensures !Full(old(State())) || victim in old(memory)
      ensures State() == Fault(old(State()), page, dirty, victim)
    {
      pageFaults := pageFaults + 1;
      diskReads := diskReads + 1;
      victim := page;
      if |memory| < frames {
        memory := memory + [page];
      } else {
        var v := ChooseVictim();
        victim := v;
        if v in pageTable && pageTable[v] {
          diskWrites := diskWrites + 1;
        }
        memory := RemoveFirst(memory, v);
        memory := memory + [page];
      }
      pageTable := pageTable[page := dirty];
    }

    /** random.choice(self.memory): any resident page. */
    method ChooseVictim() returns (v: int)
      requires memory != []
      ensures v in memory
    {
      var i :| 0 <= i < |memory|;
      v := memory[i];
    }

    /** read_memory. */
    method ReadMemory(page: int) returns (ghost victim: int)
      requires Valid()
      modifies this
      ensures VictimOk(old(State()), page, victim)
      ensures Valid() && State() == Access(old(State()), page, false, victim)
    {
      victim := page;
      if page !in memory {
        victim := LoadPage(page, false);
      }
      AccessPreservesInv(old(State()), page, false, victim);
    }

    /** write_memory. */
    method WriteMemory(page: int) returns (ghost victim: int)
      requires Valid()
      modifies this
      ensures VictimOk(old(State()), page, victim)
      ensures Valid() && State() == Access(old(State()), page, true, victim)
    {
      victim := page;
      if page in memory {
        pageTable := pageTable[page := true];
      } else {
        victim := LoadPage(page, true);
      }
      AccessPreservesInv(old(State()), page, true, victim);
    }

    /** get_total_disk_reads: every disk read comes with a page fault. */
    method GetTotalDiskReads() returns (r: nat)
      requires Valid()
      ensures r == diskReads && r == pageFaults
    {
      r := diskReads;
    }

    /** get_total_disk_writes: a write-back only happens during a page fault. */
    method GetTotalDiskWrites() returns (r: nat)
      requires Valid()
      ensures r == diskWrites && r <= pageFaults
    {
      r := diskWrites;
    }

    /** get_total_page_faults. */
    method GetTotalPageFaults() returns (r: nat)
      requires Valid()
      ensures r == pageFaults && r == diskReads && r >= diskWrites
    {
      r := pageFaults;
    }
  }
}
