/**
 * Least-recently-used page replacement, after prac2/lrummu.py.
 *
 * A logical clock counts requests. The page table maps every resident page to
 * its frame and dirty flag, and a second map records when each resident page
 * was last used. Frames that hold no page wait in a free list. A miss takes a
 * frame from the end of the free list; when the list is empty, the page used
 * least recently is evicted first and its frame freed.
 *
 * As in the Clock module, an abstract model on values (LruState, Evict,
 * Access) carries the properties, and the class LruMmu is proved to follow it.
 */
module Lru {

  /** A page-table record: the frame holding the page and its dirty flag. */
  datatype Entry = Entry(frame: nat, dirty: bool)

  /** The whole simulator state, field for field as in the class. */
  type LruState = LruStateOf<map<int, Entry>, map<int, nat>>

  /** LruState with the types of its two tables left as parameters. Only
      LruState is ever used; keeping the map types out of the datatype's own
      declaration spares the verifier the size axioms it would otherwise
      generate for every map-valued field, which keeps the proofs about a
      request within budget. */
  datatype LruStateOf<PT, LU> = LruState(
    accessTime: nat,
    pageTable: PT,
    lastUsed: LU,
    numFrames: nat,
    freeFrames: seq<nat>,
    diskReads: nat,
    diskWrites: nat,
    pageFaults: nat)

  // ---------------------------------------------------------------------------
  // Choosing the least recently used page
  // ---------------------------------------------------------------------------

  /** `p` is a page whose last use is no later than that of any other page. */
  ghost predicate IsLeastRecent(lastUsed: map<int, nat>, p: int)
  {
    p in lastUsed && forall q :: q in lastUsed ==> lastUsed[p] <= lastUsed[q]
  }

  /** No two pages were last used at the same time. */
  ghost predicate DistinctStamps(lastUsed: map<int, nat>)
  {
    forall p, q :: p in lastUsed && q in lastUsed && p != q ==> lastUsed[p] != lastUsed[q]
  }

  /** A set is empty or has a member (the step from "non-empty" to a witness). */
  lemma EmptyOrMember(s: set<int>)
    ensures s == {} || exists x :: x in s
  {
    if forall x :: x !in s {
      assert s == {};
    }
  }

  /** Every non-empty record of last uses has a least recently used page. */
  lemma {:induction false} LeastRecentExists(lastUsed: map<int, nat>)
    requires lastUsed != map[]
    ensures exists p :: IsLeastRecent(lastUsed, p)
    decreases |lastUsed|
  {
    EmptyOrMember(lastUsed.Keys);
    var k :| k in lastUsed.Keys;
    var rest := lastUsed - {k};
    assert rest.Keys == lastUsed.Keys - {k};
    if rest == map[] {
      forall q | q in lastUsed ensures lastUsed[k] <= lastUsed[q] {
        assert q !in rest;
        assert q == k;
      }
      assert IsLeastRecent(lastUsed, k);
    } else {
      assert |rest| < |lastUsed|;
      LeastRecentExists(rest);
      var p :| IsLeastRecent(rest, p);
      assert rest[p] == lastUsed[p];
      if lastUsed[k] < lastUsed[p] {
        forall q | q in lastUsed ensures lastUsed[k] <= lastUsed[q] {
          if q != k {
            assert q in rest && rest[q] == lastUsed[q];
          }
        }
        assert IsLeastRecent(lastUsed, k);
      } else {
        forall q | q in lastUsed ensures lastUsed[p] <= lastUsed[q] {
          if q != k {
            assert q in rest && rest[q] == lastUsed[q];
          }
        }
        assert IsLeastRecent(lastUsed, p);
      }
    }
  }

  /** The page `min(last_used, key=last_used.get)` picks. */
  ghost function LeastRecent(lastUsed: map<int, nat>): (p: int)
    requires lastUsed != map[]
    ensures IsLeastRecent(lastUsed, p)
  {
    LeastRecentExists(lastUsed);
    var p :| IsLeastRecent(lastUsed, p);
    p
  }

  /** With distinct timestamps the least recently used page is unique, so the
      choice above is the only one the source can make, and it was used
      strictly before every other resident page. */
  lemma LeastRecentUnique(lastUsed: map<int, nat>, p: int)
    requires DistinctStamps(lastUsed) && IsLeastRecent(lastUsed, p)
    ensures p == LeastRecent(lastUsed)
    ensures forall q :: q in lastUsed && q != p ==> lastUsed[p] < lastUsed[q]
  {
    var c := LeastRecent(lastUsed);
    assert lastUsed[p] <= lastUsed[c] && lastUsed[c] <= lastUsed[p];
  }

  // ---------------------------------------------------------------------------
  // The abstract simulator
  // ---------------------------------------------------------------------------

  /** The bookkeeping invariant: the page table and the last-use record have
      the same pages; stamps are distinct, positive and no later than the
      clock; frame ids are below the frame count and each is owned by one
      page or listed once as free, never both; and resident pages and free
      frames add up to the frame count. */
  ghost predicate Tables(s: LruState)
  {
    TablesOf(s.accessTime, s.pageTable, s.lastUsed, s.numFrames, s.freeFrames)
  }

  /** The body of Tables, over only the fields it constrains. It is a separate
      predicate for the verifier's sake: states that differ only in their
      counters then give the same instance, so a proof about a request does
      not unfold the invariant once per intermediate state. */
  ghost predicate TablesOf(clock: nat, pageTable: map<int, Entry>, lastUsed: map<int, nat>, n: nat, free: seq<nat>)
  {
    && n > 0
    && pageTable.Keys == lastUsed.Keys
    && (forall p :: p in lastUsed ==> 0 < lastUsed[p] <= clock)
    && DistinctStamps(lastUsed)
    && (forall p :: p in pageTable ==> pageTable[p].frame < n)
    && (forall p, q :: p in pageTable && q in pageTable && p != q ==> pageTable[p].frame != pageTable[q].frame)
    && (forall i :: 0 <= i < |free| ==> free[i] < n)
    && (forall i, j :: 0 <= i < j < |free| ==> free[i] != free[j])
    && (forall p, i :: p in pageTable && 0 <= i < |free| ==> pageTable[p].frame != free[i])
    && |pageTable| + |free| == n
  }

  /** The full invariant adds the counters: faults and disk reads move
      together, and a disk write only happens during a fault. */
  ghost predicate Inv(s: LruState)
  {
    && Tables(s)
    && s.pageFaults == s.diskReads
    && s.diskWrites <= s.pageFaults
  }

  /** The state the constructor builds: nothing resident and every frame free,
      listed in increasing order. */
  function Init(n: nat): (s: LruState)
    requires n > 0
    ensures Inv(s)
    ensures s.pageTable == map[] && |s.freeFrames| == n
  {
    LruState(0, map[], map[], n, seq(n, i => i), 0, 0, 0)
  }

  /** lru_paging: evict the least recently used page, write it back when it is
      dirty, and append its frame to the free list. */
  ghost function Evict(s: LruState): LruState
    requires s.lastUsed != map[] && s.lastUsed.Keys <= s.pageTable.Keys
  {
    var victim := LeastRecent(s.lastUsed);
    var record := s.pageTable[victim];
    s.(pageTable := s.pageTable - {victim},
       lastUsed := s.lastUsed - {victim},
       diskWrites := if record.dirty then s.diskWrites + 1 else s.diskWrites,
       freeFrames := s.freeFrames + [record.frame])
  }

  /** The list left by `pop()`: every element but the last, in order. */
  function Pop(xs: seq<nat>): (r: seq<nat>)
    requires xs != []
    ensures |r| == |xs| - 1 && forall i :: 0 <= i < |r| ==> r[i] == xs[i]
    decreases |xs|
  {
    if |xs| == 1 then [] else [xs[0]] + Pop(xs[1..])
  }

  /** The miss path of access_page once a frame is free: pop the last free
      frame and load the page there, stamped with the current time. */
  ghost function Load(s: LruState, page: int, write: bool): LruState
    requires s.freeFrames != []
  {
    var frame := s.freeFrames[|s.freeFrames| - 1];
    s.(freeFrames := Pop(s.freeFrames),
       pageTable := s.pageTable[page := Entry(frame, write)],
       lastUsed := s.lastUsed[page := s.accessTime],
       diskReads := s.diskReads + 1)
  }

  /** What making room needs: every stamped page is in the page table, and
      some page is stamped when no frame is free. */
  ghost predicate CanMakeRoom(s: LruState)
  {
    s.lastUsed.Keys <= s.pageTable.Keys && (s.freeFrames == [] ==> s.lastUsed != map[])
  }

  /** Before loading, access_page evicts when no frame is free. */
  ghost function MakeRoom(s: LruState): (t: LruState)
    requires CanMakeRoom(s)
    ensures t.freeFrames != []
  {
    if s.freeFrames == [] then Evict(s) else s
  }

  /** The hit path of access_page: stamp the page with the current time and,
      on a write, set its dirty flag. */
  ghost function Touch(s: LruState, page: int, write: bool): LruState
    requires page in s.pageTable
  {
    s.(lastUsed := s.lastUsed[page := s.accessTime],
       pageTable := if write then s.pageTable[page := s.pageTable[page].(dirty := true)] else s.pageTable)
  }

  /** The miss path of access_page after the clock tick: count the fault,
      make room, load the page. */
  ghost function Fault(s: LruState, page: int, write: bool): LruState
    requires CanMakeRoom(s)
  {
    Load(MakeRoom(s.(pageFaults := s.pageFaults + 1)), page, write)
  }

  /** access_page: one request for `page`, a write when `write` holds. The
      steps follow the source's order: tick the clock; on a hit restamp the
      page (and mark it dirty on a write); on a miss count the fault, evict
      when no frame is free, then load. */
  ghost function Access(s: LruState, page: int, write: bool): LruState
    requires CanMakeRoom(s)
  {
    var s1 := s.(accessTime := s.accessTime + 1);
    if page in s1.pageTable then
      Touch(s1, page, write)
    else
      Fault(s1, page, write)
  }

  /** Eviction keeps the bookkeeping invariant, frees one frame and adds at
      most one disk write. */
  lemma EvictPreservesTables(s: LruState)
    requires Tables(s) && s.lastUsed != map[]
    ensures Tables(Evict(s))
    ensures |Evict(s).freeFrames| == |s.freeFrames| + 1
    ensures s.diskWrites <= Evict(s).diskWrites <= s.diskWrites + 1
  {
    var victim := LeastRecent(s.lastUsed);
    var t := Evict(s);
    assert t.pageTable.Keys == s.pageTable.Keys - {victim};
    assert |t.pageTable| == |s.pageTable| - 1;
  }

  /** Loading a page that is not resident into the last free frame keeps the
      bookkeeping invariant, provided the clock is ahead of every stamp. */
  lemma LoadPreservesTables(s: LruState, page: int, write: bool)
    requires Tables(s) && s.freeFrames != [] && page !in s.pageTable
    requires s.accessTime > 0 && forall p :: p in s.lastUsed ==> s.lastUsed[p] < s.accessTime
    ensures Tables(Load(s, page, write))
  {
    var t := Load(s, page, write);
    assert |t.pageTable| == |s.pageTable| + 1;
  }

  /** Restamping a resident page with a time later than every stamp keeps
      the bookkeeping invariant. */
  lemma TouchPreservesTables(s: LruState, page: int, write: bool)
    requires Tables(s) && page in s.pageTable
    requires forall p :: p in s.lastUsed ==> s.lastUsed[p] < s.accessTime
    ensures Tables(Touch(s, page, write))
  {
    var t := Touch(s, page, write);
    assert t.pageTable.Keys == s.pageTable.Keys;
    assert |t.pageTable| == |s.pageTable|;
  }

  /** The bookkeeping invariant makes room possible: with no free frame,
      every frame holds a page, so some page is stamped. */
  lemma TablesCanMakeRoom(s: LruState)
    requires Tables(s)
    ensures CanMakeRoom(s)
  {
    if s.freeFrames == [] {
      assert |s.lastUsed| == |s.pageTable| == s.numFrames > 0;
    }
  }

  /** Advancing the clock keeps the bookkeeping invariant and puts the clock
      strictly ahead of every stamp. */
  lemma TickPreservesTables(s: LruState)
    requires Tables(s)
    ensures var s1 := s.(accessTime := s.accessTime + 1);
      && Tables(s1) && CanMakeRoom(s1)
      && forall p :: p in s1.lastUsed ==> s1.lastUsed[p] < s1.accessTime
  {
    TablesCanMakeRoom(s);
  }

  /** Every request keeps the invariant. */
  lemma AccessPreservesInv(s: LruState, page: int, write: bool)
    requires Inv(s)
    ensures Inv(Access(s, page, write))
  {
    if page in s.pageTable {
      HitPreservesInv(s, page, write);
    } else {
      MissPreservesInv(s, page, write);
    }
  }

  lemma HitPreservesInv(s: LruState, page: int, write: bool)
    requires Inv(s) && page in s.pageTable
    ensures Inv(Access(s, page, write))
  {
    var s1 := s.(accessTime := s.accessTime + 1);
    TickPreservesTables(s);
    TouchPreservesTables(s1, page, write);
    assert Access(s, page, write) == Touch(s1, page, write);
  }

  lemma MissPreservesInv(s: LruState, page: int, write: bool)
    requires Inv(s) && page !in s.pageTable
    ensures Inv(Access(s, page, write))
  {
    MissPreservesTables(s, page, write);
    MissCounters(s, page, write);
  }

  lemma MissPreservesTables(s: LruState, page: int, write: bool)
    requires Tables(s) && page !in s.pageTable
    ensures Tables(Access(s, page, write))
  {
    TickPreservesTables(s);
    FaultPreservesTables(s.(accessTime := s.accessTime + 1), page, write);
  }

  lemma MissCounters(s: LruState, page: int, write: bool)
    requires CanMakeRoom(s) && page !in s.pageTable
    ensures var t := Access(s, page, write);
      && t.pageFaults == s.pageFaults + 1 && t.diskReads == s.diskReads + 1
      && s.diskWrites <= t.diskWrites <= s.diskWrites + 1
  {
    FaultCounters(s.(accessTime := s.accessTime + 1), page, write);
  }

  /** Making room keeps the bookkeeping invariant. */
  lemma MakeRoomPreservesTables(s: LruState)
    requires Tables(s) && CanMakeRoom(s)
    ensures Tables(MakeRoom(s))
  {
    if s.freeFrames == [] {
      EvictPreservesTables(s);
    }
  }

  /** Making room keeps the clock and the fault and read counters, adds at
      most one disk write, and only forgets pages. */
  lemma MakeRoomEffect(s: LruState)
    requires CanMakeRoom(s)
    ensures var m := MakeRoom(s);
      && m.accessTime == s.accessTime && m.pageFaults == s.pageFaults && m.diskReads == s.diskReads
      && s.diskWrites <= m.diskWrites <= s.diskWrites + 1
      && m.pageTable.Keys <= s.pageTable.Keys
      && forall p :: p in m.lastUsed ==> p in s.lastUsed && m.lastUsed[p] == s.lastUsed[p]
  {
  }

  /** The miss path keeps the bookkeeping invariant. */
  lemma FaultPreservesTables(s: LruState, page: int, write: bool)
    requires Tables(s) && CanMakeRoom(s) && page !in s.pageTable
    requires s.accessTime > 0 && forall p :: p in s.lastUsed ==> s.lastUsed[p] < s.accessTime
    ensures Tables(Fault(s, page, write))
  {
    var s2 := s.(pageFaults := s.pageFaults + 1);
    MakeRoomPreservesTables(s2);
    MakeRoomEffect(s2);
    LoadPreservesTables(MakeRoom(s2), page, write);
  }

  /** The miss path adds one fault, one disk read and at most one disk
      write. */
  lemma FaultCounters(s: LruState, page: int, write: bool)
    requires CanMakeRoom(s)
    ensures var t := Fault(s, page, write);
      && t.pageFaults == s.pageFaults + 1 && t.diskReads == s.diskReads + 1
      && s.diskWrites <= t.diskWrites <= s.diskWrites + 1
  {
    MakeRoomEffect(s.(pageFaults := s.pageFaults + 1));
  }

  /** Every request advances the clock by one and stamps the page with the new
      time; afterwards the page is resident, dirty when written now or when
      it was already resident and dirty. */
  lemma AccessStampsPage(s: LruState, page: int, write: bool)
    requires Inv(s)
    ensures var t := Access(s, page, write);
      && t.accessTime == s.accessTime + 1
      && page in t.lastUsed && t.lastUsed[page] == t.accessTime
      && page in t.pageTable
      && t.pageTable[page].dirty == (write || (page in s.pageTable && s.pageTable[page].dirty))
  {
  }

  /** A hit changes no counter or the free list; it restamps the page, sets
      its dirty flag on a write and keeps it on a read, and leaves every other
      page's record and stamp as they were. */
  lemma AccessHit(s: LruState, page: int, write: bool)
    requires Inv(s) && page in s.pageTable
    ensures var t := Access(s, page, write);
      && t.pageFaults == s.pageFaults && t.diskReads == s.diskReads && t.diskWrites == s.diskWrites
      && t.freeFrames == s.freeFrames
      && t.pageTable == s.pageTable[page := Entry(s.pageTable[page].frame, write || s.pageTable[page].dirty)]
      && t.lastUsed == s.lastUsed[page := t.accessTime]
  {
  }

  /** A miss with a free frame costs one fault and one disk read, evicts
      nothing, and loads the page into the last free frame; every other
      page keeps its record and stamp. */
  lemma AccessMissFree(s: LruState, page: int, write: bool)
    requires Inv(s) && page !in s.pageTable && s.freeFrames != []
    ensures var t, n := Access(s, page, write), |s.freeFrames|;
      && t.pageFaults == s.pageFaults + 1 && t.diskReads == s.diskReads + 1
      && t.diskWrites == s.diskWrites
      && t.pageTable == s.pageTable[page := Entry(s.freeFrames[n - 1], write)]
      && t.freeFrames == s.freeFrames[..n - 1]
      && t.lastUsed == s.lastUsed[page := t.accessTime]
  {
  }

  /** A miss with no free frame costs one fault and one disk read; it evicts
      the page used strictly before every other resident page, from both
      maps, writes it back exactly when it is dirty, and gives its frame to
      the new page, which is clean for a read and dirty for a write. Every
      other page keeps its record and stamp. */
  lemma AccessMissEvicts(s: LruState, page: int, write: bool)
    requires Inv(s) && page !in s.pageTable && s.freeFrames == []
    ensures s.lastUsed != map[]
    ensures var t, v := Access(s, page, write), LeastRecent(s.lastUsed);
      && t.pageFaults == s.pageFaults + 1 && t.diskReads == s.diskReads + 1
      && (forall q :: q in s.lastUsed && q != v ==> s.lastUsed[v] < s.lastUsed[q])
      && v !in t.pageTable && v !in t.lastUsed
      && t.diskWrites == s.diskWrites + (if s.pageTable[v].dirty then 1 else 0)
      && t.pageTable == (s.pageTable - {v})[page := Entry(s.pageTable[v].frame, write)]
      && t.lastUsed == (s.lastUsed - {v})[page := t.accessTime]
      && t.freeFrames == []
  {
    assert |s.pageTable| > 0;
    assert s.lastUsed != map[];
    LeastRecentUnique(s.lastUsed, LeastRecent(s.lastUsed));
  }

  // ---------------------------------------------------------------------------
  // The simulator object
  // ---------------------------------------------------------------------------

  /** LruMMU from prac2/lrummu.py. */
  class LruMmu {
    var accessTime: nat
    var pageTable: map<int, Entry>
    var lastUsed: map<int, nat>
    const numFrames: nat
    var freeFrames: seq<nat>
    var diskReads: nat
    var diskWrites: nat
    var pageFaults: nat

    /** The abstract value of the object. */
    ghost function State(): LruState
      reads this
    {
      LruState(accessTime, pageTable, lastUsed, numFrames, freeFrames, diskReads, diskWrites, pageFaults)
    }

    ghost predicate Valid()
      reads this
    {
      Inv(State())
    }

    /** A simulator with `frames` frames, all free, and the clock at zero. */
    constructor (frames: nat)
      requires frames > 0
      ensures Valid() && State() == Init(frames)
    {
      accessTime := 0;
      pageTable := map[];
      lastUsed := map[];
      numFrames := frames;
      freeFrames := seq(frames, i => i);
      diskReads, diskWrites, pageFaults := 0, 0, 0;
    }

    /** The search behind `min(last_used, key=last_used.get)`: scan the
        resident pages, keeping one whose last use is earliest. */
    method LeastRecentlyUsed() returns (p: int)
      requires lastUsed != map[]
      ensures IsLeastRecent(lastUsed, p)
    {
      var todo := lastUsed.Keys;
      EmptyOrMember(todo);
      p :| p in todo;
      todo := todo - {p};
      while todo != {}
        invariant p in lastUsed && todo <= lastUsed.Keys
        invariant forall q :: q in lastUsed && q !in todo ==> lastUsed[p] <= lastUsed[q]
        decreases todo
      {
        EmptyOrMember(todo);
        var q :| q in todo;
        if lastUsed[q] < lastUsed[p] {
          p := q;
        }
        todo := todo - {q};
      }
    }

    /** lru_paging. It relies only on the stamped pages being resident and
        their stamps distinct, which make the victim unique. */
    method LruPaging()
      requires lastUsed != map[] && lastUsed.Keys <= pageTable.Keys && DistinctStamps(lastUsed)
      modifies this
      ensures State() == Evict(old(State()))
    {
      var evict := LeastRecentlyUsed();
      LeastRecentUnique(lastUsed, evict);
      var record := pageTable[evict];
      pageTable := pageTable - {evict};
      lastUsed := lastUsed - {evict};
      if record.dirty {
        diskWrites := diskWrites + 1;
      }
      freeFrames := freeFrames + [record.frame];
    }

    /** access_page. It needs only what making room needs and distinct
        stamps; the public operations below keep the whole invariant. */
    method AccessPage(page: int, isWrite: bool)
      requires CanMakeRoom(State()) && DistinctStamps(lastUsed)
      modifies this
      ensures State() == Access(old(State()), page, isWrite)
    {
      ghost var s := State();
      accessTime := accessTime + 1;
      ghost var s1 := State();
      assert s1 == s.(accessTime := s.accessTime + 1);
      if page in pageTable {
        lastUsed := lastUsed[page := accessTime];
        if isWrite {
          pageTable := pageTable[page := pageTable[page].(dirty := true)];
        }
        assert State() == Touch(s1, page, isWrite);
        return;
      }
      pageFaults := pageFaults + 1;
      ghost var s2 := State();
      assert s2 == s1.(pageFaults := s1.pageFaults + 1);
      if freeFrames == [] {
        LruPaging();
      }
      ghost var s3 := State();
      assert s3 == MakeRoom(s2);
      var frameId := freeFrames[|freeFrames| - 1];
      freeFrames := Pop(freeFrames);
      pageTable := pageTable[page := Entry(frameId, isWrite)];
      lastUsed := lastUsed[page := accessTime];
      diskReads := diskReads + 1;
      assert State() == Load(s3, page, isWrite);
    }

    /** read_memory. */
    method ReadMemory(page: int)
      requires Valid()
      modifies this
      ensures Valid() && State() == Access(old(State()), page, false)
    {
      TablesCanMakeRoom(State());
      AccessPreservesInv(State(), page, false);
      AccessPage(page, false);
    }

    /** write_memory. */
    method WriteMemory(page: int)
      requires Valid()
      modifies this
      ensures Valid() && State() == Access(old(State()), page, true)
    {
      TablesCanMakeRoom(State());
      AccessPreservesInv(State(), page, true);
      AccessPage(page, true);
    }

    /** get_total_disk_reads: every disk read comes with a page fault. */
    method GetTotalDiskReads() returns (r: nat)
      requires Valid()
      ensures r == diskReads && r == pageFaults
    {
      r := diskReads;
    }

    /** get_total_disk_writes: a write-back only happens during a page fault. */
    method GetTotalDiskWrites() returns (r: nat)
      requires Valid()
      ensures r == diskWrites && r <= pageFaults
    {
      r := diskWrites;
    }

    /** get_total_page_faults. */
    method GetTotalPageFaults() returns (r: nat)
      requires Valid()
      ensures r == pageFaults && r == diskReads && r >= diskWrites
    {
      r := pageFaults;
    }
  }
}
