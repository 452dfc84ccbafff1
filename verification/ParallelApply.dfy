/**
 The receive-side delta applier: one slot per file, each a reorder ring in front
 of the file's writer.

 The headline is that a slot's bytes do not depend on the order in which its
 chunks arrive: `Canonical` says what the slot must look like from the *set* of
 accepted chunks alone, and `AcceptCanonical` shows that one more chunk leads
 from canonical state to canonical state.
 */
module ParallelApply {
  import opened Prelude
  import opened ReorderBuffers

  datatype Record = Record(file: nat, sequence: nat, payload: seq<Byte>)

  datatype SlotState = SlotState(next: nat, pending: map<nat, seq<Byte>>, capacity: nat, written: seq<Byte>)

  function EmptySlot(capacity: nat): SlotState {
    SlotState(0, map[], capacity, [])
  }

  /** Writes out the contiguous run that starts at `next`. */
  function Drain(st: SlotState): SlotState
    decreases st.pending.Keys
  {
    if st.next in st.pending then
      Drain(SlotState(st.next + 1, st.pending - {st.next}, st.capacity, st.written + st.pending[st.next]))
    else st
  }

  /** `None` is the saturation error: the number is outside the ring's window. */
  function Accept(st: SlotState, sequence: nat, data: seq<Byte>): Option<SlotState> {
    if st.next <= sequence < st.next + st.capacity
    then Some(Drain(st.(pending := st.pending[sequence := data])))
    else None
  }

  function AcceptAll(st: SlotState, chunks: seq<Record>): Option<SlotState> {
    if chunks == [] then Some(st)
    else
      var last := chunks[|chunks| - 1];
      match AcceptAll(st, chunks[..|chunks| - 1])
      case None => None
      case Some(before) => Accept(before, last.sequence, last.payload)
  }

  function Flatten(parts: seq<seq<Byte>>): seq<Byte> {
    if parts == [] then [] else Flatten(parts[..|parts| - 1]) + parts[|parts| - 1]
  }

  // ------------------------------------------------------------ the file slot

  class FileSlot {
    var reorder: ReorderBuffer<seq<Byte>>
    var writer: seq<Byte>
    var bytesWritten: nat

    ghost predicate Valid()
      reads this, reorder, reorder.slots
    {
      reorder.Valid() && bytesWritten == |writer|
    }

    ghost function State(): SlotState
      reads this, reorder
    {
      SlotState(reorder.nextExpected, reorder.pending, reorder.capacity, writer)
    }

    constructor (capacity: nat)
      requires 0 < capacity
      ensures Valid() && fresh(reorder) && fresh(reorder.slots)
      ensures State() == EmptySlot(capacity)
    {
      reorder := new ReorderBuffer<seq<Byte>>(capacity);
      writer, bytesWritten := [], 0;
    }

    /** Collects every item that is ready, in order. */
    method DrainReady() returns (ready: seq<seq<Byte>>)
      requires Valid()
      modifies reorder, reorder.slots
      ensures Valid() && reorder.slots == old(reorder.slots)
      ensures State().(written := writer + Flatten(ready)) == Drain(old(State()))
    {
      ready := [];
      assert writer + Flatten(ready) == writer;
      while true
        invariant Valid() && reorder.slots == old(reorder.slots)
        invariant Drain(State().(written := writer + Flatten(ready))) == Drain(old(State()))
        decreases reorder.pending.Keys
      {
        var item := reorder.NextInOrder();
        if item.None? { return; }
        assert (ready + [item.value])[..|ready|] == ready;
        assert writer + Flatten(ready + [item.value]) == (writer + Flatten(ready)) + item.value;
        ready := ready + [item.value];
      }
    }

    /** The slot's bytes change exactly as `Accept` says, and a refused chunk changes nothing. */
    method Ingest(sequence: nat, data: seq<Byte>) returns (ok: bool)
      requires Valid()
      modifies this, reorder, reorder.slots
      ensures Valid() && reorder == old(reorder) && reorder.slots == old(reorder.slots)
      ensures ok == Accept(old(State()), sequence, data).Some?
      ensures State() == if ok then Accept(old(State()), sequence, data).value else old(State())
    {
      ok := reorder.Insert(sequence, data);
      if !ok { return; }
      var ready := DrainReady();
      WriteAll(ready);
    }

    method WriteAll(ready: seq<seq<Byte>>)
      requires Valid()
      modifies this
      ensures Valid() && reorder == old(reorder) && writer == old(writer) + Flatten(ready)
    {
      assert writer + Flatten([]) == writer;
      for i := 0 to |ready|
        invariant Valid() && reorder == old(reorder)
        invariant writer == old(writer) + Flatten(ready[..i])
      {
        assert ready[..i + 1][..i] == ready[..i];
        writer := writer + ready[i];
        bytesWritten := bytesWritten + |ready[i]|;
      }
      assert ready[..|ready|] == ready;
    }
  }

  // -------------------------------------------- arrival order does not matter

  ghost predicate Covers(m: map<nat, seq<Byte>>, n: nat) {
    forall k: nat :: k < n ==> k in m
  }

  /** The bytes of chunks `0..n`, in sequence order. */
  ghost function Joined(m: map<nat, seq<Byte>>, n: nat): seq<Byte>
    requires Covers(m, n)
  {
    if n == 0 then [] else Joined(m, n - 1) + m[n - 1]
  }

  ghost function KeysFrom(m: map<nat, seq<Byte>>, n: nat): set<nat> {
    set k | k in m && n <= k
  }

  /** The first number from `n` on that is missing from `m`. */
  ghost function FirstGap(m: map<nat, seq<Byte>>, n: nat): (g: nat)
    requires Covers(m, n)
    ensures n <= g && g !in m && Covers(m, g)
    decreases KeysFrom(m, n)
  {
    if n in m then
      assert n in KeysFrom(m, n) && n !in KeysFrom(m, n + 1);
      FirstGap(m, n + 1)
    else n
  }

  ghost function StateAt(m: map<nat, seq<Byte>>, capacity: nat, n: nat): SlotState
    requires Covers(m, n)
  {
    SlotState(n, map k | k in m && n <= k :: m[k], capacity, Joined(m, n))
  }

  /** What a slot must look like after accepting the chunks `m`, in whatever order. */
  ghost function Canonical(m: map<nat, seq<Byte>>, capacity: nat): SlotState {
    StateAt(m, capacity, FirstGap(m, 0))
  }

  lemma {:induction false} DrainReachesGap(m: map<nat, seq<Byte>>, capacity: nat, n: nat)
    requires Covers(m, n)
    ensures Drain(StateAt(m, capacity, n)) == StateAt(m, capacity, FirstGap(m, n))
    decreases KeysFrom(m, n)
  {
    if n in m {
      assert n in KeysFrom(m, n) && n !in KeysFrom(m, n + 1);
      DrainReachesGap(m, capacity, n + 1);
      assert StateAt(m, capacity, n).pending - {n} == StateAt(m, capacity, n + 1).pending;
    }
  }

  lemma GapUnique(m: map<nat, seq<Byte>>, n: nat)
    requires Covers(m, n)
    ensures FirstGap(m, 0) == FirstGap(m, n)
  {
    var a, b := FirstGap(m, 0), FirstGap(m, n);
    assert a !in m && Covers(m, a) && b !in m && Covers(m, b);
  }

  lemma {:induction false} JoinedExtends(m: map<nat, seq<Byte>>, m': map<nat, seq<Byte>>, n: nat)
    requires Covers(m, n) && Covers(m', n)
    requires forall k: nat :: k < n ==> m[k] == m'[k]
    ensures Joined(m, n) == Joined(m', n)
  {
    if n != 0 {
      JoinedExtends(m, m', n - 1);
    }
  }

  /**
   A chunk is accepted exactly when its number lies in the window that starts at
   the first gap, and then takes the canonical state of the chunks so far to that
   of the chunks with it. A number that is still buffered is replaced.
   */
  lemma AcceptCanonical(m: map<nat, seq<Byte>>, capacity: nat, sequence: nat, data: seq<Byte>)
    ensures
      var g := FirstGap(m, 0);
      Accept(Canonical(m, capacity), sequence, data) ==
        if g <= sequence < g + capacity then Some(Canonical(m[sequence := data], capacity)) else None
  {
    if FirstGap(m, 0) <= sequence { ReplaceCanonical(m, capacity, sequence, data); }
  }

  lemma ReplaceCanonical(m: map<nat, seq<Byte>>, capacity: nat, sequence: nat, data: seq<Byte>)
    requires FirstGap(m, 0) <= sequence
    ensures
      var before := Canonical(m, capacity);
      Drain(before.(pending := before.pending[sequence := data])) == Canonical(m[sequence := data], capacity)
  {
    var g := FirstGap(m, 0);
    var m' := m[sequence := data];
    assert Covers(m', g);
    JoinedExtends(m, m', g);
    assert StateAt(m, capacity, g).pending[sequence := data] == StateAt(m', capacity, g).pending;
    DrainReachesGap(m', capacity, g);
    GapUnique(m', g);
  }

  ghost predicate DistinctSequences(chunks: seq<Record>) {
    forall i, j :: 0 <= i < j < |chunks| ==> chunks[i].sequence != chunks[j].sequence
  }

  ghost function ChunkMap(chunks: seq<Record>): map<nat, seq<Byte>> {
    if chunks == [] then map[]
    else
      var last := chunks[|chunks| - 1];
      ChunkMap(chunks[..|chunks| - 1])[last.sequence := last.payload]
  }

  lemma {:induction false} ChunkMapContents(chunks: seq<Record>)
    requires DistinctSequences(chunks)
    ensures forall r :: r in chunks ==> r.sequence in ChunkMap(chunks) && ChunkMap(chunks)[r.sequence] == r.payload
    ensures forall k :: k in ChunkMap(chunks) ==> exists r :: r in chunks && r.sequence == k
  {
    if chunks != [] {
      var n := |chunks| - 1;
      var front, last := chunks[..n], chunks[n];
      ChunkMapContents(front);
      assert chunks == front + [last];
      forall r | r in chunks
        ensures r.sequence in ChunkMap(chunks) && ChunkMap(chunks)[r.sequence] == r.payload
      {
        var i :| 0 <= i < |chunks| && chunks[i] == r;
        if i < n { assert r == front[i]; }
      }
      forall k | k in ChunkMap(chunks)
        ensures exists r :: r in chunks && r.sequence == k
      {
        if k == last.sequence {
          assert last in chunks;
        } else {
          var r :| r in front && r.sequence == k;
          assert r in chunks;
        }
      }
    }
  }

  /** After the chunks `before`, the number lies in the window that starts at their first gap. */
  ghost predicate Fitting(before: seq<Record>, sequence: nat, capacity: nat) {
    var g := FirstGap(ChunkMap(before), 0);
    g <= sequence < g + capacity
  }

  /** Every chunk, when it arrives, lies in the window left by the chunks before it. */
  ghost predicate InWindow(chunks: seq<Record>, capacity: nat) {
    forall i :: 0 <= i < |chunks| ==> Fitting(chunks[..i], chunks[i].sequence, capacity)
  }

  lemma InWindowStep(chunks: seq<Record>, capacity: nat)
    requires chunks != []
    ensures
      var front, last := chunks[..|chunks| - 1], chunks[|chunks| - 1];
      InWindow(chunks, capacity) <==> InWindow(front, capacity) && Fitting(front, last.sequence, capacity)
  {
    var n := |chunks| - 1;
    if InWindow(chunks, capacity) {
      InWindowFront(chunks, capacity);
      assert Fitting(chunks[..n], chunks[n].sequence, capacity);
    }
    if InWindow(chunks[..n], capacity) && Fitting(chunks[..n], chunks[n].sequence, capacity) {
      InWindowSnoc(chunks[..n], chunks[n], capacity);
      assert chunks[..n] + [chunks[n]] == chunks;
    }
  }

  lemma InWindowFront(chunks: seq<Record>, capacity: nat)
    requires chunks != [] && InWindow(chunks, capacity)
    ensures InWindow(chunks[..|chunks| - 1], capacity)
  {
    var front := chunks[..|chunks| - 1];
    forall i | 0 <= i < |front| ensures Fitting(front[..i], front[i].sequence, capacity) {
      assert Fitting(chunks[..i], chunks[i].sequence, capacity);
      assert chunks[..i] == front[..i];
    }
  }

  lemma InWindowSnoc(front: seq<Record>, last: Record, capacity: nat)
    requires InWindow(front, capacity) && Fitting(front, last.sequence, capacity)
    ensures InWindow(front + [last], capacity)
  {
    var chunks := front + [last];
    forall i | 0 <= i < |chunks| ensures Fitting(chunks[..i], chunks[i].sequence, capacity) {
      if i < |front| {
        assert Fitting(front[..i], front[i].sequence, capacity);
        assert chunks[..i] == front[..i];
      } else {
        assert chunks[..i] == front;
      }
    }
  }

  lemma EmptyIsCanonical(capacity: nat)
    ensures Canonical(map[], capacity) == EmptySlot(capacity)
  {
    assert FirstGap(map[], 0) == 0;
    assert StateAt(map[], capacity, 0).pending == map[];
  }

  /**
   For every run of chunks, however long and with whatever repetitions: nothing is
   refused exactly when each chunk arrives inside its window, and then the slot is
   the canonical state of the chunks.
   */
  lemma {:induction false} AnyOrderIsCanonical(chunks: seq<Record>, capacity: nat)
    ensures AcceptAll(EmptySlot(capacity), chunks) ==
      if InWindow(chunks, capacity) then Some(Canonical(ChunkMap(chunks), capacity)) else None
  {
    if chunks == [] {
      EmptyIsCanonical(capacity);
    } else {
      var front, last := chunks[..|chunks| - 1], chunks[|chunks| - 1];
      AnyOrderIsCanonical(front, capacity);
      InWindowStep(chunks, capacity);
      AcceptCanonical(ChunkMap(front), capacity, last.sequence, last.payload);
    }
  }

  /**
   Two accepted arrival orders leave the slot in the same state when they agree on
   what arrived last under each number; permutations of distinct chunks do.
   */
  lemma ArrivalOrderIrrelevant(a: seq<Record>, b: seq<Record>, capacity: nat)
    requires AcceptAll(EmptySlot(capacity), a).Some? && AcceptAll(EmptySlot(capacity), b).Some?
    requires ChunkMap(a) == ChunkMap(b) || (DistinctSequences(a) && multiset(a) == multiset(b))
    ensures AcceptAll(EmptySlot(capacity), a) == AcceptAll(EmptySlot(capacity), b)
  {
    AnyOrderIsCanonical(a, capacity);
    AnyOrderIsCanonical(b, capacity);
    if ChunkMap(a) != ChunkMap(b) {
      DistinctOfSet(a, b);
      ChunkMapOfSet(a, b);
    }
  }

  lemma DistinctOfSet(a: seq<Record>, b: seq<Record>)
    requires DistinctSequences(a) && multiset(a) == multiset(b)
    ensures DistinctSequences(b)
  {
    forall i, j | 0 <= i < j < |b| ensures b[i].sequence != b[j].sequence {
      assert b[i] in multiset(a) && b[j] in multiset(a);
      var k :| 0 <= k < |a| && a[k] == b[i];
      var l :| 0 <= l < |a| && a[l] == b[j];
      if b[i] == b[j] {
        TwiceIn(b, i, j);
        OnceIn(a, k);
      } else {
        assert k != l;
      }
    }
  }

  lemma TwiceIn(s: seq<Record>, i: nat, j: nat)
    requires i < j < |s| && s[i] == s[j]
    ensures multiset(s)[s[i]] >= 2
  {
    assert s == s[..i] + [s[i]] + s[i + 1..j] + [s[j]] + s[j + 1..];
  }

  lemma OnceIn(s: seq<Record>, k: nat)
    requires DistinctSequences(s) && k < |s|
    ensures multiset(s)[s[k]] == 1
  {
    assert s == s[..k] + [s[k]] + s[k + 1..];
    assert s[k] !in s[..k] && s[k] !in s[k + 1..];
  }

  lemma {:induction false} ChunkMapBounded(chunks: seq<Record>, bound: nat)
    requires forall r :: r in chunks ==> r.sequence < bound
    ensures forall k :: k in ChunkMap(chunks) ==> k < bound
  {
    if chunks != [] {
      assert chunks[|chunks| - 1] in chunks;
      ChunkMapBounded(chunks[..|chunks| - 1], bound);
    }
  }

  /** With room for every number, no arrival order of distinct chunks is refused. */
  lemma {:induction false} RoomForAll(chunks: seq<Record>, capacity: nat)
    requires DistinctSequences(chunks)
    requires forall r :: r in chunks ==> r.sequence < capacity
    ensures InWindow(chunks, capacity)
  {
    if chunks != [] {
      var front, last := chunks[..|chunks| - 1], chunks[|chunks| - 1];
      assert forall r :: r in front ==> r in chunks;
      RoomForAll(front, capacity);
      LastIsNew(chunks);
      assert last in chunks;
      assert Fitting(front, last.sequence, capacity);
      InWindowStep(chunks, capacity);
    }
  }

  lemma LastIsNew(chunks: seq<Record>)
    requires DistinctSequences(chunks) && chunks != []
    ensures chunks[|chunks| - 1].sequence !in ChunkMap(chunks[..|chunks| - 1])
  {
    var front, last := chunks[..|chunks| - 1], chunks[|chunks| - 1];
    ChunkMapContents(front);
    forall r | r in front ensures r.sequence != last.sequence {
      var i :| 0 <= i < |front| && front[i] == r;
      assert chunks[i] == r;
    }
  }

  /** The least a ring can be: when everything is sent in order, one slot is enough, however long the file. */
  lemma {:induction false} InOrderAlwaysFits(chunks: seq<Record>, capacity: nat)
    requires 0 < capacity && forall i :: 0 <= i < |chunks| ==> chunks[i].sequence == i
    ensures InWindow(chunks, capacity)
    ensures FirstGap(ChunkMap(chunks), 0) == |chunks|
  {
    if chunks != [] {
      var front := chunks[..|chunks| - 1];
      InOrderAlwaysFits(front, capacity);
      InWindowStep(chunks, capacity);
      ChunkMapBounded(chunks, |chunks|);
      assert Covers(ChunkMap(chunks), |chunks|);
      GapUnique(ChunkMap(chunks), |chunks|);
    }
  }

  /** A repeated number is refused exactly when its first copy was already delivered; a buffered one is replaced. */
  lemma DuplicateRefusedIff(chunks: seq<Record>, again: Record, capacity: nat)
    requires InWindow(chunks, capacity) && again.sequence in ChunkMap(chunks)
    ensures
      var delivered := again.sequence < FirstGap(ChunkMap(chunks), 0);
      AcceptAll(EmptySlot(capacity), chunks + [again]) ==
        if delivered then None else Some(Canonical(ChunkMap(chunks)[again.sequence := again.payload], capacity))
  {
    var all := chunks + [again];
    assert all[..|all| - 1] == chunks;
    AnyOrderIsCanonical(chunks, capacity);
    WindowHolds(chunks, capacity);
    AcceptCanonical(ChunkMap(chunks), capacity, again.sequence, again.payload);
  }

  /** Sequence 1 sent twice before sequence 0: the second copy is taken, not refused. */
  lemma BufferedDuplicateTaken(file: nat, first: seq<Byte>, second: seq<Byte>)
    ensures
      var chunks := [Record(file, 1, first), Record(file, 1, second)];
      AcceptAll(EmptySlot(2), chunks) == Some(SlotState(0, map[1 := second], 2, []))
  {
    var one, two := [Record(file, 1, first)], [Record(file, 1, first), Record(file, 1, second)];
    assert one[..0] == [] && two[..1] == one;
    assert AcceptAll(EmptySlot(2), one) == Some(SlotState(0, map[1 := first], 2, []));
    assert map[1 := first][1 := second] == map[1 := second];
  }

  /** What is buffered lies in the window. */
  lemma {:induction false} WindowHolds(chunks: seq<Record>, capacity: nat)
    requires InWindow(chunks, capacity)
    ensures forall k :: k in ChunkMap(chunks) ==> k < FirstGap(ChunkMap(chunks), 0) + capacity
  {
    if chunks != [] {
      var front, last := chunks[..|chunks| - 1], chunks[|chunks| - 1];
      InWindowStep(chunks, capacity);
      WindowHolds(front, capacity);
      GapGrows(ChunkMap(front), last.sequence, last.payload);
    }
  }

  lemma GapGrows(m: map<nat, seq<Byte>>, sequence: nat, data: seq<Byte>)
    ensures FirstGap(m, 0) <= FirstGap(m[sequence := data], 0)
  {
    assert Covers(m[sequence := data], FirstGap(m, 0));
    GapUnique(m[sequence := data], FirstGap(m, 0));
  }

  lemma ChunkMapOfSet(a: seq<Record>, b: seq<Record>)
    requires DistinctSequences(a) && DistinctSequences(b) && multiset(a) == multiset(b)
    ensures ChunkMap(a) == ChunkMap(b)
  {
    ChunkMapContents(a);
    ChunkMapContents(b);
    forall k | k in ChunkMap(a) ensures k in ChunkMap(b) && ChunkMap(a)[k] == ChunkMap(b)[k] {
      var r :| r in a && r.sequence == k;
      assert r in multiset(b);
    }
    forall k | k in ChunkMap(b) ensures k in ChunkMap(a) {
      var r :| r in b && r.sequence == k;
      assert r in multiset(a);
    }
  }

  // ------------------------------------------------------------- the applier

  /** The chunks of one file, in arrival order. */
  function OfFile(rs: seq<Record>, f: nat): seq<Record> {
    if rs == [] then []
    else
      var before, last := OfFile(rs[..|rs| - 1], f), rs[|rs| - 1];
      if last.file == f then before + [last] else before
  }

  /** `apply_one_chunk` for each record in turn; `None` at the first refusal or unknown file. */
  function ApplyAll(files: map<nat, SlotState>, rs: seq<Record>): Option<map<nat, SlotState>> {
    if rs == [] then Some(files)
    else
      var last := rs[|rs| - 1];
      match ApplyAll(files, rs[..|rs| - 1])
      case None => None
      case Some(now) =>
        if last.file !in now then None
        else match Accept(now[last.file], last.sequence, last.payload)
          case None => None
          case Some(st) => Some(now[last.file := st])
  }

  lemma AcceptFileStep(st: SlotState, rs: seq<Record>, f: nat)
    requires rs != []
    ensures
      var front, last := rs[..|rs| - 1], rs[|rs| - 1];
      var before := AcceptAll(st, OfFile(front, f));
      AcceptAll(st, OfFile(rs, f)) ==
        if last.file != f then before
        else if before.None? then None
        else Accept(before.value, last.sequence, last.payload)
  {
    var front, last := rs[..|rs| - 1], rs[|rs| - 1];
    if last.file == f {
      assert OfFile(rs, f) == OfFile(front, f) + [last];
      assert OfFile(rs, f)[..|OfFile(front, f)|] == OfFile(front, f);
    } else {
      assert OfFile(rs, f) == OfFile(front, f);
    }
  }

  /**
   Files do not interfere: the run is accepted exactly when every record names a
   registered file and every file accepts its own chunks, and then each slot holds
   what its own chunks alone would give.
   */
  lemma {:induction false} ApplyAllSplits(files: map<nat, SlotState>, rs: seq<Record>)
    ensures ApplyAll(files, rs).Some? <==>
      && (forall r :: r in rs ==> r.file in files)
      && forall f :: f in files ==> AcceptAll(files[f], OfFile(rs, f)).Some?
    ensures ApplyAll(files, rs).Some? ==>
      && ApplyAll(files, rs).value.Keys == files.Keys
      && forall f :: f in files ==> AcceptAll(files[f], OfFile(rs, f)) == Some(ApplyAll(files, rs).value[f])
  {
    if rs != [] {
      var front, last := rs[..|rs| - 1], rs[|rs| - 1];
      assert rs == front + [last];
      ApplyAllSplits(files, front);
      forall f | f in files
        ensures AcceptAll(files[f], OfFile(rs, f)) ==
          (var before := AcceptAll(files[f], OfFile(front, f));
           if last.file != f then before
           else if before.None? then None
           else Accept(before.value, last.sequence, last.payload))
      {
        AcceptFileStep(files[f], rs, f);
      }
    }
  }
}
