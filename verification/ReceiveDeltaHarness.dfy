/**
 The adversarial-ordering harness around the delta applier: parse the input into
 records, drop duplicates, renumber each file's chunks densely, apply them in
 arrival order, and compare every file's digest with a sequential reference.

 The comparison is shown to hold exactly when every registered file receives a
 record (`HarnessAssertion`).
 */
module ReceiveDeltaHarness {
  import opened Prelude
  import opened ParallelApply
  import StableSort

  const MAX_FILES := 8
  const MIN_PAYLOAD_LOG2 := 4
  const MAX_PAYLOAD_LOG2 := 10
  const MAX_RECORDS := 64

  // ------------------------------------------------------------------ parsing

  datatype Parsed = Parsed(fileCount: nat, records: seq<Record>)

  function PowerOfTwo(n: nat): nat {
    if n == 0 then 1 else 2 * PowerOfTwo(n - 1)
  }

  function FileCount(data: seq<Byte>): (n: nat)
    requires 2 <= |data|
    ensures 1 <= n <= MAX_FILES
  {
    data[0] % MAX_FILES + 1
  }

  function PayloadSize(data: seq<Byte>): nat
    requires 2 <= |data|
  {
    PowerOfTwo(MIN_PAYLOAD_LOG2 + data[1] % (MAX_PAYLOAD_LOG2 - MIN_PAYLOAD_LOG2 + 1))
  }

  function RecordAt(data: seq<Byte>, fileCount: nat, payloadSize: nat, cursor: nat): Record
    requires 0 < fileCount && cursor + 3 + payloadSize <= |data|
  {
    Record(data[cursor] % fileCount,
           data[cursor + 1] as int + 0x100 * data[cursor + 2] as int,
           data[cursor + 3..cursor + 3 + payloadSize])
  }

  /** Where record `n` starts: records follow one another from byte 2 on. */
  function RecordStart(payloadSize: nat, n: nat): nat {
    if n == 0 then 2 else RecordStart(payloadSize, n - 1) + 3 + payloadSize
  }

  function RecordsOf(data: seq<Byte>, fileCount: nat, payloadSize: nat, n: nat): seq<Record>
    requires 0 < fileCount && RecordStart(payloadSize, n) <= |data|
  {
    if n == 0 then []
    else RecordsOf(data, fileCount, payloadSize, n - 1)
         + [RecordAt(data, fileCount, payloadSize, RecordStart(payloadSize, n - 1))]
  }

  /** `n` is the number of whole records, capped. */
  predicate RecordCount(data: seq<Byte>, payloadSize: nat, n: nat) {
    && n <= MAX_RECORDS
    && RecordStart(payloadSize, n) <= |data|
    && (n < MAX_RECORDS ==> |data| < RecordStart(payloadSize, n + 1))
  }

  /** `p` is what `n` records make of the input. */
  ghost predicate ParsedAs(data: seq<Byte>, p: Option<Parsed>, n: nat) {
    if |data| < 2 then p.None?
    else
      && RecordCount(data, PayloadSize(data), n)
      && p == (if n == 0 then None
               else Some(Parsed(FileCount(data), RecordsOf(data, FileCount(data), PayloadSize(data), n))))
  }

  ghost predicate IsParse(data: seq<Byte>, p: Option<Parsed>) {
    exists n: nat :: ParsedAs(data, p, n)
  }

  lemma {:induction false} RecordStartGrows(payloadSize: nat, n: nat, m: nat)
    requires n <= m
    ensures RecordStart(payloadSize, n) <= RecordStart(payloadSize, m)
  {
    if n < m { RecordStartGrows(payloadSize, n, m - 1); }
  }

  lemma CountUnique(data: seq<Byte>, payloadSize: nat, n: nat, m: nat)
    requires RecordCount(data, payloadSize, n) && RecordCount(data, payloadSize, m)
    ensures n == m
  {
    if n < m { RecordStartGrows(payloadSize, n + 1, m); }
    if m < n { RecordStartGrows(payloadSize, m + 1, n); }
  }

  /** Every input has one parse. */
  lemma ParseUnique(data: seq<Byte>, p: Option<Parsed>, q: Option<Parsed>)
    requires IsParse(data, p) && IsParse(data, q)
    ensures p == q
  {
    var n: nat :| ParsedAs(data, p, n);
    var m: nat :| ParsedAs(data, q, m);
    if 2 <= |data| { CountUnique(data, PayloadSize(data), n, m); }
  }

  method ParseInput(data: seq<Byte>) returns (p: Option<Parsed>)
    ensures IsParse(data, p)
  {
    ghost var n: nat := 0;
    if |data| < 2 {
      assert ParsedAs(data, None, 0);
      return None;
    }
    var fileCount := FileCount(data);
    var payloadSize := PayloadSize(data);
    var recordSize := 1 + 2 + payloadSize;
    var records := [];
    var cursor := 2;
    while cursor + recordSize <= |data| && |records| < MAX_RECORDS
      invariant n == |records| <= MAX_RECORDS
      invariant cursor == RecordStart(payloadSize, n) <= |data|
      invariant records == RecordsOf(data, fileCount, payloadSize, n)
      decreases |data| - cursor
    {
      records := records + [RecordAt(data, fileCount, payloadSize, cursor)];
      cursor := cursor + recordSize;
      n := n + 1;
    }
    p := if records == [] then None else Some(Parsed(fileCount, records));
    assert ParsedAs(data, p, n);
  }

  lemma {:induction false} RecordsBounds(data: seq<Byte>, fileCount: nat, payloadSize: nat, n: nat)
    requires 0 < fileCount && RecordStart(payloadSize, n) <= |data|
    ensures |RecordsOf(data, fileCount, payloadSize, n)| == n
    ensures forall r :: r in RecordsOf(data, fileCount, payloadSize, n) ==> r.file < fileCount && r.sequence <= U16_MAX
  {
    if n != 0 {
      RecordsBounds(data, fileCount, payloadSize, n - 1);
    }
  }

  /** Payload sizes run from 16 to 1024 bytes. */
  function PayloadBytes(selector: nat): nat {
    match selector % 7
    case 0 => 16
    case 1 => 32
    case 2 => 64
    case 3 => 128
    case 4 => 256
    case 5 => 512
    case _ => 1024
  }

  lemma PayloadSizeIs(data: seq<Byte>)
    requires 2 <= |data|
    ensures PayloadSize(data) == PayloadBytes(data[1])
  {
    assert PowerOfTwo(4) == 16 && PowerOfTwo(5) == 32 && PowerOfTwo(6) == 64;
    assert PowerOfTwo(7) == 128 && PowerOfTwo(8) == 256 && PowerOfTwo(9) == 512 && PowerOfTwo(10) == 1024;
  }

  lemma {:induction false} RecordStartIs(payloadSize: nat, n: nat)
    ensures RecordStart(payloadSize, n) == 2 + n * (3 + payloadSize)
  {
    if n != 0 {
      RecordStartIs(payloadSize, n - 1);
      assert n * (3 + payloadSize) == (n - 1) * (3 + payloadSize) + (3 + payloadSize);
    }
  }

  /** The record at `at`: one byte for the file, two for the number, low byte first, and the payload. */
  predicate RecordIs(data: seq<Byte>, at: nat, files: nat, size: nat, r: Record)
    requires 0 < files
  {
    && at + 3 + size <= |data|
    && r.file == data[at] % files
    && r.sequence == data[at + 1] as int + 256 * data[at + 2] as int
    && r.payload == data[at + 3..at + 3 + size]
  }

  lemma {:induction false} RecordsAre(data: seq<Byte>, files: nat, size: nat, n: nat, i: nat)
    requires 0 < files && RecordStart(size, n) <= |data| && i < n
    ensures |RecordsOf(data, files, size, n)| == n
    ensures RecordIs(data, RecordStart(size, i), files, size, RecordsOf(data, files, size, n)[i])
  {
    RecordsBounds(data, files, size, n - 1);
    if i < n - 1 {
      RecordsAre(data, files, size, n - 1, i);
    } else {
      RecordAtIs(data, files, size, RecordStart(size, i));
    }
  }

  lemma RecordAtIs(data: seq<Byte>, files: nat, size: nat, at: nat)
    requires 0 < files && at + 3 + size <= |data|
    ensures RecordIs(data, at, files, size, RecordAt(data, files, size, at))
  {
  }

  /** Where record `i` starts, for payloads of `size` bytes. */
  function Place(size: nat, i: nat): nat {
    2 + i * (3 + size)
  }

  /** `rs` are the records of `data`: as many as fit, up to 64, each at its place. */
  ghost predicate RecordsFill(data: seq<Byte>, files: nat, size: nat, rs: seq<Record>)
    requires 0 < files
  {
    && 1 <= |rs| <= 64 && (|rs| < 64 ==> |data| < Place(size, |rs| + 1))
    && forall i :: 0 <= i < |rs| ==> RecordIs(data, Place(size, i), files, size, rs[i])
  }

  lemma RecordsOfFill(data: seq<Byte>, files: nat, size: nat, n: nat)
    requires 0 < files && 0 < n && RecordCount(data, size, n)
    ensures RecordsFill(data, files, size, RecordsOf(data, files, size, n))
  {
    RecordsBounds(data, files, size, n);
    RecordStartIs(size, n + 1);
    forall i | 0 <= i < n ensures RecordIs(data, Place(size, i), files, size, RecordsOf(data, files, size, n)[i]) {
      RecordsAre(data, files, size, n, i);
      RecordStartIs(size, i);
    }
  }

  /** Every parse, byte by byte. */
  lemma ParsedBytes(data: seq<Byte>, p: Option<Parsed>)
    requires IsParse(data, p)
    ensures p.None? <==> |data| < 2 || |data| < 2 + (3 + PayloadBytes(data[1]))
    ensures p.Some? ==>
      p.value.fileCount == data[0] % 8 + 1
      && RecordsFill(data, p.value.fileCount, PayloadBytes(data[1]), p.value.records)
  {
    var n: nat :| ParsedAs(data, p, n);
    if 2 <= |data| {
      PayloadSizeIs(data);
      assert RecordStart(PayloadSize(data), 1) == 2 + (3 + PayloadSize(data));
      if n != 0 {
        RecordStartGrows(PayloadSize(data), 1, n);
        RecordsOfFill(data, FileCount(data), PayloadSize(data), n);
      }
    }
  }

  // ------------------------------------------------------------ deduplication

  predicate SameChunk(a: Record, b: Record) {
    a.file == b.file && a.sequence == b.sequence
  }

  predicate SeenIn(rs: seq<Record>, r: Record) {
    exists i :: 0 <= i < |rs| && SameChunk(rs[i], r)
  }

  ghost predicate Deduplicated(rs: seq<Record>) {
    forall i, j :: 0 <= i < j < |rs| ==> !SameChunk(rs[i], rs[j])
  }

  /** Each record whose file and number did not occur before it. */
  function Dedup(rs: seq<Record>): seq<Record> {
    if rs == [] then []
    else
      var front, last := rs[..|rs| - 1], rs[|rs| - 1];
      if SeenIn(front, last) then Dedup(front) else Dedup(front) + [last]
  }

  method Deduplicate(records: seq<Record>) returns (out: seq<Record>)
    ensures out == Dedup(records)
  {
    var seen: set<(nat, nat)> := {};
    out := [];
    for i := 0 to |records|
      invariant seen == set j | 0 <= j < i :: (records[j].file, records[j].sequence)
      invariant out == Dedup(records[..i])
    {
      var r := records[i];
      assert records[..i + 1][..i] == records[..i];
      assert (r.file, r.sequence) in seen <==> SeenIn(records[..i], r) by {
        assert forall j :: 0 <= j < i ==> records[..i][j] == records[j];
      }
      if (r.file, r.sequence) !in seen {
        out := out + [r];
      }
      seen := seen + {(r.file, r.sequence)};
    }
    assert records[..|records|] == records;
  }

  /** No two survivors clash, every survivor comes from the input, and every input record has a survivor. */
  lemma {:induction false} DedupCorrect(rs: seq<Record>)
    ensures Deduplicated(Dedup(rs)) && |Dedup(rs)| <= |rs|
    ensures forall r :: r in Dedup(rs) ==> r in rs
    ensures forall r :: r in rs ==> SeenIn(Dedup(rs), r)
  {
    if rs != [] {
      var front, last := rs[..|rs| - 1], rs[|rs| - 1];
      DedupCorrect(front);
      var kept := Dedup(front);
      assert rs == front + [last];
      if SeenIn(front, last) {
        var i :| 0 <= i < |front| && SameChunk(front[i], last);
        assert front[i] in front;
        assert SeenIn(kept, front[i]);
        assert Dedup(rs) == kept;
        assert SeenIn(Dedup(rs), last);
      } else {
        forall i | 0 <= i < |kept| ensures !SameChunk(kept[i], last) {
          assert kept[i] in kept;
          assert kept[i] in front;
        }
        assert Dedup(rs)[|kept|] == last;
        assert SeenIn(Dedup(rs), last);
        forall r | r in front ensures SeenIn(Dedup(rs), r) {
          var i :| 0 <= i < |kept| && SameChunk(kept[i], r);
          assert Dedup(rs)[i] == kept[i];
        }
      }
    }
  }

  /** No earlier record has the file and number of record `j`. */
  ghost predicate IsFirst(rs: seq<Record>, j: nat)
    requires j < |rs|
  {
    forall i :: 0 <= i < j ==> rs[i].file != rs[j].file || rs[i].sequence != rs[j].sequence
  }

  /** The places of the first copies, in order. */
  ghost function FirstPlaces(rs: seq<Record>, n: nat): seq<nat>
    requires n <= |rs|
  {
    if n == 0 then []
    else if IsFirst(rs, n - 1) then FirstPlaces(rs, n - 1) + [n - 1] else FirstPlaces(rs, n - 1)
  }

  lemma {:induction false} FirstPlacesAre(rs: seq<Record>, n: nat)
    requires n <= |rs|
    ensures forall j :: j in FirstPlaces(rs, n) <==> 0 <= j < n && IsFirst(rs, j)
    ensures forall a, b :: 0 <= a < b < |FirstPlaces(rs, n)| ==> FirstPlaces(rs, n)[a] < FirstPlaces(rs, n)[b]
  {
    if n != 0 {
      FirstPlacesAre(rs, n - 1);
      var before := FirstPlaces(rs, n - 1);
      assert forall k :: 0 <= k < |before| ==> before[k] in before;
    }
  }

  lemma SeenIffNotFirst(rs: seq<Record>, j: nat)
    requires j < |rs|
    ensures SeenIn(rs[..j], rs[j]) <==> !IsFirst(rs, j)
  {
    assert forall i :: 0 <= i < j ==> rs[..j][i] == rs[i];
    if !IsFirst(rs, j) {
      var i :| 0 <= i < j && !(rs[i].file != rs[j].file || rs[i].sequence != rs[j].sequence);
      assert SameChunk(rs[..j][i], rs[j]);
    }
  }

  /** Of each chunk exactly the first copy survives, in its place. */
  lemma {:induction false} DedupKeepsFirst(rs: seq<Record>, n: nat)
    requires n <= |rs|
    ensures |Dedup(rs[..n])| == |FirstPlaces(rs, n)|
    ensures forall k :: 0 <= k < |FirstPlaces(rs, n)| ==>
      0 <= FirstPlaces(rs, n)[k] < n && Dedup(rs[..n])[k] == rs[FirstPlaces(rs, n)[k]]
  {
    if n != 0 {
      DedupKeepsFirst(rs, n - 1);
      SeenIffNotFirst(rs, n - 1);
      assert rs[..n][..n - 1] == rs[..n - 1];
    }
  }

  // -------------------------------------------------------------- renumbering

  /** The sequence numbers of one file, in arrival order. */
  function Numbers(rs: seq<Record>, f: nat): seq<nat> {
    if rs == [] then []
    else
      var before, last := Numbers(rs[..|rs| - 1], f), rs[|rs| - 1];
      if last.file == f then before + [last.sequence] else before
  }

  function CountUpTo(ns: seq<nat>, q: int): nat {
    if ns == [] then 0
    else CountUpTo(ns[..|ns| - 1], q) + if ns[|ns| - 1] <= q then 1 else 0
  }

  /** The rank of a number among its file's numbers, cut to 16 bits as the source's cast does. */
  function Rank(base: seq<Record>, f: nat, q: nat): nat {
    (CountUpTo(Numbers(base, f), q) - 1) % 0x1_0000
  }

  function RenumberOne(base: seq<Record>, r: Record): Record {
    r.(sequence := Rank(base, r.file, r.sequence))
  }

  function Renumbered(base: seq<Record>, rs: seq<Record>): seq<Record> {
    if rs == [] then [] else Renumbered(base, rs[..|rs| - 1]) + [RenumberOne(base, rs[|rs| - 1])]
  }

  function Identity(n: nat): int {
    n
  }

  lemma {:induction false} CountConcat(a: seq<nat>, b: seq<nat>, q: int)
    ensures CountUpTo(a + b, q) == CountUpTo(a, q) + CountUpTo(b, q)
  {
    if b == [] {
      assert a + b == a;
    } else {
      var n := |b| - 1;
      assert (a + b)[..|a + b| - 1] == a + b[..n];
      CountConcat(a, b[..n], q);
    }
  }

  lemma {:induction false} CountInsert(x: nat, s: seq<nat>, q: int)
    ensures CountUpTo(StableSort.Insert(x, s, Identity), q) == CountUpTo([x], q) + CountUpTo(s, q)
  {
    if s == [] || x <= s[0] {
      CountConcat([x], s, q);
    } else {
      CountInsert(x, s[1..], q);
      CountConcat([s[0]], StableSort.Insert(x, s[1..], Identity), q);
      CountConcat([s[0]], s[1..], q);
      assert s == [s[0]] + s[1..];
    }
  }

  lemma {:induction false} CountSort(s: seq<nat>, q: int)
    ensures CountUpTo(StableSort.Sort(s, Identity), q) == CountUpTo(s, q)
  {
    if s != [] {
      CountSort(s[1..], q);
      CountInsert(s[0], StableSort.Sort(s[1..], Identity), q);
      CountConcat([s[0]], s[1..], q);
      assert s == [s[0]] + s[1..];
    }
  }

  lemma {:induction false} CountAll(s: seq<nat>, q: int)
    requires forall i :: 0 <= i < |s| ==> s[i] <= q
    ensures CountUpTo(s, q) == |s|
  {
    if s != [] {
      CountAll(s[..|s| - 1], q);
    }
  }

  lemma CountPrefixStep(seqs: seq<nat>, i: nat)
    requires StableSort.Sorted(seqs, Identity) && i < |seqs|
    ensures CountUpTo(seqs[..i + 1], seqs[i]) == i + 1
    ensures forall q :: q < seqs[i] ==> CountUpTo(seqs[..i + 1], q) == CountUpTo(seqs[..i], q)
  {
    assert seqs[..i + 1][..i] == seqs[..i];
    forall j | 0 <= j <= i ensures seqs[j] <= seqs[i] {
      assert j < i ==> Identity(seqs[j]) <= Identity(seqs[i]);
    }
    CountAll(seqs[..i + 1], seqs[i]);
  }

  /** The inner loop of `renumber`: the last position of a number in the sorted list gives its rank. */
  method IndexSorted(seqs: seq<nat>) returns (index: map<nat, nat>)
    requires StableSort.Sorted(seqs, Identity)
    ensures forall j :: 0 <= j < |seqs| ==>
      seqs[j] in index && index[seqs[j]] == (CountUpTo(seqs, seqs[j]) - 1) % 0x1_0000
  {
    index := map[];
    for i := 0 to |seqs|
      invariant forall j :: 0 <= j < i ==>
        seqs[j] in index && index[seqs[j]] == (CountUpTo(seqs[..i], seqs[j]) - 1) % 0x1_0000
    {
      CountPrefixStep(seqs, i);
      forall j | 0 <= j < i ensures seqs[j] <= seqs[i] {
        assert Identity(seqs[j]) <= Identity(seqs[i]);
      }
      index := index[seqs[i] := i % 0x1_0000];
    }
    assert seqs[..|seqs|] == seqs;
  }

  method GroupNumbers(records: seq<Record>) returns (perFile: map<nat, seq<nat>>)
    ensures forall f :: f in perFile <==> Numbers(records, f) != []
    ensures forall f :: f in perFile ==> perFile[f] == Numbers(records, f)
  {
    perFile := map[];
    for i := 0 to |records|
      invariant forall f :: f in perFile <==> Numbers(records[..i], f) != []
      invariant forall f :: f in perFile ==> perFile[f] == Numbers(records[..i], f)
    {
      var r := records[i];
      assert records[..i + 1][..i] == records[..i];
      perFile := perFile[r.file := (if r.file in perFile then perFile[r.file] else []) + [r.sequence]];
    }
    assert records[..|records|] == records;
  }

  ghost predicate RanksFile(index: map<nat, nat>, base: seq<Record>, f: nat) {
    forall q :: q in Numbers(base, f) ==> q in index && index[q] == Rank(base, f, q)
  }

  method RankFile(ghost base: seq<Record>, ghost f: nat, numbers: seq<nat>) returns (index: map<nat, nat>)
    requires numbers == Numbers(base, f)
    ensures RanksFile(index, base, f)
  {
    var seqs := StableSort.Sort(numbers, Identity);
    StableSort.SortIsStable(numbers, Identity);
    index := IndexSorted(seqs);
    forall q | q in numbers ensures q in index && index[q] == Rank(base, f, q) {
      assert q in multiset(numbers);
      var j :| 0 <= j < |seqs| && seqs[j] == q;
      CountSort(numbers, q);
    }
  }

  method RankFiles(records: seq<Record>) returns (mapping: map<nat, map<nat, nat>>)
    ensures forall f :: Numbers(records, f) != [] ==> f in mapping && RanksFile(mapping[f], records, f)
  {
    var perFile := GroupNumbers(records);
    mapping := map[];
    var todo := perFile.Keys;
    while todo != {}
      invariant todo <= perFile.Keys
      invariant forall f :: f in perFile && f !in todo ==> f in mapping && RanksFile(mapping[f], records, f)
    {
      var f :| f in todo;
      var index := RankFile(records, f, perFile[f]);
      mapping := mapping[f := index];
      todo := todo - {f};
    }
  }

  method Renumber(records: seq<Record>) returns (out: seq<Record>)
    ensures out == Renumbered(records, records)
  {
    var mapping := RankFiles(records);
    out := [];
    for i := 0 to |records|
      invariant out == Renumbered(records, records[..i])
    {
      var r := records[i];
      NumbersContain(records, i);
      assert records[..i + 1][..i] == records[..i];
      out := out + [r.(sequence := mapping[r.file][r.sequence])];
    }
    assert records[..|records|] == records;
  }

  lemma {:induction false} NumbersContain(rs: seq<Record>, i: nat)
    requires i < |rs|
    ensures rs[i].sequence in Numbers(rs, rs[i].file)
  {
    if i < |rs| - 1 {
      NumbersContain(rs[..|rs| - 1], i);
    }
  }

  lemma {:induction false} NumbersMember(rs: seq<Record>, f: nat, q: nat)
    requires q in Numbers(rs, f)
    ensures exists i :: 0 <= i < |rs| && rs[i].file == f && rs[i].sequence == q
  {
    var front, last := rs[..|rs| - 1], rs[|rs| - 1];
    if last.file == f && last.sequence == q {
    } else {
      NumbersMember(front, f, q);
      var i :| 0 <= i < |front| && front[i].file == f && front[i].sequence == q;
      assert rs[i] == front[i];
    }
  }

  ghost predicate Distinct(ns: seq<nat>) {
    forall i, j :: 0 <= i < j < |ns| ==> ns[i] != ns[j]
  }

  lemma {:induction false} NumbersDistinct(rs: seq<Record>, f: nat)
    requires Deduplicated(rs)
    ensures Distinct(Numbers(rs, f))
  {
    if rs != [] {
      var front, last := rs[..|rs| - 1], rs[|rs| - 1];
      NumbersDistinct(front, f);
      var ns := Numbers(front, f);
      forall k | 0 <= k < |ns| && last.file == f ensures ns[k] != last.sequence {
        NumbersMember(front, f, ns[k]);
        var i :| 0 <= i < |front| && front[i].file == f && front[i].sequence == ns[k];
        assert !SameChunk(rs[i], rs[|rs| - 1]);
      }
    }
  }

  lemma {:induction false} CountGrows(ns: seq<nat>, p: int, q: int)
    requires p <= q
    ensures CountUpTo(ns, p) <= CountUpTo(ns, q) <= |ns|
    ensures p < q && q in ns ==> CountUpTo(ns, p) < CountUpTo(ns, q)
  {
    if ns != [] {
      CountGrows(ns[..|ns| - 1], p, q);
    }
  }

  lemma {:induction false} CountBelow(ns: seq<nat>)
    ensures CountUpTo(ns, -1) == 0
  {
    if ns != [] {
      CountBelow(ns[..|ns| - 1]);
    }
  }

  lemma {:induction false} CountStep(ns: seq<nat>, q: nat)
    requires Distinct(ns)
    ensures CountUpTo(ns, q) <= CountUpTo(ns, q - 1) + (if q in ns then 1 else 0)
  {
    if ns != [] {
      CountStep(ns[..|ns| - 1], q);
    }
  }

  /** Distinct numbers rank no higher than themselves, so the 16-bit cast never cuts anything. */
  lemma {:induction false} CountBounded(ns: seq<nat>, q: nat)
    requires Distinct(ns)
    ensures CountUpTo(ns, q) <= q + 1
  {
    CountStep(ns, q);
    if q == 0 {
      CountBelow(ns);
    } else {
      CountBounded(ns, q - 1);
    }
  }

  lemma RankExact(base: seq<Record>, f: nat, q: nat)
    requires Deduplicated(base) && q in Numbers(base, f) && q <= U16_MAX
    ensures Rank(base, f, q) == CountUpTo(Numbers(base, f), q) - 1
    ensures Rank(base, f, q) < |Numbers(base, f)| && Rank(base, f, q) <= q
  {
    NumbersDistinct(base, f);
    CountOfMember(Numbers(base, f), q);
  }

  lemma CountOfMember(ns: seq<nat>, q: nat)
    requires Distinct(ns) && q in ns
    ensures 1 <= CountUpTo(ns, q) <= Min(q + 1, |ns|)
  {
    CountBelow(ns);
    CountBounded(ns, q);
    CountGrows(ns, -1, q);
  }

  /** Ranks are positions: below the file's chunk count, and in the same order as the numbers. */
  lemma RankCorrect(base: seq<Record>, f: nat, p: nat, q: nat)
    requires Deduplicated(base)
    requires p in Numbers(base, f) && q in Numbers(base, f) && p <= U16_MAX && q <= U16_MAX
    ensures Rank(base, f, q) < |Numbers(base, f)| && Rank(base, f, q) <= q
    ensures Rank(base, f, p) <= Rank(base, f, q) <==> p <= q
  {
    RankExact(base, f, p);
    RankExact(base, f, q);
    if p <= q { CountGrows(Numbers(base, f), p, q); } else { CountGrows(Numbers(base, f), q, p); }
  }

  // --------------------------------------------------- the sequential reference

  function BySequence(r: Record): int {
    r.sequence
  }

  function Payloads(rs: seq<Record>): seq<seq<Byte>> {
    if rs == [] then [] else Payloads(rs[..|rs| - 1]) + [rs[|rs| - 1].payload]
  }

  /** A file's bytes when its chunks are written in sequence order. */
  function SequentialStream(rs: seq<Record>, f: nat): seq<Byte> {
    Flatten(Payloads(StableSort.Sort(OfFile(rs, f), BySequence)))
  }

  function FilesOf(rs: seq<Record>): set<nat> {
    if rs == [] then {} else FilesOf(rs[..|rs| - 1]) + {rs[|rs| - 1].file}
  }

  function Reference<D>(rs: seq<Record>, sha: seq<Byte> -> D): map<nat, D> {
    map f | f in FilesOf(rs) :: sha(SequentialStream(rs, f))
  }

  method HashInOrder<D>(rs: seq<Record>, sha: seq<Byte> -> D) returns (digest: D)
    ensures digest == sha(Flatten(Payloads(StableSort.Sort(rs, BySequence))))
  {
    var sorted := StableSort.Sort(rs, BySequence);
    var hashed: seq<Byte> := [];
    for i := 0 to |sorted|
      invariant hashed == Flatten(Payloads(sorted[..i]))
    {
      assert sorted[..i + 1][..i] == sorted[..i];
      var before := Payloads(sorted[..i]);
      assert (before + [sorted[i].payload])[..|before|] == before;
      hashed := hashed + sorted[i].payload;
    }
    assert sorted[..|sorted|] == sorted;
    digest := sha(hashed);
  }

  method GroupRecords(records: seq<Record>) returns (perFile: map<nat, seq<Record>>)
    ensures perFile.Keys == FilesOf(records)
    ensures forall f :: f in perFile ==> perFile[f] == OfFile(records, f)
  {
    perFile := map[];
    for i := 0 to |records|
      invariant perFile.Keys == FilesOf(records[..i])
      invariant forall f :: OfFile(records[..i], f) == if f in perFile then perFile[f] else []
    {
      var r := records[i];
      assert records[..i + 1][..i] == records[..i];
      perFile := perFile[r.file := (if r.file in perFile then perFile[r.file] else []) + [r]];
    }
    assert records[..|records|] == records;
  }

  method SequentialReference<D>(records: seq<Record>, sha: seq<Byte> -> D) returns (out: map<nat, D>)
    ensures out == Reference(records, sha)
  {
    var perFile := GroupRecords(records);
    out := map[];
    var todo := perFile.Keys;
    while todo != {}
      invariant todo <= perFile.Keys && out.Keys == perFile.Keys - todo
      invariant forall f :: f in out ==> out[f] == sha(SequentialStream(records, f))
    {
      var f :| f in todo;
      var digest := HashInOrder(perFile[f], sha);
      out := out[f := digest];
      todo := todo - {f};
    }
    assert forall f :: f in out <==> f in FilesOf(records);
  }

  // ------------------------------------------ renumbering preserves the streams

  ghost predicate FitsU16(rs: seq<Record>) {
    forall i :: 0 <= i < |rs| ==> rs[i].sequence <= U16_MAX
  }

  /** `r` belongs to file `f` and carries one of the file's numbers. */
  ghost predicate Known(base: seq<Record>, f: nat, r: Record) {
    r.file == f && r.sequence in Numbers(base, f) && r.sequence <= U16_MAX
  }

  lemma {:induction false} OfFileMembers(rs: seq<Record>, f: nat)
    ensures forall r :: r in OfFile(rs, f) <==> r in rs && r.file == f
    ensures |OfFile(rs, f)| == |Numbers(rs, f)|
  {
    if rs != [] {
      OfFileMembers(rs[..|rs| - 1], f);
      assert rs == rs[..|rs| - 1] + [rs[|rs| - 1]];
    }
  }

  lemma OfFileKnown(rs: seq<Record>, f: nat)
    requires FitsU16(rs)
    ensures forall r :: r in OfFile(rs, f) ==> Known(rs, f, r)
  {
    OfFileMembers(rs, f);
    forall r | r in OfFile(rs, f) ensures Known(rs, f, r) {
      var i :| 0 <= i < |rs| && rs[i] == r;
      NumbersContain(rs, i);
    }
  }

  lemma {:induction false} OfFileRenumbered(base: seq<Record>, rs: seq<Record>, f: nat)
    ensures OfFile(Renumbered(base, rs), f) == Renumbered(base, OfFile(rs, f))
  {
    if rs != [] {
      var front, last := rs[..|rs| - 1], rs[|rs| - 1];
      OfFileRenumbered(base, front, f);
      var out := Renumbered(base, rs);
      assert out[..|out| - 1] == Renumbered(base, front);
      if last.file == f {
        var kept := OfFile(rs, f);
        assert kept[..|kept| - 1] == OfFile(front, f);
      }
    }
  }

  lemma {:induction false} RenumberedConcat(base: seq<Record>, a: seq<Record>, b: seq<Record>)
    ensures Renumbered(base, a + b) == Renumbered(base, a) + Renumbered(base, b)
  {
    if b == [] {
      assert a + b == a;
    } else {
      var n := |b| - 1;
      assert (a + b)[..|a + b| - 1] == a + b[..n];
      RenumberedConcat(base, a, b[..n]);
    }
  }

  lemma RenumberedCons(base: seq<Record>, s: seq<Record>)
    requires s != []
    ensures Renumbered(base, s) == [RenumberOne(base, s[0])] + Renumbered(base, s[1..])
  {
    assert s == [s[0]] + s[1..];
    RenumberedConcat(base, [s[0]], s[1..]);
    assert Renumbered(base, [s[0]]) == [RenumberOne(base, s[0])];
  }

  lemma {:induction false} InsertRenumbered(base: seq<Record>, x: Record, s: seq<Record>, f: nat)
    requires Deduplicated(base) && Known(base, f, x) && forall r :: r in s ==> Known(base, f, r)
    ensures StableSort.Insert(RenumberOne(base, x), Renumbered(base, s), BySequence)
         == Renumbered(base, StableSort.Insert(x, s, BySequence))
  {
    if s == [] || x.sequence <= s[0].sequence {
      if s != [] { SameOrder(base, f, x, s[0]); }
      FrontRenumbered(base, x, s);
    } else {
      SameOrder(base, f, x, s[0]);
      InsertRenumbered(base, x, s[1..], f);
      RestRenumbered(base, x, s);
    }
  }

  lemma FrontRenumbered(base: seq<Record>, x: Record, s: seq<Record>)
    requires s == [] || x.sequence <= s[0].sequence
    requires s == [] || RenumberOne(base, x).sequence <= RenumberOne(base, s[0]).sequence
    ensures StableSort.Insert(RenumberOne(base, x), Renumbered(base, s), BySequence)
         == Renumbered(base, StableSort.Insert(x, s, BySequence))
  {
    RenumberedCons(base, [x] + s);
    if s != [] { RenumberedCons(base, s); }
  }

  lemma RestRenumbered(base: seq<Record>, x: Record, s: seq<Record>)
    requires s != [] && x.sequence > s[0].sequence
    requires RenumberOne(base, x).sequence > RenumberOne(base, s[0]).sequence
    requires StableSort.Insert(RenumberOne(base, x), Renumbered(base, s[1..]), BySequence)
          == Renumbered(base, StableSort.Insert(x, s[1..], BySequence))
    ensures StableSort.Insert(RenumberOne(base, x), Renumbered(base, s), BySequence)
         == Renumbered(base, StableSort.Insert(x, s, BySequence))
  {
    var rest := StableSort.Insert(x, s[1..], BySequence);
    RenumberedCons(base, s);
    RenumberedCons(base, [s[0]] + rest);
  }

  lemma SameOrder(base: seq<Record>, f: nat, x: Record, y: Record)
    requires Deduplicated(base) && Known(base, f, x) && Known(base, f, y)
    ensures RenumberOne(base, x).sequence <= RenumberOne(base, y).sequence <==> x.sequence <= y.sequence
  {
    RankCorrect(base, f, x.sequence, y.sequence);
  }

  lemma {:induction false} SortRenumbered(base: seq<Record>, s: seq<Record>, f: nat)
    requires Deduplicated(base) && forall r :: r in s ==> Known(base, f, r)
    ensures StableSort.Sort(Renumbered(base, s), BySequence) == Renumbered(base, StableSort.Sort(s, BySequence))
  {
    if s != [] {
      assert s[0] in s;
      assert forall r :: r in s[1..] ==> r in s;
      RenumberedCons(base, s);
      SortRenumbered(base, s[1..], f);
      var sorted := StableSort.Sort(s[1..], BySequence);
      StableSort.SortIsStable(s[1..], BySequence);
      assert forall r :: r in sorted ==> r in multiset(s[1..]);
      InsertRenumbered(base, s[0], sorted, f);
    }
  }

  lemma {:induction false} PayloadsRenumbered(base: seq<Record>, s: seq<Record>)
    ensures Payloads(Renumbered(base, s)) == Payloads(s)
  {
    if s != [] {
      PayloadsRenumbered(base, s[..|s| - 1]);
      var out := Renumbered(base, s);
      assert out[..|out| - 1] == Renumbered(base, s[..|s| - 1]);
    }
  }

  /** Renumbering never changes the bytes a file receives. */
  lemma StreamKept(rs: seq<Record>, f: nat)
    requires Deduplicated(rs) && FitsU16(rs)
    ensures SequentialStream(Renumbered(rs, rs), f) == SequentialStream(rs, f)
  {
    OfFileKnown(rs, f);
    OfFileRenumbered(rs, rs, f);
    SortRenumbered(rs, OfFile(rs, f), f);
    PayloadsRenumbered(rs, StableSort.Sort(OfFile(rs, f), BySequence));
  }

  /** The reference does not depend on the order in which the records arrive. */
  lemma StreamIgnoresOrder(a: seq<Record>, b: seq<Record>, f: nat)
    requires Deduplicated(a) && Deduplicated(b) && multiset(a) == multiset(b)
    ensures SequentialStream(a, f) == SequentialStream(b, f)
  {
    OfFileDistinct(a, f);
    OfFileDistinct(b, f);
    forall r ensures multiset(OfFile(a, f))[r] == multiset(OfFile(b, f))[r] {
      OfFileCount(a, f, r);
      OfFileCount(b, f, r);
    }
    assert multiset(OfFile(a, f)) == multiset(OfFile(b, f));
    StableSort.SortIgnoresOrder(OfFile(a, f), OfFile(b, f), BySequence);
  }

  lemma {:induction false} OfFileCount(rs: seq<Record>, f: nat, r: Record)
    ensures multiset(OfFile(rs, f))[r] == if r.file == f then multiset(rs)[r] else 0
  {
    if rs != [] {
      OfFileCount(rs[..|rs| - 1], f, r);
      assert rs == rs[..|rs| - 1] + [rs[|rs| - 1]];
    }
  }

  lemma {:induction false} OfFileDistinct(rs: seq<Record>, f: nat)
    requires Deduplicated(rs)
    ensures StableSort.DistinctKeys(OfFile(rs, f), BySequence) && DistinctSequences(OfFile(rs, f))
  {
    if rs != [] {
      var front, last := rs[..|rs| - 1], rs[|rs| - 1];
      OfFileDistinct(front, f);
      OfFileMembers(front, f);
      var kept := OfFile(front, f);
      forall k | 0 <= k < |kept| && last.file == f ensures kept[k].sequence != last.sequence {
        assert kept[k] in kept;
        var i :| 0 <= i < |front| && front[i] == kept[k];
        assert !SameChunk(rs[i], rs[|rs| - 1]);
      }
    }
  }

  // --------------------------------------------------- what a dense file receives

  /** A file's chunks carry the numbers `0..n` once each. */
  ghost predicate Dense(chunks: seq<Record>) {
    DistinctSequences(chunks) && forall r :: r in chunks ==> r.sequence < |chunks|
  }

  lemma {:induction false} SortedAtLeast(s: seq<Record>, i: nat)
    requires StableSort.Sorted(s, BySequence) && DistinctSequences(s) && i < |s|
    ensures i <= s[i].sequence
  {
    if i != 0 {
      SortedAtLeast(s, i - 1);
      assert BySequence(s[i - 1]) <= BySequence(s[i]) && s[i - 1].sequence != s[i].sequence;
    }
  }

  lemma {:induction false} SortedAtMost(s: seq<Record>, i: nat)
    requires StableSort.Sorted(s, BySequence) && Dense(s) && i < |s|
    ensures s[i].sequence <= i
    decreases |s| - i
  {
    if i == |s| - 1 {
      assert s[i] in s;
    } else {
      SortedAtMost(s, i + 1);
      assert BySequence(s[i]) <= BySequence(s[i + 1]) && s[i].sequence != s[i + 1].sequence;
    }
  }

  lemma SortedDense(chunks: seq<Record>)
    requires Dense(chunks)
    ensures
      var s := StableSort.Sort(chunks, BySequence);
      |s| == |chunks| && forall i :: 0 <= i < |s| ==> s[i].sequence == i && s[i] in chunks
  {
    var s := StableSort.Sort(chunks, BySequence);
    StableSort.SortIsStable(chunks, BySequence);
    SortKeepsDistinct(chunks);
    assert forall r :: r in s ==> r in multiset(chunks);
    forall i | 0 <= i < |s| ensures s[i].sequence == i && s[i] in chunks {
      assert s[i] in s;
      SortedAtLeast(s, i);
      SortedAtMost(s, i);
    }
  }

  lemma SortKeepsDistinct(chunks: seq<Record>)
    requires DistinctSequences(chunks)
    ensures DistinctSequences(StableSort.Sort(chunks, BySequence))
  {
    var s := StableSort.Sort(chunks, BySequence);
    StableSort.SortIsStable(chunks, BySequence);
    forall i, j | 0 <= i < j < |s| ensures s[i].sequence != s[j].sequence {
      if s[i].sequence == s[j].sequence {
        var k := s[i].sequence;
        TwoWithKey(s, i, j);
        StableSort.WithKeyMember(s, BySequence, i);
        assert StableSort.WithKey(s, BySequence, k) == StableSort.WithKey(chunks, BySequence, k);
        StableSort.WithKeySource(chunks, BySequence, k);
        var m :| 0 <= m < |chunks| && BySequence(chunks[m]) == k;
        StableSort.WithKeyOfDistinct(chunks, BySequence, m);
        assert false;
      }
    }
  }

  lemma {:induction false} TwoWithKey(s: seq<Record>, i: nat, j: nat)
    requires i < j < |s| && s[i].sequence == s[j].sequence
    ensures |StableSort.WithKey(s, BySequence, s[i].sequence)| >= 2
  {
    if i == 0 {
      StableSort.WithKeyMember(s[1..], BySequence, j - 1);
    } else {
      TwoWithKey(s[1..], i - 1, j - 1);
    }
  }

  lemma {:induction false} JoinedIsFlattened(m: map<nat, seq<Byte>>, s: seq<Record>, n: nat)
    requires n <= |s| && Covers(m, n)
    requires forall i :: 0 <= i < n ==> m[i] == s[i].payload
    ensures Joined(m, n) == Flatten(Payloads(s[..n]))
  {
    if n != 0 {
      JoinedIsFlattened(m, s, n - 1);
      assert s[..n][..n - 1] == s[..n - 1];
      var front := Payloads(s[..n - 1]);
      assert (front + [s[n - 1].payload])[..|front|] == front;
    }
  }

  lemma DenseCovers(chunks: seq<Record>)
    requires Dense(chunks)
    ensures
      var m, s := ChunkMap(chunks), StableSort.Sort(chunks, BySequence);
      && Covers(m, |chunks|) && (forall k :: k in m ==> k < |chunks|)
      && |s| == |chunks| && forall i :: 0 <= i < |s| ==> m[i] == s[i].payload
  {
    ChunkMapContents(chunks);
    SortedDense(chunks);
    var m, s := ChunkMap(chunks), StableSort.Sort(chunks, BySequence);
    forall k: nat | k < |chunks| ensures k in m && m[k] == s[k].payload {
      assert s[k].sequence == k;
    }
  }

  /**
   Dense chunks, in every order that stays inside the window, fill the slot
   completely and leave nothing buffered. In a ring as large as the file every
   order does.
   */
  lemma DenseSlot(chunks: seq<Record>, capacity: nat)
    requires Dense(chunks)
    ensures |chunks| <= capacity ==> InWindow(chunks, capacity)
    ensures AcceptAll(EmptySlot(capacity), chunks) ==
      if InWindow(chunks, capacity)
      then Some(SlotState(|chunks|, map[], capacity, Flatten(Payloads(StableSort.Sort(chunks, BySequence)))))
      else None
  {
    if |chunks| <= capacity { RoomForAll(chunks, capacity); }
    AnyOrderIsCanonical(chunks, capacity);
    DenseCanonical(chunks, capacity);
  }

  lemma DenseCanonical(chunks: seq<Record>, capacity: nat)
    requires Dense(chunks)
    ensures Canonical(ChunkMap(chunks), capacity) ==
      SlotState(|chunks|, map[], capacity, Flatten(Payloads(StableSort.Sort(chunks, BySequence))))
  {
    var n := |chunks|;
    var m := ChunkMap(chunks);
    var s := StableSort.Sort(chunks, BySequence);
    DenseCovers(chunks);
    GapUnique(m, n);
    JoinedIsFlattened(m, s, n);
    assert s[..n] == s;
    assert StateAt(m, capacity, n).pending == map[];
  }

  lemma {:induction false} RenumberedMembers(base: seq<Record>, rs: seq<Record>)
    ensures forall r :: r in Renumbered(base, rs) ==> exists x :: x in rs && r == RenumberOne(base, x)
  {
    if rs != [] {
      RenumberedMembers(base, rs[..|rs| - 1]);
      forall r | r in Renumbered(base, rs) ensures exists x :: x in rs && r == RenumberOne(base, x) {
        if r in Renumbered(base, rs[..|rs| - 1]) {
          var x :| x in rs[..|rs| - 1] && r == RenumberOne(base, x);
          assert x in rs;
        } else {
          assert rs[|rs| - 1] in rs;
        }
      }
    }
  }

  lemma {:induction false} RenumberedAt(base: seq<Record>, rs: seq<Record>, i: nat)
    requires i < |rs|
    ensures |Renumbered(base, rs)| == |rs| && Renumbered(base, rs)[i] == RenumberOne(base, rs[i])
  {
    if i < |rs| - 1 {
      RenumberedAt(base, rs[..|rs| - 1], i);
    } else if i > 0 {
      RenumberedAt(base, rs[..|rs| - 1], 0);
    }
  }

  /** Renumbering gives each file exactly the numbers `0..n`. */
  lemma RenumberedDense(rs: seq<Record>, f: nat)
    requires Deduplicated(rs) && FitsU16(rs)
    ensures Dense(OfFile(Renumbered(rs, rs), f))
    ensures |OfFile(Renumbered(rs, rs), f)| == |OfFile(rs, f)|
  {
    var chunks := OfFile(rs, f);
    var out := Renumbered(rs, chunks);
    OfFileRenumbered(rs, rs, f);
    OfFileKnown(rs, f);
    OfFileMembers(rs, f);
    OfFileDistinct(rs, f);
    if chunks != [] { RenumberedAt(rs, chunks, 0); }
    forall i, j | 0 <= i < j < |out| ensures out[i].sequence != out[j].sequence {
      RenumberedAt(rs, chunks, i);
      RenumberedAt(rs, chunks, j);
      assert chunks[i] in chunks && chunks[j] in chunks;
      RankCorrect(rs, f, chunks[i].sequence, chunks[j].sequence);
      RankCorrect(rs, f, chunks[j].sequence, chunks[i].sequence);
    }
    forall r | r in out ensures r.sequence < |out| {
      var i :| 0 <= i < |out| && out[i] == r;
      RenumberedAt(rs, chunks, i);
      assert chunks[i] in chunks;
      RankExact(rs, f, chunks[i].sequence);
    }
  }

  /** What renumbering leaves alone, and what it preserves, record by record. */
  lemma RenumberedKeeps(rs: seq<Record>, i: nat, j: nat)
    requires Deduplicated(rs) && FitsU16(rs) && i < |rs| && j < |rs|
    ensures
      var out := Renumbered(rs, rs);
      && |out| == |rs| && out[i].file == rs[i].file && out[i].payload == rs[i].payload
      && (rs[i].file == rs[j].file ==> (out[i].sequence <= out[j].sequence <==> rs[i].sequence <= rs[j].sequence))
  {
    RenumberedAt(rs, rs, i);
    RenumberedAt(rs, rs, j);
    if rs[i].file == rs[j].file {
      NumbersContain(rs, i);
      NumbersContain(rs, j);
      RankCorrect(rs, rs[i].file, rs[i].sequence, rs[j].sequence);
    }
  }

  // ------------------------------------------------------ the harness assertion

  function Registered(fileCount: nat, capacity: nat): map<nat, SlotState> {
    if fileCount == 0 then map[] else Registered(fileCount - 1, capacity)[fileCount - 1 := EmptySlot(capacity)]
  }

  lemma {:induction false} RegisteredSlots(fileCount: nat, capacity: nat)
    ensures forall f :: f in Registered(fileCount, capacity) <==> 0 <= f < fileCount
    ensures forall f :: f in Registered(fileCount, capacity) ==>
      Registered(fileCount, capacity)[f] == EmptySlot(capacity)
  {
    if fileCount != 0 { RegisteredSlots(fileCount - 1, capacity); }
  }

  /** Applies every record and hashes every registered file; `None` when a chunk was refused. */
  function ParallelHashes<D>(fileCount: nat, rs: seq<Record>, capacity: nat, sha: seq<Byte> -> D): Option<map<nat, D>> {
    match ApplyAll(Registered(fileCount, capacity), rs)
    case None => None
    case Some(final) => Some(map f | f in final :: sha(final[f].written))
  }

  /** What the harness feeds to both sides. */
  function Prepared(records: seq<Record>): seq<Record> {
    Renumbered(Dedup(records), Dedup(records))
  }

  lemma {:induction false} FilesOfMembers(rs: seq<Record>)
    ensures forall f :: f in FilesOf(rs) <==> exists r :: r in rs && r.file == f
  {
    if rs != [] {
      var front, last := rs[..|rs| - 1], rs[|rs| - 1];
      FilesOfMembers(front);
      assert rs == front + [last];
      assert last in rs;
    }
  }

  lemma {:induction false} FilesRenumbered(base: seq<Record>, rs: seq<Record>)
    ensures FilesOf(Renumbered(base, rs)) == FilesOf(rs)
  {
    if rs != [] {
      FilesRenumbered(base, rs[..|rs| - 1]);
      var out := Renumbered(base, rs);
      assert out[..|out| - 1] == Renumbered(base, rs[..|rs| - 1]);
    }
  }

  lemma DedupFiles(rs: seq<Record>)
    ensures FilesOf(Dedup(rs)) == FilesOf(rs)
  {
    DedupCorrect(rs);
    FilesOfMembers(rs);
    FilesOfMembers(Dedup(rs));
    forall f | f in FilesOf(rs) ensures f in FilesOf(Dedup(rs)) {
      var r :| r in rs && r.file == f;
      var i :| 0 <= i < |Dedup(rs)| && SameChunk(Dedup(rs)[i], r);
      assert Dedup(rs)[i] in Dedup(rs);
    }
  }

  lemma {:induction false} OfFileLength(rs: seq<Record>, f: nat)
    ensures |OfFile(rs, f)| <= |rs|
  {
    if rs != [] { OfFileLength(rs[..|rs| - 1], f); }
  }

  /** Every file's chunks arrive inside the file's window. */
  ghost predicate FilesInWindow(fileCount: nat, rs: seq<Record>, capacity: nat) {
    forall f :: 0 <= f < fileCount ==> InWindow(OfFile(rs, f), capacity)
  }

  lemma PreparedIsDense(records: seq<Record>, f: nat)
    requires FitsU16(records)
    ensures Dense(OfFile(Prepared(records), f)) && |OfFile(Prepared(records), f)| <= |records|
  {
    var kept := Dedup(records);
    DedupCorrect(records);
    assert FitsU16(kept) by {
      forall i | 0 <= i < |kept| ensures kept[i].sequence <= U16_MAX { assert kept[i] in records; }
    }
    RenumberedDense(kept, f);
    OfFileLength(kept, f);
  }

  /**
   For every record list and every ring: nothing is refused exactly when every
   file's chunks arrive inside its window, which they do in rings as large as the
   list. Then each registered file receives the bytes of the sequential reference
   and no byte is left waiting.
   */
  lemma DestinationsMatchReference(fileCount: nat, records: seq<Record>, capacity: nat)
    requires FitsU16(records) && forall r :: r in records ==> r.file < fileCount
    ensures |records| <= capacity ==> FilesInWindow(fileCount, Prepared(records), capacity)
    ensures
      var rs := Prepared(records);
      var final := ApplyAll(Registered(fileCount, capacity), rs);
      && (final.Some? <==> FilesInWindow(fileCount, rs, capacity))
      && (final.Some? ==>
        && (forall f :: f in final.value <==> 0 <= f < fileCount)
        && forall f :: 0 <= f < fileCount ==>
          final.value[f].written == SequentialStream(rs, f) && final.value[f].pending == map[])
  {
    RegisteredSlots(fileCount, capacity);
    PreparedFilesKnown(fileCount, records);
    PreparedAllDelivered(fileCount, records, capacity);
    AllDelivered(fileCount, Registered(fileCount, capacity), Prepared(records), capacity);
  }

  lemma PreparedAllDelivered(fileCount: nat, records: seq<Record>, capacity: nat)
    requires FitsU16(records)
    ensures forall f :: f in Registered(fileCount, capacity) ==>
      FileDelivered(Registered(fileCount, capacity)[f], Prepared(records), f, capacity)
    ensures |records| <= capacity ==> FilesInWindow(fileCount, Prepared(records), capacity)
  {
    var files := Registered(fileCount, capacity);
    RegisteredSlots(fileCount, capacity);
    forall f | f in files
      ensures FileDelivered(files[f], Prepared(records), f, capacity)
      ensures |records| <= capacity ==> InWindow(OfFile(Prepared(records), f), capacity)
    {
      PreparedDelivered(records, f, capacity);
    }
  }

  lemma PreparedFilesKnown(fileCount: nat, records: seq<Record>)
    requires forall r :: r in records ==> r.file < fileCount
    ensures forall r :: r in Prepared(records) ==> r.file < fileCount
  {
    DedupCorrect(records);
    RenumberedMembers(Dedup(records), Dedup(records));
  }

  ghost predicate FileDelivered(st: SlotState, rs: seq<Record>, f: nat, capacity: nat) {
    var final := AcceptAll(st, OfFile(rs, f));
    && (final.Some? <==> InWindow(OfFile(rs, f), capacity))
    && (final.Some? ==> final.value.written == SequentialStream(rs, f) && final.value.pending == map[])
  }

  lemma PreparedDelivered(records: seq<Record>, f: nat, capacity: nat)
    requires FitsU16(records)
    ensures FileDelivered(EmptySlot(capacity), Prepared(records), f, capacity)
    ensures |records| <= capacity ==> InWindow(OfFile(Prepared(records), f), capacity)
  {
    PreparedIsDense(records, f);
    DenseSlot(OfFile(Prepared(records), f), capacity);
  }

  lemma AllDelivered(fileCount: nat, files: map<nat, SlotState>, rs: seq<Record>, capacity: nat)
    requires forall f :: f in files <==> 0 <= f < fileCount
    requires forall r :: r in rs ==> r.file < fileCount
    requires forall f :: f in files ==> FileDelivered(files[f], rs, f, capacity)
    ensures
      var final := ApplyAll(files, rs);
      && (final.Some? <==> FilesInWindow(fileCount, rs, capacity))
      && (final.Some? ==>
        && (forall f :: f in final.value <==> 0 <= f < fileCount)
        && forall f :: 0 <= f < fileCount ==>
          final.value[f].written == SequentialStream(rs, f) && final.value[f].pending == map[])
  {
    ApplyAllSplits(files, rs);
  }

  lemma ActualDigests<D>(fileCount: nat, records: seq<Record>, capacity: nat, sha: seq<Byte> -> D)
    requires FitsU16(records) && forall r :: r in records ==> r.file < fileCount
    ensures |records| <= capacity ==> FilesInWindow(fileCount, Prepared(records), capacity)
    ensures
      var rs := Prepared(records);
      var actual := ParallelHashes(fileCount, rs, capacity, sha);
      && (actual.Some? <==> FilesInWindow(fileCount, rs, capacity))
      && (actual.Some? ==>
        && (forall f :: f in actual.value <==> 0 <= f < fileCount)
        && forall f :: 0 <= f < fileCount ==> actual.value[f] == sha(SequentialStream(rs, f)))
  {
    DestinationsMatchReference(fileCount, records, capacity);
  }

  ghost predicate EveryFileHit(fileCount: nat, records: seq<Record>) {
    forall f: nat :: f < fileCount ==> f in FilesOf(records)
  }

  /** The fuzz target reaches its assertion, because no chunk was refused. */
  ghost predicate Reached<D>(fileCount: nat, records: seq<Record>, capacity: nat, sha: seq<Byte> -> D) {
    ParallelHashes(fileCount, Prepared(records), capacity, sha).Some?
  }

  /** What the fuzz target asserts at its end. */
  ghost predicate AssertionHolds<D>(fileCount: nat, records: seq<Record>, capacity: nat, sha: seq<Byte> -> D) {
    var rs := Prepared(records);
    ParallelHashes(fileCount, rs, capacity, sha) == Some(Reference(rs, sha))
  }

  /** The two digest maps agree exactly when every registered file occurs among the records. */
  lemma DigestsAgree<D>(fileCount: nat, records: seq<Record>, capacity: nat, sha: seq<Byte> -> D)
    requires FitsU16(records) && forall r :: r in records ==> r.file < fileCount
    requires Reached(fileCount, records, capacity, sha)
    ensures AssertionHolds(fileCount, records, capacity, sha) <==> EveryFileHit(fileCount, records)
  {
    ActualDigests(fileCount, records, capacity, sha);
    var rs := Prepared(records);
    var actual, expected := ParallelHashes(fileCount, rs, capacity, sha).value, Reference(rs, sha);
    ReferenceKeys(fileCount, records, sha);
    AgreeOnCommonKeys(actual, expected, fileCount);
  }

  lemma ReferenceKeys<D>(fileCount: nat, records: seq<Record>, sha: seq<Byte> -> D)
    requires forall r :: r in records ==> r.file < fileCount
    ensures
      var expected := Reference(Prepared(records), sha);
      && (forall f :: f in expected <==> f in FilesOf(records))
      && forall f :: f in expected ==> 0 <= f < fileCount && expected[f] == sha(SequentialStream(Prepared(records), f))
  {
    PreparedFiles(records);
    FilesOfMembers(records);
  }

  lemma AgreeOnCommonKeys<D>(actual: map<nat, D>, expected: map<nat, D>, fileCount: nat)
    requires forall f :: f in actual <==> 0 <= f < fileCount
    requires forall f :: f in expected ==> f in actual && actual[f] == expected[f]
    ensures actual == expected <==> forall f: nat :: f < fileCount ==> f in expected
  {
    if forall f: nat :: f < fileCount ==> f in expected {
      assert forall f :: f in actual <==> f in expected;
      assert actual == expected;
    }
  }

  lemma PreparedFiles(records: seq<Record>)
    ensures FilesOf(Prepared(records)) == FilesOf(records)
  {
    DedupFiles(records);
    FilesRenumbered(Dedup(records), Dedup(records));
  }

  /**
   The assertion at the end of the fuzz target, for every input it does not skip and
   every ring capacity. It is reached exactly when each file's chunks arrive inside
   the file's window, always so with rings of at least 64; and it holds
   exactly when every registered file occurs among the records.
   */
  lemma HarnessAssertion<D>(data: seq<Byte>, p: Option<Parsed>, capacity: nat, sha: seq<Byte> -> D)
    requires IsParse(data, p) && p.Some?
    ensures
      var files, records := p.value.fileCount, p.value.records;
      && (64 <= capacity ==> Reached(files, records, capacity, sha))
      && (Reached(files, records, capacity, sha) <==> FilesInWindow(files, Prepared(records), capacity))
      && (Reached(files, records, capacity, sha) ==>
        (AssertionHolds(files, records, capacity, sha) <==> EveryFileHit(files, records)))
  {
    var n: nat :| ParsedAs(data, p, n);
    RecordsBounds(data, p.value.fileCount, PayloadSize(data), n);
    ActualDigests(p.value.fileCount, p.value.records, capacity, sha);
    if Reached(p.value.fileCount, p.value.records, capacity, sha) {
      DigestsAgree(p.value.fileCount, p.value.records, capacity, sha);
    }
  }

  /** 21 bytes that register two files and write 16 zero bytes to the first. */
  function OneSidedInput(): (data: seq<Byte>)
    ensures |data| == 21 && data[0] == 1 && forall i :: 1 <= i < 21 ==> data[i] == 0
  {
    [1] + seq(20, _ => 0)
  }

  lemma OneSidedParse(p: Parsed)
    requires p == Parsed(2, [Record(0, 0, OneSidedInput()[5..])])
    ensures IsParse(OneSidedInput(), Some(p))
  {
    var data := OneSidedInput();
    assert PowerOfTwo(2) == 4;
    assert PayloadSize(data) == PowerOfTwo(4) == 16;
    assert RecordStart(16, 1) == 21;
    assert RecordsOf(data, 2, 16, 0) == [];
    assert RecordAt(data, 2, 16, 2) == p.records[0];
    assert RecordsOf(data, 2, 16, 1) == p.records;
    assert ParsedAs(data, Some(p), 1);
  }

  lemma SecondFileMissed(records: seq<Record>)
    requires |records| == 1 && records[0].file == 0
    ensures !EveryFileHit(2, records)
  {
    assert FilesOf(records) == {0};
    assert 1 !in FilesOf(records);
  }

  /** On that input the two sides differ, so the assertion fails although every byte was delivered. */
  lemma HarnessAssertionFails<D>(p: Parsed, capacity: nat, sha: seq<Byte> -> D)
    requires p == Parsed(2, [Record(0, 0, OneSidedInput()[5..])]) && 64 <= capacity
    ensures IsParse(OneSidedInput(), Some(p))
    ensures Reached(2, p.records, capacity, sha) && !AssertionHolds(2, p.records, capacity, sha)
  {
    OneSidedParse(p);
    SecondFileMissed(p.records);
    HarnessAssertion(OneSidedInput(), Some(p), capacity, sha);
  }
}
