/**
 The AppleDouble v2 container (section 5 of RFC 1740): a 26-byte header, a table
 of 12-byte descriptors, and the payloads one after another in table order.

 `Encode` and `Decode` are the two loops of the source. `Layout` and `Contents`
 are what they are proved to compute, and `RoundTrip` says that the two undo each
 other up to the stable sort by entry id.
 */
module AppleDouble {
  import opened Prelude
  import StableSort

  const APPLE_DOUBLE_MAGIC: U32 := 0x0005_1607
  const APPLE_SINGLE_MAGIC: U32 := 0x0005_1600
  const APPLE_DOUBLE_VERSION_2: U32 := 0x0002_0000
  const HEADER_SIZE := 26
  const ENTRY_DESCRIPTOR_SIZE := 12

  datatype Entry = Entry(id: U32, data: seq<Byte>)

  datatype Error =
    | TooManyEntries | SizeExceedsU32 | PayloadExceedsU32 | OffsetOverflows
    | HeaderTruncated | MagicMismatch | WrongVersion | TableTruncated | PayloadPastInput

  // ------------------------------------------------------------ big-endian words

  function WriteU16(n: int): (b: seq<Byte>)
    requires 0 <= n <= U16_MAX
    ensures |b| == 2
  {
    [n / 0x100, n % 0x100]
  }

  function WriteU32(n: U32): (b: seq<Byte>)
    ensures |b| == 4
  {
    WriteU16(n / 0x1_0000) + WriteU16(n % 0x1_0000)
  }

  function ReadU16(b: seq<Byte>): (n: nat)
    requires |b| == 2
    ensures n <= U16_MAX
  {
    b[0] as int * 0x100 + b[1] as int
  }

  function ReadU32(b: seq<Byte>): (n: U32)
    requires |b| == 4
  {
    ReadU16(b[..2]) * 0x1_0000 + ReadU16(b[2..])
  }

  lemma ReadWriteU16(n: int)
    requires 0 <= n <= U16_MAX
    ensures ReadU16(WriteU16(n)) == n
  {
  }

  lemma ReadWriteU32(n: U32)
    ensures ReadU32(WriteU32(n)) == n
  {
    var hi, lo := n / 0x1_0000, n % 0x1_0000;
    assert WriteU32(n)[..2] == WriteU16(hi) && WriteU32(n)[2..] == WriteU16(lo);
    ReadWriteU16(hi);
    ReadWriteU16(lo);
  }

  // ------------------------------------------------------------ what encode writes

  function ById(e: Entry): int {
    e.id
  }

  function Ordered(entries: seq<Entry>): seq<Entry> {
    StableSort.Sort(entries, ById)
  }

  function TotalLen(es: seq<Entry>): nat {
    if es == [] then 0 else TotalLen(es[..|es| - 1]) + |es[|es| - 1].data|
  }

  function TableEnd(n: nat): nat {
    HEADER_SIZE + n * ENTRY_DESCRIPTOR_SIZE
  }

  function EncodedSize(es: seq<Entry>): nat {
    TableEnd(|es|) + TotalLen(es)
  }

  predicate Encodable(es: seq<Entry>) {
    |es| <= U16_MAX && EncodedSize(es) <= U32_MAX
  }

  function Header(n: nat): (b: seq<Byte>)
    requires n <= U16_MAX
    ensures |b| == HEADER_SIZE
  {
    WriteU32(APPLE_DOUBLE_MAGIC) + WriteU32(APPLE_DOUBLE_VERSION_2)
    + [0, 0, 0, 0, 0, 0, 0, 0, 0, 0, 0, 0, 0, 0, 0, 0] + WriteU16(n)
  }

  function Descriptor(id: U32, offset: U32, length: U32): (b: seq<Byte>)
    ensures |b| == ENTRY_DESCRIPTOR_SIZE
  {
    WriteU32(id) + WriteU32(offset) + WriteU32(length)
  }

  /** The descriptors of `es`, whose payloads start at `start` and follow one another. */
  function Table(es: seq<Entry>, start: nat): seq<Byte>
    requires start + TotalLen(es) <= U32_MAX
  {
    if es == [] then []
    else
      var front, last := es[..|es| - 1], es[|es| - 1];
      Table(front, start) + Descriptor(last.id, start + TotalLen(front), |last.data|)
  }

  function Payloads(es: seq<Entry>): seq<Byte> {
    if es == [] then [] else Payloads(es[..|es| - 1]) + es[|es| - 1].data
  }

  /** The bytes for entries that are already in order. */
  function Layout(es: seq<Entry>): seq<Byte>
    requires Encodable(es)
  {
    Header(|es|) + Table(es, TableEnd(|es|)) + Payloads(es)
  }

  function Encoded(entries: seq<Entry>): Result<seq<Byte>, Error> {
    var es := Ordered(entries);
    if |entries| > U16_MAX then Err(TooManyEntries)
    else if EncodedSize(es) > U32_MAX then Err(SizeExceedsU32)
    else OrderedLen(entries); Ok(Layout(es))
  }

  // ------------------------------------------------------------ what decode reads

  function EntryCount(input: seq<Byte>): (n: nat)
    requires HEADER_SIZE <= |input|
    ensures n <= U16_MAX
  {
    ReadU16(input[24..26])
  }

  predicate HasTable(input: seq<Byte>) {
    HEADER_SIZE <= |input| && TableEnd(EntryCount(input)) <= |input|
  }

  function Field(input: seq<Byte>, i: nat, at: nat): U32
    requires HasTable(input) && i < EntryCount(input) && at <= 8
  {
    var base := TableEnd(i);
    ReadU32(input[base + at..base + at + 4])
  }

  function IdAt(input: seq<Byte>, i: nat): U32
    requires HasTable(input) && i < EntryCount(input)
  {
    Field(input, i, 0)
  }

  function OffsetAt(input: seq<Byte>, i: nat): U32
    requires HasTable(input) && i < EntryCount(input)
  {
    Field(input, i, 4)
  }

  function LengthAt(input: seq<Byte>, i: nat): U32
    requires HasTable(input) && i < EntryCount(input)
  {
    Field(input, i, 8)
  }

  predicate InRange(input: seq<Byte>, i: nat)
    requires HasTable(input) && i < EntryCount(input)
  {
    OffsetAt(input, i) as int + LengthAt(input, i) as int <= |input|
  }

  function EntryAt(input: seq<Byte>, i: nat): Entry
    requires HasTable(input) && i < EntryCount(input) && InRange(input, i)
  {
    var offset, length := OffsetAt(input, i) as int, LengthAt(input, i) as int;
    Entry(IdAt(input, i), input[offset..offset + length])
  }

  predicate FirstInRange(input: seq<Byte>, n: nat)
    requires HasTable(input) && n <= EntryCount(input)
  {
    forall i :: 0 <= i < n ==> InRange(input, i)
  }

  predicate AllInRange(input: seq<Byte>)
    requires HasTable(input)
  {
    FirstInRange(input, EntryCount(input))
  }

  /** The entries the first `n` descriptors point at. */
  function EntriesOf(input: seq<Byte>, n: nat): seq<Entry>
    requires HasTable(input) && n <= EntryCount(input) && FirstInRange(input, n)
  {
    if n == 0 then [] else EntriesOf(input, n - 1) + [EntryAt(input, n - 1)]
  }

  function Contents(input: seq<Byte>): Result<seq<Entry>, Error> {
    if |input| < HEADER_SIZE then Err(HeaderTruncated)
    else if ReadU32(input[0..4]) != APPLE_DOUBLE_MAGIC && ReadU32(input[0..4]) != APPLE_SINGLE_MAGIC
    then Err(MagicMismatch)
    else if ReadU32(input[4..8]) != APPLE_DOUBLE_VERSION_2 then Err(WrongVersion)
    else if !HasTable(input) then Err(TableTruncated)
    else if !AllInRange(input) then Err(PayloadPastInput)
    else Ok(EntriesOf(input, EntryCount(input)))
  }

  // ------------------------------------------------------------ the two loops

  lemma OrderedLen(entries: seq<Entry>)
    ensures |Ordered(entries)| == |entries|
  {
    StableSort.SortIsStable(entries, ById);
  }

  method SumLengths(es: seq<Entry>) returns (total: nat)
    ensures total == TotalLen(es)
  {
    total := 0;
    for i := 0 to |es|
      invariant total == TotalLen(es[..i])
    {
      assert es[..i + 1][..i] == es[..i];
      total := total + |es[i].data|;
    }
    assert es[..|es|] == es;
  }

  method WriteDescriptor(id: U32, offset: U32, length: U32) returns (out: seq<Byte>)
    ensures out == Descriptor(id, offset, length)
  {
    out := WriteU32(id);
    out := out + WriteU32(offset);
    out := out + WriteU32(length);
  }

  /** The descriptor loop. Its two range checks are the source's; they never fire. */
  method WriteTable(es: seq<Entry>, start: nat) returns (r: Result<seq<Byte>, Error>)
    requires start + TotalLen(es) <= U32_MAX
    ensures r == Ok(Table(es, start))
  {
    var out := [];
    var payloadOffset := start;
    for i := 0 to |es|
      invariant payloadOffset == start + TotalLen(es[..i]) <= U32_MAX
      invariant out == Table(es[..i], start)
    {
      TableStep(es, start, i);
      var length := |es[i].data|;
      if length > U32_MAX { return Err(PayloadExceedsU32); }
      var descriptor := WriteDescriptor(es[i].id, payloadOffset, length);
      out := out + descriptor;
      if payloadOffset + length > U32_MAX { return Err(OffsetOverflows); }
      payloadOffset := payloadOffset + length;
    }
    assert es[..|es|] == es;
    return Ok(out);
  }

  method WritePayloads(es: seq<Entry>) returns (out: seq<Byte>)
    ensures out == Payloads(es)
  {
    out := [];
    for i := 0 to |es|
      invariant out == Payloads(es[..i])
    {
      assert es[..i + 1][..i] == es[..i];
      out := out + es[i].data;
    }
    assert es[..|es|] == es;
  }

  method Encode(entries: seq<Entry>) returns (r: Result<seq<Byte>, Error>)
    ensures r == Encoded(entries)
  {
    if |entries| > U16_MAX { return Err(TooManyEntries); }
    var ordered := Ordered(entries);
    OrderedLen(entries);
    var descriptorsEnd := HEADER_SIZE + |ordered| * ENTRY_DESCRIPTOR_SIZE;
    var total := SumLengths(ordered);
    if descriptorsEnd + total > U32_MAX { return Err(SizeExceedsU32); }
    var table := WriteTable(ordered, descriptorsEnd);
    if table.Err? { return table; }
    var payloads := WritePayloads(ordered);
    return Ok(Header(|ordered|) + table.value + payloads);
  }

  lemma {:induction false} TotalLenMonotone(es: seq<Entry>, i: nat)
    requires i <= |es|
    ensures TotalLen(es[..i]) <= TotalLen(es)
  {
    if i == |es| {
      assert es[..i] == es;
    } else {
      TotalLenMonotone(es[..|es| - 1], i);
      assert es[..|es| - 1][..i] == es[..i];
    }
  }

  method ReadEntry(input: seq<Byte>, index: nat) returns (r: Result<Entry, Error>)
    requires HasTable(input) && index < EntryCount(input)
    ensures r == if InRange(input, index) then Ok(EntryAt(input, index)) else Err(PayloadPastInput)
  {
    var base := HEADER_SIZE + index * ENTRY_DESCRIPTOR_SIZE;
    var id := ReadU32(input[base..base + 4]);
    var offset := ReadU32(input[base + 4..base + 8]) as int;
    var length := ReadU32(input[base + 8..base + 12]) as int;
    var end := offset + length;
    if end > |input| { return Err(PayloadPastInput); }
    return Ok(Entry(id, input[offset..end]));
  }

  method ReadEntries(input: seq<Byte>) returns (r: Result<seq<Entry>, Error>)
    requires HasTable(input)
    ensures r == if AllInRange(input) then Ok(EntriesOf(input, EntryCount(input))) else Err(PayloadPastInput)
  {
    var entries := [];
    var entryCount := EntryCount(input);
    for index := 0 to entryCount
      invariant FirstInRange(input, index)
      invariant entries == EntriesOf(input, index)
    {
      var entry := ReadEntry(input, index);
      if entry.Err? {
        assert !InRange(input, index);
        return Err(PayloadPastInput);
      }
      assert EntriesOf(input, index + 1) == EntriesOf(input, index) + [entry.value];
      entries := entries + [entry.value];
    }
    return Ok(entries);
  }

  method Decode(input: seq<Byte>) returns (r: Result<seq<Entry>, Error>)
    ensures r == Contents(input)
  {
    if |input| < HEADER_SIZE { return Err(HeaderTruncated); }
    var magic := ReadU32(input[0..4]);
    if magic != APPLE_DOUBLE_MAGIC && magic != APPLE_SINGLE_MAGIC { return Err(MagicMismatch); }
    var version := ReadU32(input[4..8]);
    if version != APPLE_DOUBLE_VERSION_2 { return Err(WrongVersion); }
    var entryCount := EntryCount(input);
    var descriptorsEnd := HEADER_SIZE + entryCount * ENTRY_DESCRIPTOR_SIZE;
    if |input| < descriptorsEnd { return Err(TableTruncated); }
    r := ReadEntries(input);
  }

  // ------------------------------------------------------------ round trip

  lemma {:induction false} TableLen(es: seq<Entry>, start: nat)
    requires start + TotalLen(es) <= U32_MAX
    ensures |Table(es, start)| == |es| * ENTRY_DESCRIPTOR_SIZE
  {
    if es != [] { TableLen(es[..|es| - 1], start); }
  }

  lemma {:induction false} PayloadsLen(es: seq<Entry>)
    ensures |Payloads(es)| == TotalLen(es)
  {
    if es != [] { PayloadsLen(es[..|es| - 1]); }
  }

  lemma TableStep(es: seq<Entry>, start: nat, k: nat)
    requires start + TotalLen(es) <= U32_MAX && k < |es|
    ensures start + TotalLen(es[..k]) + |es[k].data| == start + TotalLen(es[..k + 1]) <= U32_MAX
    ensures Table(es[..k + 1], start)
         == Table(es[..k], start) + Descriptor(es[k].id, start + TotalLen(es[..k]), |es[k].data|)
    ensures |Table(es[..k], start)| == k * ENTRY_DESCRIPTOR_SIZE
  {
    assert es[..k + 1][..k] == es[..k];
    TotalLenMonotone(es, k + 1);
    TableLen(es[..k], start);
  }

  lemma TableGrows(es: seq<Entry>, start: nat, k: nat)
    requires start + TotalLen(es) <= U32_MAX && k < |es|
    ensures start + TotalLen(es[..k]) <= start + TotalLen(es[..k + 1]) <= U32_MAX
    ensures Table(es[..k], start) <= Table(es[..k + 1], start)
  {
    TableStep(es, start, k);
  }

  /** Where every step only appends, what was written stays. */
  lemma {:induction false} ChainPrefix(chain: seq<seq<Byte>>, j: nat, k: nat)
    requires j <= k < |chain|
    requires forall i :: 0 <= i < |chain| - 1 ==> chain[i] <= chain[i + 1]
    ensures chain[j] <= chain[k]
  {
    if j < k {
      ChainPrefix(chain, j, k - 1);
      assert chain[k - 1] <= chain[k - 1 + 1];
    }
  }

  lemma TablePrefix(es: seq<Entry>, start: nat, j: nat)
    requires start + TotalLen(es) <= U32_MAX && j <= |es|
    ensures start + TotalLen(es[..j]) <= U32_MAX
    ensures Table(es[..j], start) <= Table(es, start)
  {
    forall k | 0 <= k <= |es| ensures start + TotalLen(es[..k]) <= U32_MAX { TotalLenMonotone(es, k); }
    var chain := seq(|es| + 1, k requires 0 <= k <= |es| => Table(es[..k], start));
    forall k | 0 <= k < |es| ensures chain[k] <= chain[k + 1] { TableGrows(es, start, k); }
    ChainPrefix(chain, j, |es|);
    assert es[..|es|] == es;
  }

  lemma SliceOfPrefix(a: seq<Byte>, b: seq<Byte>, i: nat)
    requires a <= b && i <= |a|
    ensures b[i..|a|] == a[i..]
  {
    assert b[..|a|] == a;
  }

  lemma TableAt(es: seq<Entry>, start: nat, i: nat)
    requires start + TotalLen(es) <= U32_MAX && i < |es|
    ensures |Table(es, start)| == |es| * ENTRY_DESCRIPTOR_SIZE
    ensures start + TotalLen(es[..i]) <= U32_MAX && |es[i].data| <= U32_MAX
    ensures Table(es, start)[i * ENTRY_DESCRIPTOR_SIZE..(i + 1) * ENTRY_DESCRIPTOR_SIZE]
         == Descriptor(es[i].id, start + TotalLen(es[..i]), |es[i].data|)
  {
    TableLen(es, start);
    TableStep(es, start, i);
    TablePrefix(es, start, i + 1);
    SliceOfPrefix(Table(es[..i + 1], start), Table(es, start), i * ENTRY_DESCRIPTOR_SIZE);
  }

  lemma {:induction false} PayloadAt(es: seq<Entry>, i: nat)
    requires i < |es|
    ensures |Payloads(es)| == TotalLen(es) && TotalLen(es[..i]) + |es[i].data| <= TotalLen(es)
    ensures Payloads(es)[TotalLen(es[..i])..TotalLen(es[..i]) + |es[i].data|] == es[i].data
  {
    var n := |es| - 1;
    PayloadsLen(es);
    PayloadsLen(es[..n]);
    if i < n {
      PayloadAt(es[..n], i);
      assert es[..n][..i] == es[..i];
    }
  }

  /** `b` is the layout of `es`, part by part. */
  ghost predicate IsLayout(b: seq<Byte>, es: seq<Entry>) {
    && Encodable(es) && |b| == EncodedSize(es)
    && b[..HEADER_SIZE] == Header(|es|)
    && b[HEADER_SIZE..TableEnd(|es|)] == Table(es, TableEnd(|es|))
    && b[TableEnd(|es|)..] == Payloads(es)
  }

  lemma LayoutParts(es: seq<Entry>)
    requires Encodable(es)
    ensures IsLayout(Layout(es), es)
  {
    TableLen(es, TableEnd(|es|));
    PayloadsLen(es);
  }

  lemma HeaderFields(n: nat)
    requires n <= U16_MAX
    ensures ReadU32(Header(n)[0..4]) == APPLE_DOUBLE_MAGIC
    ensures ReadU32(Header(n)[4..8]) == APPLE_DOUBLE_VERSION_2
    ensures ReadU16(Header(n)[24..26]) == n
  {
    assert Header(n)[0..4] == WriteU32(APPLE_DOUBLE_MAGIC);
    assert Header(n)[4..8] == WriteU32(APPLE_DOUBLE_VERSION_2);
    assert Header(n)[24..26] == WriteU16(n);
    ReadWriteU32(APPLE_DOUBLE_MAGIC);
    ReadWriteU32(APPLE_DOUBLE_VERSION_2);
    ReadWriteU16(n);
  }

  lemma LayoutHeader(b: seq<Byte>, es: seq<Entry>)
    requires IsLayout(b, es)
    ensures HasTable(b) && EntryCount(b) == |es|
    ensures ReadU32(b[0..4]) == APPLE_DOUBLE_MAGIC && ReadU32(b[4..8]) == APPLE_DOUBLE_VERSION_2
  {
    HeaderFields(|es|);
    var h := b[..HEADER_SIZE];
    assert b[0..4] == h[0..4] && b[4..8] == h[4..8] && b[24..26] == h[24..26];
  }

  lemma SliceOfSlice(b: seq<Byte>, lo: nat, hi: nat, i: nat, j: nat)
    requires lo <= hi <= |b| && i <= j <= hi - lo
    ensures b[lo..hi][i..j] == b[lo + i..lo + j]
  {
    var inner, outer := b[lo..hi][i..j], b[lo + i..lo + j];
    assert |inner| == |outer|;
    assert forall k :: 0 <= k < j - i ==> inner[k] == b[lo..hi][i + k] == b[lo + i + k] == outer[k];
  }

  lemma DescriptorFields(d: seq<Byte>, id: U32, offset: U32, length: U32)
    requires d == Descriptor(id, offset, length)
    ensures ReadU32(d[0..4]) == id && ReadU32(d[4..8]) == offset && ReadU32(d[8..12]) == length
  {
    assert d[0..4] == WriteU32(id) && d[4..8] == WriteU32(offset) && d[8..12] == WriteU32(length);
    ReadWriteU32(id);
    ReadWriteU32(offset);
    ReadWriteU32(length);
  }

  lemma DescriptorBytes(b: seq<Byte>, es: seq<Entry>, i: nat)
    requires IsLayout(b, es) && i < |es|
    ensures TableEnd(|es|) + TotalLen(es[..i]) <= U32_MAX && |es[i].data| <= U32_MAX
    ensures TableEnd(i + 1) <= |b|
    ensures b[TableEnd(i)..TableEnd(i + 1)] == Descriptor(es[i].id, TableEnd(|es|) + TotalLen(es[..i]), |es[i].data|)
  {
    TableAt(es, TableEnd(|es|), i);
    SliceOfSlice(b, HEADER_SIZE, TableEnd(|es|), i * ENTRY_DESCRIPTOR_SIZE, (i + 1) * ENTRY_DESCRIPTOR_SIZE);
  }

  /** Descriptor `i` names entry `i`, and its range starts where the earlier payloads end. */
  lemma LayoutDescriptor(b: seq<Byte>, es: seq<Entry>, i: nat)
    requires IsLayout(b, es) && i < |es|
    requires HasTable(b) && EntryCount(b) == |es|
    ensures IdAt(b, i) == es[i].id
    ensures OffsetAt(b, i) == TableEnd(|es|) + TotalLen(es[..i])
    ensures LengthAt(b, i) == |es[i].data|
  {
    DescriptorBytes(b, es, i);
    FieldsFrom(b, i, es[i].id, TableEnd(|es|) + TotalLen(es[..i]), |es[i].data|);
  }

  lemma FieldsFrom(b: seq<Byte>, i: nat, id: U32, offset: U32, length: U32)
    requires HasTable(b) && i < EntryCount(b)
    requires b[TableEnd(i)..TableEnd(i + 1)] == Descriptor(id, offset, length)
    ensures IdAt(b, i) == id && OffsetAt(b, i) == offset && LengthAt(b, i) == length
  {
    DescriptorFields(b[TableEnd(i)..TableEnd(i + 1)], id, offset, length);
    SliceOfSlice(b, TableEnd(i), TableEnd(i + 1), 0, 4);
    SliceOfSlice(b, TableEnd(i), TableEnd(i + 1), 4, 8);
    SliceOfSlice(b, TableEnd(i), TableEnd(i + 1), 8, 12);
  }

  lemma LayoutEntry(b: seq<Byte>, es: seq<Entry>, i: nat)
    requires IsLayout(b, es) && i < |es|
    requires HasTable(b) && EntryCount(b) == |es|
    ensures InRange(b, i) && EntryAt(b, i) == es[i]
  {
    LayoutDescriptor(b, es, i);
    PayloadAt(es, i);
    var at, len := TotalLen(es[..i]), |es[i].data|;
    assert b[TableEnd(|es|)..] == b[TableEnd(|es|)..|b|];
    SliceOfSlice(b, TableEnd(|es|), |b|, at, at + len);
  }

  lemma {:induction false} EntriesCollected(b: seq<Byte>, es: seq<Entry>, n: nat)
    requires HasTable(b) && EntryCount(b) == |es| && n <= |es|
    requires forall i :: 0 <= i < |es| ==> InRange(b, i) && EntryAt(b, i) == es[i]
    ensures EntriesOf(b, n) == es[..n]
  {
    if n != 0 { EntriesCollected(b, es, n - 1); }
  }

  lemma DecodeLayout(b: seq<Byte>, es: seq<Entry>)
    requires IsLayout(b, es)
    ensures Contents(b) == Ok(es)
  {
    LayoutHeader(b, es);
    forall i | 0 <= i < |es| ensures InRange(b, i) && EntryAt(b, i) == es[i] {
      LayoutEntry(b, es, i);
    }
    EntriesCollected(b, es, |es|);
    assert es[..|es|] == es;
  }

  lemma {:induction false} TotalLenConcat(a: seq<Entry>, b: seq<Entry>)
    ensures TotalLen(a + b) == TotalLen(a) + TotalLen(b)
  {
    if b == [] {
      assert a + b == a;
    } else {
      assert (a + b)[..|a + b| - 1] == a + b[..|b| - 1];
      TotalLenConcat(a, b[..|b| - 1]);
    }
  }

  lemma {:induction false} TotalLenInsert(x: Entry, s: seq<Entry>)
    ensures TotalLen(StableSort.Insert(x, s, ById)) == |x.data| + TotalLen(s)
  {
    assert TotalLen([x]) == |x.data|;
    if s == [] || x.id <= s[0].id {
      TotalLenConcat([x], s);
    } else {
      TotalLenInsert(x, s[1..]);
      TotalLenConcat([s[0]], StableSort.Insert(x, s[1..], ById));
      TotalLenConcat([s[0]], s[1..]);
      assert s == [s[0]] + s[1..];
    }
  }

  lemma {:induction false} TotalLenOrdered(s: seq<Entry>)
    ensures TotalLen(Ordered(s)) == TotalLen(s)
  {
    if s != [] {
      TotalLenOrdered(s[1..]);
      TotalLenInsert(s[0], Ordered(s[1..]));
      TotalLenConcat([s[0]], s[1..]);
      assert s == [s[0]] + s[1..];
      assert TotalLen([s[0]]) == |s[0].data|;
    }
  }

  /** Encoding succeeds exactly on containers within the two wire limits; both count the caller's own entries. */
  lemma EncodeSucceedsIff(entries: seq<Entry>)
    ensures Encoded(entries).Ok? <==> |entries| <= U16_MAX && 26 + 12 * |entries| + TotalLen(entries) <= U32_MAX
    ensures Encoded(entries).Ok? ==> |Encoded(entries).value| == 26 + 12 * |entries| + TotalLen(entries)
  {
    OrderedLen(entries);
    TotalLenOrdered(entries);
    if Encoded(entries).Ok? { LayoutParts(Ordered(entries)); }
  }

  /** Decoding what was encoded gives the stable sort of the entries, byte for byte. */
  lemma RoundTrip(entries: seq<Entry>)
    requires Encoded(entries).Ok?
    ensures Contents(Encoded(entries).value) == Ok(Ordered(entries))
  {
    OrderedLen(entries);
    LayoutParts(Ordered(entries));
    DecodeLayout(Layout(Ordered(entries)), Ordered(entries));
  }

  /** The order of the entries survives a round trip exactly when they were already sorted by id. */
  lemma OrderSurvivesIff(entries: seq<Entry>)
    requires Encoded(entries).Ok?
    ensures Contents(Encoded(entries).value) == Ok(entries) <==> StableSort.Sorted(entries, ById)
  {
    RoundTrip(entries);
    StableSort.SortIsStable(entries, ById);
    if StableSort.Sorted(entries, ById) { StableSort.SortedIsFixed(entries, ById); }
  }

  /** A Finder-info entry set before a resource fork comes back after it. */
  lemma OrderLost(data: seq<Byte>, fork: seq<Byte>)
    requires Encoded([Entry(9, data), Entry(2, fork)]).Ok?
    ensures Contents(Encoded([Entry(9, data), Entry(2, fork)]).value) == Ok([Entry(2, fork), Entry(9, data)])
  {
    var info, resource := Entry(9, data), Entry(2, fork);
    RoundTrip([info, resource]);
    assert [info, resource][1..] == [resource] && [resource][1..] == [];
    assert StableSort.Sort([resource], ById) == [resource];
    assert StableSort.Insert(info, [], ById) == [info];
    assert StableSort.Insert(info, [resource], ById) == [resource, info];
  }

  /** Two containers encode to the same bytes exactly when they agree id by id. */
  lemma Canonical(a: seq<Entry>, b: seq<Entry>)
    requires Encoded(a).Ok? && Encoded(b).Ok?
    ensures Encoded(a) == Encoded(b) <==> StableSort.SameByKey(a, b, ById)
  {
    RoundTrip(a);
    RoundTrip(b);
    StableSort.SortEqualIff(a, b, ById);
  }

  /** Reordering entries with distinct ids changes neither the bytes nor the error. */
  lemma OrderIrrelevant(a: seq<Entry>, b: seq<Entry>)
    requires multiset(a) == multiset(b)
    requires StableSort.DistinctKeys(a, ById) && StableSort.DistinctKeys(b, ById)
    ensures Encoded(a) == Encoded(b)
  {
    assert |a| == |multiset(a)| && |b| == |multiset(b)|;
    StableSort.SortIgnoresOrder(a, b, ById);
  }

  /** After one decode and encode, decoding and encoding again is the identity on the bytes. */
  lemma Normalised(input: seq<Byte>)
    requires Contents(input).Ok? && Encoded(Contents(input).value).Ok?
    ensures
      var bytes := Encoded(Contents(input).value).value;
      Contents(bytes).Ok? && Encoded(Contents(bytes).value) == Ok(bytes)
  {
    var entries := Contents(input).value;
    RoundTrip(entries);
    StableSort.SortIsStable(entries, ById);
    StableSort.SortedIsFixed(Ordered(entries), ById);
    OrderedLen(entries);
  }

  /** The payload ranges tile the bytes after the table, in table order, with no gap and no overlap. */
  lemma RangesTile(entries: seq<Entry>)
    requires Encoded(entries).Ok?
    ensures
      var b := Encoded(entries).value;
      var n := |entries|;
      && HasTable(b) && EntryCount(b) == n
      && (n == 0 ==> |b| == TableEnd(n))
      && (n > 0 ==> OffsetAt(b, 0) == TableEnd(n) && OffsetAt(b, n - 1) as int + LengthAt(b, n - 1) as int == |b|)
      && forall i :: 0 <= i < n - 1 ==> OffsetAt(b, i + 1) as int == OffsetAt(b, i) as int + LengthAt(b, i) as int
  {
    var es := Ordered(entries);
    OrderedLen(entries);
    LayoutParts(es);
    LayoutHeader(Layout(es), es);
    LayoutTiles(Layout(es), es);
  }

  lemma LayoutTiles(b: seq<Byte>, es: seq<Entry>)
    requires IsLayout(b, es)
    requires HasTable(b) && EntryCount(b) == |es|
    ensures es == [] ==> |b| == TableEnd(0)
    ensures es != [] ==> OffsetAt(b, 0) == TableEnd(|es|)
    ensures es != [] ==> OffsetAt(b, |es| - 1) as int + LengthAt(b, |es| - 1) as int == |b|
    ensures forall i :: 0 <= i < |es| - 1 ==> OffsetAt(b, i + 1) as int == OffsetAt(b, i) as int + LengthAt(b, i) as int
  {
    forall i | 0 <= i < |es| - 1
      ensures OffsetAt(b, i + 1) as int == OffsetAt(b, i) as int + LengthAt(b, i) as int
    {
      LayoutDescriptor(b, es, i);
      LayoutDescriptor(b, es, i + 1);
      assert es[..i + 1][..i] == es[..i];
    }
    if es != [] {
      LayoutDescriptor(b, es, 0);
      LayoutDescriptor(b, es, |es| - 1);
    }
  }

  // ------------------------------------------------------------ lookup and update

  /** The first entry with the given id. */
  function Find(entries: seq<Entry>, id: U32): Option<Entry> {
    if entries == [] then None
    else if entries[0].id == id then Some(entries[0])
    else Find(entries[1..], id)
  }

  lemma {:induction false} FindIsFirst(entries: seq<Entry>, id: U32)
    ensures
      var all := StableSort.WithKey(entries, ById, id);
      Find(entries, id) == if all == [] then None else Some(all[0])
  {
    if entries != [] { FindIsFirst(entries[1..], id); }
  }

  /** Looking an id up gives the same entry before encoding and after decoding, duplicates included. */
  lemma LookupSurvives(entries: seq<Entry>, id: U32)
    requires Encoded(entries).Ok?
    ensures Contents(Encoded(entries).value).Ok?
    ensures Find(Contents(Encoded(entries).value).value, id) == Find(entries, id)
  {
    RoundTrip(entries);
    StableSort.SortIsStable(entries, ById);
    FindIsFirst(entries, id);
    FindIsFirst(Ordered(entries), id);
    assert StableSort.WithKey(Ordered(entries), ById, id) == StableSort.WithKey(entries, ById, id);
  }

  /** Replaces the first entry with this id, or appends a new one. */
  function Put(entries: seq<Entry>, id: U32, data: seq<Byte>): seq<Entry> {
    if entries == [] then [Entry(id, data)]
    else if entries[0].id == id then [Entry(id, data)] + entries[1..]
    else [entries[0]] + Put(entries[1..], id, data)
  }

  /** The first entry with the id is replaced where it stands; without one, a new entry goes to the end. */
  lemma {:induction false} PutInPlace(entries: seq<Entry>, id: U32, data: seq<Byte>, i: nat)
    requires i <= |entries| && forall k :: 0 <= k < i ==> entries[k].id != id
    requires i < |entries| ==> entries[i].id == id
    ensures Put(entries, id, data) ==
      entries[..i] + [Entry(id, data)] + (if i < |entries| then entries[i + 1..] else [])
    ensures Find(entries, id) == if i < |entries| then Some(entries[i]) else None
  {
    if i != 0 {
      PutInPlace(entries[1..], id, data, i - 1);
      assert entries[..i] == [entries[0]] + entries[1..][..i - 1];
      assert i < |entries| ==> entries[i + 1..] == entries[1..][i..];
    }
  }

  class Container {
    var entries: seq<Entry>

    constructor ()
      ensures entries == []
    {
      entries := [];
    }

    method FindEntry(id: U32) returns (found: Option<Entry>)
      ensures found == Find(entries, id)
    {
      for i := 0 to |entries|
        invariant Find(entries, id) == Find(entries[i..], id)
      {
        if entries[i].id == id {
          return Some(entries[i]);
        }
        assert entries[i..][1..] == entries[i + 1..];
      }
      return None;
    }

    method SetEntry(id: U32, data: seq<Byte>)
      modifies this
      ensures entries == Put(old(entries), id, data)
    {
      ghost var before := entries;
      for i := 0 to |entries|
        invariant entries == before
        invariant Put(before, id, data) == before[..i] + Put(before[i..], id, data)
      {
        if entries[i].id == id {
          entries := entries[i := Entry(id, data)];
          assert entries == before[..i] + ([Entry(id, data)] + before[i..][1..]);
          return;
        }
        assert before[i..][1..] == before[i + 1..];
        assert before[..i] + ([before[i]] + Put(before[i + 1..], id, data))
            == before[..i + 1] + Put(before[i + 1..], id, data);
      }
      entries := entries + [Entry(id, data)];
      assert before[..|before|] == before && before[|before|..] == [];
    }
  }

  /** The entries after a run of `set_entry` calls on a new container. */
  function PutAll(calls: seq<(U32, seq<Byte>)>): seq<Entry> {
    if calls == [] then []
    else
      var (id, data) := calls[|calls| - 1];
      Put(PutAll(calls[..|calls| - 1]), id, data)
  }

  /** The same run on a map. */
  function PutMap(calls: seq<(U32, seq<Byte>)>): map<int, seq<Byte>> {
    if calls == [] then map[]
    else
      var (id, data) := calls[|calls| - 1];
      PutMap(calls[..|calls| - 1])[id as int := data]
  }

  ghost predicate Represents(entries: seq<Entry>, m: map<int, seq<Byte>>) {
    && StableSort.DistinctKeys(entries, ById)
    && (forall e :: e in entries ==> e.id in m && m[e.id] == e.data)
    && (forall k :: k in m ==> exists e :: e in entries && e.id == k)
  }

  lemma {:induction false} PutMembers(entries: seq<Entry>, id: U32, data: seq<Byte>)
    requires StableSort.DistinctKeys(entries, ById)
    ensures StableSort.DistinctKeys(Put(entries, id, data), ById)
    ensures forall e :: e in Put(entries, id, data) <==> e == Entry(id, data) || (e in entries && e.id != id)
  {
    if entries == [] {
    } else {
      var h, t := entries[0], entries[1..];
      assert entries == [h] + t;
      assert forall e :: e in t ==> e.id != h.id by {
        forall e | e in t ensures e.id != h.id {
          var j :| 0 <= j < |t| && t[j] == e;
          assert ById(entries[0]) != ById(entries[j + 1]);
        }
      }
      if h.id != id {
        forall i, j | 0 <= i < j < |t| ensures ById(t[i]) != ById(t[j]) {
          assert t[i] == entries[i + 1] && t[j] == entries[j + 1];
        }
        PutMembers(t, id, data);
        var rest := Put(t, id, data);
        assert Put(entries, id, data) == [h] + rest;
        assert forall j :: 0 <= j < |rest| ==> rest[j] in rest;
      }
    }
  }

  /** A container built by `set_entry` is a map: one entry per id, holding the last value set. */
  lemma {:induction false} PutAllIsMap(calls: seq<(U32, seq<Byte>)>)
    ensures Represents(PutAll(calls), PutMap(calls))
  {
    if calls != [] {
      var (id, data) := calls[|calls| - 1];
      var before, m := PutAll(calls[..|calls| - 1]), PutMap(calls[..|calls| - 1]);
      PutAllIsMap(calls[..|calls| - 1]);
      PutMembers(before, id, data);
      assert Entry(id, data) in PutAll(calls);
      forall k | k in PutMap(calls) ensures exists e :: e in PutAll(calls) && e.id == k {
        if k != id {
          var e :| e in before && e.id == k;
          assert e in PutAll(calls);
        }
      }
    }
  }

  lemma MapsToSameBytes(a: seq<Entry>, b: seq<Entry>, m: map<int, seq<Byte>>)
    requires Represents(a, m) && Represents(b, m)
    ensures StableSort.SameByKey(a, b, ById)
  {
    forall k ensures StableSort.WithKey(a, ById, k) == StableSort.WithKey(b, ById, k) {
      if k in m {
        var x :| x in a && x.id == k;
        var y :| y in b && y.id == k;
        var i :| 0 <= i < |a| && a[i] == x;
        var j :| 0 <= j < |b| && b[j] == y;
        StableSort.WithKeyOfDistinct(a, ById, i);
        StableSort.WithKeyOfDistinct(b, ById, j);
      } else {
        assert forall i :: 0 <= i < |a| ==> a[i] in a;
        assert forall i :: 0 <= i < |b| ==> b[i] in b;
        StableSort.WithKeyAbsent(a, ById, k);
        StableSort.WithKeyAbsent(b, ById, k);
      }
    }
  }

  /** Runs of `set_entry` that end in the same map encode to the same bytes (or the same error). */
  lemma SameContentSameBytes(p: seq<(U32, seq<Byte>)>, q: seq<(U32, seq<Byte>)>)
    requires PutMap(p) == PutMap(q)
    ensures Encoded(PutAll(p)) == Encoded(PutAll(q))
  {
    var a, b := PutAll(p), PutAll(q);
    PutAllIsMap(p);
    PutAllIsMap(q);
    MapsToSameBytes(a, b, PutMap(p));
    StableSort.SortEqualIff(a, b, ById);
    OrderedLen(a);
    OrderedLen(b);
  }
}
