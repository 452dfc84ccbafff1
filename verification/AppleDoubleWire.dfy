/**
 The AppleDouble container byte by byte, as section 5 of RFC 1740 lays it out: which
 bytes stand where, in literal numbers, for everything that is encoded and for
 everything that is decoded.

 Nothing here is used by the encoder or the decoder. It is what a reader with the
 standard in hand would check a file against.
 */
module AppleDoubleWire {
  import opened Prelude
  import opened AppleDouble
  import StableSort

  /** Two bytes as a number, high byte first. */
  function Number2(b: seq<Byte>, at: nat): nat
    requires at + 2 <= |b|
  {
    256 * b[at] as int + b[at + 1] as int
  }

  /** Four bytes as a number, high byte first. */
  function Number4(b: seq<Byte>, at: nat): nat
    requires at + 4 <= |b|
  {
    16777216 * b[at] as int + 65536 * b[at + 1] as int + 256 * b[at + 2] as int + b[at + 3] as int
  }

  predicate DoubleMagic(b: seq<Byte>)
    requires 26 <= |b|
  {
    b[0] == 0 && b[1] == 5 && b[2] == 0x16 && b[3] == 7
  }

  predicate SingleMagic(b: seq<Byte>)
    requires 26 <= |b|
  {
    b[0] == 0 && b[1] == 5 && b[2] == 0x16 && b[3] == 0
  }

  predicate VersionTwo(b: seq<Byte>)
    requires 26 <= |b|
  {
    b[4] == 0 && b[5] == 2 && b[6] == 0 && b[7] == 0
  }

  /** Descriptor `i` holds an identifier, an offset and a length, in that order. */
  predicate DescriptorIs(b: seq<Byte>, i: nat, id: int, offset: int, length: int) {
    && 26 + 12 * i + 12 <= |b|
    && Number4(b, 26 + 12 * i) == id
    && Number4(b, 26 + 12 * i + 4) == offset
    && Number4(b, 26 + 12 * i + 8) == length
  }

  /** Descriptor `i` describes `e`, and its range holds the payload. */
  predicate Describes(b: seq<Byte>, i: nat, e: Entry) {
    && 26 + 12 * i + 12 <= |b|
    && var offset, length := Number4(b, 26 + 12 * i + 4), Number4(b, 26 + 12 * i + 8);
       DescriptorIs(b, i, e.id, offset, |e.data|) && offset + length <= |b| && b[offset..offset + length] == e.data
  }

  // ------------------------------------------------------------ words

  lemma Word2(b: seq<Byte>, at: nat)
    requires at + 2 <= |b|
    ensures ReadU16(b[at..at + 2]) == Number2(b, at)
  {
  }

  lemma Word4(b: seq<Byte>, at: nat)
    requires at + 4 <= |b|
    ensures ReadU32(b[at..at + 4]) == Number4(b, at)
  {
    var w := b[at..at + 4];
    assert w[..2] == b[at..at + 2] && w[2..] == b[at + 2..at + 4];
    Word2(b, at);
    Word2(b, at + 2);
  }

  lemma FieldNumbers(b: seq<Byte>, i: nat)
    requires HasTable(b) && i < EntryCount(b)
    ensures DescriptorIs(b, i, IdAt(b, i), OffsetAt(b, i), LengthAt(b, i))
  {
    Word4(b, 26 + 12 * i);
    Word4(b, 26 + 12 * i + 4);
    Word4(b, 26 + 12 * i + 8);
  }

  lemma CountNumber(b: seq<Byte>)
    requires 26 <= |b|
    ensures EntryCount(b) == Number2(b, 24)
    ensures HasTable(b) <==> 26 + 12 * Number2(b, 24) <= |b|
  {
    Word2(b, 24);
  }

  /** A number's four bytes are determined by it. */
  lemma Digits256(a: Byte, b: Byte, c: Byte, d: Byte, n: nat)
    requires n == 16777216 * a as int + 65536 * b as int + 256 * c as int + d as int
    ensures d == n % 256 && c == n / 256 % 256 && b == n / 65536 % 256 && a == n / 16777216
  {
  }

  lemma MagicBytes(b: seq<Byte>)
    requires 26 <= |b|
    ensures ReadU32(b[0..4]) == APPLE_DOUBLE_MAGIC <==> DoubleMagic(b)
    ensures ReadU32(b[0..4]) == APPLE_SINGLE_MAGIC <==> SingleMagic(b)
    ensures ReadU32(b[4..8]) == APPLE_DOUBLE_VERSION_2 <==> VersionTwo(b)
  {
    Word4(b, 0);
    Word4(b, 4);
    Digits256(b[0], b[1], b[2], b[3], Number4(b, 0));
    Digits256(b[4], b[5], b[6], b[7], Number4(b, 4));
  }

  // ------------------------------------------------------------ what is written

  lemma FillerIsZero(n: nat)
    requires n <= 65535
    ensures forall k :: 8 <= k < 24 ==> Header(n)[k] == 0
  {
    assert Header(n)[8..24] == [0, 0, 0, 0, 0, 0, 0, 0, 0, 0, 0, 0, 0, 0, 0, 0];
    forall k | 8 <= k < 24 ensures Header(n)[k] == 0 {
      assert Header(n)[k] == Header(n)[8..24][k - 8];
    }
  }

  lemma LayoutWire(b: seq<Byte>, es: seq<Entry>)
    requires IsLayout(b, es)
    ensures 26 <= |b| && DoubleMagic(b) && VersionTwo(b)
    ensures forall k :: 8 <= k < 24 ==> b[k] == 0
    ensures Number2(b, 24) == |es|
  {
    LayoutHeader(b, es);
    MagicBytes(b);
    CountNumber(b);
    FillerIsZero(|es|);
    forall k | 8 <= k < 24 ensures b[k] == 0 {
      assert b[..HEADER_SIZE][k] == b[k];
    }
  }

  lemma LayoutDescribes(b: seq<Byte>, es: seq<Entry>, i: nat)
    requires IsLayout(b, es) && i < |es|
    ensures Describes(b, i, es[i])
  {
    LayoutHeader(b, es);
    LayoutEntry(b, es, i);
    LayoutDescriptor(b, es, i);
    FieldNumbers(b, i);
  }

  /** The payloads start right after the table and follow one another to the end. */
  ghost predicate Tiled(b: seq<Byte>, n: nat)
    requires 26 + 12 * n <= |b|
  {
    && (n == 0 ==> |b| == 26)
    && (n > 0 ==>
      && Number4(b, 30) == 26 + 12 * n
      && Number4(b, 26 + 12 * (n - 1) + 4) + Number4(b, 26 + 12 * (n - 1) + 8) == |b|)
    && forall i :: 0 <= i < n - 1 ==> Follows(b, i)
  }

  predicate Follows(b: seq<Byte>, i: nat)
    requires 26 + 12 * i + 24 <= |b|
  {
    Number4(b, 26 + 12 * (i + 1) + 4) == Number4(b, 26 + 12 * i + 4) + Number4(b, 26 + 12 * i + 8)
  }

  /** The bytes in front of the payloads, and the payload of every descriptor. */
  ghost predicate WireForm(b: seq<Byte>, es: seq<Entry>) {
    && 26 + 12 * |es| <= |b| && DoubleMagic(b) && VersionTwo(b)
    && (forall k :: 8 <= k < 24 ==> b[k] == 0)
    && Number2(b, 24) == |es|
    && (forall i :: 0 <= i < |es| ==> Describes(b, i, es[i]))
    && Tiled(b, |es|)
  }

  lemma LayoutForm(b: seq<Byte>, es: seq<Entry>)
    requires IsLayout(b, es)
    ensures WireForm(b, es)
  {
    LayoutWire(b, es);
    forall i | 0 <= i < |es| ensures Describes(b, i, es[i]) { LayoutDescribes(b, es, i); }
    LayoutHeader(b, es);
    LayoutTiles(b, es);
    FieldsTile(b, |es|);
  }

  lemma FieldsTile(b: seq<Byte>, n: nat)
    requires HasTable(b) && EntryCount(b) == n
    requires n == 0 ==> |b| == TableEnd(0)
    requires n != 0 ==> OffsetAt(b, 0) == TableEnd(n)
    requires n != 0 ==> OffsetAt(b, n - 1) as int + LengthAt(b, n - 1) as int == |b|
    requires forall i :: 0 <= i < n - 1 ==> OffsetAt(b, i + 1) as int == OffsetAt(b, i) as int + LengthAt(b, i) as int
    ensures 26 + 12 * n <= |b| && Tiled(b, n)
  {
    if n > 0 { EndsTile(b, n); }
    forall i | 0 <= i < n - 1 ensures Follows(b, i) {
      assert OffsetAt(b, i + 1) as int == OffsetAt(b, i) as int + LengthAt(b, i) as int;
      FollowsFrom(b, i);
    }
  }

  lemma EndsTile(b: seq<Byte>, n: nat)
    requires HasTable(b) && EntryCount(b) == n && 0 < n
    requires OffsetAt(b, 0) == TableEnd(n) && OffsetAt(b, n - 1) as int + LengthAt(b, n - 1) as int == |b|
    ensures 26 + 12 * n <= |b| && Number4(b, 30) == 26 + 12 * n
    ensures Number4(b, 26 + 12 * (n - 1) + 4) + Number4(b, 26 + 12 * (n - 1) + 8) == |b|
  {
    FieldNumbers(b, 0);
    FieldNumbers(b, n - 1);
  }

  lemma FollowsFrom(b: seq<Byte>, i: nat)
    requires HasTable(b) && i + 1 < EntryCount(b)
    requires OffsetAt(b, i + 1) as int == OffsetAt(b, i) as int + LengthAt(b, i) as int
    ensures Follows(b, i)
  {
    FieldNumbers(b, i);
    FieldNumbers(b, i + 1);
  }

  lemma OrderedById(entries: seq<Entry>)
    ensures
      var es := Ordered(entries);
      && |es| == |entries| && multiset(es) == multiset(entries) && StableSort.IsStableSort(es, entries, ById)
      && forall i, j :: 0 <= i < j < |es| ==> es[i].id <= es[j].id
  {
    var es := Ordered(entries);
    StableSort.SortIsStable(entries, ById);
    assert forall i, j :: 0 <= i < j < |es| ==> ById(es[i]) <= ById(es[j]);
  }

  /**
   Every encoding, byte by byte. The table lists the stable sort of the entries by
   identifier.
   */
  lemma EncodedBytes(entries: seq<Entry>)
    requires Encoded(entries).Ok?
    ensures
      var es := Ordered(entries);
      && WireForm(Encoded(entries).value, es)
      && |es| == |entries| && multiset(es) == multiset(entries) && StableSort.IsStableSort(es, entries, ById)
      && forall i, j :: 0 <= i < j < |es| ==> es[i].id <= es[j].id
  {
    OrderedById(entries);
    LayoutParts(Ordered(entries));
    LayoutForm(Encoded(entries).value, Ordered(entries));
  }

  /** The limits of the format, as numbers. */
  lemma EncodesIff(entries: seq<Entry>)
    ensures Encoded(entries) == Err(TooManyEntries) <==> |entries| > 65535
    ensures Encoded(entries) == Err(SizeExceedsU32) <==>
      |entries| <= 65535 && 26 + 12 * |entries| + TotalLen(entries) > 4294967295
    ensures Encoded(entries).Ok? <==> |entries| <= 65535 && 26 + 12 * |entries| + TotalLen(entries) <= 4294967295
  {
    EncodeSucceedsIff(entries);
  }

  // ------------------------------------------------------------ what is read

  /** Every range of the table lies inside the input. */
  ghost predicate RangesInside(b: seq<Byte>, n: nat)
    requires 26 + 12 * n <= |b|
  {
    forall i :: 0 <= i < n ==> RangeInside(b, i)
  }

  predicate RangeInside(b: seq<Byte>, i: nat)
    requires 26 + 12 * i + 12 <= |b|
  {
    Number4(b, 26 + 12 * i + 4) + Number4(b, 26 + 12 * i + 8) <= |b|
  }

  lemma RangesMatch(b: seq<Byte>)
    requires HasTable(b)
    ensures 26 + 12 * Number2(b, 24) <= |b|
    ensures AllInRange(b) <==> RangesInside(b, Number2(b, 24))
  {
    CountNumber(b);
    forall i | 0 <= i < EntryCount(b) ensures InRange(b, i) <==> RangeInside(b, i) { FieldNumbers(b, i); }
    if AllInRange(b) {
      forall i | 0 <= i < Number2(b, 24) ensures RangeInside(b, i) { assert InRange(b, i); }
    }
    if RangesInside(b, Number2(b, 24)) {
      forall i | 0 <= i < EntryCount(b) ensures InRange(b, i) { assert RangeInside(b, i); }
    }
  }

  /** Which input is refused, and with what, by its bytes; both magic numbers are taken. */
  lemma DecodedVerdict(input: seq<Byte>)
    ensures Contents(input) == Err(HeaderTruncated) <==> |input| < 26
    ensures 26 <= |input| ==>
      var named := DoubleMagic(input) || SingleMagic(input);
      var n := Number2(input, 24);
      && (Contents(input) == Err(MagicMismatch) <==> !named)
      && (Contents(input) == Err(WrongVersion) <==> named && !VersionTwo(input))
      && (Contents(input) == Err(TableTruncated) <==> named && VersionTwo(input) && |input| < 26 + 12 * n)
      && (Contents(input) == Err(PayloadPastInput) <==>
           named && VersionTwo(input) && 26 + 12 * n <= |input| && !RangesInside(input, n))
      && (Contents(input).Ok? <==>
           named && VersionTwo(input) && 26 + 12 * n <= |input| && RangesInside(input, n))
  {
    if 26 <= |input| {
      MagicBytes(input);
      CountNumber(input);
      if HasTable(input) { RangesMatch(input); }
    }
  }

  lemma {:induction false} EntriesListed(input: seq<Byte>, n: nat)
    requires HasTable(input) && n <= EntryCount(input) && FirstInRange(input, n)
    ensures |EntriesOf(input, n)| == n
    ensures forall i :: 0 <= i < n ==> EntriesOf(input, n)[i] == EntryAt(input, i)
  {
    if n != 0 { EntriesListed(input, n - 1); }
  }

  /** Whatever is decoded is what the descriptors say, in table order. */
  lemma DecodedBytes(input: seq<Byte>)
    requires Contents(input).Ok?
    ensures
      var entries := Contents(input).value;
      && 26 <= |input| && |entries| == Number2(input, 24)
      && forall i :: 0 <= i < |entries| ==> Describes(input, i, entries[i])
  {
    var entries := Contents(input).value;
    CountNumber(input);
    EntriesListed(input, EntryCount(input));
    forall i | 0 <= i < |entries| ensures Describes(input, i, entries[i]) {
      assert InRange(input, i);
      FieldNumbers(input, i);
    }
  }
}
