/** The length-prefixed storage snapshot: the writer of the fixtures and the reader that checks them. */
module SnapshotCodec {
  import opened Basics

  const TWO32: nat := 0x1_0000_0000

  /** A key already encoded as UTF-8, and a value. */
  datatype Entry = Entry(key: seq<Byte>, value: seq<Byte>)

  datatype Result<T> = Ok(value: T) | EndedInUint32 | EndedInField | TrailingBytes

  // ---------- four little-endian bytes ----------

  /** `setUint32(offset, n, true)`, which keeps `n` modulo 2^32. */
  function U32(n: nat): (r: seq<Byte>)
    ensures |r| == 4
  {
    [n % 256, n / 256 % 256, n / 65536 % 256, n / 16777216 % 256]
  }

  /** `getUint32(offset, true)` */
  function FromU32(b0: Byte, b1: Byte, b2: Byte, b3: Byte): (n: nat)
    ensures n < TWO32
  {
    b0 + 256 * b1 + 65536 * b2 + 16777216 * b3
  }

  lemma U32RoundTrip(n: nat)
    requires n < TWO32
    ensures var b := U32(n); FromU32(b[0], b[1], b[2], b[3]) == n
  {
    assert n == n % 256 + 256 * (n / 256);
    assert n / 256 == n / 256 % 256 + 256 * (n / 65536);
    assert n / 65536 == n / 65536 % 256 + 256 * (n / 16777216);
    assert n / 16777216 < 256;
  }

  lemma FromU32RoundTrip(b0: Byte, b1: Byte, b2: Byte, b3: Byte)
    ensures U32(FromU32(b0, b1, b2, b3)) == [b0, b1, b2, b3]
  {
    var n := FromU32(b0, b1, b2, b3);
    assert n / 256 == b1 + 256 * b2 + 65536 * b3;
    assert n / 65536 == b2 + 256 * b3;
    assert n / 16777216 == b3;
  }

  // ---------- the writer ----------

  function EncodeEntry(e: Entry): seq<Byte> {
    U32(|e.key|) + e.key + U32(|e.value|) + e.value
  }

  function EncodeEntries(entries: seq<Entry>): seq<Byte> {
    if entries == [] then [] else EncodeEntries(entries[..|entries| - 1]) + EncodeEntry(entries[|entries| - 1])
  }

  function Encode(entries: seq<Entry>): seq<Byte> {
    U32(|entries|) + EncodeEntries(entries)
  }

  lemma {:induction false} EncodeSplit(a: seq<Entry>, b: seq<Entry>)
    ensures EncodeEntries(a + b) == EncodeEntries(a) + EncodeEntries(b)
  {
    hide EncodeEntry;
    if b == [] {
      assert a + b == a;
    } else {
      assert (a + b)[..|a + b| - 1] == a + b[..|b| - 1];
      EncodeSplit(a, b[..|b| - 1]);
    }
  }

  lemma EncodeFirst(entries: seq<Entry>)
    requires entries != []
    ensures EncodeEntries(entries) == EncodeEntry(entries[0]) + EncodeEntries(entries[1..])
  {
    hide EncodeEntry;
    var one: seq<Entry> := [entries[0]];
    assert entries == one + entries[1..];
    EncodeSplit(one, entries[1..]);
    assert one[..0] == [];
    assert EncodeEntries(one) == [] + EncodeEntry(entries[0]);
  }

  method Put(bytes: array<Byte>, offset: nat, data: seq<Byte>) returns (next: nat)
    requires offset + |data| <= bytes.Length
    modifies bytes
    ensures next == offset + |data|
    ensures bytes[..next] == old(bytes[..offset]) + data
  {
    forall i | 0 <= i < |data| {
      bytes[offset + i] := data[i];
    }
    return offset + |data|;
  }

  /** The four writes of the loop body. */
  method PutEntry(bytes: array<Byte>, start: nat, e: Entry) returns (offset: nat)
    requires start + |EncodeEntry(e)| <= bytes.Length
    modifies bytes
    ensures offset == start + |EncodeEntry(e)|
    ensures bytes[..offset] == old(bytes[..start]) + EncodeEntry(e)
  {
    hide U32;
    offset := Put(bytes, start, U32(|e.key|));
    offset := Put(bytes, offset, e.key);
    offset := Put(bytes, offset, U32(|e.value|));
    offset := Put(bytes, offset, e.value);
  }

  method EncodedLength(entries: seq<Entry>) returns (byteLength: nat)
    ensures byteLength == |Encode(entries)|
  {
    byteLength := 4;
    for n := 0 to |entries|
      invariant byteLength == 4 + |EncodeEntries(entries[..n])|
    {
      RoomForEntry(entries, n);
      byteLength := byteLength + 4 + |entries[n].key| + 4 + |entries[n].value|;
    }
    assert entries[..|entries|] == entries;
  }

  /** The writer computes the size first and then fills the buffer exactly, leaving no gap and no remainder. */
  method SerializeSnapshot(entries: seq<Entry>) returns (r: seq<Byte>)
    ensures r == Encode(entries)
  {
    var byteLength := EncodedLength(entries);
    hide U32, EncodeEntry;
    var bytes := new Byte[byteLength](_ => 0);
    var offset := Put(bytes, 0, U32(|entries|));
    for n := 0 to |entries|
      invariant offset == 4 + |EncodeEntries(entries[..n])| && offset <= bytes.Length
      invariant bytes[..offset] == U32(|entries|) + EncodeEntries(entries[..n])
    {
      RoomForEntry(entries, n);
      offset := PutEntry(bytes, offset, entries[n]);
    }
    assert entries[..|entries|] == entries;
    assert bytes[..] == bytes[..offset];
    return bytes[..];
  }

  lemma RoomForEntry(entries: seq<Entry>, n: nat)
    requires n < |entries|
    ensures EncodeEntries(entries[..n + 1]) == EncodeEntries(entries[..n]) + EncodeEntry(entries[n])
    ensures |EncodeEntries(entries[..n + 1])| <= |EncodeEntries(entries)|
  {
    assert entries[..n + 1][..n] == entries[..n];
    EncodeSplit(entries[..n + 1], entries[n + 1..]);
    assert entries[..n + 1] + entries[n + 1..] == entries;
  }

  // ---------- the layout ----------

  /** Four bytes that hold the number, the lowest byte first. */
  predicate Holds(bytes: seq<Byte>, n: nat) {
    |bytes| == 4 && n == bytes[0] as int + 0x100 * bytes[1] as int + 0x1_0000 * bytes[2] as int + 0x100_0000 * bytes[3] as int
  }

  lemma U32Holds(n: nat)
    requires n < TWO32
    ensures Holds(U32(n), n)
  {
    U32RoundTrip(n);
  }

  /** Where the `k`-th entry starts: behind the count, and behind two lengths and two fields for each entry before it. */
  function StartOf(entries: seq<Entry>, k: nat): nat
    requires k <= |entries|
  {
    if k == 0 then 4 else StartOf(entries, k - 1) + 8 + |entries[k - 1].key| + |entries[k - 1].value|
  }

  lemma {:induction false} StartIsLength(entries: seq<Entry>, k: nat)
    requires k <= |entries|
    ensures StartOf(entries, k) == 4 + |EncodeEntries(entries[..k])|
    decreases k
  {
    hide U32;
    if k == 0 {
    } else {
      StartIsLength(entries, k - 1);
      assert entries[..k][..k - 1] == entries[..k - 1];
    }
  }

  /** A field lies at an offset: its length in four bytes, and then its bytes. */
  predicate LiesAt(bytes: seq<Byte>, offset: nat, field: seq<Byte>) {
    && offset + 4 + |field| <= |bytes|
    && Holds(bytes[offset..offset + 4], |field|) && bytes[offset + 4..offset + 4 + |field|] == field
  }

  lemma FieldLayout(before: seq<Byte>, field: seq<Byte>, after: seq<Byte>)
    requires |field| < TWO32
    ensures LiesAt(before + U32(|field|) + field + after, |before|, field)
  {
    U32Holds(|field|);
    hide U32, Holds;
    var bytes := before + U32(|field|) + field + after;
    assert bytes[|before|..|before| + 4] == U32(|field|);
  }

  lemma EntryLayout(before: seq<Byte>, e: Entry, after: seq<Byte>)
    requires Encodable(e)
    ensures |EncodeEntry(e)| == 8 + |e.key| + |e.value|
    ensures var bytes := before + EncodeEntry(e) + after;
            LiesAt(bytes, |before|, e.key) && LiesAt(bytes, |before| + 4 + |e.key|, e.value)
  {
    hide U32, LiesAt;
    var key, value := U32(|e.key|), U32(|e.value|);
    var bytes := before + EncodeEntry(e) + after;
    FieldLayout(before, e.key, value + e.value + after);
    assert bytes == before + key + e.key + (value + e.value + after);
    FieldLayout(before + key + e.key, e.value, after);
    assert bytes == before + key + e.key + value + e.value + after;
  }

  /** The count comes first, and each entry is its key behind its length and its value behind its length. */
  lemma SnapshotLayout(entries: seq<Entry>, k: nat)
    requires |entries| < TWO32 && k < |entries| && Encodable(entries[k])
    ensures var bytes, at := Encode(entries), StartOf(entries, k);
            && |bytes| == StartOf(entries, |entries|) && Holds(bytes[..4], |entries|)
            && LiesAt(bytes, at, entries[k].key) && LiesAt(bytes, at + 4 + |entries[k].key|, entries[k].value)
  {
    hide EncodeEntry, EncodeEntries, StartOf, Holds, U32, LiesAt;
    U32Holds(|entries|);
    StartIsLength(entries, k);
    StartIsLength(entries, |entries|);
    assert entries[..|entries|] == entries;
    var bytes, before := Encode(entries), U32(|entries|) + EncodeEntries(entries[..k]);
    assert bytes[..4] == U32(|entries|);
    EncodeSplit(entries[..k], entries[k..]);
    assert entries[..k] + entries[k..] == entries;
    EncodeFirst(entries[k..]);
    var after := EncodeEntries(entries[k..][1..]);
    EntryLayout(before, entries[k], after);
    assert bytes == before + EncodeEntry(entries[k]) + after;
  }

  // ---------- the reader ----------

  function ReadUint32(bytes: seq<Byte>, offset: nat): Result<nat> {
    if offset + 4 > |bytes| then EndedInUint32
    else Ok(FromU32(bytes[offset], bytes[offset + 1], bytes[offset + 2], bytes[offset + 3]))
  }

  /** A length and that many bytes, with the offset after them. */
  function ReadField(bytes: seq<Byte>, offset: nat): Result<(seq<Byte>, nat)> {
    match ReadUint32(bytes, offset)
    case Ok(length) =>
      if offset + 4 + length > |bytes| then EndedInField
      else Ok((bytes[offset + 4..offset + 4 + length], offset + 4 + length))
    case _ => EndedInUint32
  }

  function ReadEntry(bytes: seq<Byte>, offset: nat): Result<(Entry, nat)> {
    match ReadField(bytes, offset)
    case Ok((key, middle)) =>
      (match ReadField(bytes, middle)
       case Ok((value, end)) => Ok((Entry(key, value), end))
       case EndedInField => EndedInField
       case _ => EndedInUint32)
    case EndedInField => EndedInField
    case _ => EndedInUint32
  }

  /** The entry loop, from an offset and with a number of entries still to read. */
  function ReadEntries(bytes: seq<Byte>, offset: nat, count: nat): Result<seq<Entry>>
    decreases count
  {
    if count == 0 then (if offset == |bytes| then Ok([]) else TrailingBytes)
    else match ReadEntry(bytes, offset)
      case Ok((entry, next)) =>
        (match ReadEntries(bytes, next, count - 1)
         case Ok(rest) => Ok([entry] + rest)
         case EndedInUint32 => EndedInUint32
         case EndedInField => EndedInField
         case TrailingBytes => TrailingBytes)
      case EndedInField => EndedInField
      case _ => EndedInUint32
  }

  function Decode(bytes: seq<Byte>): Result<seq<Entry>> {
    match ReadUint32(bytes, 0)
    case Ok(count) => ReadEntries(bytes, 4, count)
    case _ => EndedInUint32
  }

  predicate Encodable(e: Entry) {
    |e.key| < TWO32 && |e.value| < TWO32
  }

  lemma FieldRoundTrip(before: seq<Byte>, field: seq<Byte>, after: seq<Byte>)
    requires |field| < TWO32
    ensures ReadField(before + U32(|field|) + field + after, |before|) == Ok((field, |before| + 4 + |field|))
  {
    var bytes := before + U32(|field|) + field + after;
    var length := U32(|field|);
    U32RoundTrip(|field|);
    assert forall i :: 0 <= i < 4 ==> bytes[|before| + i] == length[i];
    assert bytes[|before|] == length[0] && bytes[|before| + 1] == length[1];
    assert bytes[|before| + 2] == length[2] && bytes[|before| + 3] == length[3];
    assert bytes[|before| + 4..|before| + 4 + |field|] == field;
  }

  lemma EntryRoundTrip(before: seq<Byte>, e: Entry, after: seq<Byte>)
    requires Encodable(e)
    ensures ReadEntry(before + EncodeEntry(e) + after, |before|) == Ok((e, |before| + |EncodeEntry(e)|))
  {
    hide U32, ReadField;
    var bytes := before + EncodeEntry(e) + after;
    FieldRoundTrip(before, e.key, U32(|e.value|) + e.value + after);
    assert bytes == before + U32(|e.key|) + e.key + (U32(|e.value|) + e.value + after);
    var middle := before + U32(|e.key|) + e.key;
    FieldRoundTrip(middle, e.value, after);
    assert bytes == middle + U32(|e.value|) + e.value + after;
  }

  lemma {:induction false} EntriesRoundTrip(before: seq<Byte>, entries: seq<Entry>)
    requires forall i :: 0 <= i < |entries| ==> Encodable(entries[i])
    ensures ReadEntries(before + EncodeEntries(entries), |before|, |entries|) == Ok(entries)
    decreases |entries|
  {
    hide EncodeEntry, ReadEntry;
    if entries == [] {
      assert before + EncodeEntries(entries) == before;
    } else {
      var first, rest := entries[0], entries[1..];
      EncodeFirst(entries);
      EntryRoundTrip(before, first, EncodeEntries(rest));
      var longer := before + EncodeEntry(first);
      assert before + EncodeEntries(entries) == longer + EncodeEntries(rest);
      EntriesRoundTrip(longer, rest);
      assert entries == [first] + rest;
    }
  }

  /** The reader recovers every list of entries whose count and lengths fit in 32 bits. */
  lemma SnapshotRoundTrip(entries: seq<Entry>)
    requires |entries| < TWO32 && forall i :: 0 <= i < |entries| ==> Encodable(entries[i])
    ensures Decode(Encode(entries)) == Ok(entries)
  {
    hide EncodeEntries, ReadEntries;
    var count := U32(|entries|);
    var bytes := Encode(entries);
    U32RoundTrip(|entries|);
    assert bytes[0] == count[0] && bytes[1] == count[1] && bytes[2] == count[2] && bytes[3] == count[3];
    EntriesRoundTrip(count, entries);
  }

  lemma FieldReadBack(bytes: seq<Byte>, offset: nat)
    requires ReadField(bytes, offset).Ok?
    ensures var (field, end) := ReadField(bytes, offset).value;
            offset + 4 <= end <= |bytes| && |field| < TWO32 && bytes[offset..end] == U32(|field|) + field
  {
    FromU32RoundTrip(bytes[offset], bytes[offset + 1], bytes[offset + 2], bytes[offset + 3]);
    var (field, end) := ReadField(bytes, offset).value;
    hide U32, FromU32;
    assert bytes[offset..offset + 4] == U32(|field|);
    assert bytes[offset..end] == bytes[offset..offset + 4] + bytes[offset + 4..end];
  }

  lemma EntryReadBack(bytes: seq<Byte>, offset: nat)
    requires ReadEntry(bytes, offset).Ok?
    ensures var (e, end) := ReadEntry(bytes, offset).value;
            offset <= end <= |bytes| && Encodable(e) && bytes[offset..end] == EncodeEntry(e)
  {
    hide U32, ReadField;
    var (e, end) := ReadEntry(bytes, offset).value;
    var (key, middle) := ReadField(bytes, offset).value;
    FieldReadBack(bytes, offset);
    FieldReadBack(bytes, middle);
    assert bytes[offset..end] == bytes[offset..middle] + bytes[middle..end];
  }

  lemma {:induction false} EntriesReadBack(bytes: seq<Byte>, offset: nat, count: nat)
    requires ReadEntries(bytes, offset, count).Ok?
    ensures var entries := ReadEntries(bytes, offset, count).value;
            && |entries| == count && offset <= |bytes| && bytes[offset..] == EncodeEntries(entries)
            && forall i :: 0 <= i < |entries| ==> Encodable(entries[i])
    decreases count
  {
    hide EncodeEntry, ReadEntry, Encodable;
    if count == 0 {
    } else {
      var (first, next) := ReadEntry(bytes, offset).value;
      EntryReadBack(bytes, offset);
      EntriesReadBack(bytes, next, count - 1);
      var rest := ReadEntries(bytes, next, count - 1).value;
      EncodeFirst([first] + rest);
      assert ([first] + rest)[1..] == rest;
      assert bytes[offset..] == bytes[offset..next] + bytes[next..];
    }
  }

  /** Whatever the reader accepts is exactly what the writer writes for the entries it returns. */
  lemma SnapshotReadBack(bytes: seq<Byte>)
    requires Decode(bytes).Ok?
    ensures Encode(Decode(bytes).value) == bytes
  {
    hide EncodeEntries, ReadEntries;
    var count := ReadUint32(bytes, 0).value;
    FromU32RoundTrip(bytes[0], bytes[1], bytes[2], bytes[3]);
    EntriesReadBack(bytes, 4, count);
    assert bytes == bytes[..4] + bytes[4..];
    assert bytes[..4] == [bytes[0], bytes[1], bytes[2], bytes[3]];
  }

  lemma FieldInLonger(bytes: seq<Byte>, n: nat, offset: nat)
    requires n <= |bytes|
    ensures ReadField(bytes[..n], offset).Ok? <==> ReadField(bytes, offset).Ok? && ReadField(bytes, offset).value.1 <= n
    ensures ReadField(bytes[..n], offset).Ok? ==> ReadField(bytes[..n], offset) == ReadField(bytes, offset)
    ensures ReadField(bytes, offset).Ok? ==> ReadField(bytes, offset).value.1 >= offset
  {
    hide FromU32;
    if ReadField(bytes, offset).Ok? && ReadField(bytes, offset).value.1 <= n {
      var end := ReadField(bytes, offset).value.1;
      assert bytes[..n][offset + 4..end] == bytes[offset + 4..end];
    }
  }

  lemma EntryInLonger(bytes: seq<Byte>, n: nat, offset: nat)
    requires n <= |bytes|
    ensures ReadEntry(bytes[..n], offset).Ok? <==> ReadEntry(bytes, offset).Ok? && ReadEntry(bytes, offset).value.1 <= n
    ensures ReadEntry(bytes[..n], offset).Ok? ==> ReadEntry(bytes[..n], offset) == ReadEntry(bytes, offset)
  {
    hide ReadField;
    FieldInLonger(bytes, n, offset);
    if ReadField(bytes, offset).Ok? {
      FieldInLonger(bytes, n, ReadField(bytes, offset).value.1);
    }
  }

  lemma {:induction false} EntriesInLonger(bytes: seq<Byte>, n: nat, offset: nat, count: nat)
    requires n < |bytes| && ReadEntries(bytes[..n], offset, count).Ok?
    ensures ReadEntries(bytes, offset, count) == TrailingBytes
    decreases count
  {
    hide ReadEntry;
    if count == 0 {
    } else {
      EntryInLonger(bytes, n, offset);
      EntriesInLonger(bytes, n, ReadEntry(bytes, offset).value.1, count - 1);
    }
  }

  lemma {:induction false} EntriesBeforeTrailing(bytes: seq<Byte>, offset: nat, count: nat) returns (n: nat)
    requires offset <= |bytes| && ReadEntries(bytes, offset, count) == TrailingBytes
    ensures offset <= n < |bytes| && ReadEntries(bytes[..n], offset, count).Ok?
    decreases count
  {
    hide ReadEntry;
    if count == 0 {
      n := offset;
    } else {
      var next := ReadEntry(bytes, offset).value.1;
      EntryReadBack(bytes, offset);
      n := EntriesBeforeTrailing(bytes, next, count - 1);
      EntryInLonger(bytes, n, offset);
    }
  }

  /** The reader complains of trailing bytes exactly when a snapshot ends before the bytes do. */
  lemma TrailingExactly(bytes: seq<Byte>)
    ensures Decode(bytes) == TrailingBytes <==> exists n :: 0 <= n < |bytes| && Decode(bytes[..n]).Ok?
  {
    hide ReadEntries;
    if Decode(bytes) == TrailingBytes {
      var n := EntriesBeforeTrailing(bytes, 4, ReadUint32(bytes, 0).value);
      assert Decode(bytes[..n]).Ok?;
    }
    if n: nat :| n < |bytes| && Decode(bytes[..n]).Ok? {
      EntriesInLonger(bytes, n, 4, ReadUint32(bytes, 0).value);
    }
  }

  // ---------- snapshots that are cut short ----------

  /** The byte at `n` belongs to one of the two lengths of the `k`-th entry. */
  predicate InLengthOf(entries: seq<Entry>, k: nat, n: nat)
    requires k < |entries|
  {
    var keyAt := StartOf(entries, k);
    var valueAt := keyAt + 4 + |entries[k].key|;
    keyAt <= n < keyAt + 4 || valueAt <= n < valueAt + 4
  }

  lemma FieldCut(bytes: seq<Byte>, offset: nat, field: seq<Byte>, n: nat)
    requires LiesAt(bytes, offset, field) && offset <= n <= |bytes|
    ensures var end: nat := offset + 4 + |field|;
            ReadField(bytes[..n], offset) == if n < offset + 4 then EndedInUint32 else if n < end then EndedInField else Ok((field, end))
  {
    if n >= offset + 4 {
      assert bytes[..n][offset..offset + 4] == bytes[offset..offset + 4];
      assert ReadUint32(bytes[..n], offset) == Ok(|field|);
    }
    if n >= offset + 4 + |field| {
      assert bytes[..n][offset + 4..offset + 4 + |field|] == field;
    }
  }

  lemma EntryCut(bytes: seq<Byte>, offset: nat, e: Entry, n: nat)
    requires LiesAt(bytes, offset, e.key) && LiesAt(bytes, offset + 4 + |e.key|, e.value) && offset <= n <= |bytes|
    ensures var valueAt := offset + 4 + |e.key|;
            var end: nat := valueAt + 4 + |e.value|;
            ReadEntry(bytes[..n], offset) ==
              if n < offset + 4 || valueAt <= n < valueAt + 4 then EndedInUint32 else if n < end then EndedInField else Ok((e, end))
  {
    hide ReadField, LiesAt;
    FieldCut(bytes, offset, e.key, n);
    if n >= offset + 4 + |e.key| {
      FieldCut(bytes, offset + 4 + |e.key|, e.value, n);
    }
  }

  lemma {:induction false} StartsAscend(entries: seq<Entry>, j: nat, k: nat)
    requires j <= k <= |entries|
    ensures StartOf(entries, j) <= StartOf(entries, k)
    decreases k
  {
    if j == k {
    } else {
      StartsAscend(entries, j, k - 1);
    }
  }

  lemma {:induction false} CutFrom(entries: seq<Entry>, k: nat, n: nat)
    requires |entries| < TWO32 && forall i :: 0 <= i < |entries| ==> Encodable(entries[i])
    requires k <= |entries| && StartOf(entries, k) <= n < StartOf(entries, |entries|) == |Encode(entries)|
    ensures ReadEntries(Encode(entries)[..n], StartOf(entries, k), |entries| - k) ==
      if exists j :: k <= j < |entries| && InLengthOf(entries, j, n) then EndedInUint32 else EndedInField
    decreases |entries| - k
  {
    hide ReadEntry, LiesAt, Encode;
    SnapshotLayout(entries, k);
    EntryCut(Encode(entries), StartOf(entries, k), entries[k], n);
    if StartOf(entries, k + 1) <= n {
      CutFrom(entries, k + 1, n);
    } else {
      forall j | k < j < |entries| ensures !InLengthOf(entries, j, n) {
        StartsAscend(entries, k + 1, j);
      }
      assert InLengthOf(entries, k, n) <==> exists j :: k <= j < |entries| && InLengthOf(entries, j, n);
    }
  }

  /** A snapshot that is cut short is refused, with the complaint that fits the place of the cut. */
  lemma CutShort(entries: seq<Entry>, n: nat)
    requires |entries| < TWO32 && forall i :: 0 <= i < |entries| ==> Encodable(entries[i])
    requires n < |Encode(entries)|
    ensures Decode(Encode(entries)[..n]) ==
      if n < 4 || exists k :: 0 <= k < |entries| && InLengthOf(entries, k, n) then EndedInUint32 else EndedInField
  {
    if n >= 4 {
      hide EncodeEntries, ReadEntries, StartOf, U32;
      StartIsLength(entries, |entries|);
      assert entries[..|entries|] == entries;
      var bytes := Encode(entries);
      U32RoundTrip(|entries|);
      assert bytes[..n][..4] == U32(|entries|);
      assert ReadUint32(bytes[..n], 0) == Ok(|entries|);
      StartIsLength(entries, 0);
      CutFrom(entries, 0, n);
    }
  }

  // ---------- string keys, and the reader's map ----------

  /** What is stored under a key. */
  datatype Stored = Stored(key: string, value: seq<Byte>)

  /** `encode` is the writer's text encoder. */
  function Encoded(stored: seq<Stored>, encode: string -> seq<Byte>): (r: seq<Entry>)
    ensures |r| == |stored| && forall i :: 0 <= i < |r| ==> r[i] == Entry(encode(stored[i].key), stored[i].value)
  {
    seq(|stored|, i requires 0 <= i < |stored| => Entry(encode(stored[i].key), stored[i].value))
  }

  /** The reader's `map.set` for each entry in turn; `decode` is its text decoder. */
  function Collected(entries: seq<Entry>, decode: seq<Byte> -> string): map<string, seq<Byte>> {
    if entries == [] then map[]
    else
      var last := entries[|entries| - 1];
      Collected(entries[..|entries| - 1], decode)[decode(last.key) := last.value]
  }

  function Deserialize(bytes: seq<Byte>, decode: seq<Byte> -> string): Result<map<string, seq<Byte>>> {
    match Decode(bytes)
    case Ok(entries) => Ok(Collected(entries, decode))
    case EndedInUint32 => EndedInUint32
    case EndedInField => EndedInField
    case TrailingBytes => TrailingBytes
  }

  /** `value` was stored last under `key`. */
  ghost predicate StoredLast(stored: seq<Stored>, key: string, value: seq<Byte>) {
    exists i :: 0 <= i < |stored| && stored[i] == Stored(key, value) && forall j :: i < j < |stored| ==> stored[j].key != key
  }

  lemma {:induction false} CollectedIsLast(stored: seq<Stored>, encode: string -> seq<Byte>, decode: seq<Byte> -> string)
    requires forall i :: 0 <= i < |stored| ==> decode(encode(stored[i].key)) == stored[i].key
    ensures var m := Collected(Encoded(stored, encode), decode);
            forall key, value :: key in m && m[key] == value <==> StoredLast(stored, key, value)
  {
    if stored == [] {
    } else {
      var front, last := stored[..|stored| - 1], stored[|stored| - 1];
      CollectedIsLast(front, encode, decode);
      assert Encoded(stored, encode)[..|stored| - 1] == Encoded(front, encode);
      forall key, value ensures StoredLast(stored, key, value) <==>
        if key == last.key then value == last.value else StoredLast(front, key, value)
      {
        LastStored(stored, key, value);
      }
    }
  }

  lemma LastStored(stored: seq<Stored>, key: string, value: seq<Byte>)
    requires stored != []
    ensures var front, last := stored[..|stored| - 1], stored[|stored| - 1];
            StoredLast(stored, key, value) <==> if key == last.key then value == last.value else StoredLast(front, key, value)
  {
    var n := |stored| - 1;
    var front, last := stored[..n], stored[n];
    if key == last.key {
      if value == last.value {
        assert stored[n] == Stored(key, value);
      }
      if StoredLast(stored, key, value) {
        var i :| 0 <= i < |stored| && stored[i] == Stored(key, value) && forall j :: i < j < |stored| ==> stored[j].key != key;
        assert i == n;
      }
    } else {
      if StoredLast(stored, key, value) {
        var i :| 0 <= i < |stored| && stored[i] == Stored(key, value) && forall j :: i < j < |stored| ==> stored[j].key != key;
        assert front[i] == stored[i];
      }
      if StoredLast(front, key, value) {
        var i :| 0 <= i < |front| && front[i] == Stored(key, value) && forall j :: i < j < |front| ==> front[j].key != key;
        assert stored[i] == front[i];
      }
    }
  }

  /**
   * What the reader hands back is a map that holds, for each key, the value written last under it, whenever
   * the decoder undoes the encoder on the keys and the count and lengths fit in 32 bits.
   */
  lemma SnapshotMapRoundTrip(stored: seq<Stored>, encode: string -> seq<Byte>, decode: seq<Byte> -> string)
    requires |stored| < TWO32 && forall i :: 0 <= i < |stored| ==> Encodable(Entry(encode(stored[i].key), stored[i].value))
    requires forall i :: 0 <= i < |stored| ==> decode(encode(stored[i].key)) == stored[i].key
    ensures var r := Deserialize(Encode(Encoded(stored, encode)), decode);
            r.Ok? && forall key, value :: key in r.value && r.value[key] == value <==> StoredLast(stored, key, value)
  {
    hide Encode, Decode, Collected, StoredLast;
    SnapshotRoundTrip(Encoded(stored, encode));
    CollectedIsLast(stored, encode, decode);
  }
}
