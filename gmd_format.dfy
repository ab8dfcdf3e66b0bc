/**
  The GMD container as values: the header, the two entry layouts, labels and
  the decoded document, and the decoder and encoder written as functions over
  byte sequences.  These functions are the specification that the imperative
  codec in module GmdCodec is proved against.

  Strings are kept as their UTF-8 bytes; the codec never looks inside them
  except to find the zero terminator and, for LabelSize, to count UTF-16 units.
 */
module GmdFormat {
  import opened Bytes
  import opened Wrappers
  import opened Streams

  /** Bytes before the internal name. */
  const HeaderLength: nat := 0x28
  const Version1: uint32 := 0x0001_0201
  const Version2: uint32 := 0x0001_0302
  /** "GMD\0" */
  const Magic: seq<byte> := [0x47, 0x4D, 0x44, 0x00]
  /** "unnamed_" */
  const UnnamedPrefix: seq<byte> := [0x75, 0x6E, 0x6E, 0x61, 0x6D, 0x65, 0x64, 0x5F]
  /** Words below this value (or all ones) are skipped by the unknown-set scan. */
  const WordLimit: uint32 := 0x10_0000
  const AllOnes: uint32 := 0xFFFF_FFFF

  datatype Header = Header(
    version: uint32,
    language: int32,
    unknown: uint64,
    labelCount: uint32,
    sectionCount: uint32,
    labelSize: uint32,
    sectionSize: uint32,
    nameSize: uint32)

  datatype EntryV1 = EntryV1(id: uint32, unknown: uint32)

  datatype EntryV2 = EntryV2(id: uint32, unknown1: uint32, unknown2: uint32, labelOffset: uint32, unknown3: uint32)

  datatype Label = Label(name: seq<byte>, text: seq<byte>, textId: int)

  /** Everything a Gmd object holds after decoding. */
  datatype Doc = Doc(
    header: Header,
    name: seq<byte>,
    entriesV1: seq<EntryV1>,
    entriesV2: seq<EntryV2>,
    unknownSetV2: seq<byte>,
    names: seq<seq<byte>>,
    labels: seq<Label>)

  /**
    The outcome of decoding: an exception on the way (`Failed`), a stream that
    does not start with the magic (`NotGmd`, the object stays empty), or a document.
   */
  datatype Decoded = Failed | NotGmd | Parsed(doc: Doc)

  const DefaultHeader: Header := Header(0, 0, 0, 0, 0, 0, 0, 0)
  const EmptyDoc: Doc := Doc(DefaultHeader, [], [], [], [], [], [])

  /** The number of iterations of `for (i = 0; i < n; i++)` with a signed bound. */
  function LoopCount(n: int32): nat
  {
    if n < 0 then 0 else n
  }

  /** How many entries the decoder reads: the label count cast to int. */
  function EntryCount(h: Header): nat
  {
    LoopCount(Int32Of(h.labelCount))
  }

  // ---------------------------------------------------------------------
  // Primitive reads
  // ---------------------------------------------------------------------

  /**
    What DataReader.PeekString obtains at `pos`: nothing at the very end,
    otherwise exactly `length` bytes, failing when fewer remain.
   */
  function Peeked(data: seq<byte>, pos: nat, length: int): Option<seq<byte>>
  {
    if pos == |data| || length <= 0 then Some([])
    else if pos + length <= |data| then Some(data[pos..pos + length])
    else None
  }

  /** The bytes from `pos` up to (not including) the first zero byte or the end. */
  function NullTerminated(data: seq<byte>, pos: nat): (s: seq<byte>)
    requires pos <= |data|
    ensures pos + |s| <= |data|
    ensures s == data[pos..pos + |s|]
    ensures NoZero(s)
    ensures pos + |s| == |data| || data[pos + |s|] == 0
    decreases |data| - pos
  {
    if pos == |data| || data[pos] == 0 then [] else [data[pos]] + NullTerminated(data, pos + 1)
  }

  /** A zero-free run that ends at a zero byte or at the end is the string read there. */
  lemma {:induction false} NullTerminatedUnique(data: seq<byte>, pos: nat, s: seq<byte>)
    requires pos + |s| <= |data| && data[pos..pos + |s|] == s && NoZero(s)
    requires pos + |s| == |data| || data[pos + |s|] == 0
    ensures NullTerminated(data, pos) == s
  {
  }

  /** The cursor after reading `s` at `pos`: past the terminator, or at the end. */
  function AfterString(data: seq<byte>, pos: nat, s: seq<byte>): nat
  {
    if pos + |s| < |data| then pos + |s| + 1 else pos + |s|
  }

  /** DataReader.ReadStringUntilNull as a function; it fails only when the cursor is past the end. */
  function ReadStringAt(data: seq<byte>, pos: nat): Option<(seq<byte>, nat)>
  {
    if pos > |data| then None
    else
      var s := NullTerminated(data, pos);
      Some((s, AfterString(data, pos, s)))
  }

  /** `n` strings read one after the other from `pos`, with the cursor after them. */
  function ReadStrings(data: seq<byte>, pos: nat, n: nat): (r: Option<(seq<seq<byte>>, nat)>)
    ensures r.Some? <==> n == 0 || pos <= |data|
    ensures r.Some? ==> |r.value.0| == n && pos <= r.value.1
    ensures r.Some? && n == 0 ==> r.value.1 == pos
    ensures r.Some? && n > 0 ==> r.value.1 <= |data|
    decreases n
  {
    if n == 0 then Some(([], pos))
    else
      match ReadStrings(data, pos, n - 1)
      case None => None
      case Some((ss, q)) =>
        match ReadStringAt(data, q)
        case None => None
        case Some((s, q')) => Some((ss + [s], q'))
  }

  // ---------------------------------------------------------------------
  // Entry tables
  // ---------------------------------------------------------------------

  function EntryV1At(data: seq<byte>, p: nat): EntryV1
    requires p + 8 <= |data|
  {
    EntryV1(LE32(data[p..p + 4]), LE32(data[p + 4..p + 8]))
  }

  function EntryV2At(data: seq<byte>, p: nat): EntryV2
    requires p + 20 <= |data|
  {
    EntryV2(LE32(data[p..p + 4]), LE32(data[p + 4..p + 8]), LE32(data[p + 8..p + 12]),
            LE32(data[p + 12..p + 16]), LE32(data[p + 16..p + 20]))
  }

  /** The `n` eight-byte entries laid out one after another from `p`. */
  function EntriesV1At(data: seq<byte>, p: nat, n: nat): (es: seq<EntryV1>)
    requires n == 0 || p + 8 * n <= |data|
    ensures |es| == n
    decreases n
  {
    if n == 0 then [] else EntriesV1At(data, p, n - 1) + [EntryV1At(data, p + 8 * (n - 1))]
  }

  /** The `n` twenty-byte entries laid out one after another from `p`. */
  function EntriesV2At(data: seq<byte>, p: nat, n: nat): (es: seq<EntryV2>)
    requires n == 0 || p + 20 * n <= |data|
    ensures |es| == n
    decreases n
  {
    if n == 0 then [] else EntriesV2At(data, p, n - 1) + [EntryV2At(data, p + 20 * (n - 1))]
  }

  /** Reading `n` eight-byte entries from `p`: fails when the stream ends inside the table. */
  function ReadEntriesV1(data: seq<byte>, p: nat, n: nat): (r: Option<(seq<EntryV1>, nat)>)
    ensures r.Some? <==> n == 0 || p + 8 * n <= |data|
    ensures r.Some? ==> |r.value.0| == n && r.value.1 == p + 8 * n
  {
    if n == 0 || p + 8 * n <= |data| then Some((EntriesV1At(data, p, n), p + 8 * n)) else None
  }

  /** Reading `n` twenty-byte entries from `p`: fails when the stream ends inside the table. */
  function ReadEntriesV2(data: seq<byte>, p: nat, n: nat): (r: Option<(seq<EntryV2>, nat)>)
    ensures r.Some? <==> n == 0 || p + 20 * n <= |data|
    ensures r.Some? ==> |r.value.0| == n && r.value.1 == p + 20 * n
  {
    if n == 0 || p + 20 * n <= |data| then Some((EntriesV2At(data, p, n), p + 20 * n)) else None
  }

  // ---------------------------------------------------------------------
  // The unknown set after a Version2 entry table
  // ---------------------------------------------------------------------

  /** The loop condition of the word scan. */
  predicate Continues(w: uint32)
  {
    w < WordLimit || w == AllOnes
  }

  function WordAt(data: seq<byte>, p: nat): uint32
    requires p + 4 <= |data|
  {
    LE32(data[p..p + 4])
  }

  /** The position of the first whole word from `p` on that stops the scan; fails at the end. */
  function SkipWords(data: seq<byte>, p: nat): (r: Option<nat>)
    ensures r.Some? ==> p <= r.value && r.value + 4 <= |data|
    ensures r.Some? ==> !Continues(WordAt(data, r.value))
    decreases |data| - p
  {
    if p + 4 > |data| then None
    else if Continues(WordAt(data, p)) then SkipWords(data, p + 4)
    else Some(p)
  }

  /** The position of the first non-zero byte from `p` on; fails at the end. */
  function SkipZeros(data: seq<byte>, p: nat): (r: Option<nat>)
    ensures r.Some? ==> p <= r.value < |data| && data[r.value] != 0
    decreases |data| - p
  {
    if p >= |data| then None
    else if data[p] == 0 then SkipZeros(data, p + 1)
    else Some(p)
  }

  /** Where the unknown set that starts at `p` ends: after the skipped words and the zero run. */
  function UnknownSetEnd(data: seq<byte>, p: nat): Option<nat>
  {
    match SkipWords(data, p)
    case None => None
    case Some(q) => SkipZeros(data, q)
  }

  // ---------------------------------------------------------------------
  // The decoder
  // ---------------------------------------------------------------------

  function HeaderAt(data: seq<byte>): Header
    requires |data| >= HeaderLength
  {
    Header(LE32(data[4..8]), Int32Of(LE32(data[8..12])), LE64(data[12..20]),
           LE32(data[20..24]), LE32(data[24..28]), LE32(data[28..32]),
           LE32(data[32..36]), LE32(data[36..40]))
  }

  /** The entries of either layout, the unknown set, and the cursor after them. */
  datatype EntryTables = EntryTables(v1: seq<EntryV1>, v2: seq<EntryV2>, unknownSet: seq<byte>, end: nat)

  function ReadEntryTables(data: seq<byte>, h: Header, p: nat): Option<EntryTables>
  {
    if h.version == Version1 then
      match ReadEntriesV1(data, p, EntryCount(h))
      case None => None
      case Some((es, q)) => Some(EntryTables(es, [], [], q))
    else if h.version == Version2 then
      match ReadEntriesV2(data, p, EntryCount(h))
      case None => None
      case Some((es, q)) =>
        match UnknownSetEnd(data, q)
        case None => None
        case Some(e) => Some(EntryTables([], es, data[q..e], e))
    else Some(EntryTables([], [], [], p))
  }

  /** The name given to label `i` of a file without a name table. */
  function SyntheticName(i: int): seq<byte>
  {
    UnnamedPrefix + ZeroPadded5(i)
  }

  function SyntheticNames(n: nat): (ns: seq<seq<byte>>)
    ensures |ns| == n
  {
    seq(n, i => SyntheticName(i))
  }

  /** Synthesizing one more name appends the name of the next label. */
  lemma {:induction false} SyntheticNamesStep(n: nat)
    ensures SyntheticNames(n + 1) == SyntheticNames(n) + [SyntheticName(n)]
  {
    var longer, shorter := SyntheticNames(n + 1), SyntheticNames(n);
    forall i | 0 <= i < n ensures longer[i] == shorter[i] {
    }
    assert longer == shorter + [SyntheticName(n)];
  }

  /** The name table: read when LabelSize is positive, synthesized otherwise. */
  function ReadNames(data: seq<byte>, h: Header, p: nat): Option<(seq<seq<byte>>, nat)>
  {
    if h.labelSize > 0 then ReadStrings(data, p, h.labelCount)
    else Some((SyntheticNames(h.labelCount), p))
  }

  /** One label per section, numbered from zero, named only below the label count. */
  function LabelsOf(h: Header, names: seq<seq<byte>>, texts: seq<seq<byte>>): seq<Label>
    requires |names| == h.labelCount && |texts| == h.sectionCount
  {
    seq(h.sectionCount, i requires 0 <= i < h.sectionCount =>
      Label(if i < h.labelCount then names[i] else [], texts[i], i))
  }

  /** What constructing a Gmd from a stream holding `data` yields. */
  function Parse(data: seq<byte>): Decoded
  {
    match Peeked(data, 0, 4)
    case None => Failed
    case Some(m) =>
      if m != Magic then NotGmd
      else if |data| < HeaderLength then Failed
      else ParseAfterHeader(data, HeaderAt(data))
  }

  /** Decoding after the header: the internal name, then the tables; a negative NameSize fails. */
  function ParseAfterHeader(data: seq<byte>, h: Header): Decoded
  {
    if Int32Of(h.nameSize) < 0 then Failed
    else ParseBody(data, h, Window(data, HeaderLength, h.nameSize))
  }

  /** Decoding after the internal name and its padding byte: the entry tables, then names and labels. */
  function ParseBody(data: seq<byte>, h: Header, name: seq<byte>): Decoded
  {
    match ReadEntryTables(data, h, HeaderLength + |name| + 1)
    case None => Failed
    case Some(t) => ParseLabels(data, h, name, t)
  }

  /** Decoding after the entry tables: the name table, then one text per section. */
  function ParseLabels(data: seq<byte>, h: Header, name: seq<byte>, t: EntryTables): Decoded
  {
    match ReadNames(data, h, t.end)
    case None => Failed
    case Some((names, q)) =>
      match ReadStrings(data, q, h.sectionCount)
      case None => Failed
      case Some((texts, _)) => Parsed(Doc(h, name, t.v1, t.v2, t.unknownSet, names, LabelsOf(h, names, texts)))
  }

  /** The shape every decoded document has, and that editing label texts keeps. */
  predicate WellFormed(d: Doc)
  {
    var h := d.header;
    && |d.name| <= h.nameSize < 0x8000_0000
    && (h.version == Version1 ==> |d.entriesV1| == EntryCount(h) && d.entriesV2 == [] && d.unknownSetV2 == [])
    && (h.version == Version2 ==> d.entriesV1 == [] && |d.entriesV2| == EntryCount(h))
    && (h.version != Version1 && h.version != Version2 ==> d.entriesV1 == [] && d.entriesV2 == [] && d.unknownSetV2 == [])
    && |d.names| == h.labelCount
    && |d.labels| == h.sectionCount
    && forall i :: 0 <= i < |d.labels| ==>
         d.labels[i].textId == i && d.labels[i].name == if i < h.labelCount then d.names[i] else []
  }

  // ---------------------------------------------------------------------
  // The layout a decoded stream has
  // ---------------------------------------------------------------------

  /**
    The names and labels of a document with header `h`: one label per
    section, numbered from zero, named from the name table below the label
    count and unnamed above it, no text holding a zero byte; the names are
    the synthesized "unnamed_" and five-digit index when LabelSize is zero,
    and free of zero bytes otherwise.
   */
  predicate LabelsLaidOut(h: Header, names: seq<seq<byte>>, labels: seq<Label>)
  {
    && |labels| == h.sectionCount && |names| == h.labelCount
    && (forall i :: 0 <= i < |labels| ==>
          && labels[i].textId == i
          && labels[i].name == (if i < h.labelCount then names[i] else [])
          && NoZero(labels[i].text))
    && (h.labelSize == 0 ==> forall i :: 0 <= i < |names| ==> names[i] == SyntheticName(i))
    && (h.labelSize > 0 ==> forall i :: 0 <= i < |names| ==> NoZero(names[i]))
  }

  /**
    The entry tables at `p` for header `h`: Version1 and Version2 hold
    exactly the signed label count of 8- and 20-byte entries, entry i at
    offset 8 * i or 20 * i; any other version has no entries and no unknown set.
   */
  predicate EntriesLaidOut(data: seq<byte>, h: Header, p: nat, v1: seq<EntryV1>, v2: seq<EntryV2>, us: seq<byte>)
  {
    && (h.version == Version1 ==>
          && |v1| == EntryCount(h) && v2 == [] && us == []
          && forall i :: 0 <= i < |v1| ==> p + 8 * i + 8 <= |data| && v1[i] == EntryV1At(data, p + 8 * i))
    && (h.version == Version2 ==>
          && |v2| == EntryCount(h) && v1 == []
          && forall i :: 0 <= i < |v2| ==> p + 20 * i + 20 <= |data| && v2[i] == EntryV2At(data, p + 20 * i))
    && (h.version != Version1 && h.version != Version2 ==> v1 == [] && v2 == [] && us == [])
  }

  /**
    The unknown set `b` at `q`: the bytes there, a run of whole words each
    below 0x100000 or all ones, then fewer than four zero bytes, and the byte
    right after the set is non-zero.
   */
  predicate UnknownSetLaidOut(data: seq<byte>, q: nat, b: seq<byte>)
  {
    && q + |b| < |data| && data[q..q + |b|] == b && data[q + |b|] != 0
    && SkipWords(data, q).Some?
    && var k := SkipWords(data, q).value;
       && q <= k <= q + |b| < k + 4 && (k - q) % 4 == 0
       && (forall j :: q <= j < k && (j - q) % 4 == 0 ==> Continues(WordAt(data, j)))
       && (forall j :: k <= j < q + |b| ==> data[j] == 0)
  }

  // ---------------------------------------------------------------------
  // The encoder
  // ---------------------------------------------------------------------

  function EntryV1Bytes(e: EntryV1): (b: seq<byte>)
    ensures |b| == 8
  {
    U32Bytes(e.id) + U32Bytes(e.unknown)
  }

  function EntryV2Bytes(e: EntryV2): (b: seq<byte>)
    ensures |b| == 20
  {
    U32Bytes(e.id) + U32Bytes(e.unknown1) + U32Bytes(e.unknown2) + U32Bytes(e.labelOffset) + U32Bytes(e.unknown3)
  }

  function EntriesV1Bytes(es: seq<EntryV1>): (b: seq<byte>)
    ensures |b| == 8 * |es|
  {
    if es == [] then [] else EntriesV1Bytes(es[..|es| - 1]) + EntryV1Bytes(es[|es| - 1])
  }

  function EntriesV2Bytes(es: seq<EntryV2>): (b: seq<byte>)
    ensures |b| == 20 * |es|
  {
    if es == [] then [] else EntriesV2Bytes(es[..|es| - 1]) + EntryV2Bytes(es[|es| - 1])
  }

  /** Encoding one more entry extends the encoding of the ones before it. */
  lemma {:induction false} EntriesV1Step(es: seq<EntryV1>, i: nat)
    requires i < |es|
    ensures EntriesV1Bytes(es[..i + 1]) == EntriesV1Bytes(es[..i]) + EntryV1Bytes(es[i])
  {
    assert es[..i + 1][..i] == es[..i];
  }

  lemma {:induction false} EntriesV2Step(es: seq<EntryV2>, i: nat)
    requires i < |es|
    ensures EntriesV2Bytes(es[..i + 1]) == EntriesV2Bytes(es[..i]) + EntryV2Bytes(es[i])
  {
    assert es[..i + 1][..i] == es[..i];
  }

  /** Strings written one after the other, each followed by one zero byte. */
  function Table(ss: seq<seq<byte>>): seq<byte>
  {
    if ss == [] then [] else Table(ss[..|ss| - 1]) + ss[|ss| - 1] + [0]
  }

  /** Writing one more string and its terminator extends the table of the ones before it. */
  lemma {:induction false} TableStep(ss: seq<seq<byte>>, i: nat)
    requires i < |ss|
    ensures Table(ss[..i + 1]) == Table(ss[..i]) + ss[i] + [0]
  {
    assert ss[..i + 1][..i] == ss[..i];
  }

  function TextsOf(labels: seq<Label>): (ts: seq<seq<byte>>)
    ensures |ts| == |labels|
  {
    seq(|labels|, i requires 0 <= i < |labels| => labels[i].text)
  }

  /** What Save writes after the internal name's padding byte and before the name table. */
  function EntryTable(d: Doc): seq<byte>
  {
    if d.header.version == Version1 then EntriesV1Bytes(d.entriesV1)
    else if d.header.version == Version2 then EntriesV2Bytes(d.entriesV2) + d.unknownSetV2
    else []
  }

  /** UTF-16 code units of one UTF-8 byte: none for a continuation byte, two for a four-byte lead. */
  function Utf16Units(b: byte): nat
  {
    if 0x80 <= b < 0xC0 then 0 else if b >= 0xF0 then 2 else 1
  }

  /** String.Length of the string whose UTF-8 encoding is `s`. */
  function Utf16Length(s: seq<byte>): nat
  {
    if s == [] then 0 else Utf16Length(s[..|s| - 1]) + Utf16Units(s[|s| - 1])
  }

  /** The sum of Names[i].Length + 1, before reduction to 32 bits. */
  function LabelSizeSum(names: seq<seq<byte>>): nat
  {
    if names == [] then 0 else LabelSizeSum(names[..|names| - 1]) + Utf16Length(names[|names| - 1]) + 1
  }

  /** The header Save writes: LabelSize and SectionSize recomputed, the rest unchanged. */
  function SavedHeader(d: Doc): Header
  {
    d.header.(labelSize := LabelSizeSum(d.names) % TwoTo32,
              sectionSize := |Table(TextsOf(d.labels))| % TwoTo32)
  }

  /** The document as it is after Save. */
  function Saved(d: Doc): Doc
  {
    d.(header := SavedHeader(d))
  }

  /** Saving only recomputes the two size fields, so a well-formed document stays well formed. */
  lemma {:induction false} SavedWellFormed(d: Doc)
    requires WellFormed(d)
    ensures WellFormed(Saved(d))
  {
    var h := SavedHeader(d);
    assert h.labelCount == d.header.labelCount && h.sectionCount == d.header.sectionCount;
    assert h.version == d.header.version && h.nameSize == d.header.nameSize;
  }

  function HeaderBytes(h: Header): seq<byte>
  {
    Magic + U32Bytes(h.version) + U32Bytes(UInt32Of(h.language)) + U64Bytes(h.unknown)
    + U32Bytes(h.labelCount) + U32Bytes(h.sectionCount) + U32Bytes(h.labelSize)
    + U32Bytes(h.sectionSize) + U32Bytes(h.nameSize)
  }

  /** What Save writes from offset 0: the header, the internal name and one zero byte. */
  function Front(h: Header, name: seq<byte>): seq<byte>
  {
    HeaderBytes(h) + name + [0]
  }

  /** Everything Save writes from offset HeaderLength + NameSize + 1 on. */
  function Body(d: Doc): seq<byte>
  {
    EntryTable(d) + Table(d.names) + Table(TextsOf(d.labels))
  }

  /**
    The bytes Save leaves in a fresh stream: the body written at
    HeaderLength + NameSize + 1, then the header, the internal name and one zero
    byte written from offset 0.
   */
  function Encode(d: Doc): seq<byte>
  {
    Place(Place([], HeaderLength + d.header.nameSize + 1, Body(d)), 0, Front(SavedHeader(d), d.name))
  }

  /** A file that received the body and then the front, as Save writes them, holds the encoding. */
  lemma {:induction false} EncodeInTwoWrites(d: Doc, body: seq<byte>, file: seq<byte>)
    requires body == Place([], HeaderLength + d.header.nameSize + 1, Body(d))
    requires file == Place(body, 0, Front(SavedHeader(d), d.name))
    ensures file == Encode(d)
  {
  }
}
