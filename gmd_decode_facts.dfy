/**
  What the decoder guarantees about the document it builds: when it rejects a
  stream, the header layout it reads, where the entry tables sit, the shape of
  the Version2 unknown set, and how labels are numbered and named.
 */
module GmdDecodeFacts {
  import opened Bytes
  import opened Wrappers
  import opened Streams
  import opened GmdFormat

  /** Entry i of a Version1 table is the eight bytes at offset 8 * i. */
  lemma {:induction false} EntriesV1Offsets(data: seq<byte>, p: nat, n: nat)
    requires ReadEntriesV1(data, p, n).Some?
    ensures forall i :: 0 <= i < n ==>
      p + 8 * i + 8 <= |data| && ReadEntriesV1(data, p, n).value.0[i] == EntryV1At(data, p + 8 * i)
  {
    forall i | 0 <= i < n
      ensures p + 8 * i + 8 <= |data| && ReadEntriesV1(data, p, n).value.0[i] == EntryV1At(data, p + 8 * i)
    {
      EntryV1Offset(data, p, n, i);
    }
  }

  lemma {:induction false} EntryV1Offset(data: seq<byte>, p: nat, n: nat, i: nat)
    requires ReadEntriesV1(data, p, n).Some? && i < n
    ensures p + 8 * i + 8 <= |data| && ReadEntriesV1(data, p, n).value.0[i] == EntryV1At(data, p + 8 * i)
    decreases n
  {
    if i < n - 1 {
      EntryV1Offset(data, p, n - 1, i);
    }
  }

  /** Entry i of a Version2 table is the twenty bytes at offset 20 * i. */
  lemma {:induction false} EntriesV2Offsets(data: seq<byte>, p: nat, n: nat)
    requires ReadEntriesV2(data, p, n).Some?
    ensures forall i :: 0 <= i < n ==>
      p + 20 * i + 20 <= |data| && ReadEntriesV2(data, p, n).value.0[i] == EntryV2At(data, p + 20 * i)
  {
    forall i | 0 <= i < n
      ensures p + 20 * i + 20 <= |data| && ReadEntriesV2(data, p, n).value.0[i] == EntryV2At(data, p + 20 * i)
    {
      EntryV2Offset(data, p, n, i);
    }
  }

  lemma {:induction false} EntryV2Offset(data: seq<byte>, p: nat, n: nat, i: nat)
    requires ReadEntriesV2(data, p, n).Some? && i < n
    ensures p + 20 * i + 20 <= |data| && ReadEntriesV2(data, p, n).value.0[i] == EntryV2At(data, p + 20 * i)
    decreases n
  {
    if i < n - 1 {
      EntryV2Offset(data, p, n - 1, i);
    }
  }

  /** No string of a table read from the stream contains a zero byte. */
  lemma {:induction false} StringsNoZero(data: seq<byte>, p: nat, n: nat)
    requires ReadStrings(data, p, n).Some?
    ensures forall i :: 0 <= i < n ==> NoZero(ReadStrings(data, p, n).value.0[i])
    decreases n
  {
    if n > 0 {
      StringsNoZero(data, p, n - 1);
    }
  }

  /** Every whole word the scan skips is below 0x100000 or all ones. */
  lemma {:induction false} SkipWordsShape(data: seq<byte>, p: nat)
    requires SkipWords(data, p).Some?
    ensures (SkipWords(data, p).value - p) % 4 == 0
    ensures forall q :: p <= q < SkipWords(data, p).value && (q - p) % 4 == 0 ==> Continues(WordAt(data, q))
    decreases |data| - p
  {
    if Continues(WordAt(data, p)) {
      SkipWordsShape(data, p + 4);
    }
  }

  /** Every byte the zero scan skips is zero; when it fails, every byte to the end is zero. */
  lemma {:induction false} SkipZerosShape(data: seq<byte>, p: nat)
    ensures SkipZeros(data, p).Some? ==> forall q :: p <= q < SkipZeros(data, p).value ==> data[q] == 0
    ensures SkipZeros(data, p).None? ==> forall q :: p <= q < |data| ==> data[q] == 0
    decreases |data| - p
  {
    if p < |data| && data[p] == 0 {
      SkipZerosShape(data, p + 1);
    }
  }

  /**
    The word that stops the unknown-set scan is at least 0x100000, so one of
    its two high bytes is non-zero: the zero-byte scan that follows ends inside
    it and never reaches the end of the stream.
   */
  lemma {:induction false} ZeroRunInStopWord(data: seq<byte>, q: nat)
    requires q + 4 <= |data| && !Continues(WordAt(data, q))
    ensures SkipZeros(data, q).Some? && SkipZeros(data, q).value <= q + 3
  {
    var w := data[q..q + 4];
    assert w[2] == data[q + 2] && w[3] == data[q + 3];
    assert data[q + 2] != 0 || data[q + 3] != 0;
    SkipZerosShape(data, q);
  }

  /** A stream is recognised as not being GMD exactly when it is empty or its first four bytes differ from the magic. */
  lemma {:induction false} NotGmdIff(data: seq<byte>)
    ensures Parse(data) == NotGmd <==> |data| == 0 || (|data| >= 4 && data[..4] != Magic)
  {
    if |data| >= 4 {
      assert data[0..4] == data[..4];
    }
  }

  /** A stream that starts with the magic but is shorter than the header fails. */
  lemma {:induction false} ShortHeaderFails(data: seq<byte>)
    requires 4 <= |data| < HeaderLength && data[..4] == Magic
    ensures Parse(data) == Failed
  {
    assert data[0..4] == data[..4];
  }

  /**
    A decoded document starts with the magic and carries the 0x28-byte header
    read from the front of the stream, and the internal name read right after
    it, cut short only by the end of the stream.
   */
  lemma {:induction false} DecodedHeader(data: seq<byte>)
    requires Parse(data).Parsed?
    ensures |data| >= HeaderLength && data[..4] == Magic
    ensures Parse(data).doc.header == HeaderAt(data)
    ensures Parse(data).doc.header.nameSize < 0x8000_0000
    ensures var d := Parse(data).doc;
            |d.name| == Min(d.header.nameSize, |data| - HeaderLength)
            && d.name == data[HeaderLength..HeaderLength + |d.name|]
  {
    assert data[0..4] == data[..4];
  }

  /** Every decoded document is well formed. */
  lemma {:induction false} ParseWellFormed(data: seq<byte>)
    ensures Parse(data).Parsed? ==> WellFormed(Parse(data).doc)
  {
    if Parse(data).Parsed? {
      DecodedHeader(data);
      DecodedLabels(data, Parse(data).doc);
    }
  }

  /** The intermediate results of a decoding that succeeded. */
  datatype Trace = Trace(tables: EntryTables, namesEnd: nat, texts: seq<seq<byte>>)

  /** The entry tables a decoded document was built from. */
  function TablesOf(data: seq<byte>): (t: EntryTables)
    requires Parse(data).Parsed?
    ensures var d := Parse(data).doc;
            && ReadEntryTables(data, d.header, HeaderLength + |d.name| + 1) == Some(t)
            && d.entriesV1 == t.v1 && d.entriesV2 == t.v2 && d.unknownSetV2 == t.unknownSet
  {
    TraceOf(data).tables
  }

  /** How the document decoded from `data` was assembled, step by step. */
  function TraceOf(data: seq<byte>): (tr: Trace)
    requires Parse(data).Parsed?
    ensures var d := Parse(data).doc; var h := d.header;
            && ReadEntryTables(data, h, HeaderLength + |d.name| + 1) == Some(tr.tables)
            && d.entriesV1 == tr.tables.v1 && d.entriesV2 == tr.tables.v2 && d.unknownSetV2 == tr.tables.unknownSet
            && ReadNames(data, h, tr.tables.end) == Some((d.names, tr.namesEnd))
            && ReadStrings(data, tr.namesEnd, h.sectionCount).Some?
            && ReadStrings(data, tr.namesEnd, h.sectionCount).value.0 == tr.texts
            && |d.names| == h.labelCount && |tr.texts| == h.sectionCount
            && d.labels == LabelsOf(h, d.names, tr.texts)
  {
    var h := HeaderAt(data);
    assert Parse(data) == ParseAfterHeader(data, h);
    var t := ReadEntryTables(data, h, HeaderLength + |Window(data, HeaderLength, h.nameSize)| + 1).value;
    var q := ReadNames(data, h, t.end).value.1;
    Trace(t, q, ReadStrings(data, q, h.sectionCount).value.0)
  }

  /** The names and labels built from a name table and a text table read one after the other. */
  lemma {:induction false} LabelsShape(data: seq<byte>, h: Header, p: nat, names: seq<seq<byte>>, q: nat)
    requires ReadNames(data, h, p) == Some((names, q))
    requires ReadStrings(data, q, h.sectionCount).Some?
    ensures |names| == h.labelCount
    ensures LabelsLaidOut(h, names, LabelsOf(h, names, ReadStrings(data, q, h.sectionCount).value.0))
  {
    var texts := ReadStrings(data, q, h.sectionCount).value.0;
    StringsNoZero(data, q, h.sectionCount);
    if h.labelSize > 0 {
      StringsNoZero(data, p, h.labelCount);
    }
    var labels := LabelsOf(h, names, texts);
    assert forall i :: 0 <= i < |labels| ==> labels[i].text == texts[i];
  }

  /** The entry tables read at `p` for header `h`. */
  lemma {:induction false} EntryTablesShape(data: seq<byte>, h: Header, p: nat, t: EntryTables)
    requires ReadEntryTables(data, h, p) == Some(t)
    ensures EntriesLaidOut(data, h, p, t.v1, t.v2, t.unknownSet)
  {
    if h.version == Version1 {
      var r := ReadEntriesV1(data, p, EntryCount(h)).value;
      assert t == EntryTables(r.0, [], [], r.1);
      EntriesV1Offsets(data, p, EntryCount(h));
    } else if h.version == Version2 {
      var r := ReadEntriesV2(data, p, EntryCount(h)).value;
      var e := UnknownSetEnd(data, r.1).value;
      assert t == EntryTables([], r.0, data[r.1..e], e);
      EntriesV2Offsets(data, p, EntryCount(h));
    } else {
      assert t == EntryTables([], [], [], p);
    }
  }

  /** The unknown set read at `q`: skipped words, then fewer than four zero bytes, then a non-zero byte. */
  lemma {:induction false} UnknownSetShape(data: seq<byte>, q: nat, b: seq<byte>)
    requires UnknownSetEnd(data, q) == Some(q + |b|) && q + |b| <= |data| && data[q..q + |b|] == b
    ensures UnknownSetLaidOut(data, q, b)
  {
    var k := SkipWords(data, q).value;
    ZeroRunInStopWord(data, k);
    SkipWordsShape(data, q);
    SkipZerosShape(data, k);
  }

  /** Label construction in a decoded document (see LabelsLaidOut). */
  lemma {:induction false} DecodedLabels(data: seq<byte>, d: Doc)
    requires Parse(data) == Parsed(d)
    ensures LabelsLaidOut(d.header, d.names, d.labels)
  {
    var tr := TraceOf(data);
    LabelsShape(data, d.header, tr.tables.end, d.names, tr.namesEnd);
  }

  /** The entry tables of a decoded document start right after the internal name and its padding byte. */
  lemma {:induction false} DecodedEntries(data: seq<byte>, d: Doc)
    requires Parse(data) == Parsed(d)
    ensures EntriesLaidOut(data, d.header, HeaderLength + |d.name| + 1, d.entriesV1, d.entriesV2, d.unknownSetV2)
  {
    var t := TablesOf(data);
    EntryTablesShape(data, d.header, HeaderLength + |d.name| + 1, t);
  }

  /**
    The unknown set of Version2 tables read at `p` follows the entries: the
    skipped words and zeros found there, with the tables ending right after it.
   */
  lemma {:induction false} TablesUnknownSet(data: seq<byte>, h: Header, p: nat, t: EntryTables, q: nat, b: seq<byte>)
    requires ReadEntryTables(data, h, p) == Some(t) && h.version == Version2
    requires q == p + 20 * |t.v2| && b == t.unknownSet
    ensures UnknownSetLaidOut(data, q, b) && t.end == q + |b|
  {
    UnknownSetAt(data, h, p, t, q, b);
    UnknownSetShape(data, q, b);
  }

  /** The Version2 tables at `p`: the unknown set is the run UnknownSetEnd delimits after the entries. */
  lemma {:induction false} UnknownSetAt(data: seq<byte>, h: Header, p: nat, t: EntryTables, q: nat, b: seq<byte>)
    requires ReadEntryTables(data, h, p) == Some(t) && h.version == Version2
    requires q == p + 20 * |t.v2| && b == t.unknownSet
    ensures && UnknownSetEnd(data, q) == Some(q + |b|)
            && q + |b| <= |data| && data[q..q + |b|] == b
            && t.end == q + |b|
  {
    var r := ReadEntriesV2(data, p, EntryCount(h)).value;
    var e := UnknownSetEnd(data, r.1).value;
    assert t == EntryTables([], r.0, data[r.1..e], e);
  }
}
