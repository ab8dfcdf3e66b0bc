/**
  Decoding what Save writes: the decoder reads back the header Save wrote,
  the internal name, the entry tables, the unknown set, the name table and
  the texts, so that a document decoded from the saved bytes is the document
  as Save left it (with LabelSize and SectionSize recomputed).
 */
module GmdRoundTrip {
  import opened Bytes
  import opened Wrappers
  import opened Streams
  import opened GmdFormat
  import opened GmdDecodeFacts
  import opened GmdRescan

  /** `b` occurs in `data` at offset `p`. */
  predicate IsAt(data: seq<byte>, p: nat, b: seq<byte>)
  {
    p + |b| <= |data| && data[p..p + |b|] == b
  }

  /** A concatenation found at `p` is its first part at `p` and its second part right after. */
  lemma {:induction false} IsAtSplit(data: seq<byte>, p: nat, a: seq<byte>, b: seq<byte>)
    requires IsAt(data, p, a + b)
    ensures IsAt(data, p, a) && IsAt(data, p + |a|, b)
  {
    var s := data[p..p + |a| + |b|];
    assert data[p..p + |a|] == s[..|a|] && s[..|a|] == a;
    assert data[p + |a|..p + |a| + |b|] == s[|a|..] && s[|a|..] == b;
  }

  /** The same, for a `whole` known to be the concatenation and a second part known to start at `q`. */
  lemma {:induction false} IsAtSplitAt(data: seq<byte>, p: nat, a: seq<byte>, b: seq<byte>, whole: seq<byte>, q: nat)
    requires IsAt(data, p, whole) && whole == a + b && q == p + |a|
    ensures IsAt(data, p, a) && IsAt(data, q, b)
  {
    IsAtSplit(data, p, a, b);
  }

  // ---------------------------------------------------------------------
  // Fixed-size fields
  // ---------------------------------------------------------------------

  /** The decoder reads back the header Save writes. */
  lemma {:induction false} HeaderRead(data: seq<byte>, h: Header)
    requires IsAt(data, 0, HeaderBytes(h))
    ensures |data| >= HeaderLength && data[..4] == Magic && HeaderAt(data) == h
  {
    var x1 := Magic + U32Bytes(h.version);
    var x2 := x1 + U32Bytes(UInt32Of(h.language));
    var x3 := x2 + U64Bytes(h.unknown);
    var x4 := x3 + U32Bytes(h.labelCount);
    var x5 := x4 + U32Bytes(h.sectionCount);
    var x6 := x5 + U32Bytes(h.labelSize);
    var x7 := x6 + U32Bytes(h.sectionSize);
    IsAtSplit(data, 0, x7, U32Bytes(h.nameSize));
    IsAtSplit(data, 0, x6, U32Bytes(h.sectionSize));
    IsAtSplit(data, 0, x5, U32Bytes(h.labelSize));
    IsAtSplit(data, 0, x4, U32Bytes(h.sectionCount));
    IsAtSplit(data, 0, x3, U32Bytes(h.labelCount));
    IsAtSplit(data, 0, x2, U64Bytes(h.unknown));
    IsAtSplit(data, 0, x1, U32Bytes(UInt32Of(h.language)));
    IsAtSplit(data, 0, Magic, U32Bytes(h.version));
  }

  lemma {:induction false} EntryV1Read(data: seq<byte>, p: nat, e: EntryV1)
    requires IsAt(data, p, EntryV1Bytes(e))
    ensures p + 8 <= |data| && EntryV1At(data, p) == e
  {
    IsAtSplit(data, p, U32Bytes(e.id), U32Bytes(e.unknown));
  }

  lemma {:induction false} EntryV2Read(data: seq<byte>, p: nat, e: EntryV2)
    requires IsAt(data, p, EntryV2Bytes(e))
    ensures p + 20 <= |data| && EntryV2At(data, p) == e
  {
    var a, b, c, f := U32Bytes(e.id), U32Bytes(e.unknown1), U32Bytes(e.unknown2), U32Bytes(e.labelOffset);
    IsAtSplit(data, p, a + b + c + f, U32Bytes(e.unknown3));
    IsAtSplit(data, p, a + b + c, f);
    IsAtSplit(data, p, a + b, c);
    IsAtSplit(data, p, a, b);
  }

  // ---------------------------------------------------------------------
  // Entry tables and string tables
  // ---------------------------------------------------------------------

  /** A Version1 table Save wrote is read back entry by entry, the last entry ending at `e`. */
  lemma {:induction false} EntriesV1Read(data: seq<byte>, p: nat, es: seq<EntryV1>, e: nat)
    requires IsAt(data, p, EntriesV1Bytes(es)) && e == p + 8 * |es|
    ensures e <= |data| && EntriesV1At(data, p, |es|) == es
    decreases |es|
  {
    if es != [] {
      var init, last := es[..|es| - 1], es[|es| - 1];
      var q := p + 8 * |init|;
      EntriesV1Last(es, init, last, p, q, e);
      IsAtSplitAt(data, p, EntriesV1Bytes(init), EntryV1Bytes(last), EntriesV1Bytes(es), q);
      EntriesV1Read(data, p, init, q);
      EntryV1Read(data, q, last);
      EntriesV1OneMore(data, p, init, last, es, q);
    }
  }

  /** The encoding of a Version1 table is that of all but its last entry, then that of the last one. */
  lemma {:induction false} EntriesV1Last(es: seq<EntryV1>, init: seq<EntryV1>, last: EntryV1, p: nat, q: nat, e: nat)
    requires es != [] && init == es[..|es| - 1] && last == es[|es| - 1]
    requires q == p + 8 * |init| && e == p + 8 * |es|
    ensures es == init + [last]
    ensures EntriesV1Bytes(es) == EntriesV1Bytes(init) + EntryV1Bytes(last)
    ensures q == p + |EntriesV1Bytes(init)| && e == q + |EntryV1Bytes(last)|
  {
    assert es == init + [last];
    assert |es| == |init| + 1;
    assert e == q + 8;
  }

  /** One more entry after the entries read as `init` is read as the next one. */
  lemma {:induction false} EntriesV1OneMore(data: seq<byte>, p: nat, init: seq<EntryV1>, e: EntryV1, es: seq<EntryV1>, q: nat)
    requires q == p + 8 * |init| && q + 8 <= |data|
    requires EntriesV1At(data, p, |init|) == init && EntryV1At(data, q) == e
    requires es == init + [e]
    ensures EntriesV1At(data, p, |es|) == es
  {
  }

  /** A Version2 table Save wrote is read back entry by entry, the last entry ending at `e`. */
  lemma {:induction false} EntriesV2Read(data: seq<byte>, p: nat, es: seq<EntryV2>, e: nat)
    requires IsAt(data, p, EntriesV2Bytes(es)) && e == p + 20 * |es|
    ensures e <= |data| && EntriesV2At(data, p, |es|) == es
    decreases |es|
  {
    if es != [] {
      var init, last := es[..|es| - 1], es[|es| - 1];
      var q := p + 20 * |init|;
      EntriesV2Last(es, init, last, p, q, e);
      IsAtSplitAt(data, p, EntriesV2Bytes(init), EntryV2Bytes(last), EntriesV2Bytes(es), q);
      EntriesV2Read(data, p, init, q);
      EntryV2Read(data, q, last);
      EntriesV2OneMore(data, p, init, last, es, q);
    }
  }

  /** The encoding of a Version2 table is that of all but its last entry, then that of the last one. */
  lemma {:induction false} EntriesV2Last(es: seq<EntryV2>, init: seq<EntryV2>, last: EntryV2, p: nat, q: nat, e: nat)
    requires es != [] && init == es[..|es| - 1] && last == es[|es| - 1]
    requires q == p + 20 * |init| && e == p + 20 * |es|
    ensures es == init + [last]
    ensures EntriesV2Bytes(es) == EntriesV2Bytes(init) + EntryV2Bytes(last)
    ensures q == p + |EntriesV2Bytes(init)| && e == q + |EntryV2Bytes(last)|
  {
    assert es == init + [last];
    assert |es| == |init| + 1;
    assert e == q + 20;
  }

  /** One more entry after the entries read as `init` is read as the next one. */
  lemma {:induction false} EntriesV2OneMore(data: seq<byte>, p: nat, init: seq<EntryV2>, e: EntryV2, es: seq<EntryV2>, q: nat)
    requires q == p + 20 * |init| && q + 20 <= |data|
    requires EntriesV2At(data, p, |init|) == init && EntryV2At(data, q) == e
    requires es == init + [e]
    ensures EntriesV2At(data, p, |es|) == es
  {
  }

  /**
    A table of zero-free strings, each followed by its terminator, is read
    back string by string, and the cursor ends right after the table.
   */
  lemma {:induction false} TableRead(data: seq<byte>, p: nat, ss: seq<seq<byte>>, e: nat)
    requires IsAt(data, p, Table(ss)) && e == p + |Table(ss)|
    requires forall i :: 0 <= i < |ss| ==> NoZero(ss[i])
    ensures ReadStrings(data, p, |ss|) == Some((ss, e))
    decreases |ss|
  {
    if ss != [] {
      var n := |ss|;
      var init, last := ss[..n - 1], ss[n - 1];
      var q := p + |Table(init)|;
      TableLastAt(data, p, ss, init, last, q, e);
      TableRead(data, p, init, q);
      StringAt(data, q, last, e);
      ReadOneMore(data, p, init, last, ss, q, e);
    }
  }

  /** Where the strings before the last one, the last one and its terminator lie in a table found at `p`. */
  lemma {:induction false} TableLastAt(data: seq<byte>, p: nat, ss: seq<seq<byte>>, init: seq<seq<byte>>, last: seq<byte>, q: nat, e: nat)
    requires IsAt(data, p, Table(ss)) && ss != []
    requires init == ss[..|ss| - 1] && last == ss[|ss| - 1] && q == p + |Table(init)| && e == p + |Table(ss)|
    ensures ss == init + [last] && e == q + |last| + 1
    ensures IsAt(data, p, Table(init)) && IsAt(data, q, last) && IsAt(data, q + |last|, [0])
  {
    TableLast(ss, init, last, p, q, e);
    IsAtSplitAt(data, p, Table(init) + last, [0], Table(ss), q + |last|);
    IsAtSplitAt(data, p, Table(init), last, Table(init) + last, q);
  }

  /** A table is the table of all but its last string, then that string and its terminator. */
  lemma {:induction false} TableLast(ss: seq<seq<byte>>, init: seq<seq<byte>>, last: seq<byte>, p: nat, q: nat, e: nat)
    requires ss != [] && init == ss[..|ss| - 1] && last == ss[|ss| - 1]
    requires q == p + |Table(init)| && e == p + |Table(ss)|
    ensures ss == init + [last] && Table(ss) == Table(init) + last + [0]
    ensures q + |last| == p + |Table(init) + last| && e == q + |last| + 1
  {
  }

  /** A zero-free string found at `q`, followed by its terminator, is the string read there. */
  lemma {:induction false} StringAt(data: seq<byte>, q: nat, s: seq<byte>, e: nat)
    requires IsAt(data, q, s) && IsAt(data, q + |s|, [0]) && NoZero(s) && e == q + |s| + 1
    ensures ReadStringAt(data, q) == Some((s, e))
  {
    assert data[q + |s|] == [0][0];
    NullTerminatedUnique(data, q, s);
  }

  /** The string read where the strings read as `init` end is read as the next one. */
  lemma {:induction false} ReadOneMore(data: seq<byte>, p: nat, init: seq<seq<byte>>, last: seq<byte>, ss: seq<seq<byte>>, q: nat, e: nat)
    requires ReadStrings(data, p, |init|) == Some((init, q))
    requires ReadStringAt(data, q) == Some((last, e))
    requires ss == init + [last]
    ensures ReadStrings(data, p, |ss|) == Some((ss, e))
  {
  }

  // ---------------------------------------------------------------------
  // The unknown-set scan over a suffix
  // ---------------------------------------------------------------------

  function Shifted(r: Option<nat>, p: nat): (s: Option<nat>)
    ensures s.Some? <==> r.Some?
    ensures s.Some? ==> s.value == p + r.value
  {
    match r
    case None => None
    case Some(k) => Some(p + k)
  }

  /** The word scan from `p + j` sees only the bytes from `p` on. */
  lemma {:induction false} SkipWordsShift(data: seq<byte>, p: nat, j: nat)
    requires p <= |data|
    ensures SkipWords(data, p + j) == Shifted(SkipWords(data[p..], j), p)
    decreases |data| - p - j
  {
    var rest := data[p..];
    if j + 4 <= |rest| {
      assert data[p + j..p + j + 4] == rest[j..j + 4];
      if Continues(WordAt(rest, j)) {
        SkipWordsShift(data, p, j + 4);
      }
    }
  }

  /** The zero scan from `p + j` sees only the bytes from `p` on. */
  lemma {:induction false} SkipZerosShift(data: seq<byte>, p: nat, j: nat)
    requires p <= |data|
    ensures SkipZeros(data, p + j) == Shifted(SkipZeros(data[p..], j), p)
    decreases |data| - p - j
  {
    if p + j < |data| && data[p + j] == 0 {
      assert data[p..][j] == 0;
      SkipZerosShift(data, p, j + 1);
    }
  }

  /** Where the unknown set at `p` ends depends only on the bytes from `p` on. */
  lemma {:induction false} UnknownSetShift(data: seq<byte>, p: nat)
    requires p <= |data|
    ensures UnknownSetEnd(data, p) == Shifted(UnknownSetEnd(data[p..], 0), p)
  {
    SkipWordsShift(data, p, 0);
    match SkipWords(data[p..], 0)
    case None =>
    case Some(k) => SkipZerosShift(data, p, k);
  }

  // ---------------------------------------------------------------------
  // What the saved file looks like
  // ---------------------------------------------------------------------

  /** The header, the internal name and its zero byte, then the body, with no gap between them. */
  lemma {:induction false} EncodeLayout(d: Doc)
    requires |d.name| == d.header.nameSize
    ensures Encode(d) == Front(SavedHeader(d), d.name) + Body(d)
  {
    var front := Front(SavedHeader(d), d.name);
    assert |front| == HeaderLength + d.header.nameSize + 1;
    FrontAfterBody(front, Body(d));
  }

  /** Writing `body` past a gap and then `front` exactly into the gap leaves the two side by side. */
  lemma {:induction false} FrontAfterBody(front: seq<byte>, body: seq<byte>)
    requires front != []
    ensures Place(Place([], |front|, body), 0, front) == front + body
  {
    var first := Place([], |front|, body);
    if body == [] {
      assert first == [];
    } else {
      assert first == seq(|front|, _ => 0) + body;
      assert first[|front|..] == body;
    }
  }

  /**
    What the round trip needs of a document: its shape, a name exactly
    NameSize bytes long, no zero byte inside a name or a text (the reader
    stops at the first one), a LabelSize sum that does not wrap to zero, and
    an unknown set the scan finds again.
   */
  predicate Encodable(d: Doc)
  {
    && WellFormed(d)
    && |d.name| == d.header.nameSize
    && (forall i :: 0 <= i < |d.names| ==> NoZero(d.names[i]))
    && (forall i :: 0 <= i < |d.labels| ==> NoZero(d.labels[i].text))
    && LabelSizeSum(d.names) < TwoTo32
    && UnknownSetRescans(d)
  }

  lemma {:induction false} LabelSizeAtLeastCount(names: seq<seq<byte>>)
    ensures LabelSizeSum(names) >= |names|
    decreases |names|
  {
    if names != [] {
      LabelSizeAtLeastCount(names[..|names| - 1]);
    }
  }

  /** A Version1 table Save wrote reads back as its entries, the cursor right after it at `e`. */
  lemma {:induction false} TablesV1Read(data: seq<byte>, p: nat, h: Header, es: seq<EntryV1>, e: nat)
    requires h.version == Version1 && EntryCount(h) == |es|
    requires IsAt(data, p, EntriesV1Bytes(es)) && e == p + 8 * |es|
    ensures ReadEntryTables(data, h, p) == Some(EntryTables(es, [], [], e))
  {
    EntriesV1Read(data, p, es, e);
  }

  /** Version2 entries found at `p` are what the table reader returns, its cursor ending at `q`. */
  lemma {:induction false} EntriesV2Table(data: seq<byte>, p: nat, es: seq<EntryV2>, q: nat)
    requires q == p + 20 * |es| && q <= |data| && EntriesV2At(data, p, |es|) == es
    ensures ReadEntriesV2(data, p, |es|) == Some((es, q))
  {
  }

  /**
    A Version2 table Save wrote reads back as its entries, followed by the
    unknown set found at `q` and ending at `e`.
   */
  lemma {:induction false} TablesV2Read(data: seq<byte>, p: nat, h: Header, es: seq<EntryV2>, us: seq<byte>, rest: seq<byte>, q: nat, e: nat)
    requires h.version == Version2 && EntryCount(h) == |es|
    requires IsAt(data, p, EntriesV2Bytes(es)) && q == p + 20 * |es|
    requires IsAt(data, q, us) && e == q + |us|
    requires q <= |data| && data[q..] == us + rest && UnknownSetEnd(us + rest, 0) == Some(|us|)
    ensures ReadEntryTables(data, h, p) == Some(EntryTables([], es, us, e))
  {
    EntriesV2Read(data, p, es, q);
    EntriesV2Table(data, p, es, q);
    UnknownSetFound(data, q, us, us + rest, e);
    assert data[q..e] == us;
  }

  /** The unknown set Save wrote after the Version2 entries is found again by the scan. */
  lemma {:induction false} UnknownSetFound(data: seq<byte>, q: nat, us: seq<byte>, tail: seq<byte>, e: nat)
    requires q <= |data| && data[q..] == tail
    requires UnknownSetEnd(tail, 0) == Some(|us|) && e == q + |us|
    ensures UnknownSetEnd(data, q) == Some(e)
  {
    UnknownSetShift(data, q);
  }

  /** The name table of the saved file decodes to the document's names. */
  lemma {:induction false} NamesRead(data: seq<byte>, p: nat, h: Header, names: seq<seq<byte>>, q: nat)
    requires IsAt(data, p, Table(names)) && q == p + |Table(names)|
    requires forall i :: 0 <= i < |names| ==> NoZero(names[i])
    requires |names| == h.labelCount && (h.labelSize > 0 || names == [])
    ensures ReadNames(data, h, p) == Some((names, q))
  {
    if h.labelSize > 0 {
      TableRead(data, p, names, q);
    }
  }

  /** Labels rebuilt from the texts alone are the document's labels. */
  lemma {:induction false} LabelsRebuilt(d: Doc, h: Header)
    requires WellFormed(d)
    requires h.labelCount == d.header.labelCount && h.sectionCount == d.header.sectionCount
    ensures LabelsOf(h, d.names, TextsOf(d.labels)) == d.labels
  {
  }

  /**
    What the decoder reads back from a stream, step by step: the header `h`,
    `d`'s name, `d`'s entry tables ending at `p`, `d`'s names ending at `q`
    and the label texts ending at `e`.
   */
  predicate ReadsBack(data: seq<byte>, h: Header, d: Doc, p: nat, q: nat, texts: seq<seq<byte>>, e: nat)
  {
    FrontReadsBack(data, h, d, p) && TablesReadBack(data, h, d, p, q, texts, e)
  }

  /** The header `h`, `d`'s name and `d`'s entry tables, ending at `p`, read back. */
  predicate FrontReadsBack(data: seq<byte>, h: Header, d: Doc, p: nat)
  {
    && |data| >= HeaderLength && data[..4] == Magic && HeaderAt(data) == h
    && h.nameSize == |d.name| < 0x8000_0000 && Window(data, HeaderLength, |d.name|) == d.name
    && ReadEntryTables(data, h, HeaderLength + |d.name| + 1)
       == Some(EntryTables(d.entriesV1, d.entriesV2, d.unknownSetV2, p))
  }

  /** `d`'s names from `p` to `q` and the texts of its labels from `q` to `e` read back. */
  predicate TablesReadBack(data: seq<byte>, h: Header, d: Doc, p: nat, q: nat, texts: seq<seq<byte>>, e: nat)
  {
    && ReadNames(data, h, p) == Some((d.names, q))
    && h.sectionCount == |texts| && ReadStrings(data, q, |texts|) == Some((texts, e))
    && LabelsOf(h, d.names, texts) == d.labels
  }

  /** When every step reads back, the decoder returns `d` under the header read. */
  lemma {:induction false} ParseSteps(data: seq<byte>, h: Header, d: Doc, p: nat, q: nat, texts: seq<seq<byte>>, e: nat)
    requires ReadsBack(data, h, d, p, q, texts, e)
    ensures Parse(data) == Parsed(d.(header := h))
  {
    var t := EntryTables(d.entriesV1, d.entriesV2, d.unknownSetV2, p);
    assert Peeked(data, 0, 4) == Some(Magic);
    assert Parse(data) == ParseAfterHeader(data, h);
    assert ParseAfterHeader(data, h) == ParseLabels(data, h, d.name, t);
  }

  /** The middle part of a concatenation of three lies right after the first. */
  lemma {:induction false} PartAt(data: seq<byte>, a: seq<byte>, b: seq<byte>, c: seq<byte>, p: nat)
    requires data == a + b + c && |a| == p
    ensures IsAt(data, p, b)
  {
    forall i | 0 <= i < |b| ensures data[p + i] == b[i] {
    }
  }

  /** What follows the Version2 entries: the unknown set and the rest. */
  lemma {:induction false} TailFrom(data: seq<byte>, a: seq<byte>, eb: seq<byte>, us: seq<byte>, rest: seq<byte>, q: nat)
    requires data == a + (eb + us) + rest && q == |a| + |eb|
    ensures q <= |data| && data[q..] == us + rest
  {
    forall i | 0 <= i < |us| + |rest| ensures data[q + i] == (us + rest)[i] {
    }
  }

  /** A stream starting with the header `h`, then `name`, reads back `h` and `name`. */
  lemma {:induction false} HeaderBack(data: seq<byte>, h: Header, name: seq<byte>, rest: seq<byte>)
    requires data == HeaderBytes(h) + name + rest
    ensures |data| >= HeaderLength && data[..4] == Magic && HeaderAt(data) == h
    ensures Window(data, HeaderLength, |name|) == name
  {
    var hb := HeaderBytes(h);
    assert |hb| == HeaderLength;
    forall i | 0 <= i < |hb| ensures data[i] == hb[i] {
    }
    assert data[0..|hb|] == hb;
    HeaderRead(data, h);
    PartAt(data, hb, name, rest, HeaderLength);
  }

  /** An entry table Save wrote at `p` reads back as `d`'s. */
  lemma {:induction false} EntriesBack(data: seq<byte>, h: Header, d: Doc, a: seq<byte>, rest: seq<byte>, p: nat, e: nat)
    requires data == a + EntryTable(d) + rest && |a| == p && e == p + |EntryTable(d)|
    requires WellFormed(d) && h.version == d.header.version && h.labelCount == d.header.labelCount
    requires h.version == Version2 ==> UnknownSetEnd(d.unknownSetV2 + rest, 0) == Some(|d.unknownSetV2|)
    ensures ReadEntryTables(data, h, p) == Some(EntryTables(d.entriesV1, d.entriesV2, d.unknownSetV2, e))
  {
    if h.version == Version1 {
      V1LaidOut(data, d, a, rest, p, e);
      TablesV1Read(data, p, h, d.entriesV1, e);
    } else if h.version == Version2 {
      var q := p + 20 * |d.entriesV2|;
      V2LaidOut(data, d, a, rest, p, q, e);
      TablesV2Read(data, p, h, d.entriesV2, d.unknownSetV2, rest, q, e);
    }
  }

  /** Where Save's Version1 entry table lies in a stream. */
  lemma {:induction false} V1LaidOut(data: seq<byte>, d: Doc, a: seq<byte>, rest: seq<byte>, p: nat, e: nat)
    requires data == a + EntryTable(d) + rest && |a| == p && e == p + |EntryTable(d)|
    requires d.header.version == Version1
    ensures IsAt(data, p, EntriesV1Bytes(d.entriesV1)) && e == p + 8 * |d.entriesV1|
  {
    PartAt(data, a, EntryTable(d), rest, p);
  }

  /** Where Save's Version2 entries and unknown set lie in a stream, and what follows the entries. */
  lemma {:induction false} V2LaidOut(data: seq<byte>, d: Doc, a: seq<byte>, rest: seq<byte>, p: nat, q: nat, e: nat)
    requires data == a + EntryTable(d) + rest && |a| == p && e == p + |EntryTable(d)|
    requires d.header.version == Version2 && q == p + 20 * |d.entriesV2|
    ensures IsAt(data, p, EntriesV2Bytes(d.entriesV2))
    ensures IsAt(data, q, d.unknownSetV2) && e == q + |d.unknownSetV2|
    ensures q <= |data| && data[q..] == d.unknownSetV2 + rest
  {
    var eb, us := EntriesV2Bytes(d.entriesV2), d.unknownSetV2;
    PartAt(data, a, EntryTable(d), rest, p);
    IsAtSplit(data, p, eb, us);
    TailFrom(data, a, eb, us, rest, q);
  }

  /** A name table Save wrote at `p` reads back as `names`. */
  lemma {:induction false} NamesBack(data: seq<byte>, h: Header, names: seq<seq<byte>>, a: seq<byte>, rest: seq<byte>, p: nat, q: nat)
    requires data == a + Table(names) + rest && |a| == p && q == p + |Table(names)|
    requires forall i :: 0 <= i < |names| ==> NoZero(names[i])
    requires |names| == h.labelCount && (h.labelSize > 0 || names == [])
    ensures ReadNames(data, h, p) == Some((names, q))
  {
    PartAt(data, a, Table(names), rest, p);
    NamesRead(data, p, h, names, q);
  }

  /** A text table Save wrote at `p` reads back as `texts`. */
  lemma {:induction false} TextsBack(data: seq<byte>, texts: seq<seq<byte>>, a: seq<byte>, rest: seq<byte>, p: nat, e: nat)
    requires data == a + Table(texts) + rest && |a| == p && e == p + |Table(texts)|
    requires forall i :: 0 <= i < |texts| ==> NoZero(texts[i])
    ensures ReadStrings(data, p, |texts|) == Some((texts, e))
  {
    PartAt(data, a, Table(texts), rest, p);
    TableRead(data, p, texts, e);
  }

  /** A LabelSize Save computes is zero only for an empty name table, as long as it does not wrap. */
  lemma {:induction false} SavedLabelSize(d: Doc)
    requires LabelSizeSum(d.names) < TwoTo32
    ensures SavedHeader(d).labelSize > 0 || d.names == []
  {
    LabelSizeAtLeastCount(d.names);
  }

  /**
    Decoding the bytes Save writes gives back the document as Save leaves
    it: the same header but for the recomputed LabelSize and SectionSize,
    the same name, entries, unknown set, names and labels.
   */
  lemma {:induction false} RoundTrip(d: Doc)
    requires Encodable(d)
    ensures Parse(Encode(d)) == Parsed(Saved(d))
  {
    EncodeLayout(d);
    SavedLabelSize(d);
    DecodeSaved(Encode(d), SavedHeader(d), d);
  }

  /** The header Save writes at the start of the stream and the name after it read back. */
  lemma {:induction false} HeaderFirst(data: seq<byte>, h: Header, name: seq<byte>, body: seq<byte>)
    requires data == HeaderBytes(h) + name + [0] + body
    ensures |data| >= HeaderLength && data[..4] == Magic && HeaderAt(data) == h
    ensures Window(data, HeaderLength, |name|) == name
  {
    assert data == HeaderBytes(h) + name + ([0] + body);
    HeaderBack(data, h, name, [0] + body);
  }

  /** The ways the parts of a stream made of a front and a three-part body group. */
  lemma {:induction false} BodyRegroup(data: seq<byte>, a: seq<byte>, b: seq<byte>, c: seq<byte>, d: seq<byte>)
    requires data == a + (b + c + d)
    ensures data == a + b + (c + d)
    ensures data == (a + b) + c + d
    ensures data == (a + b + c) + d + []
  {
  }

  /** The entry table Save writes first in the body reads back. */
  lemma {:induction false} EntriesFirst(data: seq<byte>, h: Header, d: Doc, front: seq<byte>, t1: seq<byte>, t2: seq<byte>, p: nat, e: nat)
    requires data == front + (EntryTable(d) + t1 + t2) && |front| == p && e == p + |EntryTable(d)|
    requires WellFormed(d) && h.version == d.header.version && h.labelCount == d.header.labelCount
    requires h.version == Version2 ==> UnknownSetEnd(d.unknownSetV2 + (t1 + t2), 0) == Some(|d.unknownSetV2|)
    ensures ReadEntryTables(data, h, p) == Some(EntryTables(d.entriesV1, d.entriesV2, d.unknownSetV2, e))
  {
    BodyRegroup(data, front, EntryTable(d), t1, t2);
    EntriesBack(data, h, d, front, t1 + t2, p, e);
  }

  /** The name table Save writes second in the body reads back. */
  lemma {:induction false} NamesSecond(data: seq<byte>, h: Header, names: seq<seq<byte>>, front: seq<byte>, et: seq<byte>, t2: seq<byte>, p: nat, q: nat)
    requires data == front + (et + Table(names) + t2) && |front| + |et| == p && q == p + |Table(names)|
    requires forall i :: 0 <= i < |names| ==> NoZero(names[i])
    requires |names| == h.labelCount && (h.labelSize > 0 || names == [])
    ensures ReadNames(data, h, p) == Some((names, q))
  {
    BodyRegroup(data, front, et, Table(names), t2);
    NamesBack(data, h, names, front + et, t2, p, q);
  }

  /** The text table Save writes last in the body reads back. */
  lemma {:induction false} TextsLast(data: seq<byte>, texts: seq<seq<byte>>, front: seq<byte>, et: seq<byte>, t1: seq<byte>, p: nat, e: nat)
    requires data == front + (et + t1 + Table(texts)) && |front| + |et| + |t1| == p && e == p + |Table(texts)|
    requires forall i :: 0 <= i < |texts| ==> NoZero(texts[i])
    ensures ReadStrings(data, p, |texts|) == Some((texts, e))
  {
    BodyRegroup(data, front, et, t1, Table(texts));
    TextsBack(data, texts, front + et + t1, [], p, e);
  }

  lemma {:induction false} FrontLength(h: Header, name: seq<byte>)
    ensures |Front(h, name)| == HeaderLength + |name| + 1
  {
  }

  /** The header, the name and the entry tables Save laid out read back. */
  lemma {:induction false} SavedFrontReadsBack(data: seq<byte>, h: Header, d: Doc, p: nat)
    requires data == Front(h, d.name) + Body(d)
    requires WellFormed(d) && UnknownSetRescans(d) && |d.name| == d.header.nameSize
    requires h.version == d.header.version && h.labelCount == d.header.labelCount
    requires h.nameSize == d.header.nameSize
    requires p == HeaderLength + |d.name| + 1 + |EntryTable(d)|
    ensures FrontReadsBack(data, h, d, p)
  {
    FrontLength(h, d.name);
    HeaderFirst(data, h, d.name, Body(d));
    EntriesFirst(data, h, d, Front(h, d.name), Table(d.names), Table(TextsOf(d.labels)), HeaderLength + |d.name| + 1, p);
  }

  /** The name table and the text table Save laid out read back. */
  lemma {:induction false} SavedTablesReadBack(data: seq<byte>, h: Header, d: Doc, p: nat, q: nat, e: nat)
    requires data == Front(h, d.name) + Body(d)
    requires WellFormed(d) && UnknownSetRescans(d) && |d.name| == d.header.nameSize
    requires forall i :: 0 <= i < |d.names| ==> NoZero(d.names[i])
    requires forall i :: 0 <= i < |d.labels| ==> NoZero(d.labels[i].text)
    requires h.version == d.header.version && h.labelCount == d.header.labelCount
    requires h.sectionCount == d.header.sectionCount && h.nameSize == d.header.nameSize
    requires h.labelSize > 0 || d.names == []
    requires p == HeaderLength + |d.name| + 1 + |EntryTable(d)| && q == p + |Table(d.names)|
    requires e == q + |Table(TextsOf(d.labels))|
    ensures TablesReadBack(data, h, d, p, q, TextsOf(d.labels), e)
  {
    FrontLength(h, d.name);
    NamesSecond(data, h, d.names, Front(h, d.name), EntryTable(d), Table(TextsOf(d.labels)), p, q);
    TextsLast(data, TextsOf(d.labels), Front(h, d.name), EntryTable(d), Table(d.names), q, e);
    LabelsRebuilt(d, h);
  }

  /**
    A stream holding a header `h` that agrees with `d`'s on everything but
    the two sizes, then the name, one zero byte and the body Save writes for
    `d`, decodes to `d` under `h`.
   */
  lemma {:induction false} DecodeSaved(data: seq<byte>, h: Header, d: Doc)
    requires data == Front(h, d.name) + Body(d)
    requires WellFormed(d) && UnknownSetRescans(d) && |d.name| == d.header.nameSize
    requires forall i :: 0 <= i < |d.names| ==> NoZero(d.names[i])
    requires forall i :: 0 <= i < |d.labels| ==> NoZero(d.labels[i].text)
    requires h.version == d.header.version && h.labelCount == d.header.labelCount
    requires h.sectionCount == d.header.sectionCount && h.nameSize == d.header.nameSize
    requires h.labelSize > 0 || d.names == []
    ensures Parse(data) == Parsed(d.(header := h))
  {
    var p := HeaderLength + |d.name| + 1 + |EntryTable(d)|;
    var q := p + |Table(d.names)|;
    var e := q + |Table(TextsOf(d.labels))|;
    SavedFrontReadsBack(data, h, d, p);
    SavedTablesReadBack(data, h, d, p, q, e);
    ParseSteps(data, h, d, p, q, TextsOf(d.labels), e);
  }

  /** The name "unnamed_" and five digits holds no zero byte. */
  lemma {:induction false} SyntheticNameNoZero(i: nat)
    ensures NoZero(SyntheticName(i))
  {
    var s := SyntheticName(i);
    forall k | 0 <= k < |s| ensures s[k] != 0 {
      if k >= 8 {
        assert s[k] == ZeroPadded5(i)[k - 8];
      }
    }
  }

  /**
    A document decoded from a stream survives Save and a second decoding,
    provided its name filled NameSize, its names' LabelSize does not wrap to
    zero and, in Version2, Save keeps a word after the unknown set that stops
    the decoder's scan (see StopWordKept and EmptyTablesNotRescanned).
   */
  lemma {:induction false} DecodedRoundTrip(data: seq<byte>, d: Doc)
    requires Parse(data) == Parsed(d)
    requires |d.name| == d.header.nameSize && LabelSizeSum(d.names) < TwoTo32
    requires StopWordKept(d)
    ensures Parse(Encode(d)) == Parsed(Saved(d))
  {
    DecodedRescans(data, d);
    ParseWellFormed(data);
    DecodedLabels(data, d);
    if d.header.labelSize == 0 {
      forall i | 0 <= i < |d.names| ensures NoZero(d.names[i]) {
        SyntheticNameNoZero(i);
      }
    }
    RoundTrip(d);
  }

  /** Saving a saved document changes nothing: the same header and the same bytes. */
  lemma {:induction false} SaveIdempotent(d: Doc)
    ensures Saved(Saved(d)) == Saved(d)
    ensures Encode(Saved(d)) == Encode(d)
  {
    assert SavedHeader(Saved(d)) == SavedHeader(d);
    assert Body(Saved(d)) == Body(d);
  }
}
