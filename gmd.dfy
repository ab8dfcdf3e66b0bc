/**
  The GMD codec as the program runs it: DataReader's two string readers over a
  BinaryReader, and the Gmd object whose fields the decoder fills in and whose
  Save writes them back through a BinaryWriter.  Every method is proved
  against the functions of GmdFormat: decoding a stream leaves the object
  holding exactly `Parse(data)`, and saving writes exactly `Encode(doc)`.
 */
module GmdCodec {
  import opened Bytes
  import opened Wrappers
  import opened Streams
  import opened GmdFormat
  import GmdDecodeFacts

  // ---------------------------------------------------------------------
  // DataReader
  // ---------------------------------------------------------------------

  /**
    DataReader.PeekString: reads `length` bytes (none at the very end of the
    stream) and seeks back to where it started.
   */
  method PeekString(br: Reader, length: int := 4) returns (s: Option<seq<byte>>)
    modifies br
    ensures s == Peeked(br.data, old(br.pos), length)
    ensures s.Some? ==> br.pos == old(br.pos)
  {
    var bytes: seq<byte> := [];
    var startOffset := br.pos;
    if br.pos != |br.data| {
      var i := 0;
      while i < length
        invariant 0 <= i <= Max(length, 0)
        invariant br.pos == startOffset + i
        invariant i == 0 ==> bytes == []
        invariant i > 0 ==> startOffset + i <= |br.data| && bytes == br.data[startOffset..startOffset + i]
      {
        var b := br.ReadByte();
        if b.None? {
          return None;
        }
        bytes := bytes + [b.value];
        i := i + 1;
      }
    }
    br.pos := startOffset;
    s := Some(bytes);
  }

  /**
    DataReader.ReadStringUntilNull: the bytes up to the next zero byte, which
    is consumed, or up to the end of the stream.  Reading past the end fails.
   */
  method ReadStringUntilNull(br: Reader) returns (s: Option<seq<byte>>)
    modifies br
    ensures s.None? <==> old(br.pos) > |br.data|
    ensures s.Some? ==> ReadStringAt(br.data, old(br.pos)) == Some((s.value, br.pos))
  {
    var tempList: seq<byte> := [];
    ghost var start := br.pos;
    while true
      invariant br.pos == start + |tempList|
      invariant tempList != [] ==> br.pos <= |br.data| && tempList == br.data[start..br.pos]
      invariant NoZero(tempList)
      decreases if br.pos <= |br.data| then |br.data| - br.pos else 0
    {
      if br.pos != |br.data| {
        var temp := br.ReadByte();
        if temp.None? {
          return None;
        }
        if temp.value != 0 {
          tempList := tempList + [temp.value];
          assert tempList == br.data[start..br.pos];
        } else {
          NullTerminatedUnique(br.data, start, tempList);
          break;
        }
      } else {
        NullTerminatedUnique(br.data, start, tempList);
        break;
      }
    }
    s := Some(tempList);
  }

  /** Bookkeeping for a run of writes: appending `b` after `sofar` is appending `sofar + b` after `start`. */
  ghost function Appended(start: seq<byte>, sofar: seq<byte>, b: seq<byte>): (r: seq<byte>)
    ensures r == sofar + b
    ensures start + sofar + b == start + r
  {
    sofar + b
  }

  // ---------------------------------------------------------------------
  // The Gmd object
  // ---------------------------------------------------------------------

  class Gmd {
    var header: Header
    /** Header.Magic: absent until a stream starting with the magic is decoded. */
    var magic: Option<seq<byte>>
    var name: seq<byte>
    var unknownSetV2: seq<byte>
    var entriesV1: seq<EntryV1>
    var entriesV2: seq<EntryV2>
    var names: seq<seq<byte>>
    var labels: seq<Label>

    /** The document the object holds. */
    function Model(): Doc
      reads this
    {
      Doc(header, name, entriesV1, entriesV2, unknownSetV2, names, labels)
    }

    /** The object holds a decoded document. */
    ghost predicate Valid()
      reads this
    {
      magic == Some(Magic) && WellFormed(Model())
    }

    /** The field initialisers: an empty document with no magic. */
    constructor ()
      ensures Model() == EmptyDoc && magic == None
    {
      header := DefaultHeader;
      magic := None;
      name := [];
      unknownSetV2 := [];
      entriesV1 := [];
      entriesV2 := [];
      names := [];
      labels := [];
    }

    /**
      The body of the Gmd(Stream) constructor.  `ok` is false where the
      constructor throws; a stream without the magic leaves the object empty.
     */
    method Load(br: Reader) returns (ok: bool)
      requires Model() == EmptyDoc && magic == None && br.pos == 0
      modifies this, br
      ensures ok <==> !Parse(br.data).Failed?
      ensures Parse(br.data) == NotGmd ==> Model() == EmptyDoc && magic == None
      ensures Parse(br.data).Parsed? ==> Valid() && Model() == Parse(br.data).doc
    {
      GmdDecodeFacts.ParseWellFormed(br.data);
      var peek := PeekString(br);
      if peek.None? {
        return false;
      }
      if peek.value != Magic {
        return true;
      }
      magic := br.ReadBytes(4);
      ok := ReadHeader(br);
      if !ok {
        return;
      }
      ok := LoadAfterHeader(br);
    }

    /** The internal name, its padding byte, then the tables. */
    method LoadAfterHeader(br: Reader) returns (ok: bool)
      requires br.pos == HeaderLength
      requires name == [] && entriesV1 == [] && entriesV2 == [] && unknownSetV2 == [] && names == [] && labels == []
      modifies this`name, this`entriesV1, this`entriesV2, this`unknownSetV2, this`names, this`labels, br
      ensures ok <==> !ParseAfterHeader(br.data, header).Failed?
      ensures ok ==> ParseAfterHeader(br.data, header) == Parsed(Model())
    {
      var nameBytes := br.ReadBytes(Int32Of(header.nameSize));
      if nameBytes.None? {
        return false;
      }
      name := nameBytes.value;
      br.pos := br.pos + 1;
      ok := LoadBody(br);
    }

    /** The entry tables, the name table and the labels, from the cursor on. */
    method LoadBody(br: Reader) returns (ok: bool)
      requires entriesV1 == [] && entriesV2 == [] && unknownSetV2 == [] && names == [] && labels == []
      requires br.pos == HeaderLength + |name| + 1
      modifies this`entriesV1, this`entriesV2, this`unknownSetV2, this`names, this`labels, br
      ensures ok <==> !ParseBody(br.data, header, name).Failed?
      ensures ok ==> ParseBody(br.data, header, name) == Parsed(Model())
    {
      ghost var data := br.data;
      ok := ReadEntries(br);
      if !ok {
        return;
      }
      ghost var t := EntryTables(entriesV1, entriesV2, unknownSetV2, br.pos);
      assert ParseBody(data, header, name) == ParseLabels(data, header, name, t);
      ok := ReadNameTable(br);
      if !ok {
        return;
      }
      ghost var q := br.pos;
      assert ReadNames(data, header, t.end) == Some((names, q));
      ok := ReadLabels(br);
      if ok {
        ghost var texts := ReadStrings(data, q, header.sectionCount).value.0;
        assert labels == LabelsOf(header, names, texts);
        assert ParseLabels(data, header, name, t) == Parsed(Doc(header, name, t.v1, t.v2, t.unknownSet, names, labels));
      }
    }

    /** The eight header fields after the magic. */
    method ReadHeader(br: Reader) returns (ok: bool)
      requires br.pos == 4
      modifies this`header, br
      ensures ok <==> |br.data| >= HeaderLength
      ensures ok ==> header == HeaderAt(br.data) && br.pos == HeaderLength
    {
      var version := br.ReadUInt32();
      if version.None? { return false; }
      var language := br.ReadInt32();
      if language.None? { return false; }
      var unknown := br.ReadUInt64();
      if unknown.None? { return false; }
      var labelCount := br.ReadUInt32();
      if labelCount.None? { return false; }
      var sectionCount := br.ReadUInt32();
      if sectionCount.None? { return false; }
      var labelSize := br.ReadUInt32();
      if labelSize.None? { return false; }
      var sectionSize := br.ReadUInt32();
      if sectionSize.None? { return false; }
      var nameSize := br.ReadUInt32();
      if nameSize.None? { return false; }
      header := Header(version.value, language.value, unknown.value, labelCount.value,
                       sectionCount.value, labelSize.value, sectionSize.value, nameSize.value);
      return true;
    }

    /** The entry table of the header's version, with the unknown set of Version2. */
    method ReadEntries(br: Reader) returns (ok: bool)
      requires entriesV1 == [] && entriesV2 == [] && unknownSetV2 == []
      modifies this`entriesV1, this`entriesV2, this`unknownSetV2, br
      ensures ok <==> ReadEntryTables(br.data, header, old(br.pos)).Some?
      ensures ok ==> ReadEntryTables(br.data, header, old(br.pos))
                     == Some(EntryTables(entriesV1, entriesV2, unknownSetV2, br.pos))
    {
      if header.version == Version1 {
        ok := ReadEntriesV1Loop(br);
      } else if header.version == Version2 {
        ok := ReadEntriesV2Loop(br);
        if ok {
          ok := ReadUnknownSet(br);
        }
      } else {
        ok := true;
      }
    }

    method ReadEntriesV1Loop(br: Reader) returns (ok: bool)
      requires entriesV1 == []
      modifies this`entriesV1, br
      ensures ok <==> ReadEntriesV1(br.data, old(br.pos), EntryCount(header)).Some?
      ensures ok ==> ReadEntriesV1(br.data, old(br.pos), EntryCount(header)) == Some((entriesV1, br.pos))
    {
      ghost var p0 := br.pos;
      var n := Int32Of(header.labelCount);
      ghost var count := EntryCount(header);
      var i: int := 0;
      while i < n
        invariant 0 <= i <= count
        invariant br.pos == p0 + 8 * i && (i == 0 || br.pos <= |br.data|)
        invariant entriesV1 == EntriesV1At(br.data, p0, i)
      {
        var id := br.ReadUInt32();
        if id.None? { return false; }
        var unknown := br.ReadUInt32();
        if unknown.None? { return false; }
        entriesV1 := entriesV1 + [EntryV1(id.value, unknown.value)];
        i := i + 1;
      }
      assert i == count;
      return true;
    }

    method ReadEntriesV2Loop(br: Reader) returns (ok: bool)
      requires entriesV2 == []
      modifies this`entriesV2, br
      ensures ok <==> ReadEntriesV2(br.data, old(br.pos), EntryCount(header)).Some?
      ensures ok ==> ReadEntriesV2(br.data, old(br.pos), EntryCount(header)) == Some((entriesV2, br.pos))
    {
      ghost var p0 := br.pos;
      var n := Int32Of(header.labelCount);
      ghost var count := EntryCount(header);
      var i: int := 0;
      while i < n
        invariant 0 <= i <= count
        invariant br.pos == p0 + 20 * i && (i == 0 || br.pos <= |br.data|)
        invariant entriesV2 == EntriesV2At(br.data, p0, i)
      {
        var entry := ReadEntryV2(br);
        if entry.None? { return false; }
        entriesV2 := entriesV2 + [entry.value];
        i := i + 1;
      }
      assert i == count;
      return true;
    }

    /** One Version2 entry: five 32-bit fields; fails when fewer than twenty bytes remain. */
    static method ReadEntryV2(br: Reader) returns (e: Option<EntryV2>)
      modifies br
      ensures old(br.pos) + 20 <= |br.data| ==> e == Some(EntryV2At(br.data, old(br.pos))) && br.pos == old(br.pos) + 20
      ensures old(br.pos) + 20 > |br.data| ==> e == None
    {
      var id := br.ReadUInt32();
      if id.None? { return None; }
      var unknown1 := br.ReadUInt32();
      if unknown1.None? { return None; }
      var unknown2 := br.ReadUInt32();
      if unknown2.None? { return None; }
      var labelOffset := br.ReadUInt32();
      if labelOffset.None? { return None; }
      var unknown3 := br.ReadUInt32();
      if unknown3.None? { return None; }
      return Some(EntryV2(id.value, unknown1.value, unknown2.value, labelOffset.value, unknown3.value));
    }

    /**
      The Version2 unknown set: words are skipped while they are small or all
      ones, the cursor backs up over the word that stopped the scan, zero bytes
      are skipped, and everything from the start up to the first non-zero byte
      is read as the set.
     */
    method ReadUnknownSet(br: Reader) returns (ok: bool)
      modifies this`unknownSetV2, br
      ensures ok <==> UnknownSetEnd(br.data, old(br.pos)).Some?
      ensures ok ==> var e := UnknownSetEnd(br.data, old(br.pos)).value;
                     old(br.pos) <= e && unknownSetV2 == br.data[old(br.pos)..e] && br.pos == e
    {
      var posTemp := br.pos;
      ok := SkipWordsLoop(br);
      if !ok { return; }
      SkipZerosLoop(br);
      assert UnknownSetEnd(br.data, posTemp) == Some(br.pos);
      var unknownSetSize := br.pos - posTemp;
      br.pos := posTemp;
      var block := br.ReadBytes(unknownSetSize);
      unknownSetV2 := block.value;
    }

    /**
      The word scan of the unknown set: whole words are read while they are
      below 0x100000 or all ones, then the cursor backs up over the word that
      stopped the scan.  Fails when the stream ends first.
     */
    static method SkipWordsLoop(br: Reader) returns (ok: bool)
      modifies br
      ensures ok <==> SkipWords(br.data, old(br.pos)).Some?
      ensures ok ==> br.pos == SkipWords(br.data, old(br.pos)).value
    {
      ghost var start := br.pos;
      var temp := br.ReadUInt32();
      if temp.None? { return false; }
      while Continues(temp.value)
        invariant temp.Some?
        invariant start + 4 <= br.pos <= |br.data|
        invariant temp.value == WordAt(br.data, br.pos - 4)
        invariant SkipWords(br.data, start) == SkipWords(br.data, br.pos - 4)
        decreases |br.data| - br.pos
      {
        temp := br.ReadUInt32();
        if temp.None? { return false; }
      }
      br.pos := br.pos - 4;
      return true;
    }

    /**
      The zero scan of the unknown set: bytes are read until a non-zero one,
      then the cursor backs up over it.  Starting at a word that stopped the
      word scan, it ends inside that word.
     */
    static method SkipZerosLoop(br: Reader)
      requires br.pos + 4 <= |br.data| && !Continues(WordAt(br.data, br.pos))
      modifies br
      ensures SkipZeros(br.data, old(br.pos)) == Some(br.pos)
    {
      ghost var q := br.pos;
      GmdDecodeFacts.ZeroRunInStopWord(br.data, q);
      ghost var e := SkipZeros(br.data, q).value;
      var b := br.ReadByte();
      var t := b.value;
      while t == 0
        invariant q + 1 <= br.pos <= e + 1
        invariant t == br.data[br.pos - 1]
        invariant SkipZeros(br.data, br.pos - 1) == Some(e)
        decreases |br.data| - br.pos
      {
        b := br.ReadByte();
        t := b.value;
      }
      br.pos := br.pos - 1;
    }

    /** The name table, or the synthesized names when LabelSize is zero. */
    method ReadNameTable(br: Reader) returns (ok: bool)
      requires names == []
      modifies this`names, br
      ensures ok <==> ReadNames(br.data, header, old(br.pos)).Some?
      ensures ok ==> ReadNames(br.data, header, old(br.pos)) == Some((names, br.pos))
    {
      ghost var p0 := br.pos;
      var labelCount, labelSize := header.labelCount, header.labelSize;
      var i := 0;
      while i < labelCount
        invariant 0 <= i <= labelCount
        invariant labelSize > 0 ==> ReadStrings(br.data, p0, i) == Some((names, br.pos))
        invariant labelSize == 0 ==> names == SyntheticNames(i) && br.pos == p0
      {
        if labelSize > 0 {
          var s := ReadStringUntilNull(br);
          if s.None? { return false; }
          names := names + [s.value];
        } else {
          names := names + [UnnamedPrefix + ZeroPadded5(i)];
          SyntheticNamesStep(i);
        }
        i := i + 1;
      }
      return true;
    }

    /** One label per section: its text read from the stream, its name from the name table. */
    method ReadLabels(br: Reader) returns (ok: bool)
      requires labels == [] && |names| == header.labelCount
      modifies this`labels, br
      ensures ok <==> ReadStrings(br.data, old(br.pos), header.sectionCount).Some?
      ensures ok ==> var r := ReadStrings(br.data, old(br.pos), header.sectionCount).value;
                     labels == LabelsOf(header, names, r.0) && br.pos == r.1
    {
      ghost var p0 := br.pos;
      ghost var texts: seq<seq<byte>> := [];
      var labelCount, sectionCount, ns := header.labelCount, header.sectionCount, names;
      var i := 0;
      while i < sectionCount
        invariant 0 <= i <= sectionCount
        invariant |labels| == i && |texts| == i
        invariant ReadStrings(br.data, p0, i) == Some((texts, br.pos))
        invariant forall k :: 0 <= k < i ==> labels[k] == Label(if k < labelCount then ns[k] else [], texts[k], k)
      {
        var text := ReadStringUntilNull(br);
        if text.None? { return false; }
        labels := labels + [Label(if i < labelCount then ns[i] else [], text.value, i)];
        texts := texts + [text.value];
        i := i + 1;
      }
      assert labels == LabelsOf(header, names, texts);
      return true;
    }

    /**
      Save into a new file: the file receives `Encode` of the document, and
      the header's LabelSize and SectionSize are replaced by what was written.
     */
    method Save(w: Writer)
      requires Valid()
      requires w.Valid() && w.buf == []
      modifies this`header, w
      ensures Model() == Saved(old(Model())) && Valid()
      ensures w.buf == Encode(old(Model()))
    {
      ghost var d := Model();
      ghost var start := HeaderLength + header.nameSize + 1;
      w.Seek(HeaderLength + header.nameSize + 1);
      WriteBody(w);
      ghost var body := w.buf;
      assert body == Place([], start, Body(d));
      SavedWellFormed(d);
      w.Seek(0);
      assert header == SavedHeader(d) && name == d.name;
      ghost var front := Front(SavedHeader(d), d.name);
      WriteHeaderAndName(w);
      assert w.run == front && w.before == body && w.runStart == 0;
      EncodeInTwoWrites(d, body, w.buf);
      assert d == old(Model());
    }

    /**
      The first half of Save: the entry table, the name table and the text
      table from the cursor on, with LabelSize and SectionSize set to what was
      written.
     */
    method WriteBody(w: Writer)
      requires |names| == header.labelCount
      requires w.Valid() && w.run == []
      modifies this`header, w
      ensures w.Valid() && w.before == old(w.before) && w.runStart == old(w.runStart)
      ensures w.run == Body(old(Model()))
      ensures Model() == Saved(old(Model()))
    {
      ghost var d := Model();
      WriteEntryTable(w);
      var labelSize, sectionSize := WriteTables(w, names, labels, header.labelCount);
      header := header.(labelSize := labelSize, sectionSize := sectionSize);
    }

    /**
      The name table and the text table from the cursor on, with the
      LabelSize they sum to and the SectionSize the text table spans.
     */
    static method WriteTables(w: Writer, names: seq<seq<byte>>, labels: seq<Label>, labelCount: uint32)
      returns (labelSize: uint32, sectionSize: uint32)
      requires |names| == labelCount
      requires w.Valid()
      modifies w
      ensures w.Valid() && w.before == old(w.before) && w.runStart == old(w.runStart)
      ensures w.run == old(w.run) + Table(names) + Table(TextsOf(labels))
      ensures labelSize == LabelSizeSum(names) % TwoTo32
      ensures sectionSize == |Table(TextsOf(labels))| % TwoTo32
    {
      labelSize := WriteNameTable(w, names, labelCount);
      var textStartPos := w.pos;
      WriteTextTable(w, labels);
      sectionSize := (w.pos - textStartPos) % TwoTo32;
    }

    /** The entries of the header's version, followed for Version2 by the unknown set. */
    method WriteEntryTable(w: Writer)
      requires w.Valid()
      modifies w
      ensures w.Valid() && w.before == old(w.before) && w.runStart == old(w.runStart)
      ensures w.run == old(w.run) + EntryTable(Model())
    {
      if header.version == Version1 {
        WriteEntriesV1(w, entriesV1);
      } else if header.version == Version2 {
        ghost var start := w.run;
        WriteEntriesV2(w, entriesV2);
        w.Write(unknownSetV2);
        ghost var _ := Appended(start, EntriesV2Bytes(entriesV2), unknownSetV2);
      }
    }

    static method WriteEntriesV1(w: Writer, es: seq<EntryV1>)
      requires w.Valid()
      modifies w
      ensures w.Valid() && w.before == old(w.before) && w.runStart == old(w.runStart)
      ensures w.run == old(w.run) + EntriesV1Bytes(es)
    {
      ghost var start := w.run;
      var i := 0;
      while i < |es|
        invariant 0 <= i <= |es|
        invariant w.Valid() && w.before == old(w.before) && w.runStart == old(w.runStart)
        invariant w.run == start + EntriesV1Bytes(es[..i])
      {
        var entry := es[i];
        w.WriteUInt32(entry.id);
        w.WriteUInt32(entry.unknown);
        EntriesV1Step(es, i);
        ghost var _ := Appended(start, EntriesV1Bytes(es[..i]), EntryV1Bytes(es[i]));
        i := i + 1;
      }
      assert es[..i] == es;
    }

    static method WriteEntriesV2(w: Writer, es: seq<EntryV2>)
      requires w.Valid()
      modifies w
      ensures w.Valid() && w.before == old(w.before) && w.runStart == old(w.runStart)
      ensures w.run == old(w.run) + EntriesV2Bytes(es)
    {
      ghost var start := w.run;
      var i := 0;
      while i < |es|
        invariant 0 <= i <= |es|
        invariant w.Valid() && w.before == old(w.before) && w.runStart == old(w.runStart)
        invariant w.run == start + EntriesV2Bytes(es[..i])
      {
        WriteEntryV2(w, es[i]);
        EntriesV2Step(es, i);
        ghost var _ := Appended(start, EntriesV2Bytes(es[..i]), EntryV2Bytes(es[i]));
        i := i + 1;
      }
      assert es[..i] == es;
    }

    /** One Version2 entry: its five fields in declaration order. */
    static method WriteEntryV2(w: Writer, entry: EntryV2)
      requires w.Valid()
      modifies w
      ensures w.Valid() && w.before == old(w.before) && w.runStart == old(w.runStart)
      ensures w.run == old(w.run) + EntryV2Bytes(entry)
    {
      ghost var start := w.run;
      w.WriteUInt32(entry.id);
      ghost var sofar := U32Bytes(entry.id);
      w.WriteUInt32(entry.unknown1);
      sofar := Appended(start, sofar, U32Bytes(entry.unknown1));
      w.WriteUInt32(entry.unknown2);
      sofar := Appended(start, sofar, U32Bytes(entry.unknown2));
      w.WriteUInt32(entry.labelOffset);
      sofar := Appended(start, sofar, U32Bytes(entry.labelOffset));
      w.WriteUInt32(entry.unknown3);
      sofar := Appended(start, sofar, U32Bytes(entry.unknown3));
    }

    /**
      The name table; returns the sum of the names' UTF-16 lengths plus one
      each, in 32 bits.  The loop runs over the header's label count, which a
      decoded document has as its number of names.
     */
    static method WriteNameTable(w: Writer, names: seq<seq<byte>>, labelCount: uint32) returns (labelSize: uint32)
      requires |names| == labelCount
      requires w.Valid()
      modifies w
      ensures w.Valid() && w.before == old(w.before) && w.runStart == old(w.runStart)
      ensures w.run == old(w.run) + Table(names)
      ensures labelSize == LabelSizeSum(names) % TwoTo32
    {
      ghost var start := w.run;
      labelSize := 0;
      var i := 0;
      while i < labelCount
        invariant 0 <= i <= labelCount
        invariant w.Valid() && w.before == old(w.before) && w.runStart == old(w.runStart)
        invariant w.run == start + Table(names[..i])
        invariant labelSize == LabelSizeSum(names[..i]) % TwoTo32
      {
        w.Write(names[i]);
        ghost var sofar := Appended(start, Table(names[..i]), names[i]);
        w.WriteByte(0);
        sofar := Appended(start, sofar, [0]);
        TableStep(names, i);
        assert names[..i + 1][..i] == names[..i];
        ModAddLeft(LabelSizeSum(names[..i]), Utf16Length(names[i]) + 1);
        labelSize := (labelSize + Utf16Length(names[i]) + 1) % TwoTo32;
        i := i + 1;
      }
      assert names[..i] == names;
    }

    /** Every label's text followed by a zero byte. */
    static method WriteTextTable(w: Writer, labels: seq<Label>)
      requires w.Valid()
      modifies w
      ensures w.Valid() && w.before == old(w.before) && w.runStart == old(w.runStart)
      ensures w.run == old(w.run) + Table(TextsOf(labels))
    {
      ghost var start := w.run;
      ghost var texts := TextsOf(labels);
      var i := 0;
      while i < |labels|
        invariant 0 <= i <= |labels|
        invariant w.Valid() && w.before == old(w.before) && w.runStart == old(w.runStart)
        invariant w.run == start + Table(texts[..i])
      {
        w.Write(labels[i].text);
        ghost var sofar := Appended(start, Table(texts[..i]), texts[i]);
        w.WriteByte(0);
        sofar := Appended(start, sofar, [0]);
        TableStep(texts, i);
        i := i + 1;
      }
      assert texts[..i] == texts;
    }

    /** The header fields, the internal name and one zero byte, from the cursor on. */
    method WriteHeaderAndName(w: Writer)
      requires w.Valid()
      modifies w
      ensures w.Valid() && w.before == old(w.before) && w.runStart == old(w.runStart)
      ensures w.run == old(w.run) + Front(header, name)
    {
      ghost var start := w.run;
      WriteHeader(w, header);
      w.Write(name);
      ghost var sofar := Appended(start, HeaderBytes(header), name);
      w.WriteByte(0);
      sofar := Appended(start, sofar, [0]);
    }

    /** The eight header fields after the magic, in the order the decoder reads them. */
    static method WriteHeader(w: Writer, h: Header)
      requires w.Valid()
      modifies w
      ensures w.Valid() && w.before == old(w.before) && w.runStart == old(w.runStart)
      ensures w.run == old(w.run) + HeaderBytes(h)
    {
      ghost var start := w.run;
      w.Write(Magic);
      ghost var sofar := Magic;
      w.WriteUInt32(h.version);
      sofar := Appended(start, sofar, U32Bytes(h.version));
      w.WriteInt32(h.language);
      sofar := Appended(start, sofar, U32Bytes(UInt32Of(h.language)));
      w.WriteUInt64(h.unknown);
      sofar := Appended(start, sofar, U64Bytes(h.unknown));
      w.WriteUInt32(h.labelCount);
      sofar := Appended(start, sofar, U32Bytes(h.labelCount));
      w.WriteUInt32(h.sectionCount);
      sofar := Appended(start, sofar, U32Bytes(h.sectionCount));
      w.WriteUInt32(h.labelSize);
      sofar := Appended(start, sofar, U32Bytes(h.labelSize));
      w.WriteUInt32(h.sectionSize);
      sofar := Appended(start, sofar, U32Bytes(h.sectionSize));
      w.WriteUInt32(h.nameSize);
      sofar := Appended(start, sofar, U32Bytes(h.nameSize));
    }

    /**
      GetRealLabelCount: the number of named labels, which for a decoded
      document is the size of the name table; labels beyond it have no name.
     */
    function GetRealLabelCount(): (n: uint32)
      reads this
      ensures Valid() ==> n == |names|
      ensures Valid() ==> forall i :: 0 <= i < |labels| ==> (labels[i].name == if i < n then names[i] else [])
      ensures Model() == EmptyDoc ==> n == 0
    {
      header.labelCount
    }
  }
}
