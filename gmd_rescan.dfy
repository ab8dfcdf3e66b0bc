/**
  Finding the Version2 unknown set again after Save.  The decoder's scan
  stops at a word that lies partly in the unknown set and partly in the
  bytes after it; Save writes the name table and the texts right after the
  set.  When those tables begin with the bytes the decoder read there (the
  names and texts were read from the stream), or with "unna" (the names
  were synthesised), the scan stops at the same place again.  When they are
  empty the scan runs off the saved stream.
 */
module GmdRescan {
  import opened Bytes
  import opened Wrappers
  import opened GmdFormat
  import opened GmdDecodeFacts

  /**
    The unknown set of a Version2 document is found again by the scan when
    the name table and the texts follow it: the words it holds keep the scan
    going, the first word after them stops it, and the zero run after that
    ends exactly where the set does.
   */
  predicate UnknownSetRescans(d: Doc)
  {
    d.header.version == Version2 ==>
      UnknownSetEnd(d.unknownSetV2 + (Table(d.names) + Table(TextsOf(d.labels))), 0) == Some(|d.unknownSetV2|)
  }

  /**
    Save keeps a word that stops the scan right after a Version2 unknown set:
    the names are synthesised, so the name table starts with "unna", or the
    name table and the texts together take at least four bytes.
   */
  predicate StopWordKept(d: Doc)
  {
    d.header.version == Version2 ==>
      || (d.header.labelSize == 0 && d.header.labelCount > 0)
      || |Table(d.names) + Table(TextsOf(d.labels))| >= 4
  }

  /** The bytes from `q` to where the unknown-set scan from `q` ends. */
  function SetAt(data: seq<byte>, q: nat): Option<seq<byte>>
  {
    match UnknownSetEnd(data, q)
    case None => None
    case Some(e) => if q <= e <= |data| then Some(data[q..e]) else None
  }

  /** The unknown set `us` is what the decoder's scan found at `q`. */
  predicate SetFoundAt(data: seq<byte>, q: nat, us: seq<byte>)
  {
    SetAt(data, q) == Some(us)
  }

  lemma {:induction false} SetFoundFacts(data: seq<byte>, q: nat, us: seq<byte>)
    requires SetFoundAt(data, q, us)
    ensures UnknownSetEnd(data, q) == Some(q + |us|) && q + |us| <= |data| && data[q..q + |us|] == us
  {
    var e := UnknownSetEnd(data, q).value;
    assert SkipWords(data, q).Some? && q <= SkipWords(data, q).value <= e;
  }

  lemma {:induction false} FoundSet(data: seq<byte>, q: nat, us: seq<byte>)
    requires UnknownSetEnd(data, q) == Some(q + |us|) && q + |us| <= |data| && data[q..q + |us|] == us
    ensures SetFoundAt(data, q, us)
  {
  }

  /** `t` agrees with `data` from `p` on as many bytes as `data` still holds there. */
  predicate Agrees(data: seq<byte>, p: nat, t: seq<byte>)
  {
    forall i :: 0 <= i < |t| && p + i < |data| ==> data[p + i] == t[i]
  }

  // ---------------------------------------------------------------------
  // The tables Save writes are the bytes the decoder read
  // ---------------------------------------------------------------------

  /**
    One more string read at `q` and its terminator extend a table that
    agrees with the stream from `p`, the cursor staying after the table or
    at the end of the stream.
   */
  lemma {:induction false} AgreesStep(data: seq<byte>, p: nat, t: seq<byte>, q: nat, s: seq<byte>, r: nat)
    requires Agrees(data, p, t) && (q == p + |t| || q == |data| <= p + |t|)
    requires q + |s| <= |data| && data[q..q + |s|] == s && (q + |s| == |data| || data[q + |s|] == 0)
    requires r == AfterString(data, q, s)
    ensures Agrees(data, p, t + s + [0])
    ensures r == p + |t + s + [0]| || r == |data| <= p + |t + s + [0]|
  {
    var u := t + s + [0];
    if q == p + |t| {
      forall i | 0 <= i < |u| && p + i < |data|
        ensures data[p + i] == u[i]
      {
        if i >= |t| + |s| {
          assert i == |t| + |s|;
        } else if i >= |t| {
          assert data[p + i] == data[q..q + |s|][i - |t|];
        }
      }
    }
  }

  /**
    Strings read one after the other are, up to the end of the stream, the
    table Save writes for them; the cursor ends after that table, or at the
    end of the stream when the table would run past it.
   */
  lemma {:induction false} ReadStringsAgree(data: seq<byte>, p: nat, n: nat)
    requires ReadStrings(data, p, n).Some?
    ensures var r := ReadStrings(data, p, n).value;
      && Agrees(data, p, Table(r.0))
      && (r.1 == p + |Table(r.0)| || r.1 == |data| <= p + |Table(r.0)|)
    decreases n
  {
    if n > 0 {
      var prev := ReadStrings(data, p, n - 1).value;
      ReadStringsAgree(data, p, n - 1);
      var ss, q := prev.0, prev.1;
      var s := NullTerminated(data, q);
      var r := AfterString(data, q, s);
      assert ReadStrings(data, p, n).value == (ss + [s], r);
      assert (ss + [s])[..|ss|] == ss;
      assert Table(ss + [s]) == Table(ss) + s + [0];
      AgreesStep(data, p, Table(ss), q, s, r);
    }
  }

  /** Two tables that agree with the stream one after the other agree with it together. */
  lemma {:induction false} AgreesConcat(data: seq<byte>, e: nat, tn: seq<byte>, qn: nat, tt: seq<byte>)
    requires Agrees(data, e, tn) && (qn == e + |tn| || qn == |data| <= e + |tn|)
    requires Agrees(data, qn, tt)
    ensures Agrees(data, e, tn + tt)
  {
    forall i | 0 <= i < |tn + tt| && e + i < |data|
      ensures data[e + i] == (tn + tt)[i]
    {
      if i >= |tn| {
        assert data[qn + (i - |tn|)] == tt[i - |tn|];
      }
    }
  }

  /** The name table and the text table read one after the other agree with the stream. */
  lemma {:induction false} TablesAgree(data: seq<byte>, e: nat, k: nat, names: seq<seq<byte>>, qn: nat, texts: seq<seq<byte>>, n: nat)
    requires ReadStrings(data, e, k) == Some((names, qn))
    requires ReadStrings(data, qn, n).Some? && ReadStrings(data, qn, n).value.0 == texts
    ensures Agrees(data, e, Table(names) + Table(texts))
  {
    ReadStringsAgree(data, e, k);
    ReadStringsAgree(data, qn, n);
    AgreesConcat(data, e, Table(names), qn, Table(texts));
  }

  // ---------------------------------------------------------------------
  // The scan over the saved bytes
  // ---------------------------------------------------------------------

  /** The word scan from `j` passes continuing words up to `m` and stops at the word there. */
  lemma {:induction false} SkipWordsTo(s: seq<byte>, j: nat, m: nat)
    requires j <= m && (m - j) % 4 == 0 && m + 4 <= |s|
    requires forall i :: j <= i < m && (i - j) % 4 == 0 && i + 4 <= |s| ==> Continues(WordAt(s, i))
    requires !Continues(WordAt(s, m))
    ensures SkipWords(s, j) == Some(m)
    decreases m - j
  {
    if j < m {
      SkipWordsTo(s, j + 4, m);
    }
  }

  /** The word scan from `j` passes continuing words up to `m`, where fewer than four bytes are left. */
  lemma {:induction false} SkipWordsRunsOut(s: seq<byte>, j: nat, m: nat)
    requires j <= m && (m - j) % 4 == 0 && m + 4 > |s|
    requires forall i :: j <= i < m && (i - j) % 4 == 0 && i + 4 <= |s| ==> Continues(WordAt(s, i))
    ensures SkipWords(s, j) == None
    decreases m - j
  {
    if j < m && j + 4 <= |s| {
      SkipWordsRunsOut(s, j + 4, m);
    }
  }

  /** The zero scan from `j` passes zeros up to the non-zero byte at `m`. */
  lemma {:induction false} SkipZerosTo(s: seq<byte>, j: nat, m: nat)
    requires j <= m < |s| && s[m] != 0
    requires forall i :: j <= i < m ==> s[i] == 0
    ensures SkipZeros(s, j) == Some(m)
    decreases m - j
  {
    if j < m {
      SkipZerosTo(s, j + 1, m);
    }
  }

  /** A word whose last byte is neither zero nor 0xFF stops the scan. */
  lemma {:induction false} TopByteStops(w: seq<byte>)
    requires |w| == 4 && w[3] != 0 && w[3] != 0xFF
    ensures !Continues(LE32(w))
  {
    var b0: int, b1: int, b2: int, b3: int := w[0], w[1], w[2], w[3];
    assert b0 + 0x100 * b1 + 0x1_0000 * b2 <= 0xFF_FFFF;
    assert 0x100_0000 * b3 >= 0x100_0000;
    assert 0x100_0000 * b3 <= 0xFE00_0000;
  }

  /** A table of strings starts with the first of them. */
  lemma {:induction false} TableFirst(ss: seq<seq<byte>>)
    requires ss != []
    ensures |Table(ss)| > |ss[0]| && Table(ss)[..|ss[0]|] == ss[0]
    decreases |ss|
  {
    var init := ss[..|ss| - 1];
    if init != [] {
      TableFirst(init);
      assert init[0] == ss[0];
    }
  }

  /** Synthesised names make the saved tables start with "unna". */
  lemma {:induction false} SynthesisedTablesStart(names: seq<seq<byte>>, texts: seq<seq<byte>>)
    requires names != [] && names[0] == SyntheticName(0)
    ensures var tail := Table(names) + Table(texts);
      |tail| >= 4 && tail[..4] == UnnamedPrefix[..4]
  {
    var n0 := names[0];
    assert |n0| >= 4 && n0[..4] == UnnamedPrefix[..4];
    TableFirst(names);
    var tn := Table(names);
    assert tn[..4] == tn[..|n0|][..4];
    assert (tn + Table(texts))[..4] == tn[..4];
  }

  // ---------------------------------------------------------------------
  // The rescan
  // ---------------------------------------------------------------------

  /** Across the end of the set, a word of the set followed by bytes that agree with the stream is the stream's word. */
  lemma {:induction false} StopWordInStream(data: seq<byte>, q: nat, us: seq<byte>, tail: seq<byte>, k: nat)
    requires q + |us| <= |data| && data[q..q + |us|] == us && Agrees(data, q + |us|, tail)
    requires q <= k && k + 4 <= |data| && k - q + 4 <= |us + tail|
    ensures WordAt(us + tail, k - q) == WordAt(data, k)
  {
    var b := us + tail;
    var m := k - q;
    forall j | m <= j < m + 4
      ensures b[j] == data[q + j]
    {
      if j >= |us| {
        assert b[j] == tail[j - |us|];
        assert data[q + |us| + (j - |us|)] == tail[j - |us|];
      } else {
        assert b[j] == us[j] == data[q..q + |us|][j];
      }
    }
    assert b[m..m + 4] == data[k..k + 4];
  }

  /** A word that runs from the set into "unna" ends in a byte of "unna", which stops the scan. */
  lemma {:induction false} StopWordInPrefix(us: seq<byte>, tail: seq<byte>, m: nat)
    requires m <= |us| < m + 4 && |tail| >= 4 && tail[..4] == UnnamedPrefix[..4]
    ensures !Continues(WordAt(us + tail, m))
  {
    var i := m + 3 - |us|;
    assert tail[i] == tail[..4][i] == UnnamedPrefix[i];
    assert (us + tail)[m..m + 4][3] == tail[i];
    TopByteStops((us + tail)[m..m + 4]);
  }

  /** A word inside the unknown set is the word at the same place in the stream. */
  lemma {:induction false} SetWordAt(data: seq<byte>, q: nat, us: seq<byte>, rest: seq<byte>, i: nat)
    requires q + |us| <= |data| && data[q..q + |us|] == us && i + 4 <= |us|
    ensures WordAt(us + rest, i) == WordAt(data, q + i)
  {
    forall j | i <= j < i + 4
      ensures (us + rest)[j] == data[q + j]
    {
      assert (us + rest)[j] == us[j] == data[q..q + |us|][j];
    }
    assert (us + rest)[i..i + 4] == data[q + i..q + i + 4];
  }

  /**
    Whatever follows it, the words of an unknown set laid out in a stream
    keep the scan going up to the word that stopped it there.
   */
  lemma {:induction false} SetWordsContinue(data: seq<byte>, q: nat, us: seq<byte>, rest: seq<byte>)
    requires SetFoundAt(data, q, us)
    ensures var m := SkipWords(data, q).value - q;
      forall i :: 0 <= i < m && (i - 0) % 4 == 0 && i + 4 <= |us + rest| ==> Continues(WordAt(us + rest, i))
  {
    SetFoundFacts(data, q, us);
    UnknownSetShape(data, q, us);
    var m := SkipWords(data, q).value - q;
    forall i | 0 <= i < m && (i - 0) % 4 == 0 && i + 4 <= |us + rest|
      ensures Continues(WordAt(us + rest, i))
    {
      assert i + 4 <= m;
      SetWordAt(data, q, us, rest, i);
      assert (q + i - q) % 4 == 0;
      assert Continues(WordAt(data, q + i));
    }
  }

  /** Whatever follows it, an unknown set laid out in a stream ends in the zeros found there. */
  lemma {:induction false} SetZerosAgain(data: seq<byte>, q: nat, us: seq<byte>, rest: seq<byte>)
    requires SetFoundAt(data, q, us)
    ensures forall i :: SkipWords(data, q).value - q <= i < |us| ==> (us + rest)[i] == 0
  {
    SetFoundFacts(data, q, us);
    UnknownSetShape(data, q, us);
    forall i | SkipWords(data, q).value - q <= i < |us|
      ensures (us + rest)[i] == 0
    {
      assert (us + rest)[i] == data[q..q + |us|][i] == data[q + i];
    }
  }

  /**
    An unknown set laid out in a stream is found again by the scan when the
    bytes after it keep a word that stops the scan where it stopped in the
    stream, and start with a non-zero byte.
   */
  lemma {:induction false} RescanFrom(data: seq<byte>, q: nat, us: seq<byte>, tail: seq<byte>)
    requires SetFoundAt(data, q, us) && tail != [] && tail[0] != 0
    requires SkipWords(data, q).value - q + 4 <= |us + tail|
    requires !Continues(WordAt(us + tail, SkipWords(data, q).value - q))
    ensures UnknownSetEnd(us + tail, 0) == Some(|us|)
  {
    SetFoundFacts(data, q, us);
    UnknownSetShape(data, q, us);
    var b := us + tail;
    var k := SkipWords(data, q).value;
    SetWordsContinue(data, q, us, tail);
    SkipWordsTo(b, 0, k - q);
    SetZerosAgain(data, q, us, tail);
    assert b[|us|] == tail[0];
    SkipZerosTo(b, k - q, |us|);
  }

  /** The unknown set is found again in front of four or more bytes that agree with the stream. */
  lemma {:induction false} RescanBeforeStream(data: seq<byte>, q: nat, us: seq<byte>, e: nat, tail: seq<byte>)
    requires SetFoundAt(data, q, us) && e == q + |us| && |tail| >= 4 && Agrees(data, e, tail)
    ensures UnknownSetEnd(us + tail, 0) == Some(|us|)
  {
    SetFoundFacts(data, q, us);
    UnknownSetShape(data, q, us);
    var k := SkipWords(data, q).value;
    StopWordInStream(data, q, us, tail, k);
    assert data[q + |us| + 0] == tail[0];
    RescanFrom(data, q, us, tail);
  }

  /** The unknown set is found again in front of bytes that start with "unna". */
  lemma {:induction false} RescanBeforePrefix(data: seq<byte>, q: nat, us: seq<byte>, tail: seq<byte>)
    requires SetFoundAt(data, q, us) && |tail| >= 4 && tail[..4] == UnnamedPrefix[..4]
    ensures UnknownSetEnd(us + tail, 0) == Some(|us|)
  {
    SetFoundFacts(data, q, us);
    UnknownSetShape(data, q, us);
    var k := SkipWords(data, q).value;
    StopWordInPrefix(us, tail, k - q);
    assert tail[0] == tail[..4][0] == UnnamedPrefix[0];
    RescanFrom(data, q, us, tail);
  }

  /**
    An unknown set laid out in a stream, with nothing after it, is not found
    again: its words keep the scan going and fewer than four bytes remain.
   */
  lemma {:induction false} RunsOffAlone(data: seq<byte>, q: nat, us: seq<byte>)
    requires SetFoundAt(data, q, us)
    ensures UnknownSetEnd(us, 0) == None
  {
    SetFoundFacts(data, q, us);
    UnknownSetShape(data, q, us);
    SetWordsContinue(data, q, us, []);
    assert us + [] == us;
    SkipWordsRunsOut(us, 0, SkipWords(data, q).value - q);
  }

  /**
    A decoded Version2 document whose saved tables keep a stopping word
    after the unknown set has its unknown set found again, byte for byte,
    in front of those tables.
   */
  lemma {:induction false} DecodedRescans(data: seq<byte>, d: Doc)
    requires Parse(data) == Parsed(d) && StopWordKept(d)
    ensures UnknownSetRescans(d)
  {
    if d.header.version == Version2 {
      var tr := DecodedLayout(data, d);
      var q := TablesSetFound(data, d.header, HeaderLength + |d.name| + 1, tr.tables, d.unknownSetV2);
      LaidOutRescans(data, q, tr.tables.end, tr.namesEnd, d);
    }
  }

  /**
    What a decoded document was read from: its entry tables, its names right
    after them, and its texts from `tr.namesEnd` on.
   */
  lemma {:induction false} DecodedLayout(data: seq<byte>, d: Doc) returns (tr: Trace)
    requires Parse(data) == Parsed(d)
    ensures ReadEntryTables(data, d.header, HeaderLength + |d.name| + 1) == Some(tr.tables)
    ensures d.unknownSetV2 == tr.tables.unknownSet
    ensures ReadNames(data, d.header, tr.tables.end) == Some((d.names, tr.namesEnd))
    ensures ReadStrings(data, tr.namesEnd, d.header.sectionCount).Some?
    ensures ReadStrings(data, tr.namesEnd, d.header.sectionCount).value.0 == TextsOf(d.labels)
  {
    tr := TraceOf(data);
    assert TextsOf(d.labels) == tr.texts;
  }

  /** The unknown set of Version2 tables read at `p` is found by the scan at `q`, and the tables end after it. */
  lemma {:induction false} TablesSetFound(data: seq<byte>, h: Header, p: nat, t: EntryTables, us: seq<byte>) returns (q: nat)
    requires ReadEntryTables(data, h, p) == Some(t) && h.version == Version2 && us == t.unknownSet
    ensures SetFoundAt(data, q, us) && t.end == q + |us|
  {
    q := p + 20 * |t.v2|;
    UnknownSetAt(data, h, p, t, q, us);
    FoundSet(data, q, us);
  }

  /**
    An unknown set found at `q`, followed in the stream by the names and the
    texts, rescans in front of the tables Save writes for them when those
    keep a stop word.
   */
  lemma {:induction false} LaidOutRescans(data: seq<byte>, q: nat, e: nat, qn: nat, d: Doc)
    requires d.header.version == Version2 && StopWordKept(d)
    requires SetFoundAt(data, q, d.unknownSetV2) && e == q + |d.unknownSetV2|
    requires ReadNames(data, d.header, e) == Some((d.names, qn))
    requires ReadStrings(data, qn, d.header.sectionCount).Some?
    requires ReadStrings(data, qn, d.header.sectionCount).value.0 == TextsOf(d.labels)
    ensures UnknownSetRescans(d)
  {
    if d.header.labelSize == 0 && d.header.labelCount > 0 {
      assert d.names == SyntheticNames(d.header.labelCount);
      SynthesisedRescans(data, q, d.unknownSetV2, d.names, TextsOf(d.labels));
    } else {
      if d.header.labelSize == 0 {
        assert d.names == SyntheticNames(0) == [];
      }
      ReadRescans(data, q, d.unknownSetV2, e, d.header.labelCount, d.names, qn, TextsOf(d.labels), d.header.sectionCount);
    }
  }

  /** An unknown set found at `q` rescans in front of the tables of synthesised names and any texts. */
  lemma {:induction false} SynthesisedRescans(data: seq<byte>, q: nat, us: seq<byte>, names: seq<seq<byte>>, texts: seq<seq<byte>>)
    requires SetFoundAt(data, q, us) && names != [] && names[0] == SyntheticName(0)
    ensures UnknownSetEnd(us + (Table(names) + Table(texts)), 0) == Some(|us|)
  {
    SynthesisedTablesStart(names, texts);
    RescanBeforePrefix(data, q, us, Table(names) + Table(texts));
  }

  /**
    An unknown set found at `q` rescans in front of the tables of the names
    and texts read right after it, when those tables hold four bytes or more.
   */
  lemma {:induction false} ReadRescans(data: seq<byte>, q: nat, us: seq<byte>, e: nat, k: nat, names: seq<seq<byte>>, qn: nat, texts: seq<seq<byte>>, n: nat)
    requires SetFoundAt(data, q, us) && e == q + |us| && |Table(names) + Table(texts)| >= 4
    requires ReadStrings(data, e, k) == Some((names, qn))
    requires ReadStrings(data, qn, n).Some? && ReadStrings(data, qn, n).value.0 == texts
    ensures UnknownSetEnd(us + (Table(names) + Table(texts)), 0) == Some(|us|)
  {
    TablesAgree(data, e, k, names, qn, texts, n);
    RescanBeforeStream(data, q, us, e, Table(names) + Table(texts));
  }

  /**
    The degenerate case the round trip leaves out: a decoded Version2
    document with no names and no texts.  Save writes nothing after the
    unknown set, so the word that stopped the decoder's scan is gone and the
    scan over the saved bytes runs off their end.
   */
  lemma {:induction false} EmptyTablesNotRescanned(data: seq<byte>, d: Doc)
    requires Parse(data) == Parsed(d) && d.header.version == Version2
    requires d.names == [] && d.labels == []
    ensures !UnknownSetRescans(d)
  {
    var tr := DecodedLayout(data, d);
    var q := TablesSetFound(data, d.header, HeaderLength + |d.name| + 1, tr.tables, d.unknownSetV2);
    RunsOffAlone(data, q, d.unknownSetV2);
    NothingAfterSet(d);
  }

  /** With no names and no texts, the rescan sees the unknown set alone. */
  lemma {:induction false} NothingAfterSet(d: Doc)
    requires d.header.version == Version2 && d.names == [] && d.labels == []
    requires UnknownSetEnd(d.unknownSetV2, 0) == None
    ensures !UnknownSetRescans(d)
  {
    assert TextsOf(d.labels) == [];
    assert d.unknownSetV2 + (Table(d.names) + Table(TextsOf(d.labels))) == d.unknownSetV2;
  }
}
