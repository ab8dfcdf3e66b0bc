/**
  The .NET text operations the editor's CSV export and import are built from,
  over UTF-8 bytes: String.Replace, String.Split('\t') followed by taking the
  last field, TextWriter.WriteLine with a CR LF terminator, and the line
  splitting of TextReader.ReadLine and File.ReadAllLines.  Every delimiter
  involved is ASCII, and in UTF-8 an ASCII byte never occurs inside the
  encoding of another character, so the byte-level operations agree with the
  character-level ones on the decoded text.
 */
module TextOps {
  import opened Bytes

  const TAB: byte := 0x09
  const LF: byte := 0x0A
  const CR: byte := 0x0D
  const LessThan: byte := 0x3C
  const CRLF: seq<byte> := [CR, LF]
  /** "<br>" */
  const BR: seq<byte> := [LessThan, 0x62, 0x72, 0x3E]

  predicate StartsWith(s: seq<byte>, pat: seq<byte>)
  {
    |pat| <= |s| && s[..|pat|] == pat
  }

  /** `pat` occurs somewhere in `s`. */
  predicate HasInfix(s: seq<byte>, pat: seq<byte>)
    decreases |s|
  {
    StartsWith(s, pat) || (s != [] && HasInfix(s[1..], pat))
  }

  /** No byte of `s` is a line terminator. */
  predicate OneLine(s: seq<byte>)
  {
    CR !in s && LF !in s
  }

  // ---------------------------------------------------------------------
  // String.Replace
  // ---------------------------------------------------------------------

  /**
    String.Replace(pat, rep): the occurrences of `pat`, found from left to
    right without overlapping, each replaced by `rep`.
   */
  function Replace(s: seq<byte>, pat: seq<byte>, rep: seq<byte>): (r: seq<byte>)
    requires pat != []
    ensures !HasInfix(s, pat) ==> r == s
    decreases |s|
  {
    if s == [] then []
    else if StartsWith(s, pat) then rep + Replace(s[|pat|..], pat, rep)
    else [s[0]] + Replace(s[1..], pat, rep)
  }

  /** A byte in neither the text nor the replacement is not in the result. */
  lemma {:induction false} ReplaceAvoids(s: seq<byte>, pat: seq<byte>, rep: seq<byte>, c: byte)
    requires pat != [] && c !in s && c !in rep
    ensures c !in Replace(s, pat, rep)
    decreases |s|
  {
    if s == [] {
    } else if StartsWith(s, pat) {
      ReplaceAvoids(s[|pat|..], pat, rep, c);
    } else {
      ReplaceAvoids(s[1..], pat, rep, c);
    }
  }

  /**
    The only line breaks of `t` are CR LF pairs: read from the left, it
    splits into CR LF pairs and bytes that are neither CR nor LF.
   */
  predicate OnlyCrLfBreaks(t: seq<byte>)
    decreases |t|
  {
    if t == [] then true
    else if StartsWith(t, CRLF) then OnlyCrLfBreaks(t[2..])
    else t[0] != CR && t[0] != LF && OnlyCrLfBreaks(t[1..])
  }

  /** Replacing every CR LF pair by "<br>" leaves no line terminator behind exactly when the text has no other breaks. */
  lemma {:induction false} BreaksEscaped(t: seq<byte>)
    ensures OneLine(Replace(t, CRLF, BR)) <==> OnlyCrLfBreaks(t)
    decreases |t|
  {
    if t == [] {
    } else if StartsWith(t, CRLF) {
      BreaksEscaped(t[2..]);
      assert Replace(t, CRLF, BR) == BR + Replace(t[2..], CRLF, BR);
    } else {
      BreaksEscaped(t[1..]);
      assert Replace(t, CRLF, BR) == [t[0]] + Replace(t[1..], CRLF, BR);
    }
  }

  /**
    A prefix without '<' that shows up after replacing CR LF by "<br>" was
    already in the text: the replacement creates no such prefix.
   */
  lemma {:induction false} EscapedPrefix(u: seq<byte>, q: seq<byte>)
    requires LessThan !in q
    requires StartsWith(Replace(u, CRLF, BR), q)
    ensures StartsWith(u, q)
    decreases |q|
  {
    if q != [] {
      var e := Replace(u, CRLF, BR);
      assert e[0] == q[0];
      assert u != [];
      assert !StartsWith(u, CRLF);
      assert e == [u[0]] + Replace(u[1..], CRLF, BR);
      assert Replace(u[1..], CRLF, BR)[..|q| - 1] == e[1..|q|] == q[1..];
      EscapedPrefix(u[1..], q[1..]);
      assert u[..|q|] == [u[0]] + u[1..][..|q| - 1];
    }
  }

  lemma {:induction false} NoInfixTail(s: seq<byte>, pat: seq<byte>, k: nat)
    requires !HasInfix(s, pat) && k <= |s|
    ensures !HasInfix(s[k..], pat)
    decreases k
  {
    if k > 0 {
      NoInfixTail(s[1..], pat, k - 1);
      assert s[1..][k - 1..] == s[k..];
    }
  }

  /**
    Replacing "<br>" by CR LF undoes replacing CR LF by "<br>" on every text
    that holds no "<br>" of its own.
   */
  lemma {:induction false} UnescapeEscape(t: seq<byte>)
    requires !HasInfix(t, BR)
    ensures Replace(Replace(t, CRLF, BR), BR, CRLF) == t
    decreases |t|
  {
    var e := Replace(t, CRLF, BR);
    if t == [] {
    } else if StartsWith(t, CRLF) {
      var u := t[2..];
      NoInfixTail(t, BR, 2);
      UnescapeEscape(u);
      assert e == BR + Replace(u, CRLF, BR);
      assert StartsWith(e, BR) && e[4..] == Replace(u, CRLF, BR);
      assert t == CRLF + u;
    } else {
      var u := t[1..];
      NoInfixTail(t, BR, 1);
      UnescapeEscape(u);
      assert e == [t[0]] + Replace(u, CRLF, BR);
      if StartsWith(e, BR) {
        assert e[1..] == Replace(u, CRLF, BR);
        assert StartsWith(Replace(u, CRLF, BR), BR[1..]);
        EscapedPrefix(u, BR[1..]);
        assert false;
      }
      assert e[1..] == Replace(u, CRLF, BR);
    }
  }

  /** A text without the first byte of `pat` does not hold `pat`. */
  lemma {:induction false} NotStarted(s: seq<byte>, pat: seq<byte>)
    requires pat != [] && pat[0] !in s
    ensures !HasInfix(s, pat)
    decreases |s|
  {
    if s != [] {
      NotStarted(s[1..], pat);
    }
  }

  /**
    A text that does hold "<br>" does not come back: "<br>" exported and
    imported again turns into a line break.
   */
  lemma {:induction false} BrNotRestored()
    ensures Replace(Replace(BR, CRLF, BR), BR, CRLF) == CRLF
  {
    NotStarted(BR, CRLF);
    assert StartsWith(BR, BR);
    assert BR[4..] == [];
  }

  // ---------------------------------------------------------------------
  // String.Split('\t')[^1]
  // ---------------------------------------------------------------------

  /**
    The last element of line.Split('\t'): the bytes after the last tab, or
    the whole line when it holds no tab.
   */
  function LastField(line: seq<byte>): (f: seq<byte>)
    ensures TAB !in f
    ensures |f| <= |line| && f == line[|line| - |f|..]
    ensures |f| < |line| ==> line[|line| - |f| - 1] == TAB
    decreases |line|
  {
    if line == [] then []
    else if line[|line| - 1] == TAB then []
    else
      var init := line[..|line| - 1];
      var f := LastField(init) + [line[|line| - 1]];
      LastFieldGrows(line, init, LastField(init), f);
      f
  }

  lemma {:induction false} LastFieldGrows(line: seq<byte>, init: seq<byte>, g: seq<byte>, f: seq<byte>)
    requires line != [] && init == line[..|line| - 1] && line[|line| - 1] != TAB
    requires TAB !in g && |g| <= |init| && g == init[|init| - |g|..]
    requires |g| < |init| ==> init[|init| - |g| - 1] == TAB
    requires f == g + [line[|line| - 1]]
    ensures TAB !in f
    ensures |f| <= |line| && f == line[|line| - |f|..]
    ensures |f| < |line| ==> line[|line| - |f| - 1] == TAB
  {
    assert line == init + [line[|line| - 1]];
    assert line[|line| - |f|..] == init[|init| - |g|..] + [line[|line| - 1]];
  }

  /** After leading fields that end in a tab, the last field is the tab-free rest. */
  lemma {:induction false} LastFieldAfter(fields: seq<byte>, s: seq<byte>)
    requires fields == [] || fields[|fields| - 1] == TAB
    requires TAB !in s
    ensures LastField(fields + s) == s
  {
    var line := fields + s;
    var f := LastField(line);
    assert line[|line| - |s|..] == s;
  }

  // ---------------------------------------------------------------------
  // WriteLine and ReadLine
  // ---------------------------------------------------------------------

  /** The length of the first line of `f`: up to the first CR or LF. */
  function LineLength(f: seq<byte>): (k: nat)
    ensures k <= |f| && OneLine(f[..k])
    ensures k < |f| ==> f[k] == CR || f[k] == LF
    decreases |f|
  {
    if f == [] || f[0] == CR || f[0] == LF then 0
    else
      var k := 1 + LineLength(f[1..]);
      assert f[..k] == [f[0]] + f[1..][..k - 1];
      k
  }

  /** Where the next line starts: past a CR LF pair, a lone CR or a lone LF. */
  function NextLineStart(f: seq<byte>, k: nat): (n: nat)
    requires k <= |f|
    ensures k <= n <= |f|
    ensures k < |f| ==> k < n
  {
    if k == |f| then k
    else if f[k] == CR && k + 1 < |f| && f[k + 1] == LF then k + 2
    else k + 1
  }

  /**
    The lines ReadLine returns one by one until the end of the stream, which
    File.ReadAllLines also returns: a final terminator opens no empty line.
   */
  function Lines(f: seq<byte>): (ls: seq<seq<byte>>)
    ensures forall i :: 0 <= i < |ls| ==> OneLine(ls[i])
    ensures |ls| <= |f|
    decreases |f|
  {
    if f == [] then []
    else
      var k := LineLength(f);
      [f[..k]] + Lines(f[NextLineStart(f, k)..])
  }

  /** Reading one line from `rest`, which holds lines i and on of `lines`, gives line i and leaves the lines after it. */
  lemma {:induction false} NextLine(rest: seq<byte>, lines: seq<seq<byte>>, i: nat)
    requires rest != [] && i <= |lines| && Lines(rest) == lines[i..]
    ensures i < |lines| && lines[i] == rest[..LineLength(rest)]
    ensures Lines(rest[NextLineStart(rest, LineLength(rest))..]) == lines[i + 1..]
  {
    var k := LineLength(rest);
    var a, later := rest[..k], Lines(rest[NextLineStart(rest, k)..]);
    assert Lines(rest) == [a] + later;
    ConsParts(lines, i, a, later);
  }

  /** A list that is one item followed by others, read from position i. */
  lemma {:induction false} ConsParts(lines: seq<seq<byte>>, i: nat, a: seq<byte>, later: seq<seq<byte>>)
    requires i <= |lines| && lines[i..] == [a] + later
    ensures i < |lines| && lines[i] == a && later == lines[i + 1..]
  {
    assert lines[i..][0] == a;
    assert lines[i..][1..] == later;
  }

  /** Each line written by WriteLine, followed by CR LF. */
  function Joined(ls: seq<seq<byte>>): seq<byte>
  {
    if ls == [] then [] else ls[0] + CRLF + Joined(ls[1..])
  }

  lemma {:induction false} JoinedAppend(ls: seq<seq<byte>>, l: seq<byte>)
    ensures Joined(ls + [l]) == Joined(ls) + l + CRLF
    decreases |ls|
  {
    if ls == [] {
      assert [l][1..] == [];
    } else {
      JoinedAppend(ls[1..], l);
      assert (ls + [l])[1..] == ls[1..] + [l];
    }
  }

  /** Reading back lines written with WriteLine gives the same lines, when none holds a line terminator. */
  lemma {:induction false} LinesOfJoined(ls: seq<seq<byte>>)
    requires forall i :: 0 <= i < |ls| ==> OneLine(ls[i])
    ensures Lines(Joined(ls)) == ls
    decreases |ls|
  {
    if ls != [] {
      var l, rest := ls[0], Joined(ls[1..]);
      var f := Joined(ls);
      assert f == l + CRLF + rest;
      var k := LineLength(f);
      assert f[|l|] == CR;
      assert f[..k] == l;
      assert NextLineStart(f, k) == |l| + 2;
      assert f[|l| + 2..] == rest;
      LinesOfJoined(ls[1..]);
    }
  }
}
