# GMD text containers and the editor's label transforms

MHXXGMDTool edits the `.gmd` message files of Monster Hunter XX. A GMD file
holds the following, in order:

- a 40-byte header:
  - the magic `GMD\0`;
  - a version, which is Version1 `0x00010201` or Version2 `0x00010302`;
  - a language, a 64-bit unknown field;
  - the label and section counts;
  - the byte sizes of the name and text tables;
  - the length of the internal name;
- the internal name followed by one zero byte;
- a table of fixed-size entries. An entry is 8 bytes in Version1 and 20 bytes in Version2. A Version2 file adds an "unknown set" of bytes after its entries;
- the zero-terminated label names;
- the zero-terminated texts.

The decoder builds one label per section. Each label has:

- a name (only below the label count);
- a text;
- a text id equal to its position.

When the name table is empty, `unnamed_00000`, `unnamed_00001`, … are synthesised instead.

On top of the codec, the editor offers three label transforms:

- export of all texts as a tab-separated file;
- import of such a file back by position;
- merging the texts of another GMD file in, by name or by position.

The project models these in Dafny:

- `Bytes`, `Wrappers`, `Streams`:
  - little-endian integers and decimal formatting;
  - `Option`;
  - a `Reader` over a byte sequence with a cursor, standing for the .NET `BinaryReader`;
  - a seekable `Writer`, standing for `BinaryWriter` on a fresh stream, where a gap left by a seek reads as zeros.
- `GmdFormat`: the entities as datatypes (`Header`, `EntryV1`, `EntryV2`, `Label`, the decoded `Doc`). It also has two functions that specify the codec:
  - `Parse` decodes a byte sequence. The result is `Failed` where .NET throws, `NotGmd` where the constructor returns early, or `Parsed(doc)`.
  - `Encode` gives the bytes `Save` writes.
- `GmdCodec`: the imperative codec, proved against `Parse` and `Encode`:
  - the class `Gmd`, whose fields are the C# object's fields;
  - its `Load` (the body of the `Gmd(Stream)` constructor), `Save` and `GetRealLabelCount`;
  - `PeekString` and `ReadStringUntilNull`.
- `GmdDecodeFacts`: what a successful decode guarantees.
- `GmdRoundTrip`: decoding what `Save` wrote gives back the saved document.
- `TextOps`: the string operations behind the CSV transforms:
  - `Replace`;
  - splitting on tabs (the last field);
  - splitting into lines the way .NET reads lines;
  - joining lines with CR LF.
- `GmdEditor`: the three transforms as methods on a `Gmd` object, each specified by a function on label sequences. The properties proved include:
  - the export/import round trip;
  - merge idempotence;
  - preservation of well-formedness.

## Model

| member | source | states |
|---|---|---|
| GmdCodec.PeekString | MHXXGMDTool/Gmd.cs:229-241 | Returns the `length` bytes at the cursor and puts the cursor back. The result is empty when the cursor is exactly at the end (or `length` is not positive). The read fails when fewer than `length` bytes remain. |
| GmdCodec.ReadStringUntilNull | MHXXGMDTool/Gmd.cs:243-260 | Reads up to the first zero byte or the end of the stream. The zero is consumed and is not part of the result. The string and the new cursor are the ones `ReadStringAt` specifies. |
| GmdCodec.Gmd.constructor | MHXXGMDTool/Gmd.cs:63-76 | A new object holds the empty document and has no magic. |
| GmdCodec.Gmd.Load | MHXXGMDTool/Gmd.cs:78-159 | Decoding succeeds exactly when `Parse` does not fail. A stream without the magic leaves the object empty. On success the object holds `Parse(data)` and is well formed. |
| GmdCodec.Gmd.LoadAfterHeader | MHXXGMDTool/Gmd.cs:95-157 | After the header, the name, entries, names and labels are read exactly as `ParseAfterHeader` specifies. |
| GmdCodec.Gmd.LoadBody | MHXXGMDTool/Gmd.cs:97-157 | Skips the name's terminator, then reads the entry tables, names and labels as `ParseBody` specifies. |
| GmdCodec.Gmd.ReadHeader | MHXXGMDTool/Gmd.cs:85-93 | The eight header fields after the magic are read from their fixed offsets. This succeeds exactly when the stream holds the 40 header bytes. |
| GmdCodec.Gmd.ReadEntries | MHXXGMDTool/Gmd.cs:99-133 | Chooses the entry layout by version: Version1 entries, Version2 entries plus the unknown set, or nothing for any other version. The result is `ReadEntryTables`. |
| GmdCodec.Gmd.ReadEntriesV1Loop | MHXXGMDTool/Gmd.cs:99-107 | Reads `(int)LabelCount` 8-byte entries (none when the cast is negative). It fails exactly when the stream ends first. |
| GmdCodec.Gmd.ReadEntriesV2Loop | MHXXGMDTool/Gmd.cs:108-119 | Reads `(int)LabelCount` 20-byte entries. It fails exactly when the stream ends first. |
| GmdCodec.Gmd.ReadEntryV2 | MHXXGMDTool/Gmd.cs:112-117 | Reads one 20-byte entry with its five fields in file order. The read fails when fewer than 20 bytes remain. |
| GmdCodec.Gmd.ReadUnknownSet | MHXXGMDTool/Gmd.cs:120-132 | The unknown set runs from the current position to the end of the zero run that follows the last skipped word. The cursor ends there. The read fails where the scan runs off the stream. |
| GmdCodec.Gmd.SkipWordsLoop | MHXXGMDTool/Gmd.cs:121-123 | Skips 32-bit words below 0x100000 or equal to 0xFFFFFFFF. The cursor stops at the first other word. |
| GmdCodec.Gmd.SkipZerosLoop | MHXXGMDTool/Gmd.cs:125-127 | Skips zero bytes up to the first non-zero byte. |
| GmdCodec.Gmd.ReadNameTable | MHXXGMDTool/Gmd.cs:135-143 | When LabelSize is positive, reads LabelCount zero-terminated names. Otherwise it synthesises `unnamed_00000`… and reads nothing. |
| GmdCodec.Gmd.ReadLabels | MHXXGMDTool/Gmd.cs:145-157 | Reads SectionCount texts. Label i gets text i, text id i, and name i only when i < LabelCount (otherwise an empty name). |
| GmdCodec.Gmd.Save | MHXXGMDTool/Gmd.cs:161-219 | The stream receives exactly `Encode(document)`. The object keeps its document except that LabelSize and SectionSize are recomputed. |
| GmdCodec.Gmd.WriteBody | MHXXGMDTool/Gmd.cs:165-201 | Everything after the name's terminator is written (entry table, names, texts), and both size fields are updated. |
| GmdCodec.Gmd.WriteTables | MHXXGMDTool/Gmd.cs:186-201 | Writes the name table and the text table. It returns the LabelSize sum and the text table's byte size, each reduced modulo 2^32. |
| GmdCodec.Gmd.WriteEntryTable | MHXXGMDTool/Gmd.cs:167-184 | Writes Version1 entries, or Version2 entries followed by the unknown set, or nothing for another version. |
| GmdCodec.Gmd.WriteEntriesV1 | MHXXGMDTool/Gmd.cs:168-172 | Appends each Version1 entry as two little-endian words. |
| GmdCodec.Gmd.WriteEntriesV2 | MHXXGMDTool/Gmd.cs:175-182 | Appends each Version2 entry's five words in order. |
| GmdCodec.Gmd.WriteEntryV2 | MHXXGMDTool/Gmd.cs:177-181 | Appends one Version2 entry's five words. |
| GmdCodec.Gmd.WriteNameTable | MHXXGMDTool/Gmd.cs:186-193 | Appends every name followed by a zero. LabelSize is the sum of each name's UTF-16 length plus one, modulo 2^32. |
| GmdCodec.Gmd.WriteTextTable | MHXXGMDTool/Gmd.cs:195-201 | Appends every text followed by a zero. |
| GmdCodec.Gmd.WriteHeaderAndName | MHXXGMDTool/Gmd.cs:203-217 | From offset 0, writes the header, the name and its terminating zero. |
| GmdCodec.Gmd.WriteHeader | MHXXGMDTool/Gmd.cs:205-213 | Writes the magic and the eight header fields in file order and width. |
| GmdCodec.Gmd.GetRealLabelCount | MHXXGMDTool/Gmd.cs:221-224 | For a decoded object, the count equals the number of names. Label i carries name i when i is below it, and an empty name otherwise. For an empty object it is 0. |
| GmdFormat.ReadStrings | MHXXGMDTool/Gmd.cs:145-157 | Reading n strings succeeds exactly when n is 0 or the cursor is not past the end. It yields n strings and never moves the cursor backwards or past the end. |
| GmdFormat.NullTerminatedUnique | MHXXGMDTool/Gmd.cs:243-260 | A zero-free byte string that ends at a zero or at the end of the stream is what the reader returns. |
| GmdFormat.SyntheticNamesStep | MHXXGMDTool/Gmd.cs:136-143 | Synthesising n+1 names appends `unnamed_` plus the five-digit index n to the first n. |
| GmdFormat.SavedWellFormed | MHXXGMDTool/Gmd.cs:186-201 | Recomputing the two sizes keeps a document well formed. |
| GmdDecodeFacts.NotGmdIff | MHXXGMDTool/Gmd.cs:82-83 | The decoder leaves the object empty exactly when the stream is empty or its first four bytes are not `GMD\0`. A stream of one to three bytes fails instead. |
| GmdDecodeFacts.ShortHeaderFails | MHXXGMDTool/Gmd.cs:85-93 | A stream with the magic but fewer than 40 bytes fails. |
| GmdDecodeFacts.DecodedHeader | MHXXGMDTool/Gmd.cs:82-95 | A decoded document's header is the first 40 bytes and NameSize fits an int. The name is the NameSize bytes after the header, cut short where the stream ends. |
| GmdDecodeFacts.ParseWellFormed | MHXXGMDTool/Gmd.cs:78-159 | Every decoded document is well formed: entry counts match the version and LabelCount, there are LabelCount names, and there are SectionCount labels. |
| GmdDecodeFacts.DecodedLabels | MHXXGMDTool/Gmd.cs:145-157 | Decoded label i has text id i, and is named by name i exactly when i < LabelCount. |
| GmdDecodeFacts.DecodedEntries | MHXXGMDTool/Gmd.cs:99-132 | The decoded entries are the bytes after the name's terminator, entry by entry. |
| GmdDecodeFacts.TablesUnknownSet | MHXXGMDTool/Gmd.cs:120-132 | The unknown set read after the Version2 entries is a run of skipped words, then fewer than four zeros, then a non-zero byte. The name table starts right after it. |
| GmdRescan.ReadStringsAgree | MHXXGMDTool/Gmd.cs:243-260 | Strings read one after another are the bytes of the table `Save` writes for them, up to the end of the stream. The cursor ends after that table, or at the end of the stream. |
| GmdRescan.TablesAgree | MHXXGMDTool/Gmd.cs:135-157 | A name table and a text table read one after the other are, up to the end of the stream, the bytes of the two tables `Save` writes for them. |
| GmdRescan.SkipWordsTo | MHXXGMDTool/Gmd.cs:121-123 | The word scan stops at the first word that does not continue it, when all the whole words before that one continue it. |
| GmdRescan.SkipWordsRunsOut | MHXXGMDTool/Gmd.cs:121-123 | The word scan fails when every whole word left continues it. |
| GmdRescan.SkipZerosTo | MHXXGMDTool/Gmd.cs:125-127 | The zero scan stops at the first non-zero byte. |
| GmdRescan.StopWordInPrefix | MHXXGMDTool/Gmd.cs:121-123 | A word that runs from the unknown set into "unna" ends in a byte of "unna", and that byte stops the word scan. |
| GmdRescan.StopWordInStream | MHXXGMDTool/Gmd.cs:121-123 | The word that stopped the scan in the stream is the same word in the unknown set followed by bytes that match the stream. |
| GmdRescan.RescanFrom | MHXXGMDTool/Gmd.cs:120-132 | An unknown set found in a stream is found again, ending at the same place, when the bytes after it keep a stopping word at the offset where the scan stopped in the stream and start with a non-zero byte. |
| GmdRescan.RescanBeforeStream | MHXXGMDTool/Gmd.cs:120-132 | An unknown set found in a stream is found again in front of four or more bytes that match the stream after it. |
| GmdRescan.RescanBeforePrefix | MHXXGMDTool/Gmd.cs:120-132 | An unknown set found in a stream is found again in front of bytes that start with "unna". |
| GmdRescan.SynthesisedRescans | MHXXGMDTool/Gmd.cs:120-141 | The unknown set is found again in front of a name table of synthesised names, whatever texts follow. |
| GmdRescan.ReadRescans | MHXXGMDTool/Gmd.cs:120-157 | The unknown set is found again in front of the name and text tables read right after it, when those tables hold at least four bytes. |
| GmdRescan.RunsOffAlone | MHXXGMDTool/Gmd.cs:120-132 | An unknown set found in a stream, with nothing after it, makes the scan run off the end. |
| GmdRescan.DecodedRescans | MHXXGMDTool/Gmd.cs:120-201 | For a decoded Version2 document, the unknown set followed by the name and text tables `Save` writes rescans to exactly the set. This holds when the names are synthesised or the tables hold at least four bytes. |
| GmdRescan.EmptyTablesNotRescanned | MHXXGMDTool/Gmd.cs:120-201 | A decoded Version2 document with no names and no labels does not rescan: after `Save` the scan runs off the end of the file. |
| GmdDecodeFacts.StringsNoZero | MHXXGMDTool/Gmd.cs:243-260 | No string the reader returns contains a zero byte. |
| GmdDecodeFacts.SkipWordsShape | MHXXGMDTool/Gmd.cs:121-123 | The word scan moves in whole words, and every word it passes is below 0x100000 or all ones. |
| GmdDecodeFacts.SkipZerosShape | MHXXGMDTool/Gmd.cs:125-127 | Every byte the zero scan passes is zero. |
| GmdRoundTrip.RoundTrip | MHXXGMDTool/Gmd.cs:78-219 | Take a well-formed document whose name fills NameSize, whose strings hold no zero, whose LabelSize sum fits 32 bits and whose unknown set rescans. Decoding what `Save` writes for it gives back the saved document. |
| GmdRoundTrip.DecodedRoundTrip | MHXXGMDTool/Gmd.cs:78-219 | A document decoded from a file re-saves and re-decodes to itself, with recomputed sizes. It needs only a full-length name, a LabelSize sum below 2^32 and, in Version2, a stop word that `Save` keeps after the unknown set (`StopWordKept`): the names are synthesised, or the saved name and text tables hold at least four bytes. |
| GmdRoundTrip.SaveIdempotent | MHXXGMDTool/Gmd.cs:186-201 | Saving twice writes the same bytes and leaves the same document as saving once. |
| GmdRoundTrip.LabelSizeAtLeastCount | MHXXGMDTool/Gmd.cs:186-193 | The LabelSize sum is at least the number of names, because each name counts its terminator. |
| GmdRoundTrip.SyntheticNameNoZero | MHXXGMDTool/Gmd.cs:141 | Synthesised names contain no zero byte, so they survive a save and reload. |
| TextOps.Replace | MHXXGMDTool/Editor.Stuff.cs:315 | Left-to-right, non-overlapping replacement. It leaves a text without the pattern unchanged. |
| TextOps.ReplaceAvoids | MHXXGMDTool/Editor.Stuff.cs:315 | Replacement introduces no byte that is absent from both the text and the replacement. |
| TextOps.BreaksEscaped | MHXXGMDTool/Editor.Stuff.cs:315 | The escaped text is a single line exactly when every line break in the original is a CR LF pair. |
| TextOps.UnescapeEscape | MHXXGMDTool/Editor.Stuff.cs:450 | Unescaping `<br>` undoes escaping CR LF for every text that holds no literal `<br>`. |
| TextOps.BrNotRestored | MHXXGMDTool/Editor.Stuff.cs:450 | A literal `<br>` in a text comes back as CR LF, so the precondition of `UnescapeEscape` is needed. |
| TextOps.EscapedPrefix | MHXXGMDTool/Editor.Stuff.cs:315 | A prefix without `<` of an escaped text is a prefix of the original. |
| TextOps.LastField | MHXXGMDTool/Editor.Stuff.cs:449-450 | The last tab-separated field holds no tab. It is a suffix of the line, and it is the whole line or is preceded by a tab. |
| TextOps.LastFieldAfter | MHXXGMDTool/Editor.Stuff.cs:449-450 | Fields that end in a tab, followed by a tab-free string, have that string as their last field. |
| TextOps.LineLength | MHXXGMDTool/Editor.Stuff.cs:447-449 | A line ends at the first CR or LF or at the end of the file, and holds neither. |
| TextOps.NextLineStart | MHXXGMDTool/Editor.Stuff.cs:447-449 | The next line starts after a CR LF pair, a lone CR or a lone LF, and always moves forward. |
| TextOps.Lines | MHXXGMDTool/Editor.Stuff.cs:443-449 | Splitting a file into lines, as `ReadAllLines` and `ReadLine` do, yields break-free lines and never more lines than bytes. |
| TextOps.JoinedAppend | MHXXGMDTool/Editor.Stuff.cs:322 | Writing one more line appends it and CR LF to the file. |
| TextOps.LinesOfJoined | MHXXGMDTool/Editor.Stuff.cs:322 | Reading back lines written with `WriteLine` gives the same lines, provided none contains a line break. |
| GmdEditor.ExportName | MHXXGMDTool/Editor.Stuff.cs:314 | The exported name is never empty. It is the label's own name, or the break-free fallback `unnamed_` plus the padded id. |
| GmdEditor.FallbackIsOneBased | MHXXGMDTool/Editor.Stuff.cs:314 | The fallback export name is `unnamed_` plus TextID+1, so it differs from the name the decoder synthesises for the same label. |
| GmdEditor.LeadingFields | MHXXGMDTool/Editor.Stuff.cs:317-320 | The optional id and name columns are empty or end in a tab. |
| GmdEditor.CsvFileStep | MHXXGMDTool/Editor.Stuff.cs:312-323 | Exporting one more label appends that label's line and CR LF. |
| GmdEditor.WriteLine | MHXXGMDTool/Editor.Stuff.cs:314-322 | Appends the label's export line (id, name, escaped text) and CR LF to the output. |
| GmdEditor.ExportData | MHXXGMDTool/Editor.Stuff.cs:307-323 | Export fails exactly when there are no labels. Otherwise the output is the joined export lines of all labels in order. |
| GmdEditor.ExportLineImports | MHXXGMDTool/Editor.Stuff.cs:449-450 | Importing an exported line gives back the label's text, when the text holds no tab and no literal `<br>`. |
| GmdEditor.ExportLineIsOneLine | MHXXGMDTool/Editor.Stuff.cs:315-322 | An exported line contains no line break, when the text breaks only with CR LF and the name holds no break. |
| GmdEditor.CsvRoundTrip | MHXXGMDTool/Editor.Stuff.cs:443-452 | Importing the exported file back into the same labels leaves them unchanged: the line count matches and every text returns. This holds when texts hold no tab and no `<br>`, break only with CR LF, and names hold no break. |
| GmdEditor.Imported | MHXXGMDTool/Editor.Stuff.cs:447-452 | Import keeps the number of labels, every name and every text id, and changes only the texts. |
| GmdEditor.ImportData | MHXXGMDTool/Editor.Stuff.cs:443-460 | Import succeeds exactly when the file has as many lines as there are labels. Then label i's text is line i's last field with `<br>` turned into CR LF. Otherwise nothing changes. |
| GmdEditor.ReadTexts | MHXXGMDTool/Editor.Stuff.cs:445-452 | The read loop sets each label's text from its line, in order. |
| GmdEditor.ImportKeepsWellFormed | MHXXGMDTool/Editor.Stuff.cs:447-452 | An import keeps a decoded document well formed. |
| GmdEditor.FirstNamed | MHXXGMDTool/Editor.Stuff.cs:583-588 | Finds the first source label with the given name, or reports that none has it. |
| GmdEditor.Merged | MHXXGMDTool/Editor.Stuff.cs:576-588 | The merge fails exactly when the target has no real labels, is non-empty, and differs in length from the source. Otherwise it keeps the length, names and ids. |
| GmdEditor.ImportGmdData | MHXXGMDTool/Editor.Stuff.cs:576-593 | The merge method succeeds exactly when `Merged` does. Then the labels become the merged labels; otherwise they are left as they were. |
| GmdEditor.PositionalMergeCopiesTexts | MHXXGMDTool/Editor.Stuff.cs:577-581 | Without real labels and with equal lengths, the merge copies every source text by position. |
| GmdEditor.SelfMergeKeeps | MHXXGMDTool/Editor.Stuff.cs:576-588 | Merging labels into themselves changes nothing when equal names carry equal texts. |
| GmdEditor.MergeIdempotent | MHXXGMDTool/Editor.Stuff.cs:576-588 | Merging the same source a second time changes nothing. |
| GmdEditor.UnnamedLabelsShareText | MHXXGMDTool/Editor.Stuff.cs:582-588 | With real labels, every unnamed target label, such as a section beyond LabelCount, takes the text of the first unnamed source label. |
| GmdEditor.MergeKeepsWellFormed | MHXXGMDTool/Editor.Stuff.cs:576-588 | A successful merge keeps a decoded document well formed. |

Some specification functions carry no contract of their own. The lemmas and methods above state what they mean:

- `GmdFormat.Parse` models the decoder, MHXXGMDTool/Gmd.cs:78-159.
- `GmdFormat.Encode` models the bytes `Save` writes, MHXXGMDTool/Gmd.cs:161-219.
- `GmdEditor.ExportLine` models one exported line, MHXXGMDTool/Editor.Stuff.cs:314-322.
- `GmdEditor.ImportText` models the text taken from one imported line, MHXXGMDTool/Editor.Stuff.cs:450.
- `GmdEditor.TakeTextByName` models the by-name lookup of the merge, MHXXGMDTool/Editor.Stuff.cs:582-588.

## Left out

- The window, dialogs, batch mode, the file system and the log of failed files (`Editor.cs`, `Editor.Designer.cs`, the rest of `Editor.Stuff.cs`, `About.cs` and `Program.cs`) are not part of this model. In batch mode a transform loads the GMD from a file, and it saves the result with `Save` when the import succeeds. That load is `Load` and that save is `Save`.
- The two export settings, `Export_IncludeID` and `Export_IncludeName`, are parameters of the export.
- Strings are kept as UTF-8 bytes. Decoding and re-encoding them (`Encoding.UTF8`, and the BOM detection of `StreamReader` and `File.ReadAllLines`) is not modelled. The delimiters the transforms look for (tab, CR, LF, `<br>`) are ASCII, so working on bytes matches working on characters for valid UTF-8. For LabelSize, `Names[i].Length` is the UTF-16 length. It is computed from the bytes as the number of UTF-16 units a valid UTF-8 string needs.
- `Environment.NewLine` is taken to be CR LF.
- .NET exceptions (end of stream, a negative length passed to `ReadBytes`) are modelled as a `false` / `Failed` result. The exception's type and message are not modelled.
- Labels are values inside a sequence, not shared objects. The merge therefore requires the two `Gmd` objects to be distinct. The editor always loads the source file into a new object, so they are.
- The `language` field is kept as the raw `int32`, and the enum names are not modelled.
- GmdCodec.Gmd.Save: requires a decoded object, and a fresh, empty output stream as the editor always passes. Saving a never-decoded object throws on its missing magic; that case is not modelled.
- GmdRoundTrip.RoundTrip: holds only for documents the file format can express. The preconditions name them: a name exactly NameSize bytes long, no zero inside a name or text, a LabelSize sum below 2^32, and a Version2 unknown set that the decoder's scan finds again.
- GmdEditor.CsvRoundTrip: holds only for texts without a tab or a literal `<br>`, with CR LF as the only line break, and for names without a line break. `TextOps.BrNotRestored` shows why `<br>` is excluded.
- GmdRoundTrip.DecodedRoundTrip: does not cover a Version2 file whose names were read from the stream and whose saved name and text tables hold fewer than four bytes. `Save` writes nothing after the unknown set except those tables, so the word that stopped the decoder's scan is lost. Reloading then scans past the end or stops elsewhere. `GmdRescan.EmptyTablesNotRescanned` shows the empty case.
- A LabelCount or SectionCount of 2^31 or more: the decoder's `int` loop counter overflows before reaching it, and the `List` of names or labels runs out of memory first, so .NET throws. The model counts without bound and, with synthesised names, returns a document instead of failing.
