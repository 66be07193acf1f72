/** Message catalogues in text form (scripts/compile_messages.py, `parse_po`): the parser, a printer,
    and which entries can be written at all. */
module PoFile {
  import opened Outcomes
  import opened PoStrings
  import opened MoFile

  // ---------------------------------------------------------------- lines

  function LineLength(text: string): (n: nat)
    ensures n <= |text| && OneLine(text[..n])
    ensures n < |text| ==> LineBreak(text[n])
  {
    if text == "" || LineBreak(text[0]) then 0
    else
      var n := LineLength(text[1..]);
      assert text[..n + 1] == [text[0]] + text[1..][..n];
      n + 1
  }

  /** A carriage return and a line feed break a line once. */
  function BreakLength(rest: string): nat {
    if rest == "" then 0
    else if |rest| > 1 && rest[0] == '\r' && rest[1] == '\n' then 2
    else 1
  }

  /** `str.splitlines` */
  function Lines(text: string): seq<string>
    decreases |text|
  {
    if text == "" then []
    else
      var n := LineLength(text);
      [text[..n]] + Lines(text[n + BreakLength(text[n..])..])
  }

  lemma {:induction false} LinesAreSingle(text: string)
    ensures forall i | 0 <= i < |Lines(text)| :: OneLine(Lines(text)[i])
    decreases |text|
  {
    if text != "" {
      var n := LineLength(text);
      LinesAreSingle(text[n + BreakLength(text[n..])..]);
    }
  }

  /** Lines, each followed by its break. */
  function Joined(lines: seq<string>, breaks: seq<string>): string
    requires |lines| == |breaks|
  {
    if lines == [] then "" else lines[0] + breaks[0] + Joined(lines[1..], breaks[1..])
  }

  predicate IsBreak(b: string) {
    b == "\r\n" || (|b| == 1 && LineBreak(b[0]))
  }

  lemma FirstLine(text: string) returns (n: nat, m: nat)
    requires text != ""
    ensures n <= m <= |text| && 0 < m && Lines(text) == [text[..n]] + Lines(text[m..])
    ensures IsBreak(text[n..m]) || (n == m == |text|)
    ensures text[n..m] == "\r" && m < |text| ==> text[m] != '\n'
  {
    hide LineLength;
    n := LineLength(text);
    m := n + BreakLength(text[n..]);
    if n < |text| {
      assert text[n..][0] == text[n];
      assert m == n + 2 ==> text[n..m] == ['\r', '\n'];
      assert m == n + 1 ==> text[n..m] == [text[n]] && (m < |text| ==> text[n..][1] == text[m]);
    }
  }

  lemma {:induction false} JoinedFirst(line: string, b: string, lines: seq<string>, breaks: seq<string>)
    requires |lines| == |breaks|
    ensures Joined([line] + lines, [b] + breaks) == line + b + Joined(lines, breaks)
  {
  }

  /** Each line is followed by one break; only the last may have none, and a carriage return and a line
      feed are one break. */
  predicate ProperBreaks(lines: seq<string>, breaks: seq<string>) {
    && |lines| == |breaks|
    && (forall i | 0 <= i < |breaks| :: IsBreak(breaks[i]) || (i == |breaks| - 1 && breaks[i] == ""))
    && (forall i | 0 <= i < |breaks| - 1 :: breaks[i] == "\r" ==> !(lines[i + 1] == "" && breaks[i + 1] == "\n"))
  }

  lemma ProperFirst(line: string, b: string, lines: seq<string>, breaks: seq<string>)
    requires ProperBreaks(lines, breaks) && (IsBreak(b) || (b == "" && lines == []))
    requires b == "\r" && lines != [] ==> !(lines[0] == "" && breaks[0] == "\n")
    ensures ProperBreaks([line] + lines, [b] + breaks)
  {
    hide IsBreak;
    var ls, bs := [line] + lines, [b] + breaks;
    forall i | 0 <= i < |bs| ensures IsBreak(bs[i]) || (i == |bs| - 1 && bs[i] == "") {
      assert i > 0 ==> bs[i] == breaks[i - 1];
    }
    forall i | 0 <= i < |bs| - 1 ensures bs[i] == "\r" ==> !(ls[i + 1] == "" && bs[i + 1] == "\n") {
      assert i > 0 ==> bs[i] == breaks[i - 1] && bs[i + 1] == breaks[i] && ls[i + 1] == lines[i];
    }
  }

  /** Every text is its lines and their breaks. */
  lemma {:induction false} LinesSplit(text: string) returns (breaks: seq<string>)
    ensures ProperBreaks(Lines(text), breaks) && Joined(Lines(text), breaks) == text
    decreases |text|
  {
    hide Lines, ProperBreaks, Joined, IsBreak;
    LinesOfNothing(text);
    if text == "" {
      breaks := [];
      NothingJoined();
    } else {
      var n, m := FirstLine(text);
      var more := LinesSplit(text[m..]);
      LinesOfNothing(text[m..]);
      breaks := FirstJoined(text, n, m, Lines(text[m..]), more);
    }
  }

  lemma LinesOfNothing(text: string)
    ensures Lines(text) == [] <==> text == ""
  {
  }

  lemma NothingJoined()
    ensures ProperBreaks([], []) && Joined([], []) == ""
  {
  }

  lemma FirstJoined(text: string, n: nat, m: nat, lines: seq<string>, more: seq<string>) returns (breaks: seq<string>)
    requires n <= m <= |text| && ProperBreaks(lines, more) && Joined(lines, more) == text[m..]
    requires lines == [] <==> text[m..] == ""
    requires IsBreak(text[n..m]) || n == m == |text|
    requires text[n..m] == "\r" && m < |text| ==> text[m] != '\n'
    ensures ProperBreaks([text[..n]] + lines, breaks) && Joined([text[..n]] + lines, breaks) == text
  {
    hide Joined, IsBreak;
    breaks := [text[n..m]] + more;
    JoinedFirst(text[..n], text[n..m], lines, more);
    assert text == text[..n] + text[n..m] + text[m..];
    if lines != [] {
      JoinedStart(lines, more);
      assert text[m..][0] == text[m];
    }
    ProperFirst(text[..n], text[n..m], lines, more);
  }

  lemma JoinedStart(lines: seq<string>, breaks: seq<string>)
    requires |lines| == |breaks| && lines != []
    ensures lines[0] == "" && breaks[0] == "\n" ==> Joined(lines, breaks) != "" && Joined(lines, breaks)[0] == '\n'
  {
  }

  /** Lines that are each ended by a line feed. */
  function Text(lines: seq<string>): string {
    if lines == [] then "" else lines[0] + "\n" + Text(lines[1..])
  }

  lemma {:induction false} LineLengthOf(line: string, rest: string)
    requires OneLine(line)
    ensures LineLength(line + "\n" + rest) == |line|
  {
    var t := line + "\n" + rest;
    if line == "" {
      assert t[0] == '\n';
    } else {
      assert t[1..] == line[1..] + "\n" + rest;
      LineLengthOf(line[1..], rest);
    }
  }

  lemma {:induction false} LinesOfText(lines: seq<string>)
    requires forall i | 0 <= i < |lines| :: OneLine(lines[i])
    ensures Lines(Text(lines)) == lines
  {
    if lines != [] {
      var rest := Text(lines[1..]);
      var t := lines[0] + "\n" + rest;
      LineLengthOf(lines[0], rest);
      LinesOfText(lines[1..]);
      assert t[..|lines[0]|] == lines[0] && t[|lines[0]|..][0] == '\n';
      assert t[|lines[0]| + 1..] == rest;
    }
  }

  // ---------------------------------------------------------------- the parser

  datatype Mode = NoMode | InId | InStr

  /** The parser's variables between two lines. */
  datatype Scan = Scan(entries: map<string, string>, msgid: Option<string>, msgstr: string, mode: Mode)

  function Flush(s: Scan): map<string, string> {
    if s.msgid.Some? then s.entries[s.msgid.value := s.msgstr] else s.entries
  }

  predicate StartsWith(s: string, prefix: string) {
    |prefix| <= |s| && s[..|prefix|] == prefix
  }

  const MSGID := "msgid "
  const MSGSTR := "msgstr "

  /** What one line does. */
  function Feed(s: Scan, raw: string): Scan {
    var line := Strip(raw);
    if line == "" || line[0] == '#' then s
    else if StartsWith(line, MSGID) then Scan(Flush(s), Some(Unquote(line[|MSGID|..])), "", InId)
    else if StartsWith(line, MSGSTR) then s.(msgstr := Unquote(line[|MSGSTR|..]), mode := InStr)
    else if line[0] == '"' && s.mode == InId then
      s.(msgid := Some((if s.msgid.Some? then s.msgid.value else "") + Unquote(line)))
    else if line[0] == '"' && s.mode == InStr then s.(msgstr := s.msgstr + Unquote(line))
    else s
  }

  const BEGIN := Scan(map[], None, "", NoMode)

  function FeedAll(s: Scan, lines: seq<string>): Scan {
    if lines == [] then s else Feed(FeedAll(s, lines[..|lines| - 1]), lines[|lines| - 1])
  }

  function Parsed(text: string): map<string, string> {
    Flush(FeedAll(BEGIN, Lines(text)))
  }

  /** `parse_po` */
  method ParsePo(text: string) returns (entries: map<string, string>)
    ensures entries == Parsed(text)
  {
    entries := map[];
    var msgid: Option<string> := None;
    var msgstr := "";
    var mode := NoMode;
    var lines := Lines(text);
    for i := 0 to |lines|
      invariant Scan(entries, msgid, msgstr, mode) == FeedAll(BEGIN, lines[..i])
    {
      assert lines[..i + 1][..i] == lines[..i];
      var line := Strip(lines[i]);
      if line == "" || line[0] == '#' {
        continue;
      }
      if StartsWith(line, MSGID) {
        if msgid.Some? {
          entries := entries[msgid.value := msgstr];
        }
        msgid, msgstr, mode := Some(Unquote(line[|MSGID|..])), "", InId;
      } else if StartsWith(line, MSGSTR) {
        msgstr, mode := Unquote(line[|MSGSTR|..]), InStr;
      } else if line[0] == '"' {
        if mode == InId {
          msgid := Some((if msgid.Some? then msgid.value else "") + Unquote(line));
        } else if mode == InStr {
          msgstr := msgstr + Unquote(line);
        }
      }
    }
    assert lines[..|lines|] == lines;
    if msgid.Some? {
      entries := entries[msgid.value := msgstr];
    }
  }

  lemma {:induction false} FeedConcatenation(s: Scan, a: seq<string>, b: seq<string>)
    ensures FeedAll(s, a + b) == FeedAll(FeedAll(s, a), b)
  {
    if b == [] {
      assert a + b == a;
    } else {
      var n := |b| - 1;
      FeedConcatenation(s, a, b[..n]);
      assert (a + b)[..|a + b| - 1] == a + b[..n];
    }
  }

  /** Blank lines and comments may stand anywhere. */
  lemma NoiseIsIgnored(lines: seq<string>, i: nat, noise: string)
    requires i <= |lines| && (Strip(noise) == "" || Strip(noise)[0] == '#')
    ensures Flush(FeedAll(BEGIN, lines[..i] + [noise] + lines[i..])) == Flush(FeedAll(BEGIN, lines))
  {
    hide Feed, Flush, Strip;
    var a, b := lines[..i], lines[i..];
    FeedConcatenation(BEGIN, a + [noise], b);
    FeedConcatenation(BEGIN, a, [noise]);
    FeedConcatenation(BEGIN, a, b);
    assert a + b == lines;
    FeedOne(FeedAll(BEGIN, a), noise);
    NoiseFeeds(FeedAll(BEGIN, a), noise);
  }

  lemma NoiseFeeds(s: Scan, noise: string)
    requires Strip(noise) == "" || Strip(noise)[0] == '#'
    ensures Feed(s, noise) == s
  {
  }

  // ---------------------------------------------------------------- the printer

  /** A string as it is spread over its first line and the continuation lines. */
  datatype Chunked = Chunked(first: string, more: seq<string>)

  datatype PoEntry = PoEntry(id: Chunked, str: Chunked)

  function QuotedLines(chunks: seq<string>): seq<string> {
    seq(|chunks|, i requires 0 <= i < |chunks| => Quoted(chunks[i]))
  }

  function EntryLines(e: PoEntry): seq<string> {
    [MSGID + Quoted(e.id.first)] + QuotedLines(e.id.more) + [MSGSTR + Quoted(e.str.first)] + QuotedLines(e.str.more)
  }

  function FileLines(es: seq<PoEntry>): seq<string> {
    if es == [] then [] else FileLines(es[..|es| - 1]) + EntryLines(es[|es| - 1])
  }

  /** `more` read back, one chunk after the other. */
  function MangledAll(chunks: seq<string>): string {
    if chunks == [] then "" else MangledAll(chunks[..|chunks| - 1]) + Mangled(chunks[|chunks| - 1])
  }

  function ReadBack(c: Chunked): string {
    Mangled(c.first) + MangledAll(c.more)
  }

  /** The entries that the printed file stands for; a later one replaces an earlier one. */
  function EntriesOf(es: seq<PoEntry>): map<string, string> {
    if es == [] then map[]
    else EntriesOf(es[..|es| - 1])[ReadBack(es[|es| - 1].id) := ReadBack(es[|es| - 1].str)]
  }

  lemma FeedId(s: Scan, c: string)
    ensures Feed(s, MSGID + Quoted(c)) == Scan(Flush(s), Some(Mangled(c)), "", InId)
  {
    var line := MSGID + Quoted(c);
    StripKeeps(line);
    assert line[..|MSGID|] == MSGID && line[|MSGID|..] == Quoted(c);
    UnquoteQuoted(c);
  }

  lemma FeedStr(s: Scan, c: string)
    ensures Feed(s, MSGSTR + Quoted(c)) == s.(msgstr := Mangled(c), mode := InStr)
  {
    var line := MSGSTR + Quoted(c);
    StripKeeps(line);
    assert line[..|MSGID|][3] == 's';
    assert line[..|MSGSTR|] == MSGSTR && line[|MSGSTR|..] == Quoted(c);
    UnquoteQuoted(c);
  }

  lemma FeedContinuation(s: Scan, c: string)
    requires s.mode == InId ==> s.msgid.Some?
    ensures Feed(s, Quoted(c)) == match s.mode
                                  case NoMode => s
                                  case InId => s.(msgid := Some(s.msgid.value + Mangled(c)))
                                  case InStr => s.(msgstr := s.msgstr + Mangled(c))
  {
    hide Unquote, Escape, Mangled;
    var line := Quoted(c);
    StripKeeps(line);
    assert line[0] == '"';
    UnquoteQuoted(c);
  }

  lemma {:induction false} FeedIdChunks(s: Scan, chunks: seq<string>)
    requires s.mode == InId && s.msgid.Some?
    ensures FeedAll(s, QuotedLines(chunks)) == s.(msgid := Some(s.msgid.value + MangledAll(chunks)))
  {
    hide Feed, Quoted, Mangled;
    if chunks != [] {
      var n := |chunks| - 1;
      var v, before, last := s.msgid.value, MangledAll(chunks[..n]), Mangled(chunks[n]);
      FeedIdChunks(s, chunks[..n]);
      assert QuotedLines(chunks)[..n] == QuotedLines(chunks[..n]);
      FeedContinuation(s.(msgid := Some(v + before)), chunks[n]);
      assert v + before + last == v + (before + last);
    } else {
      assert s.msgid.value + "" == s.msgid.value;
    }
  }

  lemma {:induction false} FeedStrChunks(s: Scan, chunks: seq<string>)
    requires s.mode == InStr
    ensures FeedAll(s, QuotedLines(chunks)) == s.(msgstr := s.msgstr + MangledAll(chunks))
  {
    hide Feed, Quoted, Mangled;
    if chunks != [] {
      var n := |chunks| - 1;
      var before, last := MangledAll(chunks[..n]), Mangled(chunks[n]);
      FeedStrChunks(s, chunks[..n]);
      assert QuotedLines(chunks)[..n] == QuotedLines(chunks[..n]);
      FeedContinuation(s.(msgstr := s.msgstr + before), chunks[n]);
      assert s.msgstr + before + last == s.msgstr + (before + last);
    } else {
      assert s.msgstr + "" == s.msgstr;
    }
  }

  lemma FeedOne(s: Scan, line: string)
    ensures FeedAll(s, [line]) == Feed(s, line)
  {
    assert [line][..0] == [];
  }

  lemma FeedEntry(s: Scan, e: PoEntry)
    ensures FeedAll(s, EntryLines(e)) == Scan(Flush(s), Some(ReadBack(e.id)), ReadBack(e.str), InStr)
  {
    hide Feed, Unquote, Quoted, Mangled, MangledAll, Strip;
    var id, ids, str, strs := [MSGID + Quoted(e.id.first)], QuotedLines(e.id.more), [MSGSTR + Quoted(e.str.first)],
        QuotedLines(e.str.more);
    FeedConcatenation(s, id + ids + str, strs);
    FeedConcatenation(s, id + ids, str);
    FeedConcatenation(s, id, ids);
    FeedOne(s, id[0]);
    FeedId(s, e.id.first);
    var afterId := Scan(Flush(s), Some(Mangled(e.id.first)), "", InId);
    FeedIdChunks(afterId, e.id.more);
    var afterIds := afterId.(msgid := Some(ReadBack(e.id)));
    FeedOne(afterIds, str[0]);
    FeedStr(afterIds, e.str.first);
    FeedStrChunks(afterIds.(msgstr := Mangled(e.str.first), mode := InStr), e.str.more);
  }

  lemma {:induction false} FeedFile(es: seq<PoEntry>)
    ensures Flush(FeedAll(BEGIN, FileLines(es))) == EntriesOf(es)
  {
    if es != [] {
      var n := |es| - 1;
      FeedFile(es[..n]);
      FeedConcatenation(BEGIN, FileLines(es[..n]), EntryLines(es[n]));
      FeedEntry(FeedAll(BEGIN, FileLines(es[..n])), es[n]);
    }
  }

  predicate PlainChunks(c: Chunked) {
    Plain(c.first) && forall i | 0 <= i < |c.more| :: Plain(c.more[i])
  }

  lemma EntryLinesAreSingle(e: PoEntry)
    requires PlainChunks(e.id) && PlainChunks(e.str)
    ensures forall i | 0 <= i < |EntryLines(e)| :: OneLine(EntryLines(e)[i])
  {
    forall c: string | Plain(c) ensures OneLine(Quoted(c)) && OneLine(MSGID + Quoted(c))
        && OneLine(MSGSTR + Quoted(c)) {
      EscapeIsOneLine(c);
    }
  }

  lemma {:induction false} FileLinesAreSingle(es: seq<PoEntry>)
    requires forall i | 0 <= i < |es| :: PlainChunks(es[i].id) && PlainChunks(es[i].str)
    ensures forall i | 0 <= i < |FileLines(es)| :: OneLine(FileLines(es)[i])
  {
    if es != [] {
      FileLinesAreSingle(es[..|es| - 1]);
      EntryLinesAreSingle(es[|es| - 1]);
    }
  }

  /** Whatever entries are printed, however they are spread over lines, this is what is parsed. */
  lemma ParsedPrint(es: seq<PoEntry>)
    requires forall i | 0 <= i < |es| :: PlainChunks(es[i].id) && PlainChunks(es[i].str)
    ensures Parsed(Text(FileLines(es))) == EntriesOf(es)
  {
    FileLinesAreSingle(es);
    LinesOfText(FileLines(es));
    FeedFile(es);
  }

  // ---------------------------------------------------------------- printing any map

  /** A string is split after each backslash that would be mistaken. */
  function SafeChunks(s: string): seq<string> {
    if s == "" then []
    else
      var rest := SafeChunks(s[1..]);
      if rest == [] || rest[0] == "" || (s[0] == '\\' && Mistaken(rest[0][0])) then [[s[0]]] + rest
      else [[s[0]] + rest[0]] + rest[1..]
  }

  function Concatenated(chunks: seq<string>): string {
    if chunks == [] then "" else Concatenated(chunks[..|chunks| - 1]) + chunks[|chunks| - 1]
  }

  lemma {:induction false} ConcatenatedFront(c: string, chunks: seq<string>)
    ensures Concatenated([c] + chunks) == c + Concatenated(chunks)
  {
    if chunks == [] {
      assert [c] + chunks == [c] && [c][..0] == [];
    } else {
      var n := |chunks| - 1;
      ConcatenatedFront(c, chunks[..n]);
      assert ([c] + chunks)[..n + 1] == [c] + chunks[..n];
      assert c + Concatenated(chunks[..n]) + chunks[n] == c + (Concatenated(chunks[..n]) + chunks[n]);
    }
  }

  lemma SafeFront(c: char, chunk: string)
    requires Safe(chunk) && (chunk == "" || c != '\\' || !Mistaken(chunk[0]))
    ensures Safe([c] + chunk)
  {
    var t := [c] + chunk;
    forall i | 0 <= i < |t| - 1 ensures !(t[i] == '\\' && Mistaken(t[i + 1])) {
      assert i > 0 ==> t[i] == chunk[i - 1] && t[i + 1] == chunk[i];
    }
  }

  lemma {:induction false} SafeChunksConcatenate(s: string)
    ensures Concatenated(SafeChunks(s)) == s
  {
    if s != "" {
      var rest := SafeChunks(s[1..]);
      SafeChunksConcatenate(s[1..]);
      assert s == [s[0]] + s[1..];
      if rest == [] || rest[0] == "" || (s[0] == '\\' && Mistaken(rest[0][0])) {
        ConcatenatedFront([s[0]], rest);
      } else {
        assert rest == [rest[0]] + rest[1..];
        ConcatenatedFront(rest[0], rest[1..]);
        ConcatenatedFront([s[0]] + rest[0], rest[1..]);
      }
    }
  }

  lemma {:induction false} SafeChunksAreSafe(s: string)
    requires Plain(s)
    ensures forall i | 0 <= i < |SafeChunks(s)| :: Safe(SafeChunks(s)[i]) && Plain(SafeChunks(s)[i])
  {
    hide Safe;
    if s != "" {
      var rest := SafeChunks(s[1..]);
      SafeChunksAreSafe(s[1..]);
      if rest == [] || rest[0] == "" || (s[0] == '\\' && Mistaken(rest[0][0])) {
        SafeSingle(s[0]);
      } else {
        SafeFront(s[0], rest[0]);
      }
    }
  }

  lemma SafeSingle(c: char)
    ensures Safe([c])
  {
  }

  lemma {:induction false} SafeChunksReadBack(chunks: seq<string>)
    requires forall i | 0 <= i < |chunks| :: Safe(chunks[i])
    ensures MangledAll(chunks) == Concatenated(chunks)
  {
    if chunks != [] {
      SafeChunksReadBack(chunks[..|chunks| - 1]);
      MangledIffUnsafe(chunks[|chunks| - 1]);
    }
  }

  /** An empty first line, then the chunks, as is usual for longer messages. */
  function Spread(s: string): Chunked {
    Chunked("", SafeChunks(s))
  }

  lemma SpreadReadsBack(s: string)
    requires Plain(s)
    ensures PlainChunks(Spread(s)) && ReadBack(Spread(s)) == s
  {
    SafeChunksConcatenate(s);
    SafeChunksAreSafe(s);
    SafeChunksReadBack(SafeChunks(s));
  }

  ghost predicate PlainMap(m: map<string, string>) {
    forall k | k in m :: Plain(k) && Plain(m[k])
  }

  function PrintedEntries(keys: seq<string>, m: map<string, string>): seq<PoEntry>
    requires forall k | k in keys :: k in m
  {
    seq(|keys|, i requires 0 <= i < |keys| => PoEntry(Spread(keys[i]), Spread(m[keys[i]])))
  }

  /** A catalogue of a map's entries, in the order of the keys. */
  ghost function Printed(m: map<string, string>): string {
    Text(FileLines(PrintedEntries(Sorting(m.Keys), m)))
  }

  /** Entries that are read back as the keys and values of a map make up that map. */
  lemma {:induction false} EntriesReadBack(es: seq<PoEntry>, keys: seq<string>, m: map<string, string>, n: nat)
    requires (forall k | k in keys :: k in m) && n <= |keys| == |es|
    requires forall i | 0 <= i < |keys| ::
        keys[i] in m && ReadBack(es[i].id) == keys[i] && ReadBack(es[i].str) == m[keys[i]]
    ensures EntriesOf(es[..n]) == map k | k in m && k in keys[..n] :: m[k]
  {
    if n > 0 {
      EntriesReadBack(es, keys, m, n - 1);
      assert es[..n][..n - 1] == es[..n - 1];
      assert keys[..n] == keys[..n - 1] + [keys[n - 1]];
    }
  }

  lemma PrintedReadsBack(es: seq<PoEntry>, m: map<string, string>)
    requires |es| == |Sorting(m.Keys)|
    requires forall i | 0 <= i < |es| :: PlainChunks(es[i].id) && PlainChunks(es[i].str)
    requires forall i | 0 <= i < |es| ::
               var k := Sorting(m.Keys)[i];
               k in m && ReadBack(es[i].id) == k && ReadBack(es[i].str) == m[k]
    ensures Parsed(Text(FileLines(es))) == m
  {
    hide Parsed, ReadBack, PlainChunks, Text, FileLines, Sorting, EntriesOf;
    var keys := Sorting(m.Keys);
    ParsedPrint(es);
    EntriesReadBack(es, keys, m, |keys|);
    assert es[..|keys|] == es && keys[..|keys|] == keys;
  }

  /** Every map whose strings have no line breaks but line feeds can be printed and parsed back. */
  lemma ParsePrintedMap(m: map<string, string>)
    requires PlainMap(m)
    ensures Parsed(Printed(m)) == m
  {
    hide Parsed, ReadBack, PlainChunks, Text, FileLines, Plain, Spread;
    var keys := Sorting(m.Keys);
    var es := PrintedEntries(keys, m);
    forall i | 0 <= i < |es|
      ensures PlainChunks(es[i].id) && PlainChunks(es[i].str)
      ensures keys[i] in m && ReadBack(es[i].id) == keys[i] && ReadBack(es[i].str) == m[keys[i]]
    {
      assert keys[i] in keys;
      SpreadReadsBack(keys[i]);
      SpreadReadsBack(m[keys[i]]);
    }
    PrintedReadsBack(es, m);
  }

  // ---------------------------------------------------------------- one line for each string

  function OneLineEntries(keys: seq<string>, m: map<string, string>): seq<PoEntry>
    requires forall k | k in keys :: k in m
  {
    seq(|keys|, i requires 0 <= i < |keys| => PoEntry(Chunked(keys[i], []), Chunked(m[keys[i]], [])))
  }

  ghost predicate SafeMap(m: map<string, string>) {
    forall k | k in m :: Safe(k) && Safe(m[k])
  }

  lemma OneLineReadsBack(s: string)
    ensures ReadBack(Chunked(s, [])) == Mangled(s) && Safe(Mangled(s))
  {
    MangledIsSafe(s);
    assert Mangled(s) + "" == Mangled(s);
  }

  lemma {:induction false} OneLineEntriesAreSafe(es: seq<PoEntry>)
    requires forall i | 0 <= i < |es| :: es[i].id.more == [] && es[i].str.more == []
    ensures SafeMap(EntriesOf(es))
  {
    if es != [] {
      var e := es[|es| - 1];
      OneLineEntriesAreSafe(es[..|es| - 1]);
      OneLineReadsBack(e.id.first);
      OneLineReadsBack(e.str.first);
      assert e.id == Chunked(e.id.first, []) && e.str == Chunked(e.str.first, []);
    }
  }

  /** The form with one line for each string gives a map back exactly when none of its strings has a
      backslash directly before `n` or `t`. */
  lemma OneLinePrintIff(m: map<string, string>)
    requires PlainMap(m)
    ensures Parsed(Text(FileLines(OneLineEntries(Sorting(m.Keys), m)))) == m <==> SafeMap(m)
  {
    hide Parsed, ReadBack, Text, FileLines, Plain, Safe;
    var keys := Sorting(m.Keys);
    var es := OneLineEntries(keys, m);
    forall i | 0 <= i < |es| ensures keys[i] in m && PlainChunks(es[i].id) && PlainChunks(es[i].str) {
      assert keys[i] in keys;
    }
    if SafeMap(m) {
      forall i | 0 <= i < |es| ensures ReadBack(es[i].id) == keys[i] && ReadBack(es[i].str) == m[keys[i]] {
        OneLineReadsBack(keys[i]);
        OneLineReadsBack(m[keys[i]]);
        MangledIffUnsafe(keys[i]);
        MangledIffUnsafe(m[keys[i]]);
      }
      PrintedReadsBack(es, m);
    } else {
      ParsedPrint(es);
      OneLineEntriesAreSafe(es);
    }
  }

  // ---------------------------------------------------------------- what can be parsed

  ghost predicate PlainScan(s: Scan) {
    PlainMap(s.entries) && (s.msgid.Some? ==> Plain(s.msgid.value)) && Plain(s.msgstr)
  }

  lemma FeedKeepsPlain(s: Scan, raw: string)
    requires PlainScan(s) && OneLine(raw)
    ensures PlainScan(Feed(s, raw))
  {
    hide Unquote;
    StripLeftKeepsPlain(raw);
    StripRightKeepsPlain(StripLeft(raw));
    var line := Strip(raw);
    UnquoteIsPlain(line);
    if StartsWith(line, MSGID) {
      UnquoteIsPlain(line[|MSGID|..]);
    } else if StartsWith(line, MSGSTR) {
      UnquoteIsPlain(line[|MSGSTR|..]);
    }
  }

  lemma {:induction false} FeedAllKeepsPlain(lines: seq<string>)
    requires forall i | 0 <= i < |lines| :: OneLine(lines[i])
    ensures PlainScan(FeedAll(BEGIN, lines))
  {
    if lines != [] {
      FeedAllKeepsPlain(lines[..|lines| - 1]);
      FeedKeepsPlain(FeedAll(BEGIN, lines[..|lines| - 1]), lines[|lines| - 1]);
    }
  }

  lemma ParsedIsPlain(text: string)
    ensures PlainMap(Parsed(text))
  {
    LinesAreSingle(text);
    FeedAllKeepsPlain(Lines(text));
  }

  /** Exactly these maps are the contents of some catalogue. */
  lemma ParsableIff(m: map<string, string>)
    ensures (exists text :: Parsed(text) == m) <==> PlainMap(m)
  {
    if text :| Parsed(text) == m {
      ParsedIsPlain(text);
    }
    if PlainMap(m) {
      ParsePrintedMap(m);
    }
  }
}
