/** What the text of a message catalogue means, line by line (scripts/compile_messages.py, `parse_po`):
    for every text, not only for printed ones. */
module PoMeaning {
  import opened Outcomes
  import opened PoStrings
  import opened PoFile

  predicate IdLine(raw: string) {
    |Strip(raw)| >= 6 && Strip(raw)[..6] == "msgid "
  }

  predicate StrLine(raw: string) {
    |Strip(raw)| >= 7 && Strip(raw)[..7] == "msgstr "
  }

  predicate ContinuationLine(raw: string) {
    Strip(raw) != "" && Strip(raw)[0] == '"'
  }

  /** The continuation lines of a stretch, one after the other; all other lines in it are skipped. */
  function Continued(lines: seq<string>, from: nat, to: nat): string
    requires to <= |lines|
  {
    if from >= to then ""
    else Continued(lines, from, to - 1)
         + (if ContinuationLine(lines[to - 1]) then Unquote(Strip(lines[to - 1])) else "")
  }

  /** The first and the last line of a stretch that starts a translation; `to` and -1 if there is none. */
  function FirstStr(lines: seq<string>, from: nat, to: nat): (f: nat)
    requires from <= to <= |lines|
    ensures from <= f <= to && (f < to ==> StrLine(lines[f]))
    ensures (forall j | from <= j < f :: !StrLine(lines[j]))
    decreases |lines| - from + to
  {
    if from == to || StrLine(lines[from]) then from else FirstStr(lines, from + 1, to)
  }

  function LastStr(lines: seq<string>, from: nat, to: nat): (l: int)
    requires from <= to <= |lines|
    ensures l == -1 || (from <= l < to && StrLine(lines[l]))
    ensures (forall j | from <= j < to && l < j :: !StrLine(lines[j]))
    decreases |lines| - from + to
  {
    if from == to then -1 else if StrLine(lines[to - 1]) then to - 1 else LastStr(lines, from, to - 1)
  }

  /** The line of the next message, or the end. */
  function NextId(lines: seq<string>, from: nat): (n: nat)
    requires from <= |lines|
    ensures from <= n <= |lines| && (n < |lines| ==> IdLine(lines[n]))
    ensures (forall j | from <= j < n :: !IdLine(lines[j]))
    decreases |lines| - from
  {
    if from == |lines| || IdLine(lines[from]) then from else NextId(lines, from + 1)
  }

  /** The message that starts at line `i`, as far as line `n`: its text and the lines that continue it
      before a translation starts. */
  function KeyOf(lines: seq<string>, i: nat, n: nat): string
    requires i < n <= |lines| && IdLine(lines[i])
  {
    Unquote(Strip(lines[i])[6..]) + Continued(lines, i + 1, FirstStr(lines, i + 1, n))
  }

  /** Its translation: the last one that starts, with the lines that continue it. */
  function TranslationOf(lines: seq<string>, i: nat, n: nat): string
    requires i < n <= |lines|
  {
    var l := LastStr(lines, i + 1, n);
    if l < 0 then "" else Unquote(Strip(lines[l])[7..]) + Continued(lines, l + 1, n)
  }

  /** The messages that start before line `m`; a later one replaces an equal earlier one. */
  function Meaning(lines: seq<string>, m: nat): map<string, string>
    requires m <= |lines|
    decreases m
  {
    if m == 0 then map[]
    else if IdLine(lines[m - 1]) then
      var n := NextId(lines, m);
      Meaning(lines, m - 1)[KeyOf(lines, m - 1, n) := TranslationOf(lines, m - 1, n)]
    else Meaning(lines, m - 1)
  }

  // ---------------------------------------------------------------- the parser follows the meaning

  /** What the parser's variables hold before line `n`, where the last message started at line `i`. */
  ghost predicate Follows(lines: seq<string>, i: nat, n: nat, s: Scan) {
    && i < n <= |lines| && IdLine(lines[i]) && (forall j | i < j < n :: !IdLine(lines[j]))
    && s == Scan(Meaning(lines, i), Some(KeyOf(lines, i, n)), TranslationOf(lines, i, n),
                 if LastStr(lines, i + 1, n) < 0 then InId else InStr)
  }

  /** Before the first message nothing is recorded. */
  predicate NothingYet(lines: seq<string>, n: nat, s: Scan) {
    && n <= |lines| && (forall j | 0 <= j < n :: !IdLine(lines[j]))
    && s.entries == map[] && s.msgid.None? && s.mode != InId
  }

  lemma LineKinds(raw: string)
    ensures var line := Strip(raw);
            && (StartsWith(line, MSGID) <==> IdLine(raw)) && (StartsWith(line, MSGSTR) <==> StrLine(raw))
            && (IdLine(raw) ==> |line| >= |MSGID| == 6 && !StrLine(raw) && !ContinuationLine(raw) && line[0] != '#')
            && (StrLine(raw) ==> |line| >= |MSGSTR| == 7 && !ContinuationLine(raw) && line[0] != '#')
            && (ContinuationLine(raw) ==> line != "" && line[0] != '#')
  {
    var line := Strip(raw);
    assert IdLine(raw) ==> line[..6][3] == 'i' && line[..6][0] == 'm';
    assert StrLine(raw) ==> line[..7][3] == 's' && line[..7][0] == 'm';
    assert StrLine(raw) && |line| >= 6 ==> line[..6][3] == line[..7][3];
  }

  /** What one line does, by its kind. */
  lemma FeedByKind(s: Scan, raw: string)
    ensures Feed(s, raw) ==
            if IdLine(raw) then Scan(Flush(s), Some(Unquote(Strip(raw)[6..])), "", InId)
            else if StrLine(raw) then s.(msgstr := Unquote(Strip(raw)[7..]), mode := InStr)
            else if !ContinuationLine(raw) then s
            else
              match s.mode
              case NoMode => s
              case InId => s.(msgid := Some((if s.msgid.Some? then s.msgid.value else "") + Unquote(Strip(raw))))
              case InStr => s.(msgstr := s.msgstr + Unquote(Strip(raw)))
  {
    hide IdLine, StrLine, Unquote, StartsWith, Strip;
    LineKinds(raw);
  }

  lemma FirstStrNext(lines: seq<string>, from: nat, n: nat)
    requires from <= n < |lines|
    ensures var f := FirstStr(lines, from, n);
            FirstStr(lines, from, n + 1) == if f < n || StrLine(lines[n]) then f else n + 1
  {
    var f, g := FirstStr(lines, from, n), FirstStr(lines, from, n + 1);
  }

  lemma {:induction false} StrExists(lines: seq<string>, from: nat, n: nat)
    requires from <= n <= |lines|
    ensures FirstStr(lines, from, n) < n <==> LastStr(lines, from, n) >= 0
  {
  }

  lemma NextMessage(lines: seq<string>, i: nat, n: nat)
    requires i < n <= |lines| && (forall j | i < j < n :: !IdLine(lines[j])) && (n < |lines| ==> IdLine(lines[n]))
    ensures NextId(lines, i + 1) == n
  {
    var m := NextId(lines, i + 1);
  }

  lemma {:induction false} SameMeaning(lines: seq<string>, i: nat, n: nat)
    requires i < n <= |lines| && forall j | i < j < n :: !IdLine(lines[j])
    ensures Meaning(lines, n) == Meaning(lines, i + 1)
  {
    if n > i + 1 {
      SameMeaning(lines, i, n - 1);
    }
  }

  lemma {:induction false} NoMeaning(lines: seq<string>, n: nat)
    requires n <= |lines| && forall j | 0 <= j < n :: !IdLine(lines[j])
    ensures Meaning(lines, n) == map[]
  {
    if n > 0 {
      NoMeaning(lines, n - 1);
    }
  }

  /** At the next message, or at the end, the parser records exactly the message that it was in. */
  lemma FlushFollows(lines: seq<string>, i: nat, n: nat, s: Scan)
    requires Follows(lines, i, n, s) && (n < |lines| ==> IdLine(lines[n]))
    ensures Flush(s) == Meaning(lines, n)
  {
    hide KeyOf, TranslationOf;
    NextMessage(lines, i, n);
    SameMeaning(lines, i, n);
  }

  lemma MessageStarts(lines: seq<string>, n: nat)
    requires n < |lines| && IdLine(lines[n])
    ensures KeyOf(lines, n, n + 1) == Unquote(Strip(lines[n])[6..]) && TranslationOf(lines, n, n + 1) == ""
    ensures LastStr(lines, n + 1, n + 1) < 0
  {
    hide Unquote, Strip;
    assert Unquote(Strip(lines[n])[6..]) + "" == Unquote(Strip(lines[n])[6..]);
  }

  lemma NewMessageFollows(lines: seq<string>, n: nat, s: Scan)
    requires n < |lines| && IdLine(lines[n]) && Flush(s) == Meaning(lines, n)
    ensures Follows(lines, n, n + 1, Feed(s, lines[n]))
  {
    hide Unquote, Feed, Meaning, KeyOf, TranslationOf, IdLine;
    FeedByKind(s, lines[n]);
    MessageStarts(lines, n);
  }

  /** How one more line changes the message and its translation. */
  lemma StrStarts(lines: seq<string>, i: nat, n: nat)
    requires i < n < |lines| && IdLine(lines[i]) && StrLine(lines[n])
    ensures KeyOf(lines, i, n + 1) == KeyOf(lines, i, n) && LastStr(lines, i + 1, n + 1) == n
    ensures TranslationOf(lines, i, n + 1) == Unquote(Strip(lines[n])[7..])
  {
    hide Unquote, Strip;
    FirstStrNext(lines, i + 1, n);
    assert Unquote(Strip(lines[n])[7..]) + "" == Unquote(Strip(lines[n])[7..]);
  }

  /** What a line adds that starts neither a message nor a translation. */
  function Added(raw: string): string {
    if ContinuationLine(raw) then Unquote(Strip(raw)) else ""
  }

  lemma IdContinues(lines: seq<string>, i: nat, n: nat)
    requires i < n < |lines| && IdLine(lines[i]) && !StrLine(lines[n]) && LastStr(lines, i + 1, n) < 0
    ensures LastStr(lines, i + 1, n + 1) < 0
    ensures KeyOf(lines, i, n + 1) == KeyOf(lines, i, n) + Added(lines[n])
    ensures TranslationOf(lines, i, n + 1) == TranslationOf(lines, i, n)
  {
    hide Unquote, Strip, ContinuationLine;
    FirstStrNext(lines, i + 1, n);
    StrExists(lines, i + 1, n);
    var head, more := Unquote(Strip(lines[i])[6..]), Continued(lines, i + 1, n);
    assert head + (more + Added(lines[n])) == head + more + Added(lines[n]);
  }

  lemma KeyStays(lines: seq<string>, i: nat, n: nat)
    requires i < n < |lines| && IdLine(lines[i]) && LastStr(lines, i + 1, n) >= 0
    ensures KeyOf(lines, i, n + 1) == KeyOf(lines, i, n)
  {
    hide Unquote, Strip, StrLine, ContinuationLine, LastStr;
    FirstStrNext(lines, i + 1, n);
    StrExists(lines, i + 1, n);
  }

  lemma StrContinues(lines: seq<string>, i: nat, n: nat)
    requires i < n < |lines| && IdLine(lines[i]) && !StrLine(lines[n]) && LastStr(lines, i + 1, n) >= 0
    ensures LastStr(lines, i + 1, n + 1) == LastStr(lines, i + 1, n)
    ensures KeyOf(lines, i, n + 1) == KeyOf(lines, i, n)
    ensures TranslationOf(lines, i, n + 1) == TranslationOf(lines, i, n) + Added(lines[n])
  {
    hide Unquote, Strip, ContinuationLine, IdLine, KeyOf, FirstStr;
    KeyStays(lines, i, n);
    var l := LastStr(lines, i + 1, n);
    var head, more := Unquote(Strip(lines[l])[7..]), Continued(lines, l + 1, n);
    assert head + (more + Added(lines[n])) == head + more + Added(lines[n]);
  }

  lemma LineFollows(lines: seq<string>, i: nat, n: nat, s: Scan)
    requires Follows(lines, i, n, s) && n < |lines| && !IdLine(lines[n])
    ensures Follows(lines, i, n + 1, Feed(s, lines[n]))
  {
    hide Unquote, Strip, Feed, IdLine, StrLine, ContinuationLine, Meaning, KeyOf, TranslationOf, LastStr;
    FeedByKind(s, lines[n]);
    if StrLine(lines[n]) {
      StrStarts(lines, i, n);
    } else if LastStr(lines, i + 1, n) < 0 {
      IdContinues(lines, i, n);
      assert KeyOf(lines, i, n) + "" == KeyOf(lines, i, n);
    } else {
      StrContinues(lines, i, n);
      assert TranslationOf(lines, i, n) + "" == TranslationOf(lines, i, n);
    }
  }

  lemma FirstMessageFollows(lines: seq<string>, n: nat, s: Scan)
    requires NothingYet(lines, n, s) && n < |lines| && IdLine(lines[n])
    ensures Follows(lines, n, n + 1, Feed(s, lines[n]))
  {
    hide Feed, IdLine, Meaning, Follows;
    NoMeaning(lines, n);
    NewMessageFollows(lines, n, s);
  }

  lemma StillNothing(lines: seq<string>, n: nat, s: Scan)
    requires NothingYet(lines, n, s) && n < |lines| && !IdLine(lines[n])
    ensures NothingYet(lines, n + 1, Feed(s, lines[n]))
  {
    hide Feed, IdLine, StrLine, ContinuationLine, Unquote, Strip;
    FeedByKind(s, lines[n]);
  }

  lemma NextFollows(lines: seq<string>, i: nat, n: nat, s: Scan)
    requires Follows(lines, i, n, s) && n < |lines| && IdLine(lines[n])
    ensures Follows(lines, n, n + 1, Feed(s, lines[n]))
  {
    hide Feed, IdLine, Meaning, Follows, Flush;
    FlushFollows(lines, i, n, s);
    NewMessageFollows(lines, n, s);
  }

  lemma FeedAllNext(lines: seq<string>, n: nat)
    requires n < |lines|
    ensures FeedAll(BEGIN, lines[..n + 1]) == Feed(FeedAll(BEGIN, lines[..n]), lines[n])
  {
    hide Feed;
    assert lines[..n + 1][..n] == lines[..n];
  }

  lemma {:induction false} ParserFollows(lines: seq<string>, n: nat) returns (i: int)
    requires n <= |lines|
    ensures if i < 0 then NothingYet(lines, n, FeedAll(BEGIN, lines[..n]))
            else Follows(lines, i, n, FeedAll(BEGIN, lines[..n]))
  {
    if n == 0 {
      i := -1;
    } else {
      hide Feed, FeedAll, IdLine, Follows, NothingYet;
      i := ParserFollows(lines, n - 1);
      FeedAllNext(lines, n - 1);
      var s := FeedAll(BEGIN, lines[..n - 1]);
      if IdLine(lines[n - 1]) {
        if i < 0 {
          FirstMessageFollows(lines, n - 1, s);
        } else {
          NextFollows(lines, i, n - 1, s);
        }
        i := n - 1;
      } else if i < 0 {
        StillNothing(lines, n - 1, s);
      } else {
        LineFollows(lines, i, n - 1, s);
      }
    }
  }

  /** Every text is parsed to what it means: each message with its continuation lines, up to the next
      one, and its last translation; lines of other kinds, and any before the first message, do not
      matter. */
  lemma ParsedIsMeaning(text: string)
    ensures Parsed(text) == Meaning(Lines(text), |Lines(text)|)
  {
    hide Feed, IdLine, Meaning;
    var lines := Lines(text);
    var i := ParserFollows(lines, |lines|);
    assert lines[..|lines|] == lines;
    if i < 0 {
      NoMeaning(lines, |lines|);
    } else {
      FlushFollows(lines, i, |lines|, FeedAll(BEGIN, lines));
    }
  }
}
