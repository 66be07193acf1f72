/** Quoted strings of message catalogues (scripts/compile_messages.py, `_unquote`). */
module PoStrings {
  // ---------------------------------------------------------------- white space

  /** Where `str.splitlines` breaks. */
  predicate LineBreak(c: char) {
    var n := c as int;
    0x0A <= n <= 0x0D || 0x1C <= n <= 0x1E || n == 0x85 || n == 0x2028 || n == 0x2029
  }

  /** What `str.strip` removes. */
  predicate Blank(c: char) {
    var n := c as int;
    0x09 <= n <= 0x0D || 0x1C <= n <= 0x20 || n in {0x85, 0xA0, 0x1680, 0x202F, 0x205F, 0x3000}
    || 0x2000 <= n <= 0x200A || n == 0x2028 || n == 0x2029
  }

  function StripLeft(s: string): string {
    if s != "" && Blank(s[0]) then StripLeft(s[1..]) else s
  }

  function StripRight(s: string): string {
    if s != "" && Blank(s[|s| - 1]) then StripRight(s[..|s| - 1]) else s
  }

  function Strip(s: string): string {
    StripRight(StripLeft(s))
  }

  // ---------------------------------------------------------------- escapes

  /** `str.replace` of the two characters `a`, `b` by `r`: from the left, without overlaps. */
  function Replace(s: string, a: char, b: char, r: char): string {
    if |s| < 2 then s
    else if s[0] == a && s[1] == b then [r] + Replace(s[2..], a, b, r)
    else [s[0]] + Replace(s[1..], a, b, r)
  }

  function Unescape(s: string): string {
    var quotes := Replace(s, '\\', '"', '"');
    var newlines := Replace(quotes, '\\', 'n', '\n');
    var tabs := Replace(newlines, '\\', 't', '\t');
    Replace(tabs, '\\', '\\', '\\')
  }

  /** `text[1:-1]` */
  function Inside(s: string): string {
    if |s| < 2 then "" else s[1..|s| - 1]
  }

  /** `_unquote` */
  function Unquote(text: string): string {
    var t := Strip(text);
    Unescape(if t != "" && t[0] == '"' && t[|t| - 1] == '"' then Inside(t) else t)
  }

  function EscapeChar(c: char): string {
    match c
    case '\\' => "\\\\"
    case '"' => "\\\""
    case '\n' => "\\n"
    case '\t' => "\\t"
    case _ => [c]
  }

  /** The usual escapes, one character at a time. */
  function Escape(s: string): string {
    if s == "" then "" else EscapeChar(s[0]) + Escape(s[1..])
  }

  function Quoted(s: string): string {
    "\"" + Escape(s) + "\""
  }

  // ---------------------------------------------------------------- what unescaping gives back

  predicate Mistaken(c: char) {
    c == 'n' || c == 't'
  }

  /** `s` starts with a backslash that is read together with the letter after it. */
  predicate Misread(s: string) {
    |s| > 1 && s[0] == '\\' && Mistaken(s[1])
  }

  /** Because the replacements run one after the other, a backslash directly before `n` or `t` makes
      a line feed or a tab of that letter. */
  function Mangled(s: string): string {
    if s == "" then ""
    else if Misread(s) then
      ['\\', if s[1] == 'n' then '\n' else '\t'] + Mangled(s[2..])
    else [s[0]] + Mangled(s[1..])
  }

  /** No backslash stands directly before `n` or `t`. */
  predicate Safe(s: string) {
    forall i | 0 <= i < |s| - 1 :: !(s[i] == '\\' && Mistaken(s[i + 1]))
  }

  /** Exactly the safe strings are left as they are. */
  lemma {:induction false} MangledIffUnsafe(s: string)
    ensures |Mangled(s)| == |s|
    ensures Mangled(s) == s <==> Safe(s)
  {
    if s != "" {
      if Misread(s) {
        MangledIffUnsafe(s[2..]);
        assert Mangled(s)[1] != s[1];
      } else {
        MangledIffUnsafe(s[1..]);
        assert s == [s[0]] + s[1..];
        assert Safe(s) <==> Safe(s[1..]) by {
          if Safe(s[1..]) {
            forall i | 0 <= i < |s| - 1 ensures !(s[i] == '\\' && Mistaken(s[i + 1])) {
              assert i > 0 ==> s[1..][i - 1] == s[i] && s[1..][i] == s[i + 1];
            }
          }
          if Safe(s) {
            forall i | 0 <= i < |s[1..]| - 1 ensures !(s[1..][i] == '\\' && Mistaken(s[1..][i + 1])) {
              assert s[1..][i] == s[i + 1] && s[1..][i + 1] == s[i + 2];
            }
          }
        }
        assert Mangled(s)[1..] == Mangled(s[1..]);
      }
    }
  }

  lemma {:induction false} MangledIsSafe(s: string)
    ensures Safe(Mangled(s))
    ensures s != "" ==> Mangled(s)[..1] == s[..1]
  {
    if s != "" {
      var long := Misread(s);
      var rest := if long then s[2..] else s[1..];
      MangledIsSafe(rest);
      var m, t := Mangled(s), Mangled(rest);
      forall i | 0 <= i < |m| - 1 ensures !(m[i] == '\\' && Mistaken(m[i + 1])) {
        if i >= |m| - |t| {
          assert m[i] == t[i - (|m| - |t|)] && m[i + 1] == t[i + 1 - (|m| - |t|)];
        } else if i == |m| - |t| - 1 {
          assert m[i + 1] == t[0] == t[..1][0] == rest[..1][0];
        }
      }
    }
  }

  lemma ReplacePasses(c: char, rest: string, a: char, b: char, r: char)
    requires c != a || rest == "" || rest[0] != b
    ensures Replace([c] + rest, a, b, r) == [c] + Replace(rest, a, b, r)
  {
    assert ([c] + rest)[1..] == rest;
  }

  lemma ReplaceHits(rest: string, a: char, b: char, r: char)
    ensures Replace([a, b] + rest, a, b, r) == [r] + Replace(rest, a, b, r)
  {
    assert ([a, b] + rest)[2..] == rest;
  }

  lemma ReplacePassesTwo(c: char, d: char, rest: string, a: char, b: char, r: char)
    requires c != a || d != b
    requires d != a || rest == "" || rest[0] != b
    ensures Replace([c, d] + rest, a, b, r) == [c, d] + Replace(rest, a, b, r)
  {
    assert [c, d] + rest == [c] + ([d] + rest);
    ReplacePasses(c, [d] + rest, a, b, r);
    ReplacePasses(d, rest, a, b, r);
    assert [c] + ([d] + Replace(rest, a, b, r)) == [c, d] + Replace(rest, a, b, r);
  }

  /** The escaped text after the first, second and third replacement. */
  function AfterQuotes(s: string): string {
    if s == "" then ""
    else (if s[0] == '"' then "\"" else EscapeChar(s[0])) + AfterQuotes(s[1..])
  }

  function AfterNewlines(s: string): string {
    if s == "" then ""
    else if Misread(s) && s[1] == 'n' then ['\\', '\n'] + AfterNewlines(s[2..])
    else (if s[0] == '"' || s[0] == '\n' then [s[0]] else EscapeChar(s[0])) + AfterNewlines(s[1..])
  }

  function AfterTabs(s: string): string {
    if s == "" then ""
    else if Misread(s) then
      ['\\', if s[1] == 'n' then '\n' else '\t'] + AfterTabs(s[2..])
    else (if s[0] == '\\' then "\\\\" else [s[0]]) + AfterTabs(s[1..])
  }

  lemma {:induction false} FirstReplacement(s: string)
    ensures Replace(Escape(s), '\\', '"', '"') == AfterQuotes(s)
  {
    if s != "" {
      hide Replace;
      var rest := Escape(s[1..]);
      FirstReplacement(s[1..]);
      assert rest != "" ==> rest[0] != '"';
      var e := EscapeChar(s[0]);
      if s[0] == '"' {
        ReplaceHits(rest, '\\', '"', '"');
      } else if |e| == 1 {
        ReplacePasses(s[0], rest, '\\', '"', '"');
      } else {
        ReplacePassesTwo(e[0], e[1], rest, '\\', '"', '"');
      }
    }
  }

  /** Of an escaped backslash before a letter, the second half is taken together with the letter. */
  lemma EscapedBackslashBefore(b: char, r: char, later: string)
    requires b != '\\'
    ensures Replace(['\\', '\\', b] + later, '\\', b, r) == ['\\', r] + Replace(later, '\\', b, r)
  {
    hide Replace;
    assert ['\\', '\\', b] + later == ['\\'] + (['\\', b] + later);
    ReplacePasses('\\', ['\\', b] + later, '\\', b, r);
    ReplaceHits(later, '\\', b, r);
    assert ['\\'] + ([r] + Replace(later, '\\', b, r)) == ['\\', r] + Replace(later, '\\', b, r);
  }

  lemma PairUnfolds(s: string)
    requires Misread(s) && s[1] == 'n'
    ensures AfterQuotes(s) == ['\\', '\\', 'n'] + AfterQuotes(s[2..])
    ensures AfterNewlines(s) == ['\\', '\n'] + AfterNewlines(s[2..])
  {
    assert s[1..][1..] == s[2..] && AfterQuotes(s[1..]) == "n" + AfterQuotes(s[2..]);
  }

  lemma SecondOfPair(s: string)
    requires Misread(s) && s[1] == 'n' && Replace(AfterQuotes(s[2..]), '\\', 'n', '\n') == AfterNewlines(s[2..])
    ensures Replace(AfterQuotes(s), '\\', 'n', '\n') == AfterNewlines(s)
  {
    hide Replace, AfterQuotes, AfterNewlines;
    PairUnfolds(s);
    EscapedBackslashBefore('n', '\n', AfterQuotes(s[2..]));
  }

  lemma SecondOfOne(s: string)
    requires s != "" && !(Misread(s) && s[1] == 'n')
    requires Replace(AfterQuotes(s[1..]), '\\', 'n', '\n') == AfterNewlines(s[1..])
    ensures Replace(AfterQuotes(s), '\\', 'n', '\n') == AfterNewlines(s)
  {
    hide Replace;
    var rest := AfterQuotes(s[1..]);
    if s[0] == '\n' {
      ReplaceHits(rest, '\\', 'n', '\n');
    } else if s[0] == '\\' || s[0] == '\t' {
      assert s[0] == '\\' && rest != "" ==> rest[0] != 'n';
      ReplacePassesTwo('\\', EscapeChar(s[0])[1], rest, '\\', 'n', '\n');
    } else {
      ReplacePasses(s[0], rest, '\\', 'n', '\n');
    }
  }

  lemma {:induction false} SecondReplacement(s: string)
    ensures Replace(AfterQuotes(s), '\\', 'n', '\n') == AfterNewlines(s)
  {
    if Misread(s) && s[1] == 'n' {
      SecondReplacement(s[2..]);
      SecondOfPair(s);
    } else if s != "" {
      SecondReplacement(s[1..]);
      SecondOfOne(s);
    }
  }

  lemma ThirdOfPair(s: string)
    requires Misread(s) && Replace(AfterNewlines(s[2..]), '\\', 't', '\t') == AfterTabs(s[2..])
    ensures Replace(AfterNewlines(s), '\\', 't', '\t') == AfterTabs(s)
  {
    hide Replace;
    var later := AfterNewlines(s[2..]);
    if s[1] == 'n' {
      ReplacePassesTwo('\\', '\n', later, '\\', 't', '\t');
    } else {
      assert s[1..][1..] == s[2..] && AfterNewlines(s[1..]) == "t" + later;
      assert AfterNewlines(s) == ['\\', '\\', 't'] + later;
      EscapedBackslashBefore('t', '\t', later);
    }
  }

  lemma ThirdOfOne(s: string)
    requires s != "" && !Misread(s) && Replace(AfterNewlines(s[1..]), '\\', 't', '\t') == AfterTabs(s[1..])
    ensures Replace(AfterNewlines(s), '\\', 't', '\t') == AfterTabs(s)
  {
    hide Replace;
    var rest := AfterNewlines(s[1..]);
    if s[0] == '\t' {
      ReplaceHits(rest, '\\', 't', '\t');
    } else if s[0] == '\\' {
      assert rest != "" ==> rest[0] != 't';
      ReplacePassesTwo('\\', '\\', rest, '\\', 't', '\t');
    } else {
      ReplacePasses(s[0], rest, '\\', 't', '\t');
    }
  }

  lemma {:induction false} ThirdReplacement(s: string)
    ensures Replace(AfterNewlines(s), '\\', 't', '\t') == AfterTabs(s)
  {
    if Misread(s) {
      ThirdReplacement(s[2..]);
      ThirdOfPair(s);
    } else if s != "" {
      ThirdReplacement(s[1..]);
      ThirdOfOne(s);
    }
  }

  lemma {:induction false} LastReplacement(s: string)
    ensures Replace(AfterTabs(s), '\\', '\\', '\\') == Mangled(s)
  {
    if s != "" {
      hide Replace;
      if Misread(s) {
        LastReplacement(s[2..]);
        ReplacePassesTwo('\\', if s[1] == 'n' then '\n' else '\t', AfterTabs(s[2..]), '\\', '\\', '\\');
      } else {
        LastReplacement(s[1..]);
        if s[0] == '\\' {
          ReplaceHits(AfterTabs(s[1..]), '\\', '\\', '\\');
        } else {
          ReplacePasses(s[0], AfterTabs(s[1..]), '\\', '\\', '\\');
        }
      }
    }
  }

  /** What an escaped string is read back as, for every string. */
  lemma UnescapeEscape(s: string)
    ensures Unescape(Escape(s)) == Mangled(s)
  {
    FirstReplacement(s);
    SecondReplacement(s);
    ThirdReplacement(s);
    LastReplacement(s);
  }

  /** Stripping takes blanks from both ends, all of them and nothing else. */
  lemma StripIs(s: string) returns (i: nat, j: nat)
    ensures i <= j <= |s| && Strip(s) == s[i..j]
    ensures (forall k | 0 <= k < i :: Blank(s[k])) && (forall k | j <= k < |s| :: Blank(s[k]))
    ensures i < j ==> !Blank(s[i]) && !Blank(s[j - 1])
  {
    i := LeftIs(s);
    var t := StripLeft(s);
    var n := RightIs(t);
    j := i + n;
    assert t[..n] == s[i..j];
    forall k | j <= k < |s| ensures Blank(s[k]) {
      assert s[k] == t[k - i];
    }
    assert n > 0 ==> t[n - 1] == s[j - 1] && t[0] == s[i];
  }

  lemma {:induction false} LeftIs(s: string) returns (i: nat)
    ensures i <= |s| && StripLeft(s) == s[i..] && forall k | 0 <= k < i :: Blank(s[k])
    ensures i < |s| ==> !Blank(s[i])
  {
    if s != "" && Blank(s[0]) {
      var n := LeftIs(s[1..]);
      i := n + 1;
      assert s[1..][n..] == s[i..];
      forall k | 0 <= k < i ensures Blank(s[k]) {
        assert k > 0 ==> s[k] == s[1..][k - 1];
      }
    } else {
      i := 0;
    }
  }

  lemma {:induction false} RightIs(s: string) returns (n: nat)
    ensures n <= |s| && StripRight(s) == s[..n] && forall k | n <= k < |s| :: Blank(s[k])
    ensures n > 0 ==> !Blank(s[n - 1])
  {
    if s != "" && Blank(s[|s| - 1]) {
      n := RightIs(s[..|s| - 1]);
      assert s[..|s| - 1][..n] == s[..n];
    } else {
      n := |s|;
    }
  }

  /** Only a text with a quotation mark at both ends loses them, and one mark alone leaves nothing. */
  lemma UnquoteIs(text: string)
    ensures Strip(text) == "\"" ==> Unquote(text) == ""
    ensures forall s | Strip(text) == "\"" + s + "\"" :: Unquote(text) == Unescape(s)
    ensures var t := Strip(text); t == "" || t[0] != '"' || t[|t| - 1] != '"' ==> Unquote(text) == Unescape(t)
  {
    forall s | Strip(text) == "\"" + s + "\"" ensures Unquote(text) == Unescape(s) {
      assert Inside("\"" + s + "\"") == s;
    }
  }

  lemma StripKeeps(s: string)
    requires s != "" && !Blank(s[0]) && !Blank(s[|s| - 1])
    ensures Strip(s) == s
  {
  }

  lemma UnquoteQuoted(s: string)
    ensures Unquote(Quoted(s)) == Mangled(s)
  {
    var q := Quoted(s);
    StripKeeps(q);
    assert Inside(q) == Escape(s);
    UnescapeEscape(s);
  }

  /** A quoted string is read back as it was exactly when it has no backslash before `n` or `t`. */
  lemma QuotedRoundTripIff(s: string)
    ensures Unquote(Quoted(s)) == s <==> Safe(s)
  {
    UnquoteQuoted(s);
    MangledIffUnsafe(s);
  }

  // ---------------------------------------------------------------- characters that cannot be written

  /** A line break for which there is no escape. */
  predicate Alien(c: char) {
    LineBreak(c) && c != '\n'
  }

  predicate Plain(s: string) {
    forall i | 0 <= i < |s| :: !Alien(s[i])
  }

  predicate OneLine(s: string) {
    forall i | 0 <= i < |s| :: !LineBreak(s[i])
  }

  lemma {:induction false} EscapeIsOneLine(s: string)
    requires Plain(s)
    ensures OneLine(Escape(s))
  {
    if s != "" {
      EscapeIsOneLine(s[1..]);
      assert Plain(s[1..]);
    }
  }

  lemma {:induction false} ReplaceKeepsPlain(s: string, a: char, b: char, r: char)
    requires Plain(s) && !Alien(r)
    ensures Plain(Replace(s, a, b, r))
  {
    if |s| >= 2 {
      if s[0] == a && s[1] == b {
        ReplaceKeepsPlain(s[2..], a, b, r);
      } else {
        ReplaceKeepsPlain(s[1..], a, b, r);
      }
    }
  }

  lemma {:induction false} StripLeftKeepsPlain(s: string)
    requires Plain(s)
    ensures Plain(StripLeft(s))
  {
    if s != "" && Blank(s[0]) {
      StripLeftKeepsPlain(s[1..]);
    }
  }

  lemma {:induction false} StripRightKeepsPlain(s: string)
    requires Plain(s)
    ensures Plain(StripRight(s))
  {
    if s != "" && Blank(s[|s| - 1]) {
      StripRightKeepsPlain(s[..|s| - 1]);
    }
  }

  lemma UnquoteIsPlain(s: string)
    requires Plain(s)
    ensures Plain(Unquote(s))
  {
    StripLeftKeepsPlain(s);
    StripRightKeepsPlain(StripLeft(s));
    var t := Strip(s);
    var u := if t != "" && t[0] == '"' && t[|t| - 1] == '"' then Inside(t) else t;
    assert Plain(u);
    ReplaceKeepsPlain(u, '\\', '"', '"');
    var quotes := Replace(u, '\\', '"', '"');
    ReplaceKeepsPlain(quotes, '\\', 'n', '\n');
    var newlines := Replace(quotes, '\\', 'n', '\n');
    ReplaceKeepsPlain(newlines, '\\', 't', '\t');
    ReplaceKeepsPlain(Replace(newlines, '\\', 't', '\t'), '\\', '\\', '\\');
  }
}
