/** A reader of compiled catalogues, written from section 10.3 of the GNU gettext manual alone, and
    what it finds in the files that the compiler writes. */
module MoReader {
  import opened Outcomes
  import opened Utf8
  import opened MoFile

  // ---------------------------------------------------------------- the reader

  /** The string of a descriptor at `at`: a length, an offset, and a NUL after the string. */
  function StringAt(b: seq<byte>, at: nat): Option<seq<byte>> {
    if at + 8 > |b| then None
    else
      var length, offset := WordAt(b, at), WordAt(b, at + 4);
      if offset + length < |b| && b[offset + length] == 0 then Some(b[offset..offset + length]) else None
  }

  /** The pairs of the first `n` descriptors of the original and the translation table. */
  function Pairs(b: seq<byte>, originals: nat, translations: nat, n: nat): Option<map<string, string>> {
    if n == 0 then Some(map[])
    else
      var before := Pairs(b, originals, translations, n - 1);
      var key, value := StringAt(b, originals + 8 * (n - 1)), StringAt(b, translations + 8 * (n - 1));
      if before.None? || key.None? || value.None? then None
      else
        var k, v := Decode(key.value), Decode(value.value);
        if k.None? || v.None? then None else Some(before.value[k.value := v.value])
  }

  /** The magic number and a major revision that is known. */
  predicate GoodHeader(b: seq<byte>) {
    |b| >= 28 && WordAt(b, 0) == 0x950412DE && WordAt(b, 4) / 65536 <= 1
  }

  function Read(b: seq<byte>): Option<map<string, string>> {
    if !GoodHeader(b) then None
    else Pairs(b, WordAt(b, 12), WordAt(b, 16), WordAt(b, 8))
  }

  /** Binary search for a key among the descriptors from `low` to `high`. */
  function Search(b: seq<byte>, originals: nat, key: seq<byte>, low: nat, high: nat): Option<nat>
    decreases high - low
  {
    if low >= high then None
    else
      var middle := (low + high) / 2;
      var found := StringAt(b, originals + 8 * middle);
      if found.None? then None
      else if found.value == key then Some(middle)
      else if BytesBefore(found.value, key) then Search(b, originals, key, middle + 1, high)
      else Search(b, originals, key, low, middle)
  }

  /** Looking one message up, without reading the others. */
  function Lookup(b: seq<byte>, key: string): Option<string> {
    if !GoodHeader(b) then None
    else
      var i := Search(b, WordAt(b, 12), Encode(key), 0, WordAt(b, 8));
      if i.None? then None
      else
        var value := StringAt(b, WordAt(b, 16) + 8 * i.value);
        if value.None? then None else Decode(value.value)
  }

  // ---------------------------------------------------------------- blocks and tables

  lemma {:induction false} StartsInOrder(ss: seq<seq<byte>>, i: nat, j: nat)
    requires i < j <= |ss|
    ensures Start(ss, i) + |ss[i]| + 1 <= Start(ss, j)
  {
    BlockStep(ss, j - 1);
    if i < j - 1 {
      StartsInOrder(ss, i, j - 1);
    }
  }

  /** A string of a block is found at its start, and a NUL after it. */
  lemma {:induction false} BlockHolds(ss: seq<seq<byte>>, n: nat, i: nat)
    requires i < n <= |ss|
    ensures Start(ss, i) + |ss[i]| < |Block(ss[..n])|
    ensures Block(ss[..n])[Start(ss, i)..Start(ss, i) + |ss[i]|] == ss[i]
    ensures Block(ss[..n])[Start(ss, i) + |ss[i]|] == 0
  {
    BlockStep(ss, n - 1);
    StartsInOrder(ss, i, n);
    if i < n - 1 {
      StartsInOrder(ss, i, n - 1);
      BlockHolds(ss, n - 1, i);
    }
  }

  lemma {:induction false} TableHolds(ss: seq<seq<byte>>, base: nat, n: nat, i: nat)
    requires i < n <= |ss|
    ensures Table(ss[..n], base)[8 * i..8 * i + 4] == Word(|ss[i]|)
    ensures Table(ss[..n], base)[8 * i + 4..8 * i + 8] == Word(base + Start(ss, i))
  {
    var t := Table(ss[..n - 1], base);
    assert ss[..n][..n - 1] == ss[..n - 1];
    assert Table(ss[..n], base) == t + Word(|ss[n - 1]|) + Word(base + Start(ss, n - 1));
    if i < n - 1 {
      TableHolds(ss, base, n - 1, i);
      assert Table(ss[..n], base)[8 * i..8 * i + 4] == t[8 * i..8 * i + 4];
      assert Table(ss[..n], base)[8 * i + 4..8 * i + 8] == t[8 * i + 4..8 * i + 8];
    }
  }

  // ---------------------------------------------------------------- parts of the file

  predicate Part(b: seq<byte>, at: nat, part: seq<byte>) {
    at + |part| <= |b| && b[at..at + |part|] == part
  }

  lemma PartOfPart(b: seq<byte>, at: nat, part: seq<byte>, i: nat, inner: seq<byte>)
    requires Part(b, at, part) && Part(part, i, inner)
    ensures Part(b, at + i, inner)
  {
    forall k | 0 <= k < |inner| ensures b[at + i + k] == inner[k] {
      assert b[at + i + k] == b[at..at + |part|][i + k] && part[i..i + |inner|][k] == part[i + k];
    }
  }

  /** Where the four parts after the header lie. */
  lemma LayoutParts(ids: seq<seq<byte>>, strs: seq<seq<byte>>)
    requires |ids| == |strs|
    ensures var b, n, base := Layout(ids, strs), |ids|, KeyBase(|ids|);
            && Part(b, 0, Header(n))
            && Part(b, 28, Table(ids, base))
            && Part(b, 28 + 8 * n, Table(strs, base + |Block(ids)|))
            && Part(b, base, Block(ids))
            && Part(b, base + |Block(ids)|, Block(strs))
            && |b| == base + |Block(ids)| + |Block(strs)|
  {
    hide Table, Block, Header, Part;
    var n, base := |ids|, KeyBase(|ids|);
    var h, s, t, x, y := Header(n), Table(ids, base), Table(strs, base + |Block(ids)|), Block(ids), Block(strs);
    Pieces(h, s, t, x, y);
  }

  lemma Pieces(h: seq<byte>, s: seq<byte>, t: seq<byte>, x: seq<byte>, y: seq<byte>)
    ensures var b := h + s + t + x + y;
            && Part(b, 0, h) && Part(b, |h|, s) && Part(b, |h| + |s|, t)
            && Part(b, |h| + |s| + |t|, x) && Part(b, |h| + |s| + |t| + |x|, y)
  {
  }

  lemma WordPart(b: seq<byte>, at: nat, n: nat)
    requires Part(b, at, Word(n)) && n < 0x1_0000_0000
    ensures at + 4 <= |b| && WordAt(b, at) == n
  {
    WordRoundTrip(b, at, n);
  }

  lemma HeaderReads(ids: seq<seq<byte>>, strs: seq<seq<byte>>)
    requires Packable(ids, strs)
    ensures var b := Layout(ids, strs);
            && GoodHeader(b) && WordAt(b, 4) == 0
            && WordAt(b, 8) == |ids| && WordAt(b, 12) == 28 && WordAt(b, 16) == 28 + 8 * |ids|
            && WordAt(b, 20) == 0 && WordAt(b, 24) == 0
  {
    hide Layout, Table, Block, Header, Word, Part, WordAt;
    var b, n := Layout(ids, strs), |ids|;
    LayoutParts(ids, strs);
    HeaderParts(n);
    PartOfPart(b, 0, Header(n), 0, Word(MAGIC));
    PartOfPart(b, 0, Header(n), 4, Word(0));
    PartOfPart(b, 0, Header(n), 8, Word(n));
    PartOfPart(b, 0, Header(n), 12, Word(28));
    PartOfPart(b, 0, Header(n), 16, Word(28 + 8 * n));
    PartOfPart(b, 0, Header(n), 20, Word(0));
    PartOfPart(b, 0, Header(n), 24, Word(0));
    WordPart(b, 0, MAGIC);
    WordPart(b, 4, 0);
    WordPart(b, 8, n);
    WordPart(b, 12, 28);
    WordPart(b, 16, 28 + 8 * n);
    WordPart(b, 20, 0);
    WordPart(b, 24, 0);
  }

  lemma HeaderParts(n: nat)
    ensures var h := Header(n);
            && Part(h, 0, Word(MAGIC)) && Part(h, 4, Word(0)) && Part(h, 8, Word(n))
            && Part(h, 12, Word(28)) && Part(h, 16, Word(28 + 8 * n))
            && Part(h, 20, Word(0)) && Part(h, 24, Word(0))
  {
  }

  /** A table at `at` and the block that it describes at `base` give every string back. */
  lemma StringReads(b: seq<byte>, ss: seq<seq<byte>>, at: nat, base: nat, i: nat)
    requires Part(b, at, Table(ss, base)) && Part(b, base, Block(ss)) && TableFits(ss, base) && i < |ss|
    ensures StringAt(b, at + 8 * i) == Some(ss[i])
  {
    hide Table, Block, Word, WordAt;
    assert ss[..|ss|] == ss;
    var length, start := |ss[i]|, Start(ss, i);
    TableHolds(ss, base, |ss|, i);
    BlockHolds(ss, |ss|, i);
    PartOfPart(b, at, Table(ss, base), 8 * i, Word(length));
    PartOfPart(b, at, Table(ss, base), 8 * i + 4, Word(base + start));
    PartOfPart(b, base, Block(ss), start, ss[i]);
    PartOfPart(b, base, Block(ss), start + length, [0]);
    WordPart(b, at + 8 * i, length);
    WordPart(b, at + 8 * i + 4, base + start);
  }

  lemma LayoutReads(ids: seq<seq<byte>>, strs: seq<seq<byte>>, i: nat)
    requires Packable(ids, strs) && i < |ids|
    ensures var b := Layout(ids, strs);
            StringAt(b, 28 + 8 * i) == Some(ids[i]) && StringAt(b, 28 + 8 * |ids| + 8 * i) == Some(strs[i])
  {
    hide Layout, Table, Block, Part, StringAt;
    var b, base := Layout(ids, strs), KeyBase(|ids|);
    LayoutParts(ids, strs);
    StringReads(b, ids, 28, base, i);
    StringReads(b, strs, 28 + 8 * |ids|, base + |Block(ids)|, i);
  }

  lemma EntryReads(m: map<string, string>, i: nat)
    requires Fits(m) && i < |Sorting(m.Keys)|
    ensures var b, keys := Compiled(m), Sorting(m.Keys);
            && keys[i] in m
            && StringAt(b, 28 + 8 * i) == Some(Encode(keys[i]))
            && StringAt(b, 28 + 8 * |keys| + 8 * i) == Some(Encode(m[keys[i]]))
  {
    hide Layout, Packable, StringAt;
    var keys := Sorting(m.Keys);
    LayoutReads(Ids(keys), Strs(keys, m), i);
    assert keys[i] in keys;
  }

  // ---------------------------------------------------------------- reading everything

  ghost function Restricted(m: map<string, string>, keys: seq<string>): map<string, string> {
    map k | k in m && k in keys :: m[k]
  }

  lemma OneMoreKey(m: map<string, string>, keys: seq<string>, n: nat)
    requires 0 < n <= |keys| && keys[n - 1] in m
    ensures Restricted(m, keys[..n]) == Restricted(m, keys[..n - 1])[keys[n - 1] := m[keys[n - 1]]]
  {
    assert keys[..n] == keys[..n - 1] + [keys[n - 1]];
  }

  lemma {:induction false} PairsRead(m: map<string, string>, n: nat)
    requires Fits(m) && n <= |Sorting(m.Keys)|
    ensures Pairs(Compiled(m), 28, 28 + 8 * |Sorting(m.Keys)|, n) == Some(Restricted(m, Sorting(m.Keys)[..n]))
  {
    hide Compiled, Fits, Sorting, StringAt, Decode, Encode;
    var keys := Sorting(m.Keys);
    if n > 0 {
      PairsRead(m, n - 1);
      EntryReads(m, n - 1);
      DecodeEncode(keys[n - 1]);
      DecodeEncode(m[keys[n - 1]]);
      OneMoreKey(m, keys, n);
    }
  }

  /** Whatever the compiler writes is read back as exactly the entries that it was given. */
  lemma ReadsBack(m: map<string, string>)
    requires Fits(m)
    ensures Read(Compiled(m)) == Some(m)
  {
    hide Layout, Pairs, Packable, WordAt;
    var keys := Sorting(m.Keys);
    CompiledHeader(m);
    PairsRead(m, |keys|);
    assert keys[..|keys|] == keys;
    assert Restricted(m, keys) == m;
  }

  // ---------------------------------------------------------------- the layout is sound

  /** What the manual asks of a file, for its `i`-th strings: descriptors and strings lie inside the
      file, the strings after the descriptors, and each string ends in NUL. */
  ghost predicate StringsInPlace(b: seq<byte>, n: nat, i: nat)
    requires i < n
  {
    && 28 + 16 * n <= |b|
    && var k, v := 28 + 8 * i, 28 + 8 * n + 8 * i;
    && var key, value := WordAt(b, k + 4), WordAt(b, v + 4);
    && 28 + 16 * n <= key && key + WordAt(b, k) < value && value + WordAt(b, v) < |b|
    && b[key + WordAt(b, k)] == 0 && b[value + WordAt(b, v)] == 0
  }

  /** The strings of position `i` end before those of a later position `j` start. */
  ghost predicate StringsApart(b: seq<byte>, n: nat, i: nat, j: nat)
    requires i < j < n && 28 + 16 * n <= |b|
  {
    && WordAt(b, 28 + 8 * i + 4) + WordAt(b, 28 + 8 * i) < WordAt(b, 28 + 8 * j + 4)
    && WordAt(b, 28 + 8 * n + 8 * i + 4) + WordAt(b, 28 + 8 * n + 8 * i) < WordAt(b, 28 + 8 * n + 8 * j + 4)
  }

  /** Lengths and offsets fit the signed fields that they are packed in. */
  ghost predicate SignedFields(b: seq<byte>, n: nat, i: nat)
    requires i < n && 28 + 16 * n <= |b|
  {
    var k, v := 28 + 8 * i, 28 + 8 * n + 8 * i;
    && WordAt(b, k) < 0x80000000 && WordAt(b, k + 4) < 0x80000000
    && WordAt(b, v) < 0x80000000 && WordAt(b, v + 4) < 0x80000000
  }

  /** The strings of the table at `at` are stored one directly after the other from `start` to `end`. */
  ghost predicate Consecutive(b: seq<byte>, at: nat, n: nat, start: nat, end: nat)
    requires at + 8 * n <= |b|
  {
    if n == 0 then start == end
    else
      && WordAt(b, at + 4) == start
      && (forall i | 0 <= i < n - 1 :: NextTo(b, at + 8 * i))
      && WordAt(b, at + 8 * n - 4) + WordAt(b, at + 8 * n - 8) + 1 == end
  }

  /** The string of a descriptor ends, with its NUL, where that of the next descriptor starts. */
  ghost predicate NextTo(b: seq<byte>, at: nat)
    requires at + 16 <= |b|
  {
    WordAt(b, at + 4) + WordAt(b, at) + 1 == WordAt(b, at + 12)
  }

  /** Nothing lies between the strings, and nothing after them. */
  ghost predicate Seamless(b: seq<byte>, n: nat)
    requires 28 + 16 * n <= |b|
  {
    var values := if n == 0 then 28 else WordAt(b, 28 + 8 * n + 4);
    Consecutive(b, 28, n, 28 + 16 * n, values) && Consecutive(b, 28 + 8 * n, n, values, |b|)
  }

  /** The key of position `i`, with its NUL, ends before the translation of position `j` starts. */
  ghost predicate KeyBeforeTranslation(b: seq<byte>, n: nat, i: nat, j: nat)
    requires i < n && j < n && 28 + 16 * n <= |b|
  {
    WordAt(b, 28 + 8 * i + 4) + WordAt(b, 28 + 8 * i) < WordAt(b, 28 + 8 * n + 8 * j + 4)
  }

  lemma DescriptorReads(b: seq<byte>, ss: seq<seq<byte>>, at: nat, base: nat, i: nat)
    requires Part(b, at, Table(ss, base)) && TableFits(ss, base) && i < |ss|
    ensures at + 8 * i + 8 <= |b|
    ensures WordAt(b, at + 8 * i) == |ss[i]| && WordAt(b, at + 8 * i + 4) == base + Start(ss, i)
  {
    hide Table, Word, WordAt, Block;
    assert ss[..|ss|] == ss;
    TableHolds(ss, base, |ss|, i);
    PartOfPart(b, at, Table(ss, base), 8 * i, Word(|ss[i]|));
    PartOfPart(b, at, Table(ss, base), 8 * i + 4, Word(base + Start(ss, i)));
    WordPart(b, at + 8 * i, |ss[i]|);
    WordPart(b, at + 8 * i + 4, base + Start(ss, i));
  }

  lemma StringsLieInPlace(ids: seq<seq<byte>>, strs: seq<seq<byte>>, i: nat)
    requires Packable(ids, strs) && i < |ids|
    ensures |Layout(ids, strs)| >= 28 + 16 * |ids|
    ensures StringsInPlace(Layout(ids, strs), |ids|, i) && SignedFields(Layout(ids, strs), |ids|, i)
  {
    hide Layout, Table, Block, Part, WordAt;
    var b, n, base := Layout(ids, strs), |ids|, KeyBase(|ids|);
    LayoutParts(ids, strs);
    DescriptorReads(b, ids, 28, base, i);
    DescriptorReads(b, strs, 28 + 8 * n, base + |Block(ids)|, i);
    LayoutReads(ids, strs, i);
    assert ids[..n] == ids && strs[..n] == strs;
    BlockHolds(ids, n, i);
    BlockHolds(strs, n, i);
  }

  lemma StringsLieApart(ids: seq<seq<byte>>, strs: seq<seq<byte>>, i: nat, j: nat)
    requires Packable(ids, strs) && i < j < |ids|
    ensures |Layout(ids, strs)| >= 28 + 16 * |ids| && StringsApart(Layout(ids, strs), |ids|, i, j)
  {
    hide Layout, Table, Block, Part, WordAt;
    var b, n, base := Layout(ids, strs), |ids|, KeyBase(|ids|);
    LayoutParts(ids, strs);
    DescriptorReads(b, ids, 28, base, i);
    DescriptorReads(b, ids, 28, base, j);
    DescriptorReads(b, strs, 28 + 8 * n, base + |Block(ids)|, i);
    DescriptorReads(b, strs, 28 + 8 * n, base + |Block(ids)|, j);
    StartsInOrder(ids, i, j);
    StartsInOrder(strs, i, j);
  }

  lemma TableIsConsecutive(b: seq<byte>, ss: seq<seq<byte>>, at: nat, base: nat)
    requires Part(b, at, Table(ss, base)) && TableFits(ss, base)
    ensures at + 8 * |ss| <= |b| && Consecutive(b, at, |ss|, base, base + |Block(ss)|)
  {
    hide Table, Block, WordAt, TableFits;
    var n := |ss|;
    EmptyBlockOf(ss);
    EmptyBlockOf([]);
    if n > 0 {
      assert ss[..n] == ss && ss[..0] == [];
      DescriptorReads(b, ss, at, base, 0);
      DescriptorReads(b, ss, at, base, n - 1);
      BlockStep(ss, n - 1);
      forall i | 0 <= i < n - 1 ensures at + 8 * i + 16 <= |b| && NextTo(b, at + 8 * i) {
        DescriptorReads(b, ss, at, base, i);
        DescriptorReads(b, ss, at, base, i + 1);
        BlockStep(ss, i);
      }
    }
  }

  lemma EmptyBlockOf(ss: seq<seq<byte>>)
    ensures |ss| == 0 ==> |Block(ss)| == 0
  {
  }

  lemma LayoutIsSeamless(ids: seq<seq<byte>>, strs: seq<seq<byte>>)
    requires Packable(ids, strs)
    ensures |Layout(ids, strs)| >= 28 + 16 * |ids| && Seamless(Layout(ids, strs), |ids|)
  {
    hide Layout, Table, Block, Part, WordAt;
    EmptyBlockOf(ids);
    var b, base := Layout(ids, strs), KeyBase(|ids|);
    LayoutParts(ids, strs);
    TableIsConsecutive(b, ids, 28, base);
    TableIsConsecutive(b, strs, 28 + 8 * |ids|, base + |Block(ids)|);
  }

  lemma KeysLieBeforeTranslations(ids: seq<seq<byte>>, strs: seq<seq<byte>>, i: nat, j: nat)
    requires Packable(ids, strs) && i < |ids| && j < |ids|
    ensures |Layout(ids, strs)| >= 28 + 16 * |ids| && KeyBeforeTranslation(Layout(ids, strs), |ids|, i, j)
  {
    hide Layout, Table, Block, Part, WordAt;
    var b, n, base := Layout(ids, strs), |ids|, KeyBase(|ids|);
    LayoutParts(ids, strs);
    DescriptorReads(b, ids, 28, base, i);
    DescriptorReads(b, strs, 28 + 8 * n, base + |Block(ids)|, j);
    assert ids[..n] == ids;
    BlockHolds(ids, n, i);
  }

  /** The key table is in ascending byte order. */
  predicate KeysInOrder(b: seq<byte>, i: nat, j: nat) {
    var k, l := StringAt(b, 28 + 8 * i), StringAt(b, 28 + 8 * j);
    k.Some? && l.Some? && BytesBefore(k.value, l.value)
  }

  lemma EntriesLieApart(m: map<string, string>, i: nat, j: nat)
    requires Fits(m) && i < j < |Sorting(m.Keys)|
    ensures |Compiled(m)| >= 28 + 16 * |Sorting(m.Keys)|
    ensures StringsApart(Compiled(m), |Sorting(m.Keys)|, i, j) && KeysInOrder(Compiled(m), i, j)
  {
    hide Layout, Packable, StringAt, StringsApart;
    var keys := Sorting(m.Keys);
    StringsLieApart(Ids(keys), Strs(keys, m), i, j);
    EntryReads(m, i);
    EntryReads(m, j);
    EncodeKeepsOrder(keys[i], keys[j]);
  }

  lemma EntryLiesInPlace(m: map<string, string>, i: nat)
    requires Fits(m) && i < |Sorting(m.Keys)|
    ensures |Compiled(m)| >= 28 + 16 * |Sorting(m.Keys)|
    ensures StringsInPlace(Compiled(m), |Sorting(m.Keys)|, i) && SignedFields(Compiled(m), |Sorting(m.Keys)|, i)
  {
    hide Layout, Packable, StringsInPlace, SignedFields;
    var keys := Sorting(m.Keys);
    StringsLieInPlace(Ids(keys), Strs(keys, m), i);
  }

  lemma EntriesAreSeamless(m: map<string, string>)
    requires Fits(m)
    ensures |Compiled(m)| >= 28 + 16 * |Sorting(m.Keys)| && Seamless(Compiled(m), |Sorting(m.Keys)|)
  {
    hide Layout, Packable, Seamless;
    var keys := Sorting(m.Keys);
    LayoutIsSeamless(Ids(keys), Strs(keys, m));
  }

  lemma EntryLiesBefore(m: map<string, string>, i: nat, j: nat)
    requires Fits(m) && i < |Sorting(m.Keys)| && j < |Sorting(m.Keys)|
    ensures |Compiled(m)| >= 28 + 16 * |Sorting(m.Keys)|
    ensures KeyBeforeTranslation(Compiled(m), |Sorting(m.Keys)|, i, j)
  {
    hide Layout, Packable, KeyBeforeTranslation;
    var keys := Sorting(m.Keys);
    KeysLieBeforeTranslations(Ids(keys), Strs(keys, m), i, j);
  }

  lemma CompiledHeader(m: map<string, string>)
    requires Fits(m)
    ensures var b, n := Compiled(m), |Sorting(m.Keys)|;
            && GoodHeader(b) && WordAt(b, 4) == 0
            && WordAt(b, 8) == n == |m| && WordAt(b, 12) == 28 && WordAt(b, 16) == 28 + 8 * n
            && WordAt(b, 20) == 0 && WordAt(b, 24) == 0 && 28 + 16 * n <= |b|
  {
    hide Layout, Packable, GoodHeader;
    var keys := Sorting(m.Keys);
    HeaderReads(Ids(keys), Strs(keys, m));
    LayoutParts(Ids(keys), Strs(keys, m));
    SortingSize(keys, m.Keys);
  }

  /** Every file that the compiler writes is laid out soundly, with its keys in ascending byte order:
      header, descriptors, all keys and all translations lie one after the other, each string with a
      NUL of its own. */
  lemma LayoutIsSound(m: map<string, string>)
    requires Fits(m)
    ensures var b, n := Compiled(m), |m|;
            && GoodHeader(b) && WordAt(b, 4) == 0
            && WordAt(b, 8) == n && WordAt(b, 12) == 28 && WordAt(b, 16) == 28 + 8 * n
            && WordAt(b, 20) == 0 && WordAt(b, 24) == 0 && 28 + 16 * n <= |b|
            && (forall i | 0 <= i < n :: StringsInPlace(b, n, i) && SignedFields(b, n, i))
            && Seamless(b, n)
            && (forall i, j | 0 <= i < j < n :: StringsApart(b, n, i, j) && KeysInOrder(b, i, j))
            && (forall i, j | 0 <= i < n && 0 <= j < n :: KeyBeforeTranslation(b, n, i, j))
  {
    hide Compiled, Fits, Sorting, GoodHeader, StringsInPlace, StringsApart, KeyBeforeTranslation, KeysInOrder, WordAt;
    hide SignedFields, Seamless;
    var b, n := Compiled(m), |m|;
    CompiledHeader(m);
    EntriesAreSeamless(m);
    forall i | 0 <= i < n ensures StringsInPlace(b, n, i) && SignedFields(b, n, i) {
      EntryLiesInPlace(m, i);
    }
    forall i, j | 0 <= i < j < n ensures StringsApart(b, n, i, j) && KeysInOrder(b, i, j) {
      EntriesLieApart(m, i, j);
    }
    forall i, j | 0 <= i < n && 0 <= j < n ensures KeyBeforeTranslation(b, n, i, j) {
      EntryLiesBefore(m, i, j);
    }
  }

  lemma {:induction false} SortingSize(keys: seq<string>, s: set<string>)
    requires IsSorting(keys, s)
    ensures |keys| == |s|
    decreases |keys|
  {
    SortingIsEmpty(keys, s);
    if keys != [] {
      assert keys[0] in keys;
      TailSorting(keys, s);
      SortingSize(keys[1..], s - {keys[0]});
    }
  }

  lemma TableFitsBelow(ss: seq<seq<byte>>, base: nat)
    requires base + |Block(ss)| <= MAX_INT + 1
    ensures TableFits(ss, base)
  {
    assert ss[..|ss|] == ss;
    forall i | 0 <= i < |ss| ensures |ss[i]| <= MAX_INT && base + Start(ss, i) <= MAX_INT {
      BlockHolds(ss, |ss|, i);
    }
  }

  lemma SmallLayoutFits(ids: seq<seq<byte>>, strs: seq<seq<byte>>)
    requires |ids| == |strs| && |Layout(ids, strs)| <= MAX_INT + 1
    ensures Packable(ids, strs)
  {
    hide Layout, Part, TableFits, Table, Block;
    LayoutParts(ids, strs);
    TableFitsBelow(ids, KeyBase(|ids|));
    TableFitsBelow(strs, KeyBase(|ids|) + |Block(ids)|);
  }

  /** A catalogue is only refused when its file would exceed 2 GiB. */
  lemma RefusedOnlyAboveTwoGib(m: map<string, string>)
    ensures |Compiled(m)| <= MAX_INT + 1 ==> Fits(m)
  {
    hide Layout, Packable;
    var keys := Sorting(m.Keys);
    if |Compiled(m)| <= MAX_INT + 1 {
      SmallLayoutFits(Ids(keys), Strs(keys, m));
    }
  }

  // ---------------------------------------------------------------- looking up

  /** Binary search finds a key exactly when it is among the entries. */
  lemma {:induction false} SearchFinds(m: map<string, string>, key: string, low: nat, high: nat)
    requires Fits(m) && low <= high <= |Sorting(m.Keys)|
    requires var keys := Sorting(m.Keys);
             && (forall i | 0 <= i < low :: Before(keys[i], key))
             && (forall i | high <= i < |keys| :: Before(key, keys[i]))
    ensures var keys, i := Sorting(m.Keys), Search(Compiled(m), 28, Encode(key), low, high);
            && (i.Some? ==> i.value < |keys| && keys[i.value] == key)
            && (i.None? ==> key !in m)
    decreases high - low
  {
    hide Compiled, Fits, Sorting, StringAt, Before, BytesBefore, Encode;
    var keys := Sorting(m.Keys);
    if low >= high {
      NotAmong(keys, m.Keys, key, low);
    } else {
      var middle := (low + high) / 2;
      EntryReads(m, middle);
      EncodeKeepsOrder(keys[middle], key);
      if Encode(keys[middle]) == Encode(key) {
        EncodeInjective(keys[middle], key);
      } else if Before(keys[middle], key) {
        forall i | 0 <= i < middle ensures Before(keys[i], key) {
          BeforeIsTransitive(keys[i], keys[middle], key);
        }
        SearchFinds(m, key, middle + 1, high);
      } else {
        BeforeIsTotal(keys[middle], key);
        forall i | middle < i < |keys| ensures Before(key, keys[i]) {
          BeforeIsTransitive(key, keys[middle], keys[i]);
        }
        SearchFinds(m, key, low, middle);
      }
    }
  }

  lemma NotAmong(keys: seq<string>, s: set<string>, key: string, low: nat)
    requires IsSorting(keys, s) && low <= |keys|
    requires forall i | 0 <= i < low :: Before(keys[i], key)
    requires forall i | low <= i < |keys| :: Before(key, keys[i])
    ensures key !in s
  {
    forall i | 0 <= i < |keys| ensures keys[i] != key {
      if i < low {
        BeforeIsStrict(keys[i], key);
      } else {
        BeforeIsStrict(key, keys[i]);
      }
    }
  }

  /** A lookup by binary search in a compiled catalogue gives what its entries say, for every key. */
  lemma LookupIsRight(m: map<string, string>, key: string)
    requires Fits(m)
    ensures Lookup(Compiled(m), key) == if key in m then Some(m[key]) else None
  {
    hide Layout, Packable, StringAt, Encode, Decode, Search, WordAt, Ascending;
    var keys := Sorting(m.Keys);
    CompiledHeader(m);
    SearchFinds(m, key, 0, |keys|);
    var i := Search(Compiled(m), 28, Encode(key), 0, |keys|);
    if i.Some? {
      assert keys[i.value] in keys;
      EntryReads(m, i.value);
      DecodeEncode(m[key]);
    }
  }
}
