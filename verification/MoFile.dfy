/** Compiled message catalogues (scripts/compile_messages.py, `write_mo`), and how they are read
    (section 10.3 of the GNU gettext manual, "The Format of GNU MO Files"). */
module MoFile {
  import opened Outcomes
  import opened Utf8

  // ---------------------------------------------------------------- sorted keys

  predicate Ascending(keys: seq<string>) {
    forall i, j | 0 <= i < j < |keys| :: Before(keys[i], keys[j])
  }

  ghost predicate IsSorting(keys: seq<string>, s: set<string>) {
    Ascending(keys) && forall k :: k in keys <==> k in s
  }

  function Insert(keys: seq<string>, k: string): seq<string> {
    if keys == [] || Before(k, keys[0]) then [k] + keys
    else [keys[0]] + Insert(keys[1..], k)
  }

  lemma {:induction false} InsertMembers(keys: seq<string>, k: string)
    ensures forall x :: x in Insert(keys, k) <==> x in keys || x == k
  {
    if keys != [] && !Before(k, keys[0]) {
      InsertMembers(keys[1..], k);
      assert keys == [keys[0]] + keys[1..];
    }
  }

  lemma {:induction false} InsertAscends(keys: seq<string>, k: string)
    requires Ascending(keys) && k !in keys
    ensures Ascending(Insert(keys, k))
  {
    if keys == [] {
    } else if Before(k, keys[0]) {
      forall j | 0 <= j < |keys| ensures Before(k, keys[j]) {
        if j > 0 {
          BeforeIsTransitive(k, keys[0], keys[j]);
        }
      }
    } else {
      BeforeIsTotal(k, keys[0]);
      InsertAscends(keys[1..], k);
      InsertMembers(keys[1..], k);
      var tail := Insert(keys[1..], k);
      forall j | 0 <= j < |tail| ensures Before(keys[0], tail[j]) {
        assert tail[j] in tail;
      }
    }
  }

  /** `sorted(entries)` */
  ghost function Sorting(s: set<string>): (keys: seq<string>)
    ensures IsSorting(keys, s)
  {
    if s == {} then []
    else
      var k :| k in s;
      InsertAscends(Sorting(s - {k}), k);
      InsertMembers(Sorting(s - {k}), k);
      Insert(Sorting(s - {k}), k)
  }

  lemma SortingIsEmpty(keys: seq<string>, s: set<string>)
    requires IsSorting(keys, s)
    ensures keys == [] <==> s == {}
  {
    assert keys != [] ==> keys[0] in keys;
  }

  /** A set has only one ascending list. */
  lemma {:induction false} SortingIsUnique(a: seq<string>, b: seq<string>, s: set<string>)
    requires IsSorting(a, s) && IsSorting(b, s)
    ensures a == b
    decreases |a|
  {
    SortingIsEmpty(a, s);
    SortingIsEmpty(b, s);
    if s != {} {
      var x, y := a[0], b[0];
      if x != y {
        assert x in a && y in b;
        var i :| 0 <= i < |b| && b[i] == x;
        var j :| 0 <= j < |a| && a[j] == y;
        BeforeIsStrict(x, y);
      }
      TailSorting(a, s);
      TailSorting(b, s);
      SortingIsUnique(a[1..], b[1..], s - {x});
    }
  }

  lemma TailSorting(keys: seq<string>, s: set<string>)
    requires IsSorting(keys, s) && keys != []
    ensures IsSorting(keys[1..], s - {keys[0]})
  {
    if keys[0] in keys[1..] {
      BeforeIsStrict(keys[0], keys[0]);
    }
    assert keys == [keys[0]] + keys[1..];
  }

  method SortKeys(s: set<string>) returns (keys: seq<string>)
    ensures keys == Sorting(s)
  {
    keys := [];
    var rest := s;
    while rest != {}
      invariant rest <= s && IsSorting(keys, s - rest)
      decreases |rest|
    {
      var k :| k in rest;
      InsertAscends(keys, k);
      InsertMembers(keys, k);
      keys := Insert(keys, k);
      rest := rest - {k};
    }
    assert s - rest == s;
    SortingIsUnique(keys, Sorting(s), s);
  }

  // ---------------------------------------------------------------- words

  const MAGIC := 0x950412DE
  const MAX_INT := 0x7FFFFFFF

  /** Four bytes, the least significant one first. */
  function Word(n: nat): (w: seq<byte>)
    ensures |w| == 4
  {
    [n % 256, n / 256 % 256, n / 256 / 256 % 256, n / 256 / 256 / 256 % 256]
  }

  function WordAt(b: seq<byte>, at: nat): (n: nat)
    requires at + 4 <= |b|
  {
    b[at] as int + 256 * (b[at + 1] as int + 256 * (b[at + 2] as int + 256 * b[at + 3] as int))
  }

  lemma WordRoundTrip(b: seq<byte>, at: nat, n: nat)
    requires at + 4 <= |b| && b[at..at + 4] == Word(n) && n < 0x1_0000_0000
    ensures WordAt(b, at) == n
  {
    var w := b[at..at + 4];
    assert b[at] == w[0] && b[at + 1] == w[1] && b[at + 2] == w[2] && b[at + 3] == w[3];
    var n1, n2 := n / 256, n / 256 / 256;
    assert n == n1 * 256 + n % 256 && n1 == n2 * 256 + n1 % 256 && n2 == n2 / 256 * 256 + n2 % 256;
    assert n2 / 256 < 256;
  }

  // ---------------------------------------------------------------- layout

  /** NUL-terminated strings, one after the other. */
  function Block(ss: seq<seq<byte>>): seq<byte> {
    if ss == [] then [] else Block(ss[..|ss| - 1]) + ss[|ss| - 1] + [0]
  }

  function Start(ss: seq<seq<byte>>, i: nat): nat
    requires i <= |ss|
  {
    |Block(ss[..i])|
  }

  /** A table of lengths and offsets for strings that are stored from `base` on. */
  function Table(ss: seq<seq<byte>>, base: nat): (t: seq<byte>)
    ensures |t| == 8 * |ss|
  {
    if ss == [] then []
    else
      var n := |ss| - 1;
      Table(ss[..n], base) + Word(|ss[n]|) + Word(base + Start(ss, n))
  }

  function Header(n: nat): (h: seq<byte>)
    ensures |h| == 28
  {
    Word(MAGIC) + Word(0) + Word(n) + Word(28) + Word(28 + 8 * n) + Word(0) + Word(0)
  }

  function KeyBase(n: nat): nat {
    28 + 8 * n + 8 * n
  }

  /** The file for encoded keys and values. */
  function Layout(ids: seq<seq<byte>>, strs: seq<seq<byte>>): seq<byte>
    requires |ids| == |strs|
  {
    var base := KeyBase(|ids|);
    Header(|ids|) + Table(ids, base) + Table(strs, base + |Block(ids)|) + Block(ids) + Block(strs)
  }

  /** `struct.pack` refuses a signed 32-bit field that does not fit. */
  predicate TableFits(ss: seq<seq<byte>>, base: nat) {
    forall i | 0 <= i < |ss| :: |ss[i]| <= MAX_INT && base + Start(ss, i) <= MAX_INT
  }

  predicate Packable(ids: seq<seq<byte>>, strs: seq<seq<byte>>) {
    && |ids| == |strs| && |ids| <= MAX_INT && 28 + 8 * |ids| <= MAX_INT
    && TableFits(ids, KeyBase(|ids|))
    && TableFits(strs, KeyBase(|ids|) + |Block(ids)|)
  }

  function Ids(keys: seq<string>): seq<seq<byte>> {
    seq(|keys|, i requires 0 <= i < |keys| => Encode(keys[i]))
  }

  function Strs(keys: seq<string>, m: map<string, string>): seq<seq<byte>>
    requires forall k | k in keys :: k in m
  {
    seq(|keys|, i requires 0 <= i < |keys| => Encode(m[keys[i]]))
  }

  /** A catalogue's output fits when all its lengths and offsets do. */
  ghost predicate Fits(m: map<string, string>) {
    var keys := Sorting(m.Keys);
    Packable(Ids(keys), Strs(keys, m))
  }

  ghost function Compiled(m: map<string, string>): seq<byte> {
    var keys := Sorting(m.Keys);
    Layout(Ids(keys), Strs(keys, m))
  }

  // ---------------------------------------------------------------- the writer

  datatype MoError = OutOfRange

  /** The growing buffers and position lists: for each key its strings and where they start. */
  method CollectStrings(keys: seq<string>, m: map<string, string>)
    returns (ids: seq<byte>, strs: seq<byte>, keyPositions: seq<(nat, nat)>, valuePositions: seq<(nat, nat)>)
    requires forall k | k in keys :: k in m
    ensures ids == Block(Ids(keys)) && strs == Block(Strs(keys, m))
    ensures keyPositions == Positions(Ids(keys)) && valuePositions == Positions(Strs(keys, m))
  {
    ids, strs, keyPositions, valuePositions := [], [], [], [];
    ghost var ks, vs := Ids(keys), Strs(keys, m);
    for i := 0 to |keys|
      invariant ids == Block(ks[..i]) && strs == Block(vs[..i])
      invariant keyPositions == Positions(ks[..i]) && valuePositions == Positions(vs[..i])
    {
      var key, value := Encode(keys[i]), Encode(m[keys[i]]);
      keyPositions := keyPositions + [(|key|, |ids|)];
      valuePositions := valuePositions + [(|value|, |strs|)];
      ids := ids + key + [0];
      strs := strs + value + [0];
      BlockStep(ks, i);
      BlockStep(vs, i);
    }
    assert ks[..|keys|] == ks && vs[..|keys|] == vs;
  }

  /** Length and start of each string. */
  function Positions(ss: seq<seq<byte>>): seq<(nat, nat)> {
    seq(|ss|, i requires 0 <= i < |ss| => (|ss[i]|, Start(ss, i)))
  }

  lemma BlockStep(ss: seq<seq<byte>>, i: nat)
    requires i < |ss|
    ensures Block(ss[..i + 1]) == Block(ss[..i]) + ss[i] + [0]
    ensures Positions(ss[..i + 1]) == Positions(ss[..i]) + [(|ss[i]|, |Block(ss[..i])|)]
  {
    assert ss[..i + 1][..i] == ss[..i];
    forall j | 0 <= j <= i ensures ss[..i + 1][..j] == ss[..j] {
    }
    forall j | 0 <= j < i ensures ss[..i][..j] == ss[..j] {
    }
  }

  /** The loop that packs a table. */
  method PackTable(ghost ss: seq<seq<byte>>, positions: seq<(nat, nat)>, base: nat)
      returns (r: Result<seq<byte>, MoError>)
    requires positions == Positions(ss)
    ensures r == if TableFits(ss, base) then Ok(Table(ss, base)) else Err(OutOfRange)
  {
    hide Block, Word;
    var t: seq<byte> := [];
    for i := 0 to |positions|
      invariant t == Table(ss[..i], base)
      invariant forall j | 0 <= j < i :: |ss[j]| <= MAX_INT && base + Start(ss, j) <= MAX_INT
    {
      var (length, start) := positions[i];
      assert length == |ss[i]| && start == Start(ss, i);
      if length > MAX_INT || base + start > MAX_INT {
        return Err(OutOfRange);
      }
      assert ss[..i + 1][..i] == ss[..i];
      t := t + Word(length) + Word(base + start);
    }
    assert ss[..|ss|] == ss;
    return Ok(t);
  }

  /** The header, the two tables and the two blocks are written in this order. */
  method PackFile(ghost keys: seq<seq<byte>>, ghost values: seq<seq<byte>>,
                  keyPositions: seq<(nat, nat)>, valuePositions: seq<(nat, nat)>, ids: seq<byte>, strs: seq<byte>)
    returns (r: Result<seq<byte>, MoError>)
    requires |keys| == |values| && keyPositions == Positions(keys) && valuePositions == Positions(values)
    requires ids == Block(keys) && strs == Block(values)
    ensures r == if Packable(keys, values) then Ok(Layout(keys, values)) else Err(OutOfRange)
  {
    hide Block, Table, TableFits, Header, Start;
    var n := |keyPositions|;
    if n > MAX_INT || 28 + 8 * n > MAX_INT {
      return Err(OutOfRange);
    }
    var keyTable := PackTable(keys, keyPositions, KeyBase(n));
    if keyTable.Err? {
      return Err(OutOfRange);
    }
    var valueTable := PackTable(values, valuePositions, KeyBase(n) + |ids|);
    if valueTable.Err? {
      return Err(OutOfRange);
    }
    return Ok(Header(n) + keyTable.value + valueTable.value + ids + strs);
  }

  /** `write_mo` */
  method WriteMo(entries: map<string, string>) returns (r: Result<seq<byte>, MoError>)
    ensures r == if Fits(entries) then Ok(Compiled(entries)) else Err(OutOfRange)
  {
    var keys := SortKeys(entries.Keys);
    var ids, strs, keyPositions, valuePositions := CollectStrings(keys, entries);
    r := PackFile(Ids(keys), Strs(keys, entries), keyPositions, valuePositions, ids, strs);
  }
}
