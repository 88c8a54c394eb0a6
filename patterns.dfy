/** The line scorer's ingredients: Python's `str.count`, the dict display that
    holds the pattern table, the two tables (the base one of TicTacToeAi.py and
    the extended one of TicTacToeAi1.py) and the score of one line, which is the
    sum over the table of `line_str.count(pattern) * value`. */
module Patterns {

  /** The `(pattern, value)` pairs of a table, in Python's iteration order. */
  type Table = seq<(seq<char>, int)>

  /** The two pattern tables of the repository. */
  datatype Variant =
    | Base      // backend/TicTacToeAi.py
    | Extended  // backend/TicTacToeAi1.py

  /** `p` occurs in `s` at index `i`. */
  predicate OccursAt(s: seq<char>, p: seq<char>, i: int) {
    0 <= i && i + |p| <= |s| && s[i..i + |p|] == p
  }

  /** Python's `s.count(p)`: occurrences of `p` found scanning left to right,
      each search resuming after the previous match, so matches never overlap;
      an empty `p` is counted `len(s) + 1` times. */
  function Count(s: seq<char>, p: seq<char>): (c: nat)
    ensures |p| > 0 ==> c * |p| <= |s|
    decreases |s|
  {
    if |p| == 0 then |s| + 1
    else if |s| < |p| then 0
    else if s[..|p|] == p then 1 + Count(s[|p|..], p)
    else Count(s[1..], p)
  }

  /** A pattern is counted at least once exactly when it occurs somewhere. */
  lemma {:induction false} CountZeroIffAbsent(s: seq<char>, p: seq<char>)
    requires |p| > 0
    ensures Count(s, p) == 0 <==> forall i :: !OccursAt(s, p, i)
    decreases |s|
  {
    if |s| < |p| {
    } else if s[..|p|] == p {
      assert OccursAt(s, p, 0);
    } else {
      CountZeroIffAbsent(s[1..], p);
      forall i ensures OccursAt(s, p, i) <==> (i == 0 && OccursAt(s, p, 0)) || OccursAt(s[1..], p, i - 1) {
        if 1 <= i && i + |p| <= |s| {
          assert s[1..][i - 1..i - 1 + |p|] == s[i..i + |p|];
        }
      }
      assert !OccursAt(s, p, 0);
      if Count(s, p) == 0 {
        forall i ensures !OccursAt(s, p, i) {
          assert !OccursAt(s[1..], p, i - 1);
        }
      } else {
        var j :| OccursAt(s[1..], p, j);
        assert OccursAt(s, p, j + 1);
      }
    }
  }

  /** A pattern holding a character the line lacks is counted zero times. */
  lemma {:induction false} CountAbsent(s: seq<char>, p: seq<char>, c: char)
    requires c in p && c !in s
    ensures Count(s, p) == 0
    decreases |s|
  {
    if |s| >= |p| && s[..|p|] != p {
      CountAbsent(s[1..], p, c);
    }
  }

  /** `str.count` does not count overlapping matches: "xxx" holds "xx" once. */
  lemma CountIsNonOverlapping()
    ensures Count("xxx", "xx") == 1
    ensures Count("xxxx", "xx") == 2
    ensures OccursAt("xxx", "xx", 0) && OccursAt("xxx", "xx", 1)
  {
    assert "xxx"[..2] == "xx";
    assert "xxx"[2..] == "x";
    assert "xxxx"[..2] == "xx" && "xxxx"[2..] == "xx";
    assert "xx"[..2] == "xx" && "xx"[2..] == [];
  }

  /** No key of the table is repeated. */
  predicate KeysDistinct(t: Table) {
    forall a, b :: 0 <= a < b < |t| ==> t[a].0 != t[b].0
  }

  /** One `key: value` item of a dict display: a new key is appended, a key
      already present keeps its position and takes the new value. */
  function Insert(d: Table, key: seq<char>, value: int): (r: Table)
    ensures forall e :: e in r ==> e in d || e == (key, value)
  {
    if d == [] then [(key, value)]
    else if d[0].0 == key then
      assert forall e :: e in d[1..] ==> e in d;
      [(key, value)] + d[1..]
    else
      var rest := Insert(d[1..], key, value);
      assert forall e :: e in d[1..] ==> e in d;
      [d[0]] + rest
  }

  /** Inserting into a dict keeps its keys distinct. */
  lemma {:induction false} InsertDistinct(d: Table, key: seq<char>, value: int)
    requires KeysDistinct(d)
    ensures KeysDistinct(Insert(d, key, value))
    decreases |d|
  {
    if d != [] {
      var r := Insert(d, key, value);
      var tail := d[1..];
      assert KeysDistinct(tail);
      if d[0].0 == key {
        forall a, b | 0 <= a < b < |r| ensures r[a].0 != r[b].0 {
          assert r[b] == d[b];
          if a > 0 { assert r[a] == d[a]; }
        }
      } else {
        InsertDistinct(tail, key, value);
        var rest := Insert(tail, key, value);
        forall e | e in rest ensures e.0 != d[0].0 {
          if e != (key, value) {
            var b :| 0 <= b < |tail| && tail[b] == e;
            assert d[b + 1] == e;
          }
        }
        forall a, b | 0 <= a < b < |r| ensures r[a].0 != r[b].0 {
          assert r[b] == rest[b - 1] && rest[b - 1] in rest;
          if a > 0 { assert r[a] == rest[a - 1]; }
        }
      }
    }
  }

  /** The inserted item is in the dict, and so is every item of another key. */
  lemma {:induction false} InsertKeeps(d: Table, key: seq<char>, value: int)
    ensures (key, value) in Insert(d, key, value)
    ensures forall e :: e in d && e.0 != key ==> e in Insert(d, key, value)
    decreases |d|
  {
    if d != [] && d[0].0 != key {
      InsertKeeps(d[1..], key, value);
      assert forall e :: e in d ==> e == d[0] || e in d[1..];
    }
  }

  /** A key not yet present is appended at the end. */
  lemma {:induction false} InsertFresh(d: Table, key: seq<char>, value: int)
    requires forall e :: e in d ==> e.0 != key
    ensures Insert(d, key, value) == d + [(key, value)]
    decreases |d|
  {
    if d != [] {
      assert d[0] in d;
      assert forall e :: e in d[1..] ==> e in d;
      InsertFresh(d[1..], key, value);
      assert d == [d[0]] + d[1..];
    }
  }

  /** A Python dict display `{k1: v1, k2: v2, ...}`, as the table its `items()` yield. */
  function Dict(entries: Table): (d: Table)
    ensures forall e :: e in d ==> e in entries
    ensures KeysDistinct(d)
  {
    if entries == [] then []
    else
      var init := entries[..|entries| - 1];
      assert forall e :: e in init ==> e in entries;
      InsertDistinct(Dict(init), entries[|entries| - 1].0, entries[|entries| - 1].1);
      Insert(Dict(init), entries[|entries| - 1].0, entries[|entries| - 1].1)
  }

  /** Every key of the display survives into the dict. */
  lemma {:induction false} DictKeepsKeys(entries: Table)
    ensures forall i :: 0 <= i < |entries| ==> exists e :: e in Dict(entries) && e.0 == entries[i].0
    decreases |entries|
  {
    if entries != [] {
      var init := entries[..|entries| - 1];
      var last := entries[|entries| - 1];
      DictKeepsKeys(init);
      var prefix := Dict(init);
      InsertKeeps(prefix, last.0, last.1);
      forall i | 0 <= i < |entries| ensures exists e :: e in Dict(entries) && e.0 == entries[i].0 {
        if i == |entries| - 1 || entries[i].0 == last.0 {
          assert last in Dict(entries);
        } else {
          assert init[i] == entries[i];
          var e :| e in prefix && e.0 == init[i].0;
          assert e in Dict(entries);
        }
      }
    }
  }

  /** A display without repeated keys yields its items unchanged. */
  lemma {:induction false} DictOfDistinct(entries: Table)
    requires KeysDistinct(entries)
    ensures Dict(entries) == entries
    decreases |entries|
  {
    if entries != [] {
      var init := entries[..|entries| - 1];
      var last := entries[|entries| - 1];
      assert KeysDistinct(init);
      DictOfDistinct(init);
      forall e | e in init ensures e.0 != last.0 {
        var k :| 0 <= k < |init| && init[k] == e;
        assert entries[k] == e;
      }
      InsertFresh(init, last.0, last.1);
      assert entries == init + [last];
    }
  }

  /** The pattern table of backend/TicTacToeAi.py, in source order. */
  function BaseEntries(p: char, o: char): (t: Table)
    ensures |t| == 31
    ensures forall e :: e in t ==> 4 <= |e.0| <= 5
  {
    [ ([p, p, p, p, p], 10000),
      ([p, p, p, p, ' '], 1000),
      ([' ', p, p, p, p], 1000),
      ([' ', p, p, p, ' '], 100),
      ([p, ' ', p, p], 70),
      ([p, p, ' ', p], 70),
      ([p, p, p, ' ', ' '], 50),
      ([' ', ' ', p, p, p], 50),
      ([p, p, ' ', ' ', ' '], 10),
      ([' ', p, p, ' ', ' '], 10),
      ([' ', ' ', p, p, ' '], 10),
      ([' ', ' ', ' ', p, p], 10),
      ([p, ' ', ' ', ' ', ' '], 1),
      ([' ', p, ' ', ' ', ' '], 1),
      ([' ', ' ', p, ' ', ' '], 1),
      ([' ', ' ', ' ', p, ' '], 1),
      ([o, o, o, o, o], -10000),
      ([o, o, o, o, ' '], -2000),
      ([' ', o, o, o, o], -2000),
      ([o, o, ' ', o], -1000),
      ([o, ' ', o, o], -1000),
      ([' ', o, o, o, ' '], -500),
      ([o, o, o, ' ', ' '], -500),
      ([' ', ' ', o, o, o], -500),
      ([o, o, ' ', ' ', ' '], -10),
      ([' ', o, o, ' ', ' '], -10),
      ([' ', ' ', o, o], -10),
      ([o, ' ', ' ', ' ', ' '], -1),
      ([' ', o, ' ', ' ', ' '], -1),
      ([' ', ' ', o, ' ', ' '], -1),
      ([' ', ' ', ' ', o, ' '], -1) ]
  }

  /** The rows that backend/TicTacToeAi1.py adds after the base rows, in source order. */
  function ExtraEntries(p: char, o: char): (t: Table)
    ensures |t| == 25
    ensures forall e :: e in t ==> 2 <= |e.0| <= 6
  {
    [ ([p, p, p, ' ', p, ' '], 90),
      ([p, ' ', p, p, p, ' '], 90),
      ([' ', p, p, p, ' ', p], 90),
      ([p, ' ', p, ' ', p], 80),
      ([' ', p, ' ', p, ' ', p], 80),
      ([p, p, p, p], 2000),
      ([p, p, p], 100),
      ([p, p], 10),
      ([o, o, o, ' ', o], -200),
      ([o, ' ', o, o, o], -200),
      ([o, o, o, o], -2000),
      ([o, o, o], -100),
      ([o, o], -10),
      ([o, ' ', p, p], -20),
      ([p, p, ' ', o], -20),
      ([o, ' ', p, ' ', o], -40),
      ([p, p, ' ', o, o], -40),
      ([p, p, p, ' ', o], 150),
      ([o, ' ', p, p, p], -150),
      ([p, p, p, p, ' ', o], 4000),
      ([o, ' ', p, p, p, p], -4000),
      ([p, p, p, ' ', o, o], 300),
      ([o, o, ' ', p, p, p], -300),
      ([p, p, ' ', o, o, o], 20),
      ([o, o, o, ' ', p, p], -20) ]
  }

  /** The items of the dict display, in the order the display lists them. */
  function Entries(v: Variant, p: char, o: char): Table {
    match v
    case Base => BaseEntries(p, o)
    case Extended => BaseEntries(p, o) + ExtraEntries(p, o)
  }

  /** The `patterns` dict that `evaluate_line` builds. */
  function PatternTable(v: Variant, p: char, o: char): (t: Table)
    ensures KeysDistinct(t)
    ensures forall e :: e in t ==> e in Entries(v, p, o)
    ensures forall i :: 0 <= i < |Entries(v, p, o)| ==> exists e :: e in t && e.0 == Entries(v, p, o)[i].0
  {
    DictKeepsKeys(Entries(v, p, o));
    Dict(Entries(v, p, o))
  }

  /** The score of a line against a table: the sum of `line_str.count(pattern) * value`. */
  function LineScore(line: seq<char>, t: Table): int {
    if t == [] then 0
    else LineScore(line, t[..|t| - 1]) + Count(line, t[|t| - 1].0) * t[|t| - 1].1
  }

  lemma {:induction false} LineScoreAppend(line: seq<char>, a: Table, b: Table)
    ensures LineScore(line, a + b) == LineScore(line, a) + LineScore(line, b)
    decreases |b|
  {
    if b == [] {
      assert a + b == a;
    } else {
      var b' := b[..|b| - 1];
      assert (a + b)[..|a + b| - 1] == a + b';
      LineScoreAppend(line, a, b');
    }
  }

  /** The score does not depend on the order in which the table is iterated. */
  lemma {:induction false} LineScorePermutation(line: seq<char>, t1: Table, t2: Table)
    requires multiset(t1) == multiset(t2)
    ensures LineScore(line, t1) == LineScore(line, t2)
    decreases |t1|
  {
    if t1 == [] {
      assert |t2| == |multiset(t2)| == 0;
    } else {
      var x := t1[|t1| - 1];
      var t1' := t1[..|t1| - 1];
      assert t1 == t1' + [x];
      assert x in multiset(t2);
      var i :| 0 <= i < |t2| && t2[i] == x;
      var t2' := t2[..i] + t2[i + 1..];
      assert t2 == t2[..i] + [x] + t2[i + 1..];
      calc {
        multiset(t1');
        multiset(t1) - multiset{x};
        multiset(t2[..i]) + multiset{x} + multiset(t2[i + 1..]) - multiset{x};
        multiset(t2');
      }
      LineScorePermutation(line, t1', t2');
      LineScoreAppend(line, t2[..i] + [x], t2[i + 1..]);
      LineScoreAppend(line, t2[..i], [x]);
      LineScoreAppend(line, t2[..i], t2[i + 1..]);
      assert LineScore(line, [x]) == Count(line, x.0) * x.1 by {
        assert [x][..0] == [];
      }
    }
  }

  /** A table whose every negative-weight key holds `o` cannot score a line
      without `o` below zero. */
  lemma {:induction false} LineScoreAtLeastZero(line: seq<char>, t: Table, o: char)
    requires forall e :: e in t && e.1 < 0 ==> o in e.0
    requires o !in line
    ensures LineScore(line, t) >= 0
    decreases |t|
  {
    if t != [] {
      var e := t[|t| - 1];
      assert forall x :: x in t[..|t| - 1] ==> x in t;
      LineScoreAtLeastZero(line, t[..|t| - 1], o);
      if e.1 < 0 {
        CountAbsent(line, e.0, o);
      } else {
        assert Count(line, e.0) * e.1 >= 0;
      }
    }
  }

  /** A table whose every positive-weight key holds `p` cannot score a line
      without `p` above zero. */
  lemma {:induction false} LineScoreAtMostZero(line: seq<char>, t: Table, p: char)
    requires forall e :: e in t && e.1 > 0 ==> p in e.0
    requires p !in line
    ensures LineScore(line, t) <= 0
    decreases |t|
  {
    if t != [] {
      var e := t[|t| - 1];
      assert forall x :: x in t[..|t| - 1] ==> x in t;
      LineScoreAtMostZero(line, t[..|t| - 1], p);
      if e.1 > 0 {
        CountAbsent(line, e.0, p);
      } else {
        assert Count(line, e.0) * e.1 <= 0;
      }
    }
  }

  /** A rewarded pattern holds the player marker, a penalised one the opponent marker. */
  predicate EntrySigned(e: (seq<char>, int), p: char, o: char) {
    (e.1 < 0 ==> o in e.0) && (e.1 > 0 ==> p in e.0)
  }

  /** Every rewarded base pattern holds a player marker and every penalised
      one an opponent marker. */
  lemma BaseEntriesSigned(p: char, o: char)
    ensures forall e :: e in BaseEntries(p, o) ==> EntrySigned(e, p, o)
  {
    var base := BaseEntries(p, o);
    assert forall i :: 0 <= i < |base| ==> EntrySigned(base[i], p, o);
    forall e | e in base ensures EntrySigned(e, p, o) {
      var i :| 0 <= i < |base| && base[i] == e;
    }
  }

  /** The same for the rows the extended table adds. */
  lemma ExtraEntriesSigned(p: char, o: char)
    ensures forall e :: e in ExtraEntries(p, o) ==> EntrySigned(e, p, o)
  {
    var extra := ExtraEntries(p, o);
    assert forall i :: 0 <= i < |extra| ==> EntrySigned(extra[i], p, o);
    forall e | e in extra ensures EntrySigned(e, p, o) {
      var i :| 0 <= i < |extra| && extra[i] == e;
    }
  }

  /** In both tables every rewarded pattern holds a player marker and every
      penalised one an opponent marker. */
  lemma EntriesSigned(v: Variant, p: char, o: char)
    ensures forall e :: e in Entries(v, p, o) ==> EntrySigned(e, p, o)
  {
    BaseEntriesSigned(p, o);
    ExtraEntriesSigned(p, o);
  }

  /** A pattern of player markers and blanks with a positive weight, or of
      opponent markers and blanks with a negative weight. */
  predicate EntryOneSided(e: (seq<char>, int), p: char, o: char) {
    (e.1 > 0 && forall c :: c in e.0 ==> c == p || c == ' ') ||
    (e.1 < 0 && forall c :: c in e.0 ==> c == o || c == ' ')
  }

  /** Every base pattern is one-sided. */
  lemma BaseEntriesOneSided(p: char, o: char)
    ensures forall e :: e in BaseEntries(p, o) ==> EntryOneSided(e, p, o)
  {
    var base := BaseEntries(p, o);
    assert forall i :: 0 <= i < |base| ==> EntryOneSided(base[i], p, o);
    forall e | e in base ensures EntryOneSided(e, p, o) {
      var i :| 0 <= i < |base| && base[i] == e;
    }
  }

  /** The extended table breaks one-sidedness: its row `o + ' ' + p*2` mixes
      both markers. */
  lemma ExtraEntriesMixed(p: char, o: char)
    requires p != o && p != ' ' && o != ' '
    ensures !EntryOneSided(ExtraEntries(p, o)[13], p, o)
  {
    var mixed := ExtraEntries(p, o)[13];
    assert mixed == ([o, ' ', p, p], -20);
    assert mixed.0[2] in mixed.0 && mixed.0[2] == p;
  }

  /** Every rewarded pattern of the dict holds the player marker and every
      penalised one the opponent marker, whatever keys the display merges. */
  lemma PatternTableSigned(v: Variant, p: char, o: char)
    ensures forall e :: e in PatternTable(v, p, o) ==> EntrySigned(e, p, o)
  {
    EntriesSigned(v, p, o);
  }

  /** `evaluate_line` is non-negative on a line without opponent markers,
      non-positive on a line without player markers, and zero on an all-blank
      line when both markers are non-blank. */
  lemma PatternTableSigns(line: seq<char>, v: Variant, p: char, o: char)
    ensures o !in line ==> LineScore(line, PatternTable(v, p, o)) >= 0
    ensures p !in line ==> LineScore(line, PatternTable(v, p, o)) <= 0
    ensures p != ' ' && o != ' ' && (forall c :: c in line ==> c == ' ') ==> LineScore(line, PatternTable(v, p, o)) == 0
  {
    PatternTableSigned(v, p, o);
    var t := PatternTable(v, p, o);
    if o !in line { LineScoreAtLeastZero(line, t, o); }
    if p !in line { LineScoreAtMostZero(line, t, p); }
  }
}
