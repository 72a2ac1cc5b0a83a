/**
 The key of a series, and the table that finds a series by it.

 Labels come in any order, each name once. They are put in order of their names and written one
 after the other as name, '=', value, ';'.
 */
module SeriesKeys {
  import opened Datapoints
  import opened History
  import opened SeriesStore
  import opened SparseFiles

  datatype Label = Label(name: string, value: string)

  // ---- Order of names ----

  predicate Less(a: string, b: string) {
    b != [] && (a == [] || a[0] < b[0] || (a[0] == b[0] && Less(a[1..], b[1..])))
  }

  lemma {:induction false} LessTransitive(a: string, b: string, c: string)
    requires Less(a, b) && Less(b, c)
    ensures Less(a, c)
  {
    if a != [] && a[0] == b[0] == c[0] {
      LessTransitive(a[1..], b[1..], c[1..]);
    }
  }

  lemma {:induction false} LessTotal(a: string, b: string)
    ensures a == b || Less(a, b) || Less(b, a)
    ensures !(Less(a, b) && Less(b, a)) && !Less(a, a)
  {
    if a != [] && b != [] {
      LessTotal(a[1..], b[1..]);
      assert a == [a[0]] + a[1..] && b == [b[0]] + b[1..];
    }
    LessIrreflexive(a);
  }

  lemma {:induction false} LessIrreflexive(a: string)
    ensures !Less(a, a)
  {
    if a != [] {
      LessIrreflexive(a[1..]);
    }
  }

  ghost predicate Sorted(ls: seq<Label>) {
    ls == [] || (Sorted(ls[1..]) && AllLater(ls[0].name, ls[1..]))
  }

  ghost predicate AllLater(name: string, ls: seq<Label>) {
    forall l :: l in ls ==> Less(name, l.name)
  }

  ghost predicate DistinctNames(ls: seq<Label>) {
    ls == [] || (DistinctNames(ls[..|ls| - 1]) && forall l :: l in ls[..|ls| - 1] ==> l.name != ls[|ls| - 1].name)
  }

  /** std::map::insert: a name that is there already stays as it is. */
  function Insert(ls: seq<Label>, l: Label): seq<Label> {
    if ls == [] || Less(l.name, ls[0].name) then [l] + ls
    else if l.name == ls[0].name then ls
    else [ls[0]] + Insert(ls[1..], l)
  }

  function InOrderOfNames(labels: seq<Label>): seq<Label> {
    if labels == [] then [] else Insert(InOrderOfNames(labels[..|labels| - 1]), labels[|labels| - 1])
  }

  lemma {:induction false} InsertSorted(ls: seq<Label>, l: Label)
    requires Sorted(ls)
    ensures Sorted(Insert(ls, l))
    ensures (forall m :: m in ls ==> m.name != l.name) ==> forall m :: m in Insert(ls, l) <==> m in ls || m == l
    ensures forall m :: m in Insert(ls, l) ==> m in ls || m == l
  {
    if ls == [] {
    } else if Less(l.name, ls[0].name) {
      assert ([l] + ls)[1..] == ls;
      forall m | m in ls ensures Less(l.name, m.name) {
        if m != ls[0] {
          assert m in ls[1..];
          LessTransitive(l.name, ls[0].name, m.name);
        }
      }
    } else if l.name != ls[0].name {
      LessTotal(l.name, ls[0].name);
      InsertSorted(ls[1..], l);
      assert Insert(ls, l)[1..] == Insert(ls[1..], l);
    }
  }

  lemma {:induction false} OrderedLabels(labels: seq<Label>)
    requires DistinctNames(labels)
    ensures Sorted(InOrderOfNames(labels))
    ensures forall l :: l in InOrderOfNames(labels) <==> l in labels
  {
    if labels != [] {
      var front, last := labels[..|labels| - 1], labels[|labels| - 1];
      assert labels == front + [last];
      OrderedLabels(front);
      InsertSorted(InOrderOfNames(front), last);
    }
  }

  lemma {:induction false} HeadIn(ls: seq<Label>)
    ensures ls != [] ==> ls[0] in ls
  {
  }

  lemma {:induction false} SortedUnique(a: seq<Label>, b: seq<Label>)
    requires Sorted(a) && Sorted(b)
    requires forall l :: l in a <==> l in b
    ensures a == b
  {
    HeadIn(b);
    if a != [] {
      assert a[0] in b && b != [] && b[0] in a;
      if a[0] != b[0] {
        assert a[0] in b[1..] && b[0] in a[1..];
        LessTotal(a[0].name, b[0].name);
        assert false;
      }
      forall l ensures l in a[1..] <==> l in b[1..] {
        LessIrreflexive(a[0].name);
        assert l in a <==> l == a[0] || l in a[1..];
        assert l in b <==> l == b[0] || l in b[1..];
      }
      SortedUnique(a[1..], b[1..]);
    }
  }

  /** In whatever order they arrive, equal label sets and only those give the same ordered labels. */
  lemma {:induction false} OrderIgnored(a: seq<Label>, b: seq<Label>)
    requires DistinctNames(a) && DistinctNames(b)
    ensures InOrderOfNames(a) == InOrderOfNames(b) <==> forall l :: l in a <==> l in b
  {
    OrderedLabels(a);
    OrderedLabels(b);
    if forall l :: l in a <==> l in b {
      SortedUnique(InOrderOfNames(a), InOrderOfNames(b));
    }
  }

  // ---- The key ----

  function KeyOf(ls: seq<Label>): string {
    if ls == [] then [] else ls[0].name + (['='] + (ls[0].value + ([';'] + KeyOf(ls[1..]))))
  }

  method BuildKey(ordered: seq<Label>) returns (key: string)
    ensures key == KeyOf(ordered)
  {
    key := [];
    var it := ordered;
    EmptyLeft(KeyOf(ordered));
    while it != []
      invariant key + KeyOf(it) == KeyOf(ordered)
      decreases |it|
    {
      Spell(key, it[0].name, it[0].value, KeyOf(it[1..]));
      key := key + it[0].name;
      key := key + ['='];
      key := key + it[0].value;
      key := key + [';'];
      it := it[1..];
    }
    assert key + [] == key;
  }

  lemma {:induction false} Spell(key: string, name: string, value: string, rest: string)
    ensures (((key + name) + ['=']) + value) + [';'] + rest == key + (name + (['='] + (value + ([';'] + rest))))
  {
    Assoc(key + name + ['='] + value, [';'], rest);
    Assoc(key + name + ['='], value, [';'] + rest);
    Assoc(key + name, ['='], value + ([';'] + rest));
    Assoc(key, name, ['='] + (value + ([';'] + rest)));
  }

  function FirstIndex(s: string, c: char): nat {
    if s == [] || s[0] == c then 0 else 1 + FirstIndex(s[1..], c)
  }

  lemma {:induction false} FirstBehind(x: string, r: string, c: char)
    requires c !in x
    ensures FirstIndex(x + ([c] + r), c) == |x|
  {
    if x == [] {
      EmptyLeft([c] + r);
    } else {
      assert (x + ([c] + r))[1..] == x[1..] + ([c] + r);
      FirstBehind(x[1..], r, c);
    }
  }

  /** A text that does not contain the separator ends at the first one. */
  lemma {:induction false} SplitUnique(x: string, r: string, y: string, s: string, c: char)
    requires c !in x && c !in y && x + ([c] + r) == y + ([c] + s)
    ensures x == y && r == s
  {
    var t := x + ([c] + r);
    FirstBehind(x, r, c);
    FirstBehind(y, s, c);
    assert x == t[..|x|] == y;
    assert r == t[|x| + 1..] == s;
  }

  predicate Clean(ls: seq<Label>) {
    forall i :: 0 <= i < |ls| ==> '=' !in ls[i].name && ';' !in ls[i].value
  }

  /** Without '=' in names and ';' in values the key determines the labels. */
  lemma {:induction false} KeyInjective(a: seq<Label>, b: seq<Label>)
    requires Clean(a) && Clean(b) && KeyOf(a) == KeyOf(b)
    ensures a == b
  {
    if a != [] && b != [] {
      var ra, rb := a[0].value + ([';'] + KeyOf(a[1..])), b[0].value + ([';'] + KeyOf(b[1..]));
      SplitUnique(a[0].name, ra, b[0].name, rb, '=');
      SplitUnique(a[0].value, KeyOf(a[1..]), b[0].value, KeyOf(b[1..]), ';');
      KeyInjective(a[1..], b[1..]);
      assert a == [a[0]] + a[1..] && b == [b[0]] + b[1..];
    }
  }

  function Count(s: string, c: char): (k: nat)
    ensures k > 0 <==> c in s
  {
    if s == [] then 0 else (if s[0] == c then 1 else 0) + Count(s[1..], c)
  }

  lemma {:induction false} CountConcat(a: string, b: string, c: char)
    ensures Count(a + b, c) == Count(a, c) + Count(b, c)
  {
    if a == [] {
      EmptyLeft(b);
    } else {
      assert (a + b)[1..] == a[1..] + b;
      CountConcat(a[1..], b, c);
    }
  }

  lemma {:induction false} KeyCount(ls: seq<Label>)
    requires ls != []
    ensures Count(KeyOf(ls), '=')
      == Count(ls[0].name, '=') + 1 + Count(ls[0].value, '=') + Count(KeyOf(ls[1..]), '=')
  {
    var rest := KeyOf(ls[1..]);
    CountConcat(ls[0].name, ['='] + (ls[0].value + ([';'] + rest)), '=');
    CountConcat(['='], ls[0].value + ([';'] + rest), '=');
    CountConcat(ls[0].value, [';'] + rest, '=');
    CountConcat([';'], rest, '=');
  }

  /** Cut at any '=', a key is also the key of a single label. */
  lemma {:induction false} SingleLabel(ls: seq<Label>, i: nat) returns (l: Label)
    requires ls != [] && i < |KeyOf(ls)| && KeyOf(ls)[i] == '='
    ensures |l.name| == i && KeyOf([l]) == KeyOf(ls) && Sorted([l])
  {
    var key := KeyOf(ls);
    EndsInSemicolon(ls);
    l := Label(key[..i], key[i + 1..|key| - 1]);
    KeyOfOne(l);
    CutAt(key, i);
    SortedOne(l);
  }

  lemma {:induction false} KeyOfOne(l: Label)
    ensures KeyOf([l]) == l.name + (['='] + (l.value + [';']))
  {
    assert [l][1..] == [];
    assert [';'] + [] == [';'];
  }

  lemma {:induction false} SortedOne(l: Label)
    ensures Sorted([l])
  {
    assert [l][1..] == [];
  }

  lemma {:induction false} CutAt(s: string, i: nat)
    requires i + 1 < |s|
    ensures s == s[..i] + ([s[i]] + (s[i + 1..|s| - 1] + [s[|s| - 1]]))
  {
  }

  lemma {:induction false} EndsInSemicolon(ls: seq<Label>)
    requires ls != []
    ensures KeyOf(ls) != [] && KeyOf(ls)[|KeyOf(ls)| - 1] == ';'
  {
    if |ls| > 1 {
      EndsInSemicolon(ls[1..]);
    }
  }

  /** The first '=' and the next one, when there are two. */
  lemma {:induction false} TwoEquals(s: string) returns (i: nat, j: nat)
    requires Count(s, '=') >= 2
    ensures i < j < |s| && s[i] == '=' && s[j] == '='
  {
    if s[0] == '=' {
      i := 0;
      var k :| 0 <= k < |s[1..]| && s[1..][k] == '=';
      j := k + 1;
    } else {
      i, j := TwoEquals(s[1..]);
      i, j := i + 1, j + 1;
    }
  }

  lemma {:induction false} OneEquals(a: seq<Label>, b: seq<Label>)
    requires a != [] && Count(KeyOf(a), '=') == 1 && KeyOf(b) == KeyOf(a)
    ensures a == b
  {
    EndsInSemicolon(a);
    OneLabel(a);
    OneLabel(b);
    var x, y := a[0], b[0];
    SplitUnique(x.name, x.value + ([';'] + []), y.name, y.value + ([';'] + []), '=');
    assert x.value == (x.value + ([';'] + []))[..|x.value|];
    assert |x.value + ([';'] + [])| == |y.value + ([';'] + [])|;
    assert y.value == (y.value + ([';'] + []))[..|y.value|];
  }

  lemma {:induction false} OneLabel(ls: seq<Label>)
    requires ls != [] && Count(KeyOf(ls), '=') == 1
    ensures |ls| == 1 && '=' !in ls[0].name && KeyOf(ls[1..]) == []
  {
    KeyCount(ls);
    if |ls| > 1 {
      KeyCount(ls[1..]);
      assert false;
    }
  }

  /**
   A key stands for one label set alone, among all label sets, if and only if it contains exactly one
   '=': with two or more, some single label has the same key.
   */
  lemma {:induction false} KeyUniqueExactly(a: seq<Label>)
    requires Sorted(a) && a != []
    ensures (forall b: seq<Label> :: Sorted(b) && KeyOf(b) == KeyOf(a) ==> b == a) <==> Count(KeyOf(a), '=') == 1
  {
    KeyCount(a);
    if Count(KeyOf(a), '=') == 1 {
      forall b: seq<Label> | KeyOf(b) == KeyOf(a) ensures b == a {
        OneEquals(a, b);
      }
    } else {
      var b := Ambiguous(a);
    }
  }

  lemma {:induction false} Ambiguous(a: seq<Label>) returns (b: seq<Label>)
    requires a != [] && Count(KeyOf(a), '=') >= 2
    ensures Sorted(b) && KeyOf(b) == KeyOf(a) && b != a
  {
    var i, j := TwoEquals(KeyOf(a));
    var x := SingleLabel(a, i);
    var y := SingleLabel(a, j);
    b := if a[0] == x then [y] else [x];
  }

  /** Any two labels share their key with one label whose value spells out the rest. */
  lemma {:induction false} TwoLabelsCollide(a: Label, b: Label)
    ensures KeyOf([a, b]) == KeyOf([Label(a.name, a.value + [';'] + b.name + ['='] + b.value)])
  {
    var value := a.value + [';'] + b.name + ['='] + b.value;
    assert [a, b][1..] == [b];
    assert [b][1..] == [];
    assert [Label(a.name, value)][1..] == [];
    Spell(a.value + [';'], b.name, b.value, []);
    Assoc(value, [';'], []);
    Assoc(a.value, [';'], b.name + (['='] + (b.value + ([';'] + []))));
  }

  // ---- The table ----

  datatype Lookup = Found(series: Series) | InvalidSeriesProto

  class Database {
    var seriesByKey: map<string, Series>
    const maxFileSize: nat
    const perAlloc: nat
    const sortWorks: Points -> bool

    constructor (maxFileSize: nat, perAlloc: nat, sortWorks: Points -> bool)
      requires maxFileSize >= DATAPOINT_SIZE && perAlloc >= 1
      ensures Valid() && seriesByKey == map[]
      ensures this.maxFileSize == maxFileSize && this.perAlloc == perAlloc && this.sortWorks == sortWorks
    {
      seriesByKey := map[];
      this.maxFileSize, this.perAlloc, this.sortWorks := maxFileSize, perAlloc, sortWorks;
    }

    ghost predicate Valid()
      reads this
    {
      && maxFileSize >= DATAPOINT_SIZE && perAlloc >= 1
      && forall key :: key in seriesByKey ==> seriesByKey[key].key == key
    }

    /** Find the series of some labels, creating an empty one when there is none. */
    method GetSeries(labels: seq<Label>) returns (r: Lookup)
      requires Valid() && DistinctNames(labels)
      modifies this
      ensures Valid()
      ensures r.InvalidSeriesProto? <==> labels == []
      ensures r.InvalidSeriesProto? ==> seriesByKey == old(seriesByKey)
      ensures r.Found? ==> var key := KeyOf(InOrderOfNames(labels));
        && key in seriesByKey && r.series == seriesByKey[key]
        && (key in old(seriesByKey) ==> seriesByKey == old(seriesByKey))
        && (key !in old(seriesByKey) ==>
            && fresh(r.series) && r.series.Valid() && r.series.Abstract() == EMPTY
            && seriesByKey == old(seriesByKey)[key := r.series])
    {
      var ordered := InOrderOfNames(labels);
      var key := BuildKey(ordered);
      OrderedLabels(labels);
      if labels != [] {
        assert labels[0] in ordered;
        EndsInSemicolon(ordered);
      } else {
        assert ordered == [];
      }
      if key == [] {
        return InvalidSeriesProto;
      }
      if key in seriesByKey {
        return Found(seriesByKey[key]);
      }
      var series := new Series(key, maxFileSize, perAlloc, sortWorks);
      seriesByKey := seriesByKey[key := series];
      return Found(series);
    }
  }

  /** In any state of the table, two label sets without the separators find the same series exactly when they are equal. */
  lemma {:induction false} SameSeriesExactly(db: Database, a: seq<Label>, b: seq<Label>)
    requires db.Valid() && DistinctNames(a) && DistinctNames(b) && Clean(a) && Clean(b)
    requires KeyOf(InOrderOfNames(a)) in db.seriesByKey && KeyOf(InOrderOfNames(b)) in db.seriesByKey
    ensures db.seriesByKey[KeyOf(InOrderOfNames(a))] == db.seriesByKey[KeyOf(InOrderOfNames(b))]
      <==> forall l :: l in a <==> l in b
  {
    var oa, ob := InOrderOfNames(a), InOrderOfNames(b);
    OrderedLabels(a);
    OrderedLabels(b);
    OrderIgnored(a, b);
    if db.seriesByKey[KeyOf(oa)] == db.seriesByKey[KeyOf(ob)] {
      StaysClean(a);
      StaysClean(b);
      KeyInjective(oa, ob);
    }
  }

  lemma {:induction false} StaysClean(labels: seq<Label>)
    requires DistinctNames(labels) && Clean(labels)
    ensures Clean(InOrderOfNames(labels))
  {
    OrderedLabels(labels);
    var o := InOrderOfNames(labels);
    forall i | 0 <= i < |o| ensures '=' !in o[i].name && ';' !in o[i].value {
      assert o[i] in labels;
    }
  }
}
