/** `merge_processes`, identical in both revisions: records are grouped by
    name in a dictionary that remembers insertion order, duplicates are
    counted, and each group becomes one entry whose display name carries a
    ` (n)` suffix when the name occurred n > 1 times, and which keeps the
    plain name as `original_name`.
 */
module ProcessMerge {
  import opened Wrappers
  import opened PyStr
  import opened Tasklist

  /** One merged row: the display name and the name it was grouped under. */
  datatype ProcessEntry = ProcessEntry(name: string, originalName: string)

  /** The grouping dictionary: keys in insertion order, with their counts. */
  datatype Groups = Groups(order: seq<string>, counts: map<string, nat>)

  predicate Distinct(s: seq<string>) {
    forall i, j :: 0 <= i < j < |s| ==> s[i] != s[j]
  }

  /** The names of the records, in order. */
  function Names(records: seq<TaskRecord>): (names: seq<string>)
    ensures |names| == |records|
    ensures forall i :: 0 <= i < |records| ==> names[i] == records[i].name
  {
    seq(|records|, i requires 0 <= i < |records| => records[i].name)
  }

  /** The original names of merged entries, in order. */
  function OriginalNames(entries: seq<ProcessEntry>): (names: seq<string>)
    ensures |names| == |entries|
    ensures forall i :: 0 <= i < |entries| ==> names[i] == entries[i].originalName
  {
    seq(|entries|, i requires 0 <= i < |entries| => entries[i].originalName)
  }

  /** Index of the first occurrence of `x` in `s`. */
  function FirstIndex(s: seq<string>, x: string): (i: nat)
    requires x in s
    ensures i < |s| && s[i] == x
    ensures forall j :: 0 <= j < i ==> s[j] != x
  {
    if s[0] == x then 0 else 1 + FirstIndex(s[1..], x)
  }

  /** One step of the grouping loop: a new name is appended with count 1,
      a known one has its count incremented. */
  function AddName(g: Groups, name: string): Groups {
    if name in g.counts then Groups(g.order, g.counts[name := g.counts[name] + 1])
    else Groups(g.order + [name], g.counts[name := 1])
  }

  /** What the grouping dictionary holds after looping over `names`: its
      keys are the distinct names in order of first occurrence, and each
      count is the number of times the name occurs. */
  ghost predicate GroupsOf(g: Groups, names: seq<string>) {
    && Distinct(g.order)
    && (forall x :: x in g.order <==> x in names)
    && (forall x :: x in g.counts <==> x in names)
    && (forall x :: x in g.counts ==> g.counts[x] == multiset(names)[x])
    && (forall i, j :: 0 <= i < j < |g.order| ==>
          FirstIndex(names, g.order[i]) < FirstIndex(names, g.order[j]))
  }

  /** The grouping loop over `names`. */
  function GroupNames(names: seq<string>): (g: Groups)
    ensures GroupsOf(g, names)
    decreases |names|
  {
    if |names| == 0 then Groups([], map[])
    else
      var p, x := names[..|names| - 1], names[|names| - 1];
      assert names == p + [x];
      AddNamePreserves(GroupNames(p), p, x);
      AddName(GroupNames(p), x)
  }

  /** One iteration of the grouping loop keeps the dictionary faithful. */
  lemma AddNamePreserves(g: Groups, p: seq<string>, x: string)
    requires GroupsOf(g, p)
    ensures GroupsOf(AddName(g, x), p + [x])
  {
    var q := p + [x];
    var h := AddName(g, x);
    assert forall y :: y in q <==> y in p || y == x;
    assert multiset(q) == multiset(p) + multiset{x};
    if x in g.counts {
      assert h.order == g.order;
    } else {
      assert h.order == g.order + [x];
      assert x !in g.order;
    }
    AddNameOrder(g, p, x);
  }

  lemma AddNameOrder(g: Groups, p: seq<string>, x: string)
    requires GroupsOf(g, p)
    ensures var h, q := AddName(g, x), p + [x];
      forall i, j :: 0 <= i < j < |h.order| ==>
        h.order[i] in q && h.order[j] in q && FirstIndex(q, h.order[i]) < FirstIndex(q, h.order[j])
  {
    var h, q := AddName(g, x), p + [x];
    FirstIndexExtend(p, x);
    forall i, j | 0 <= i < j < |h.order|
      ensures h.order[i] in q && h.order[j] in q && FirstIndex(q, h.order[i]) < FirstIndex(q, h.order[j])
    {
      assert h.order[i] == g.order[i] && g.order[i] in p;
      if j < |g.order| {
        assert h.order[j] == g.order[j] && g.order[j] in p;
      } else {
        assert h.order[j] == x && x !in p;
      }
    }
  }

  /** Appending to a sequence keeps the first occurrence of every element
      already present, and a new element first occurs at the end. */
  lemma FirstIndexExtend(p: seq<string>, x: string)
    ensures forall y :: y in p ==> FirstIndex(p + [x], y) == FirstIndex(p, y)
    ensures x !in p ==> FirstIndex(p + [x], x) == |p|
  {
    forall y | y in p
      ensures FirstIndex(p + [x], y) == FirstIndex(p, y)
    {
      var i := FirstIndex(p, y);
      assert (p + [x])[i] == y;
      var k := FirstIndex(p + [x], y);
      assert k <= i;
      assert (p + [x])[k] == p[k];
    }
  }

  /** `f"{name} ({count})"` when the count exceeds one, the bare name
      otherwise. The name is always a prefix; the display differs from it
      exactly when the count exceeds one, and then the suffix is ` (`, the
      decimal digits of the count without a leading zero, and `)`. */
  function Display(name: string, count: nat): (d: string)
    ensures |name| <= |d| && d[..|name|] == name
    ensures d == name <==> count <= 1
    ensures count > 1 ==>
      && |d| >= |name| + 4
      && d[|name|..|name| + 2] == " ("
      && d[|d| - 1] == ')'
      && (forall k :: |name| + 2 <= k < |d| - 1 ==> IsDigit(d[k]))
      && d[|name| + 2] != '0'
      && DecimalValue(d[|name| + 2..|d| - 1]) == count
  {
    if count > 1 then
      var digits := NatToString(count);
      var d := name + " (" + digits + ")";
      assert d[|name| + 2..|d| - 1] == digits;
      assert d[|name| + 2] == digits[0];
      d
    else name
  }

  /** `merge_processes`: one entry per distinct name, in order of first
      occurrence, each keeping its name as `original_name` and displaying
      the number of records that had it when there is more than one. */
  function Merge(records: seq<TaskRecord>): (r: seq<ProcessEntry>)
    ensures Distinct(OriginalNames(r))
    ensures forall x :: x in OriginalNames(r) <==> x in Names(records)
    ensures forall i, j :: 0 <= i < j < |r| ==>
      FirstIndex(Names(records), r[i].originalName) < FirstIndex(Names(records), r[j].originalName)
    ensures forall i :: 0 <= i < |r| ==>
      r[i].name == Display(r[i].originalName, multiset(Names(records))[r[i].originalName])
  {
    var g := GroupNames(Names(records));
    assert GroupsOf(g, Names(records));
    var r := seq(|g.order|, i requires 0 <= i < |g.order| =>
      ProcessEntry(Display(g.order[i], g.counts[g.order[i]]), g.order[i]));
    assert OriginalNames(r) == g.order;
    r
  }

  /** Merging yields no entry exactly when there is no record. */
  lemma MergeEmpty(records: seq<TaskRecord>)
    ensures Merge(records) == [] <==> records == []
  {
    if records != [] {
      assert Names(records)[0] in Names(records);
      assert Names(records)[0] in OriginalNames(Merge(records));
    }
  }

  /** The set of original names of a merged list. */
  function NameSet(entries: seq<ProcessEntry>): set<string> {
    set e | e in entries :: e.originalName
  }

  /** The set of original names holds exactly the names of the list of
      original names. */
  lemma NameSetOfOriginalNames(entries: seq<ProcessEntry>)
    ensures forall x :: x in OriginalNames(entries) <==> x in NameSet(entries)
  {
    forall x
      ensures x in OriginalNames(entries) <==> x in NameSet(entries)
    {
      if x in OriginalNames(entries) {
        var i :| 0 <= i < |entries| && OriginalNames(entries)[i] == x;
        assert entries[i] in entries;
      }
      if x in NameSet(entries) {
        var e :| e in entries && e.originalName == x;
        var i :| 0 <= i < |entries| && entries[i] == e;
        assert OriginalNames(entries)[i] == x;
      }
    }
  }

  /** `set(saved_processes_list)`: the baseline as a set. */
  function AsSet(list: seq<string>): (s: set<string>)
    ensures forall x :: x in s <==> x in list
  {
    set x | x in list
  }

  /** Writing out the original names of a snapshot records exactly its
      name set. */
  lemma SavedNameSet(entries: seq<ProcessEntry>)
    ensures AsSet(OriginalNames(entries)) == NameSet(entries)
  {
    NameSetOfOriginalNames(entries);
  }

  /** Merging changes neither which names are present nor, counted without
      repetition, how many there are. */
  lemma MergeNameSet(records: seq<TaskRecord>)
    ensures NameSet(Merge(records)) == set r | r in records :: r.name
    ensures |Merge(records)| == |NameSet(Merge(records))|
  {
    var m := Merge(records);
    EntriesNameSet(m, Names(records));
    NamesAsSet(records);
  }

  /** Entries whose original names are distinct and are exactly the
      elements of `names` have those elements as their name set, one entry
      per name. */
  lemma EntriesNameSet(entries: seq<ProcessEntry>, names: seq<string>)
    requires Distinct(OriginalNames(entries))
    requires forall x :: x in OriginalNames(entries) <==> x in names
    ensures NameSet(entries) == AsSet(names)
    ensures |entries| == |NameSet(entries)|
  {
    NameSetOfOriginalNames(entries);
    DistinctCard(OriginalNames(entries));
    assert NameSet(entries) == set x | x in OriginalNames(entries);
  }

  /** The names of the records, as a set. */
  lemma NamesAsSet(records: seq<TaskRecord>)
    ensures AsSet(Names(records)) == set r | r in records :: r.name
  {
    var names := Names(records);
    forall x | x in AsSet(names)
      ensures x in set r | r in records :: r.name
    {
      var k :| 0 <= k < |names| && names[k] == x;
      assert records[k] in records;
    }
    forall x | x in set r | r in records :: r.name
      ensures x in AsSet(names)
    {
      var rec :| rec in records && rec.name == x;
      var k :| 0 <= k < |records| && records[k] == rec;
      assert names[k] == x;
    }
  }

  /** A sequence without repetitions has as many elements as its set. */
  lemma {:induction false} DistinctCard(s: seq<string>)
    requires Distinct(s)
    ensures |set x | x in s| == |s|
  {
    if |s| > 0 {
      var t := s[1..];
      DistinctCard(t);
      assert (set x | x in s) == {s[0]} + (set x | x in t);
      assert s[0] !in t;
    }
  }
}
