/**
 Envelope attributes: a hash map enumerated in an unspecified order, sorted by key before it is written.
 */
module Attributes {
  import opened Bytes

  datatype Record = Record(key: Text, value: Text)

  /** `std::string` order: bytewise and unsigned, a proper prefix first. */
  predicate Less(a: Text, b: Text) {
    b != [] && (a == [] || a[0] < b[0] || (a[0] == b[0] && Less(a[1..], b[1..])))
  }

  lemma {:induction false} LessTotal(a: Text, b: Text)
    ensures Less(a, b) || a == b || Less(b, a)
    ensures !(Less(a, b) && (a == b || Less(b, a)))
  {
    if a != [] && b != [] {
      LessTotal(a[1..], b[1..]);
      assert a == [a[0]] + a[1..] && b == [b[0]] + b[1..];
    }
  }

  lemma {:induction false} LessTransitive(a: Text, b: Text, c: Text)
    requires Less(a, b) && Less(b, c)
    ensures Less(a, c)
  {
    if a != [] && a[0] == b[0] == c[0] {
      LessTransitive(a[1..], b[1..], c[1..]);
    }
  }

  ghost predicate DistinctKeys(records: seq<Record>) {
    forall i, j :: 0 <= i < j < |records| ==> records[i].key != records[j].key
  }

  ghost predicate StrictlySorted(records: seq<Record>) {
    forall i, j :: 0 <= i < j < |records| ==> Less(records[i].key, records[j].key)
  }

  /** The hash map that inserting the records builds. */
  function AsMap(records: seq<Record>): (m: map<Text, Text>)
    ensures forall k :: k in m <==> exists i :: 0 <= i < |records| && records[i].key == k
  {
    if records == [] then map[]
    else
      var last := records[|records| - 1];
      AsMap(records[..|records| - 1])[last.key := last.value]
  }

  lemma {:induction false} AsMapAt(records: seq<Record>, i: nat)
    requires DistinctKeys(records) && i < |records|
    ensures records[i].key in AsMap(records) && AsMap(records)[records[i].key] == records[i].value
  {
    if i < |records| - 1 {
      AsMapAt(records[..|records| - 1], i);
    }
  }

  /** `records` lists every pair of the map once, in some order. */
  ghost predicate Enumerates(records: seq<Record>, m: map<Text, Text>) {
    DistinctKeys(records) && AsMap(records) == m
  }

  lemma {:induction false} EnumerationSize(records: seq<Record>)
    requires DistinctKeys(records)
    ensures |AsMap(records)| == |records|
  {
    if records != [] {
      EnumerationSize(records[..|records| - 1]);
    }
  }

  /** Wire bytes of the records: two length prefixes and two texts each. */
  function RecordBytes(records: seq<Record>): nat {
    if records == [] then 0
    else RecordBytes(records[..|records| - 1]) + 8
         + |records[|records| - 1].key| + |records[|records| - 1].value|
  }

  lemma {:induction false} RecordBytesSplit(a: seq<Record>, b: seq<Record>)
    ensures RecordBytes(a + b) == RecordBytes(a) + RecordBytes(b)
  {
    if b == [] {
      assert a + b == a;
    } else {
      RecordBytesSplit(a, b[..|b| - 1]);
      assert (a + b)[..|a + b| - 1] == a + b[..|b| - 1];
    }
  }

  // ----- sorting -----

  /** Position of the first record not below `key`. */
  function Slot(sorted: seq<Record>, key: Text): (p: nat)
    ensures p <= |sorted|
    ensures forall i :: 0 <= i < p ==> Less(sorted[i].key, key)
    ensures p < |sorted| ==> !Less(sorted[p].key, key)
  {
    if sorted == [] || !Less(sorted[0].key, key) then 0 else 1 + Slot(sorted[1..], key)
  }

  function Insert(sorted: seq<Record>, r: Record): (result: seq<Record>)
    ensures |result| == |sorted| + 1
  {
    var p := Slot(sorted, r.key);
    sorted[..p] + [r] + sorted[p..]
  }

  function Sort(records: seq<Record>): (result: seq<Record>)
    ensures |result| == |records|
  {
    if records == [] then []
    else Insert(Sort(records[..|records| - 1]), records[|records| - 1])
  }

  ghost predicate Contains(records: seq<Record>, r: Record) {
    exists i :: 0 <= i < |records| && records[i] == r
  }

  ghost predicate FreshKey(records: seq<Record>, key: Text) {
    forall i :: 0 <= i < |records| ==> records[i].key != key
  }

  lemma InsertSorted(sorted: seq<Record>, r: Record)
    requires StrictlySorted(sorted) && FreshKey(sorted, r.key)
    ensures StrictlySorted(Insert(sorted, r))
  {
    var p := Slot(sorted, r.key);
    forall i | p <= i < |sorted| ensures Less(r.key, sorted[i].key) {
      LessTotal(r.key, sorted[p].key);
      if p < i {
        LessTransitive(r.key, sorted[p].key, sorted[i].key);
      }
    }
  }

  lemma InsertContains(sorted: seq<Record>, r: Record, x: Record)
    ensures Contains(Insert(sorted, r), x) <==> x == r || Contains(sorted, x)
  {
    var p := Slot(sorted, r.key);
    var result := Insert(sorted, r);
    if Contains(sorted, x) {
      var i :| 0 <= i < |sorted| && sorted[i] == x;
      assert result[if i < p then i else i + 1] == x;
    }
    assert result[p] == r;
  }

  lemma InsertBytes(sorted: seq<Record>, r: Record)
    ensures RecordBytes(Insert(sorted, r)) == RecordBytes(sorted) + RecordBytes([r])
  {
    var p := Slot(sorted, r.key);
    RecordBytesSplit(sorted[..p], [r]);
    RecordBytesSplit(sorted[..p] + [r], sorted[p..]);
    RecordBytesSplit(sorted[..p], sorted[p..]);
    assert sorted == sorted[..p] + sorted[p..];
  }

  lemma ContainsAppend(front: seq<Record>, last: Record, x: Record)
    ensures Contains(front + [last], x) <==> Contains(front, x) || x == last
  {
    var all := front + [last];
    assert all[|front|] == last && forall i :: 0 <= i < |front| ==> all[i] == front[i];
  }

  lemma {:induction false} SortCorrect(records: seq<Record>)
    requires DistinctKeys(records)
    ensures StrictlySorted(Sort(records))
    ensures forall x :: Contains(Sort(records), x) <==> Contains(records, x)
    ensures RecordBytes(Sort(records)) == RecordBytes(records)
  {
    if records != [] {
      var front, last := records[..|records| - 1], records[|records| - 1];
      SortCorrect(front);
      var sorted := Sort(front);
      forall i | 0 <= i < |sorted| ensures sorted[i].key != last.key {
        assert Contains(sorted, sorted[i]);
      }
      InsertSorted(sorted, last);
      InsertBytes(sorted, last);
      LastSplit(records);
      RecordBytesSplit(front, [last]);
      forall x ensures Contains(Sort(records), x) <==> Contains(records, x) {
        ContainsAppend(front, last, x);
        InsertContains(sorted, last, x);
      }
    }
  }

  lemma SortedDistinct(records: seq<Record>)
    requires StrictlySorted(records)
    ensures DistinctKeys(records)
  {
    forall i, j | 0 <= i < j < |records| ensures records[i].key != records[j].key {
      LessTotal(records[i].key, records[j].key);
    }
  }

  /** Same pairs with distinct keys: same map. */
  lemma SameContentsSameMap(a: seq<Record>, b: seq<Record>)
    requires DistinctKeys(a) && DistinctKeys(b)
    requires forall x :: Contains(a, x) <==> Contains(b, x)
    ensures AsMap(a) == AsMap(b)
  {
    forall k | k in AsMap(a) ensures k in AsMap(b) && AsMap(a)[k] == AsMap(b)[k] {
      var i :| 0 <= i < |a| && a[i].key == k;
      assert Contains(a, a[i]);
      var j :| 0 <= j < |b| && b[j] == a[i];
      AsMapAt(a, i);
      AsMapAt(b, j);
    }
    forall k | k in AsMap(b) ensures k in AsMap(a) {
      var j :| 0 <= j < |b| && b[j].key == k;
      assert Contains(b, b[j]);
      var i :| 0 <= i < |a| && a[i] == b[j];
      AsMapAt(a, i);
    }
  }

  lemma MapContains(records: seq<Record>, m: map<Text, Text>, x: Record)
    requires Enumerates(records, m)
    ensures Contains(records, x) <==> x.key in m && m[x.key] == x.value
  {
    if Contains(records, x) {
      var i :| 0 <= i < |records| && records[i] == x;
      AsMapAt(records, i);
    }
    if x.key in m && m[x.key] == x.value {
      var i :| 0 <= i < |records| && records[i].key == x.key;
      AsMapAt(records, i);
    }
  }

  /** Two sorted listings of one map are the same listing. */
  lemma {:induction false} SortedUnique(a: seq<Record>, b: seq<Record>)
    requires StrictlySorted(a) && StrictlySorted(b)
    requires forall x :: Contains(a, x) <==> Contains(b, x)
    ensures a == b
  {
    if a == [] {
      if b != [] {
        assert Contains(b, b[0]);
      }
    } else {
      assert Contains(a, a[0]);
      assert b != [];
      assert Contains(b, b[0]);
      HeadIsLeast(a, b);
      HeadIsLeast(b, a);
      LessTotal(a[0].key, b[0].key);
      SortedDistinct(a);
      SortedDistinct(b);
      var i :| 0 <= i < |a| && a[i] == b[0];
      var j :| 0 <= j < |b| && b[j] == a[0];
      assert a[0] == b[0];
      forall x ensures Contains(a[1..], x) <==> Contains(b[1..], x) {
        TailContains(a, x);
        TailContains(b, x);
      }
      SortedUnique(a[1..], b[1..]);
      assert a == [a[0]] + a[1..] && b == [b[0]] + b[1..];
    }
  }

  lemma HeadIsLeast(a: seq<Record>, b: seq<Record>)
    requires StrictlySorted(a) && a != [] && b != []
    requires Contains(a, b[0])
    ensures a[0] == b[0] || Less(a[0].key, b[0].key)
  {
    var i :| 0 <= i < |a| && a[i] == b[0];
  }

  lemma TailContains(a: seq<Record>, x: Record)
    requires StrictlySorted(a) && a != []
    ensures Contains(a[1..], x) <==> Contains(a, x) && x != a[0]
  {
    SortedDistinct(a);
    if Contains(a, x) && x != a[0] {
      var i :| 0 <= i < |a| && a[i] == x;
      assert a[1..][i - 1] == x;
    }
    if Contains(a[1..], x) {
      var i :| 0 <= i < |a[1..]| && a[1..][i] == x;
      assert a[i + 1] == x;
    }
  }

  // ----- the canonical listing -----

  ghost function Listing(m: map<Text, Text>): (records: seq<Record>)
    ensures Enumerates(records, m)
  {
    if m == map[] then []
    else
      var k :| k in m;
      var rest := Listing(m - {k});
      OneMoreRecord(rest, m, k);
      rest + [Record(k, m[k])]
  }

  lemma PutBack(m: map<Text, Text>, k: Text)
    requires k in m
    ensures (m - {k})[k := m[k]] == m
  {
  }

  lemma FreshAppend(rest: seq<Record>, r: Record)
    requires DistinctKeys(rest) && r.key !in AsMap(rest)
    ensures DistinctKeys(rest + [r]) && AsMap(rest + [r]) == AsMap(rest)[r.key := r.value]
  {
    assert (rest + [r])[..|rest|] == rest;
    forall i | 0 <= i < |rest|
      ensures rest[i].key != r.key
    {
      AsMapAt(rest, i);
    }
  }

  lemma OneMoreRecord(rest: seq<Record>, m: map<Text, Text>, k: Text)
    requires k in m && Enumerates(rest, m - {k})
    ensures Enumerates(rest + [Record(k, m[k])], m)
  {
    FreshAppend(rest, Record(k, m[k]));
    PutBack(m, k);
  }

  /** The map's pairs in increasing key order. */
  ghost function Canonical(m: map<Text, Text>): (records: seq<Record>) {
    Sort(Listing(m))
  }

  lemma CanonicalCorrect(m: map<Text, Text>)
    ensures StrictlySorted(Canonical(m)) && Enumerates(Canonical(m), m)
    ensures |Canonical(m)| == |m|
  {
    SortCorrect(Listing(m));
    SortedDistinct(Canonical(m));
    SameContentsSameMap(Canonical(m), Listing(m));
    EnumerationSize(Canonical(m));
  }

  /** Sorting any enumeration of the hash map gives the one canonical listing. */
  lemma SortIgnoresEnumerationOrder(records: seq<Record>, m: map<Text, Text>)
    requires Enumerates(records, m)
    ensures Sort(records) == Canonical(m)
    ensures RecordBytes(records) == RecordBytes(Canonical(m))
    ensures |records| == |m|
  {
    SortCorrect(records);
    SortCorrect(Listing(m));
    forall x ensures Contains(Sort(records), x) <==> Contains(Canonical(m), x) {
      MapContains(records, m, x);
      MapContains(Listing(m), m, x);
    }
    SortedUnique(Sort(records), Canonical(m));
    EnumerationSize(records);
  }

  /** Records already in key order are the canonical listing of the map they build, and only those are. */
  lemma CanonicalIffSorted(records: seq<Record>)
    requires DistinctKeys(records)
    ensures Canonical(AsMap(records)) == records <==> StrictlySorted(records)
  {
    var m := AsMap(records);
    CanonicalCorrect(m);
    if StrictlySorted(records) {
      forall x ensures Contains(records, x) <==> Contains(Canonical(m), x) {
        MapContains(records, m, x);
        MapContains(Canonical(m), m, x);
      }
      SortedUnique(records, Canonical(m));
    }
  }
}
