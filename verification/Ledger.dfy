/**
 The ownership ledger of a Compose graph beside the Docker objects it names. An entry is recorded before its
 object is created and erased after its object is removed; the laws below say what each such step keeps.
 */
module Ledger {
  datatype Kind = Container | Network | Volume

  /** What Docker reports about one object. */
  datatype Object = Object(kind: Kind, name: string, id: string, owner: string, graph: string,
                           image: string, created: string)

  datatype Stable = Pending | Known(id: string)

  /** The image of a container, the creation time of a volume; unknown until a volume is observed. */
  datatype Expected = Unknown | Exactly(text: string)

  datatype Entry = Entry(kind: Kind, name: string, stable: Stable, expected: Expected, owner: string)

  /** Whose graph this is: the random owner token and the graph name, both put on every object as labels. */
  datatype Owner = Owner(token: string, graph: string)

  predicate Owned(o: Object, w: Owner) {
    o.owner == w.token
  }

  /** The entry's lookup, by identifier once known and by name before, finds this object. */
  predicate Resolves(e: Entry, o: Object) {
    && e.kind == o.kind
    && match e.stable
       case Pending => e.name == o.name
       case Known(id) => id == o.id
  }

  /** The checks made on an object before it is treated as the entry's. */
  predicate Matches(e: Entry, o: Object, w: Owner) {
    && o.owner == e.owner && o.graph == w.graph
    && match e.kind
       case Container => o.name == e.name && e.expected == Exactly(o.image)
       case Network => true
       case Volume => e.expected.Unknown? || e.expected == Exactly(o.created)
  }

  /** The entry after its object was observed. */
  function Observed(e: Entry, o: Object): Entry {
    match e.kind
    case Volume => e.(stable := Known(o.name), expected := Exactly(o.created))
    case _ => e.(stable := Known(o.id))
  }

  predicate Retained(e: Entry, credential: string) {
    e.kind.Volume? && e.name != credential && e.stable.Known?
  }

  // ----- states -----

  /** Docker's own rules, and that nobody else uses the owner's labels or reuses an identifier. */
  predicate World(d: set<Object>, used: set<string>, w: Owner) {
    && (forall a, b :: a in d && b in d && a.kind == b.kind && (a.name == b.name || a.id == b.id) ==> a == b)
    && (forall a :: a in d && a.kind.Volume? ==> a.id == a.name)
    && (forall a :: a in d && Owned(a, w) ==> a.graph == w.graph)
    && (forall a :: a in d && Owned(a, w) && !a.kind.Volume? ==> a.id in used)
  }

  ghost predicate Distinct(l: seq<Entry>) {
    forall i, j :: 0 <= i < j < |l| ==> l[i].kind != l[j].kind || l[i].name != l[j].name
  }

  /** What a new entry may expect: a container its image, a volume nothing yet. */
  predicate Expectable(kind: Kind, expected: Expected) {
    (kind.Container? ==> expected.Exactly?) && (kind.Volume? ==> expected.Unknown?)
  }

  ghost predicate EntryOk(e: Entry, used: set<string>, w: Owner) {
    && e.owner == w.token && (e.kind.Container? ==> e.expected.Exactly?)
    && (e.kind.Volume? && e.stable.Pending? ==> e.expected.Unknown?)
    && (e.kind.Volume? && e.stable.Known? ==> e.stable.id == e.name)
    && (!e.kind.Volume? && e.stable.Known? ==> e.stable.id in used)
  }

  ghost predicate LedgerOk(l: seq<Entry>, d: set<Object>, used: set<string>, w: Owner) {
    && Distinct(l)
    && (forall e :: e in l ==> EntryOk(e, used, w))
    && (forall e, o :: e in l && o in d && Owned(o, w) && Resolves(e, o) ==> e.name == o.name)
  }

  ghost predicate CoveredBy(o: Object, l: seq<Entry>) {
    exists e :: e in l && Resolves(e, o)
  }

  /** Main safety property: every object with the owner's label is found by an entry of the ledger. */
  ghost predicate Covered(d: set<Object>, l: seq<Entry>, w: Owner) {
    forall o :: o in d && Owned(o, w) ==> CoveredBy(o, l)
  }

  /** No entry's lookup finds an object that its checks would refuse. */
  ghost predicate Harmless(d: set<Object>, l: seq<Entry>, w: Owner) {
    forall e, o :: e in l && o in d && Resolves(e, o) ==> Matches(e, o, w)
  }

  /** Others may do anything to their own objects, but only remove the owner's. */
  predicate Interference(d: set<Object>, d': set<Object>, w: Owner) {
    forall o :: o in d' && Owned(o, w) ==> o in d
  }

  // ----- what the steps keep -----

  lemma InterferenceKeeps(l: seq<Entry>, d: set<Object>, d': set<Object>, used: set<string>, w: Owner)
    requires LedgerOk(l, d, used, w) && Interference(d, d', w)
    ensures LedgerOk(l, d', used, w)
    ensures Covered(d, l, w) ==> Covered(d', l, w)
  {
  }

  /** The entry that resolves to an owned object is unique. */
  lemma OneEntry(l: seq<Entry>, d: set<Object>, used: set<string>, w: Owner, o: Object, i: nat, j: nat)
    requires LedgerOk(l, d, used, w) && o in d && Owned(o, w) && i < |l| && j < |l|
    requires Resolves(l[i], o) && Resolves(l[j], o)
    ensures i == j
  {
    assert l[i] in l && l[j] in l;
  }

  /** Observing an entry changes how its object is looked up, not which object that is. */
  lemma ObservedResolves(d: set<Object>, used: set<string>, w: Owner, e: Entry, o: Object, p: Object)
    requires World(d, used, w) && o in d && p in d && Resolves(e, o) && Matches(e, o, w)
    ensures Resolves(Observed(e, o), p) <==> Resolves(e, p)
    ensures Resolves(Observed(e, o), p) ==> Matches(Observed(e, o), p, w)
  {
  }

  lemma ObservedOk(d: set<Object>, used: set<string>, w: Owner, e: Entry, o: Object)
    requires World(d, used, w) && o in d && Resolves(e, o) && Matches(e, o, w)
    requires EntryOk(e, used, w)
    requires e.kind.Volume? ==> o.name == e.name
    ensures EntryOk(Observed(e, o), used, w)
  {
  }

  lemma ObserveKeeps(l: seq<Entry>, i: nat, o: Object, d: set<Object>, used: set<string>, w: Owner)
    requires World(d, used, w) && LedgerOk(l, d, used, w)
    requires i < |l| && o in d && Resolves(l[i], o) && Matches(l[i], o, w)
    ensures var l' := l[i := Observed(l[i], o)];
      && LedgerOk(l', d, used, w)
      && (forall p :: p in d && Owned(p, w) ==> (CoveredBy(p, l') <==> CoveredBy(p, l)))
      && (Harmless(d, l, w) ==> Harmless(d, l', w))
  {
    var l' := l[i := Observed(l[i], o)];
    assert l[i] in l;
    ObservedOk(d, used, w, l[i], o);
    forall p | p in d
      ensures Resolves(l'[i], p) <==> Resolves(l[i], p)
      ensures Resolves(l'[i], p) ==> Matches(l'[i], p, w)
    {
      ObservedResolves(d, used, w, l[i], o, p);
    }
    forall p | p in d && Owned(p, w)
      ensures CoveredBy(p, l') <==> CoveredBy(p, l)
    {
      SameCover(l, l', i, p);
    }
    forall e | e in l'
      ensures EntryOk(e, used, w)
      ensures forall p :: p in d && Owned(p, w) && Resolves(e, p) ==> e.name == p.name
      ensures Harmless(d, l, w) ==> forall p :: p in d && Resolves(e, p) ==> Matches(e, p, w)
    {
      assert e == l'[i] || e in l;
    }
  }

  lemma SameCover(l: seq<Entry>, l': seq<Entry>, i: nat, p: Object)
    requires i < |l| == |l'| && l' == l[i := l'[i]] && (Resolves(l'[i], p) <==> Resolves(l[i], p))
    ensures CoveredBy(p, l') <==> CoveredBy(p, l)
  {
    if CoveredBy(p, l) {
      var e :| e in l && Resolves(e, p);
      var k :| 0 <= k < |l| && l[k] == e;
      assert l'[k] in l';
    }
    if CoveredBy(p, l') {
      var e :| e in l' && Resolves(e, p);
      var k :| 0 <= k < |l'| && l'[k] == e;
      assert l[k] in l;
    }
  }

  /** A new pending entry under a name the ledger does not hold. */
  lemma PushKeeps(l: seq<Entry>, e: Entry, d: set<Object>, used: set<string>, w: Owner)
    requires LedgerOk(l, d, used, w) && e.stable.Pending? && e.owner == w.token
    requires Expectable(e.kind, e.expected)
    requires forall x :: x in l ==> x.kind != e.kind || x.name != e.name
    ensures LedgerOk(l + [e], d, used, w)
    ensures Covered(d, l, w) ==> Covered(d, l + [e], w)
    ensures Harmless(d, l, w) && (forall o :: o in d ==> !Resolves(e, o)) ==> Harmless(d, l + [e], w)
  {
    assert forall x :: x in l ==> x in l + [e];
    forall o | o in d && Owned(o, w) && CoveredBy(o, l)
      ensures CoveredBy(o, l + [e])
    {
      var x :| x in l && Resolves(x, o);
      assert x in l + [e];
    }
  }

  /** Creating the object of a pending entry; its identifier was never used before. */
  lemma CreateKeeps(l: seq<Entry>, e: Entry, o: Object, d: set<Object>, used: set<string>, w: Owner)
    requires World(d, used, w) && LedgerOk(l, d, used, w)
    requires e in l && e.stable.Pending? && o.kind == e.kind && o.name == e.name
    requires o.owner == w.token && o.graph == w.graph
    requires if o.kind.Volume? then o.id == o.name else o.id !in used
    requires forall p :: p in d && p.kind == o.kind ==> p.name != o.name && p.id != o.id
    ensures World(d + {o}, used + {o.id}, w) && LedgerOk(l, d + {o}, used + {o.id}, w)
    ensures Covered(d, l, w) ==> Covered(d + {o}, l, w)
    ensures Harmless(d, l, w) && Matches(e, o, w) ==> Harmless(d + {o}, l, w)
  {
    assert Resolves(e, o);
    forall x | x in l && Resolves(x, o)
      ensures x == e
    {
      assert EntryOk(x, used, w);
      var i :| 0 <= i < |l| && l[i] == x;
      var j :| 0 <= j < |l| && l[j] == e;
      assert x.name == e.name;
    }
  }

  /** An object of the owner appears under an identifier never used before, whatever the ledger says by then. */
  lemma ArriveKeeps(l: seq<Entry>, o: Object, d: set<Object>, used: set<string>, w: Owner)
    requires World(d, used, w) && LedgerOk(l, d, used, w)
    requires o.owner == w.token && o.graph == w.graph
    requires if o.kind.Volume? then o.id == o.name else o.id !in used
    requires forall p :: p in d && p.kind == o.kind ==> p.name != o.name && p.id != o.id
    ensures World(d + {o}, used + {o.id}, w) && LedgerOk(l, d + {o}, used + {o.id}, w)
    ensures Covered(d + {o}, l, w) <==> Covered(d, l, w) && CoveredBy(o, l)
    ensures CoveredBy(o, l) <==> exists e :: e in l && Awaits(e, o)
  {
    forall e | e in l && Resolves(e, o)
      ensures Awaits(e, o) && e.name == o.name
    {
      assert EntryOk(e, used, w);
    }
    forall e | e in l && Awaits(e, o)
      ensures Resolves(e, o)
    {
      assert EntryOk(e, used, w);
    }
  }

  /** The entry stands for an object of this kind and name that has not been observed yet, or for a volume. */
  predicate Awaits(e: Entry, o: Object) {
    e.kind == o.kind && e.name == o.name && (e.stable.Pending? || e.kind.Volume?)
  }

  function Without(l: seq<Entry>, i: nat): seq<Entry>
    requires i < |l|
  {
    l[..i] + l[i + 1..]
  }

  lemma WithoutMember(l: seq<Entry>, i: nat, e: Entry)
    requires i < |l| && e in l && e != l[i]
    ensures e in Without(l, i)
  {
    var k :| 0 <= k < |l| && l[k] == e;
    if k < i {
      assert Without(l, i)[k] == e;
    } else {
      assert Without(l, i)[k - 1] == e;
    }
  }

  lemma WithoutSubset(l: seq<Entry>, i: nat, e: Entry)
    requires i < |l| && e in Without(l, i)
    ensures e in l
  {
  }

  /** Erasing an entry uncovers exactly the owned object it resolved to, if there is one. */
  lemma EraseUncovers(l: seq<Entry>, i: nat, o: Object, d: set<Object>, used: set<string>, w: Owner)
    requires LedgerOk(l, d, used, w) && i < |l| && o in d && Owned(o, w)
    ensures CoveredBy(o, Without(l, i)) <==> CoveredBy(o, l) && !Resolves(l[i], o)
  {
    if CoveredBy(o, l) && !Resolves(l[i], o) {
      var e :| e in l && Resolves(e, o);
      WithoutMember(l, i, e);
    }
    if CoveredBy(o, Without(l, i)) {
      StillCovered(l, i, o, d, used, w);
    }
  }

  lemma StillCovered(l: seq<Entry>, i: nat, o: Object, d: set<Object>, used: set<string>, w: Owner)
    requires LedgerOk(l, d, used, w) && i < |l| && o in d && Owned(o, w) && CoveredBy(o, Without(l, i))
    ensures CoveredBy(o, l) && !Resolves(l[i], o)
  {
    var e :| e in Without(l, i) && Resolves(e, o);
    var j := WithoutIndex(l, i, e);
    if Resolves(l[i], o) {
      OneEntry(l, d, used, w, o, i, j);
    }
  }

  lemma WithoutIndex(l: seq<Entry>, i: nat, e: Entry) returns (j: nat)
    requires i < |l| && e in Without(l, i)
    ensures j < |l| && j != i && l[j] == e
  {
    var k :| 0 <= k < |Without(l, i)| && Without(l, i)[k] == e;
    j := if k < i then k else k + 1;
  }

  lemma EraseKeeps(l: seq<Entry>, i: nat, d: set<Object>, used: set<string>, w: Owner)
    requires LedgerOk(l, d, used, w) && i < |l|
    ensures LedgerOk(Without(l, i), d, used, w)
    ensures Harmless(d, l, w) ==> Harmless(d, Without(l, i), w)
  {
    var l' := Without(l, i);
    forall e | e in l'
      ensures e in l
    {
      WithoutSubset(l, i, e);
    }
    forall a, b | 0 <= a < b < |l'|
      ensures l'[a].kind != l'[b].kind || l'[a].name != l'[b].name
    {
      var x, y := if a < i then a else a + 1, if b < i then b else b + 1;
      assert l'[a] == l[x] && l'[b] == l[y];
    }
  }

  lemma RemoveKeeps(l: seq<Entry>, o: Object, d: set<Object>, used: set<string>, w: Owner)
    requires World(d, used, w) && LedgerOk(l, d, used, w)
    ensures World(d - {o}, used, w) && LedgerOk(l, d - {o}, used, w)
    ensures Covered(d, l, w) ==> Covered(d - {o}, l, w)
    ensures Harmless(d, l, w) ==> Harmless(d - {o}, l, w)
  {
  }

  /** When only retained entries are left, so are only retained volumes: coverage makes cleanup complete. */
  lemma OnlyRetainedLeft(l: seq<Entry>, d: set<Object>, used: set<string>, w: Owner, credential: string)
    requires World(d, used, w) && LedgerOk(l, d, used, w) && Covered(d, l, w)
    requires forall e :: e in l ==> Retained(e, credential)
    ensures forall o :: o in d && Owned(o, w) ==> o.kind.Volume? && o.name != credential
  {
    forall o | o in d && Owned(o, w)
      ensures o.kind.Volume? && o.name != credential
    {
      assert CoveredBy(o, l);
      var e :| e in l && Resolves(e, o);
      assert EntryOk(e, used, w) && Retained(e, credential);
    }
  }

  // ----- lookups that fail -----

  /** Which of the lookups of a stop read as absence: those of the first pass and those before a removal. */
  datatype Lookups = Lookups(checks: seq<bool>, removals: seq<bool>)

  predicate Refused(script: seq<bool>, i: nat) {
    i < |script| && script[i]
  }

  /** Every object the entry resolves to passes its checks. */
  ghost predicate FitsIn(e: Entry, d: set<Object>, w: Owner) {
    forall o :: o in d && Resolves(e, o) ==> Matches(e, o, w)
  }

  /** Some entry's lookup finds an object with another owner's label. */
  ghost predicate Contests(e: Entry, d: set<Object>, w: Owner) {
    exists o :: o in d && Resolves(e, o) && o.owner != w.token
  }

  /** The removal loop passes over the entry of a present object: a volume, and not pending after the checks. */
  predicate Kept(e: Entry, refusedCheck: bool, credential: string) {
    e.kind.Volume? && e.name != credential && (e.stable.Known? || !refusedCheck)
  }

  /** The object's entry is due for removal and that removal's lookup is refused. */
  ghost predicate Abandoned(p: Object, l: seq<Entry>, lookups: Lookups, credential: string) {
    exists i :: 0 <= i < |l| && Resolves(l[i], p)
      && Refused(lookups.removals, i) && !Kept(l[i], Refused(lookups.checks, i), credential)
  }

  /** The same for entry i after the checks. */
  ghost predicate AbandonedAt(p: Object, l: seq<Entry>, removals: seq<bool>, credential: string, i: nat)
    requires i < |l|
  {
    Resolves(l[i], p) && Refused(removals, i) && !Retained(l[i], credential)
  }

  ghost predicate AbandonedFrom(p: Object, l: seq<Entry>, removals: seq<bool>, credential: string, n: nat) {
    exists i :: n <= i < |l| && AbandonedAt(p, l, removals, credential, i)
  }

  /** The removal of entry i takes the object away. */
  ghost predicate RemovedAt(p: Object, l: seq<Entry>, removals: seq<bool>, credential: string, i: nat)
    requires i < |l|
  {
    Resolves(l[i], p) && !Refused(removals, i) && !Retained(l[i], credential)
  }

  ghost predicate RemovedFrom(p: Object, l: seq<Entry>, removals: seq<bool>, credential: string, n: nat) {
    exists i :: n <= i < |l| && RemovedAt(p, l, removals, credential, i)
  }

  lemma FromStep(l: seq<Entry>, removals: seq<bool>, credential: string, n: nat)
    requires n < |l|
    ensures forall p {:trigger AbandonedFrom(p, l, removals, credential, n)} ::
      AbandonedFrom(p, l, removals, credential, n) ==
      (AbandonedFrom(p, l, removals, credential, n + 1) || AbandonedAt(p, l, removals, credential, n))
    ensures forall p {:trigger RemovedFrom(p, l, removals, credential, n)} ::
      RemovedFrom(p, l, removals, credential, n) ==
      (RemovedFrom(p, l, removals, credential, n + 1) || RemovedAt(p, l, removals, credential, n))
  {
  }

  /** The removal of entry i finds an object that is not the entry's. */
  ghost predicate Blocks(l: seq<Entry>, i: nat, d: set<Object>, w: Owner, removals: seq<bool>, credential: string)
    requires i < |l|
  {
    !Retained(l[i], credential) && !Refused(removals, i) && !FitsIn(l[i], d, w)
  }

  /** Where the removal loop, counting down from n, comes to an end. */
  ghost function Floor(l: seq<Entry>, n: nat, d: set<Object>, w: Owner, removals: seq<bool>, credential: string): (f: nat)
    requires n <= |l|
    ensures f <= n
    ensures f > 0 ==> Blocks(l, f - 1, d, w, removals, credential)
    ensures forall i :: f <= i < n ==> !Blocks(l, i, d, w, removals, credential)
  {
    if n == 0 then 0
    else if Blocks(l, n - 1, d, w, removals, credential) then n
    else Floor(l, n - 1, d, w, removals, credential)
  }

  /** Removing what other entries own does not change whether an entry blocks. */
  lemma FitsAgain(l: seq<Entry>, i: nat, d: set<Object>, d': set<Object>, used: set<string>, w: Owner,
                  removals: seq<bool>, credential: string)
    requires LedgerOk(l, d, used, w) && i < |l| && d' <= d
    requires forall k :: i < k < |l| ==> !Blocks(l, k, d, w, removals, credential)
    requires forall o :: o in d && o !in d' ==> RemovedFrom(o, l, removals, credential, i + 1)
    ensures FitsIn(l[i], d', w) <==> FitsIn(l[i], d, w)
  {
    forall o | o in d && Resolves(l[i], o) && o !in d'
      ensures false
    {
      assert RemovedFrom(o, l, removals, credential, i + 1);
      var k :| i + 1 <= k < |l| && RemovedAt(o, l, removals, credential, k);
      assert !Blocks(l, k, d, w, removals, credential) && l[k] in l;
      assert EntryOk(l[k], used, w) && Matches(l[k], o, w);
      OneEntry(l, d, used, w, o, i, k);
    }
  }

  // ----- a whole stop, in terms of the ledger it starts from -----

  /** What the first pass makes of an entry; `all` when nobody else acts meanwhile. */
  ghost predicate Checked(before: Entry, after: Entry, refused: bool, d: set<Object>, w: Owner, all: bool) {
    && after.kind == before.kind && after.name == before.name
    && (refused ==> after == before)
    && (before.stable.Known? ==> after.stable.Known?)
    && (forall p :: p in d && (all || Owned(p, w)) ==> (Resolves(after, p) <==> Resolves(before, p)))
    && (forall p :: p in d && Owned(p, w) && Resolves(before, p) && !refused ==> after.stable.Known?)
  }

  ghost predicate AllChecked(l: seq<Entry>, m: seq<Entry>, checks: seq<bool>, d: set<Object>, w: Owner, all: bool) {
    |l| == |m| && forall j :: 0 <= j < |l| ==> Checked(l[j], m[j], Refused(checks, j), d, w, all)
  }

  /** The unrefused lookups of the first pass would find only the entries' own objects. */
  ghost predicate ChecksPass(l: seq<Entry>, checks: seq<bool>, d: set<Object>, w: Owner) {
    forall j :: 0 <= j < |l| && !Refused(checks, j) ==> FitsIn(l[j], d, w)
  }

  /** An unrefused check of an entry that points at another owner's object fails. */
  lemma ContestedCheckFails(l: seq<Entry>, i: nat, checks: seq<bool>, d: set<Object>, used: set<string>, w: Owner)
    requires LedgerOk(l, d, used, w) && i < |l| && !Refused(checks, i) && Contests(l[i], d, w)
    ensures !ChecksPass(l, checks, d, w)
  {
    var o :| o in d && Resolves(l[i], o) && o.owner != w.token;
    assert l[i] in l && EntryOk(l[i], used, w);
    assert !Matches(l[i], o, w) && !FitsIn(l[i], d, w);
  }

  /** An entry whose check was refused, so that only its removal finds that its object is another's. */
  ghost predicate BlocksLate(l: seq<Entry>, i: nat, d: set<Object>, w: Owner, lookups: Lookups, credential: string)
    requires i < |l|
  {
    Refused(lookups.checks, i) && Blocks(l, i, d, w, lookups.removals, credential)
  }

  /** The object is due, its lookup is not refused, and no entry dealt with before it stops the loop. */
  ghost predicate TakenAway(p: Object, l: seq<Entry>, d: set<Object>, w: Owner, lookups: Lookups, credential: string) {
    exists i :: 0 <= i < |l| && TakenAt(p, l, lookups, credential, i)
      && forall j :: i <= j < |l| ==> !BlocksLate(l, j, d, w, lookups, credential)
  }

  ghost predicate TakenAt(p: Object, l: seq<Entry>, lookups: Lookups, credential: string, i: nat)
    requires i < |l|
  {
    && Resolves(l[i], p) && !Refused(lookups.removals, i)
    && !Kept(l[i], Refused(lookups.checks, i), credential)
  }

  lemma KeptIsRetained(l: seq<Entry>, m: seq<Entry>, i: nat, p: Object, d: set<Object>, w: Owner, checks: seq<bool>,
                       credential: string)
    requires AllChecked(l, m, checks, d, w, false) && i < |l| && p in d && Owned(p, w)
    ensures Resolves(m[i], p) <==> Resolves(l[i], p)
    ensures Resolves(l[i], p) ==> (Retained(m[i], credential) <==> Kept(l[i], Refused(checks, i), credential))
  {
    assert Checked(l[i], m[i], Refused(checks, i), d, w, false);
  }

  /** Which owned objects are abandoned can be told from the ledger before the checks. */
  lemma AbandonedBefore(l: seq<Entry>, m: seq<Entry>, p: Object, d: set<Object>, w: Owner, lookups: Lookups,
                        credential: string)
    requires AllChecked(l, m, lookups.checks, d, w, false) && p in d && Owned(p, w)
    ensures AbandonedFrom(p, m, lookups.removals, credential, 0) <==> Abandoned(p, l, lookups, credential)
  {
    forall i | 0 <= i < |l|
      ensures Resolves(m[i], p) <==> Resolves(l[i], p)
      ensures Resolves(l[i], p) ==> (Retained(m[i], credential) <==> Kept(l[i], Refused(lookups.checks, i), credential))
    {
      KeptIsRetained(l, m, i, p, d, w, lookups.checks, credential);
    }
    if AbandonedFrom(p, m, lookups.removals, credential, 0) {
      var i :| 0 <= i < |m| && AbandonedAt(p, m, lookups.removals, credential, i);
    }
    if Abandoned(p, l, lookups, credential) {
      var i :| 0 <= i < |l| && Resolves(l[i], p)
        && Refused(lookups.removals, i) && !Kept(l[i], Refused(lookups.checks, i), credential);
      assert AbandonedAt(p, m, lookups.removals, credential, i);
    }
  }

  /** Only an entry that was not checked can stop the removal loop. */
  lemma BlocksBefore(l: seq<Entry>, m: seq<Entry>, i: nat, d: set<Object>, w: Owner, lookups: Lookups, credential: string)
    requires AllChecked(l, m, lookups.checks, d, w, true) && ChecksPass(m, lookups.checks, d, w) && i < |l|
    ensures Blocks(m, i, d, w, lookups.removals, credential) <==> BlocksLate(l, i, d, w, lookups, credential)
  {
    assert Checked(l[i], m[i], Refused(lookups.checks, i), d, w, true);
  }

  lemma TakenAtBefore(l: seq<Entry>, m: seq<Entry>, p: Object, i: nat, d: set<Object>, used: set<string>, w: Owner,
                      lookups: Lookups, credential: string)
    requires LedgerOk(l, d, used, w) && AllChecked(l, m, lookups.checks, d, w, true)
    requires ChecksPass(l, lookups.checks, d, w) && p in d && i < |l|
    ensures RemovedAt(p, m, lookups.removals, credential, i) <==> TakenAt(p, l, lookups, credential, i)
  {
    assert Checked(l[i], m[i], Refused(lookups.checks, i), d, w, true) && l[i] in l;
    assert EntryOk(l[i], used, w);
  }

  /** What the loop removes, and where it stops, can be told from the ledger before the checks. */
  lemma TakenBefore(l: seq<Entry>, m: seq<Entry>, p: Object, d: set<Object>, used: set<string>, w: Owner,
                    lookups: Lookups, credential: string)
    requires LedgerOk(l, d, used, w) && AllChecked(l, m, lookups.checks, d, w, true) && p in d
    requires ChecksPass(l, lookups.checks, d, w) && ChecksPass(m, lookups.checks, d, w)
    ensures var floor := Floor(m, |m|, d, w, lookups.removals, credential);
      RemovedFrom(p, m, lookups.removals, credential, floor) <==> TakenAway(p, l, d, w, lookups, credential)
  {
    var floor := Floor(m, |m|, d, w, lookups.removals, credential);
    forall i | 0 <= i < |l|
      ensures Blocks(m, i, d, w, lookups.removals, credential) <==> BlocksLate(l, i, d, w, lookups, credential)
      ensures RemovedAt(p, m, lookups.removals, credential, i) <==> TakenAt(p, l, lookups, credential, i)
    {
      BlocksBefore(l, m, i, d, w, lookups, credential);
      TakenAtBefore(l, m, p, i, d, used, w, lookups, credential);
    }
    if TakenAway(p, l, d, w, lookups, credential) {
      var i :| 0 <= i < |l| && TakenAt(p, l, lookups, credential, i)
        && forall j :: i <= j < |l| ==> !BlocksLate(l, j, d, w, lookups, credential);
      assert floor > 0 ==> BlocksLate(l, floor - 1, d, w, lookups, credential);
      assert RemovedAt(p, m, lookups.removals, credential, i);
    }
    if RemovedFrom(p, m, lookups.removals, credential, floor) {
      var i :| floor <= i < |m| && RemovedAt(p, m, lookups.removals, credential, i);
      assert TakenAt(p, l, lookups, credential, i);
      forall j | i <= j < |l|
        ensures !BlocksLate(l, j, d, w, lookups, credential)
      {
        assert !Blocks(m, j, d, w, lookups.removals, credential);
      }
    }
  }

  lemma AllCheckedOwned(l: seq<Entry>, m: seq<Entry>, checks: seq<bool>, d: set<Object>, w: Owner, all: bool)
    requires AllChecked(l, m, checks, d, w, all)
    ensures AllChecked(l, m, checks, d, w, false)
  {
    forall j | 0 <= j < |l|
      ensures Checked(l[j], m[j], Refused(checks, j), d, w, false)
    {
      assert Checked(l[j], m[j], Refused(checks, j), d, w, all);
    }
  }

  /** What is abandoned is not removed by another entry. */
  lemma AbandonedStays(l: seq<Entry>, p: Object, d: set<Object>, used: set<string>, w: Owner, removals: seq<bool>,
                       credential: string)
    requires LedgerOk(l, d, used, w) && p in d && Owned(p, w) && AbandonedFrom(p, l, removals, credential, 0)
    ensures !RemovedFrom(p, l, removals, credential, 0)
  {
    var i :| 0 <= i < |l| && AbandonedAt(p, l, removals, credential, i);
    forall k | 0 <= k < |l| && Resolves(l[k], p)
      ensures k == i
    {
      OneEntry(l, d, used, w, p, i, k);
    }
  }
}
