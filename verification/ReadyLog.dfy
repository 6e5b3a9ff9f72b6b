/**
 The readiness marker of an application: a line of its log that says exactly `ready node=<name>`. The search
 skips past every occurrence of the marker that is not a whole line.
 */
module ReadyLog {
  function Marker(name: string): (m: string)
    ensures |m| > 11 || name == ""
    ensures m != [] && m[0] == 'r'
  {
    "ready node=" + name
  }

  predicate At(log: string, m: string, i: nat) {
    i + |m| <= |log| && log[i..i + |m|] == m
  }

  predicate LineAt(log: string, m: string, i: nat) {
    && At(log, m, i)
    && (i == 0 || log[i - 1] == '\n')
    && (i + |m| == |log| || log[i + |m|] == '\n')
  }

  ghost predicate HasLine(log: string, m: string) {
    exists i: nat :: LineAt(log, m, i)
  }

  // ----- the search -----

  /** `find`: the first occurrence from an offset on, or the length of the log plus one when there is none. */
  function First(log: string, m: string, from: nat): (i: nat)
    requires from <= |log|
    ensures i <= |log| ==> i >= from && At(log, m, i)
    ensures forall k :: from <= k < i ==> !At(log, m, k)
    ensures from <= i <= |log| + 1
    decreases |log| - from
  {
    if At(log, m, from) then from
    else if from == |log| then |log| + 1
    else First(log, m, from + 1)
  }

  function Scan(log: string, m: string, offset: nat): bool
    requires m != [] && offset <= |log|
    decreases |log| - offset
  {
    var i := First(log, m, offset);
    i <= |log| && (LineAt(log, m, i) || Scan(log, m, i + |m|))
  }

  method Find(log: string, m: string, from: nat) returns (i: nat)
    requires from <= |log|
    ensures i == First(log, m, from)
  {
    i := from;
    while i <= |log| && !At(log, m, i)
      invariant from <= i <= |log| + 1
      invariant i <= |log| ==> First(log, m, from) == First(log, m, i)
      invariant i == |log| + 1 ==> First(log, m, from) == |log| + 1
    {
      i := i + 1;
    }
  }

  /** `application_ready` is the scan from the start of the log. */
  method ApplicationReady(log: string, name: string) returns (ready: bool)
    ensures ready == Scan(log, Marker(name), 0)
    ensures ready ==> HasLine(log, Marker(name))
    ensures !NewlineBorder(Marker(name)) ==> (ready <==> HasLine(log, Marker(name)))
  {
    var m := Marker(name);
    ready := ScanLog(log, m);
    ScanSound(log, m, 0);
    if !NewlineBorder(m) {
      ScanComplete(log, m);
    }
  }

  method ScanLog(log: string, m: string) returns (ready: bool)
    requires m != []
    ensures ready == Scan(log, m, 0)
  {
    var offset := 0;
    while true
      invariant offset <= |log| && Scan(log, m, 0) == Scan(log, m, offset)
      decreases |log| - offset
    {
      var i := Find(log, m, offset);
      if i > |log| {
        return false;
      }
      if LineAt(log, m, i) {
        return true;
      }
      offset := i + |m|;
    }
  }

  // ----- when the search finds every line -----

  lemma {:induction false} ScanSound(log: string, m: string, offset: nat)
    requires m != [] && offset <= |log|
    ensures Scan(log, m, offset) ==> HasLine(log, m)
    decreases |log| - offset
  {
    var i := First(log, m, offset);
    if i <= |log| && !LineAt(log, m, i) {
      ScanSound(log, m, i + |m|);
    }
  }

  /** The text behind one of its newlines is a beginning of the whole text. */
  predicate BorderAt(m: string, k: nat) {
    0 < k < |m| && m[k - 1] == '\n' && m[k..] == m[..|m| - k]
  }

  ghost predicate NewlineBorder(m: string) {
    exists k: nat :: BorderAt(m, k)
  }

  /** A line that starts inside another occurrence of the marker needs such a border. */
  lemma OverlapIsBorder(log: string, m: string, o: nat, i: nat)
    requires At(log, m, o) && LineAt(log, m, i) && o < i < o + |m|
    ensures BorderAt(m, i - o)
  {
    var k := i - o;
    assert m[k - 1] == log[o..o + |m|][k - 1] == log[i - 1];
    forall j | 0 <= j < |m| - k
      ensures m[k..][j] == m[..|m| - k][j]
    {
      assert m[k + j] == log[o..o + |m|][k + j] == log[i + j];
      assert m[j] == log[i..i + |m|][j] == log[i + j];
    }
  }

  lemma NoOverlap(log: string, m: string, o: nat, i: nat)
    requires !NewlineBorder(m) && At(log, m, o) && LineAt(log, m, i) && i > o
    ensures i >= o + |m|
  {
    if i < o + |m| {
      OverlapIsBorder(log, m, o, i);
    }
  }

  lemma {:induction false} ScanFinds(log: string, m: string, offset: nat, i: nat)
    requires m != [] && offset <= i && LineAt(log, m, i) && !NewlineBorder(m)
    ensures Scan(log, m, offset)
    decreases |log| - offset
  {
    var first := First(log, m, offset);
    assert first <= i;
    if first < i && !LineAt(log, m, first) {
      NoOverlap(log, m, first, i);
      ScanFinds(log, m, first + |m|, i);
    }
  }

  lemma ScanComplete(log: string, m: string)
    requires m != [] && !NewlineBorder(m)
    ensures Scan(log, m, 0) <==> HasLine(log, m)
  {
    ScanSound(log, m, 0);
    if HasLine(log, m) {
      var i: nat :| LineAt(log, m, i);
      ScanFinds(log, m, 0, i);
    }
  }

  /** A log in which the line is there but hidden behind an overlapping occurrence. */
  function HidingLog(m: string, k: nat): string
    requires k <= |m|
  {
    "z" + m[..k] + m
  }

  lemma HiddenLine(m: string, k: nat)
    requires BorderAt(m, k)
    ensures LineAt(HidingLog(m, k), m, 1 + k)
  {
    var log := HidingLog(m, k);
    assert log[1 + k..1 + k + |m|] == m && log[k] == m[k - 1];
  }

  lemma HidingOccurrence(m: string, k: nat)
    requires BorderAt(m, k) && m[0] != 'z'
    ensures var log := HidingLog(m, k);
      !At(log, m, 0) && At(log, m, 1) && !LineAt(log, m, 1)
  {
    var log := HidingLog(m, k);
    assert m == m[..k] + m[k..] == m[..k] + m[..|m| - k];
    assert log[1..1 + |m|] == m;
    assert log[0..|m|][0] == 'z';
  }

  lemma BorderHides(m: string, k: nat)
    requires BorderAt(m, k) && m[0] != 'z'
    ensures HasLine(HidingLog(m, k), m) && !Scan(HidingLog(m, k), m, 0)
  {
    var log := HidingLog(m, k);
    HiddenLine(m, k);
    HidingOccurrence(m, k);
    assert First(log, m, 0) == 1;
    assert First(log, m, 1 + |m|) > |log|;
  }

  /**
   Main result: readiness means that some whole line is the marker, for every log, exactly when the marker
   does not begin again behind one of its own newlines.
   */
  lemma ReadyExact(name: string)
    ensures (forall log :: Scan(log, Marker(name), 0) <==> HasLine(log, Marker(name))) <==> !NewlineBorder(Marker(name))
  {
    var m := Marker(name);
    if NewlineBorder(m) {
      var k :| BorderAt(m, k);
      BorderHides(m, k);
    } else {
      forall log
        ensures Scan(log, m, 0) <==> HasLine(log, m)
      {
        ScanComplete(log, m);
      }
    }
  }

  /** The failing family is not empty: a name that repeats the marker on a second line. */
  lemma HiddenName()
    ensures var m := Marker("a\nready node=a");
      NewlineBorder(m) && exists log :: HasLine(log, m) && !Scan(log, m, 0)
  {
    var m := Marker("a\nready node=a");
    assert m[12] == '\n' && m[13..] == m[..12];
    assert BorderAt(m, 13);
    BorderHides(m, 13);
  }

  // ----- lines -----

  function LineEnd(log: string): (k: nat)
    ensures k <= |log| && (k < |log| ==> log[k] == '\n')
    ensures forall i :: 0 <= i < k ==> log[i] != '\n'
  {
    if log == "" || log[0] == '\n' then 0 else 1 + LineEnd(log[1..])
  }

  function Lines(log: string): seq<string> {
    var k := LineEnd(log);
    if k == |log| then [log] else [log[..k]] + Lines(log[k + 1..])
  }

  /** Without a newline in the name, readiness says that the marker is one of the lines of the log. */
  lemma ReadyIsALine(log: string, name: string)
    requires '\n' !in name
    ensures Scan(log, Marker(name), 0) <==> Marker(name) in Lines(log)
  {
    var m := Marker(name);
    assert !NewlineBorder(m);
    ScanComplete(log, m);
    LineInLines(log, m);
  }

  lemma {:induction false} LineInLines(log: string, m: string)
    requires '\n' !in m && m != []
    ensures HasLine(log, m) <==> m in Lines(log)
    decreases |log|
  {
    var k := LineEnd(log);
    FirstLine(log, m);
    if k == |log| {
      assert log[..|log|] == log;
      forall i: nat | LineAt(log, m, i)
        ensures i == 0
      {
      }
    } else {
      LineInLines(log[k + 1..], m);
      if HasLine(log[k + 1..], m) {
        var i: nat :| LineAt(log[k + 1..], m, i);
        ShiftedLine(log, m, k, i);
      }
      forall i: nat | i > 0 && LineAt(log, m, i)
        ensures HasLine(log[k + 1..], m)
      {
        LaterLine(log, m, k, i);
      }
    }
  }

  lemma FirstLine(log: string, m: string)
    requires '\n' !in m && m != []
    ensures LineAt(log, m, 0) <==> m == log[..LineEnd(log)]
  {
    var k := LineEnd(log);
    if LineAt(log, m, 0) {
      assert forall j :: 0 <= j < |m| ==> log[j] == log[0..|m|][j] == m[j];
    }
  }

  lemma ShiftedLine(log: string, m: string, k: nat, i: nat)
    requires k < |log| && log[k] == '\n'
    ensures LineAt(log[k + 1..], m, i) <==> LineAt(log, m, i + k + 1)
  {
    var rest := log[k + 1..];
    if i + |m| <= |rest| {
      assert rest[i..i + |m|] == log[i + k + 1..i + k + 1 + |m|];
    }
  }

  lemma LaterLine(log: string, m: string, k: nat, i: nat)
    requires k < |log| && log[k] == '\n' && (forall j :: 0 <= j < k ==> log[j] != '\n')
    requires i > 0 && LineAt(log, m, i)
    ensures i >= k + 1 && LineAt(log[k + 1..], m, i - k - 1)
  {
    ShiftedLine(log, m, k, i - k - 1);
  }
}
