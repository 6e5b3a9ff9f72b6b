/** Writing a byte string to a descriptor that may take any part of it, ask to retry, or fail. */
module PartialWrites {
  import opened Bytes

  datatype WriteEvent = WriteRetry | Wrote(count: nat) | WriteError

  function Clamp(count: nat, limit: nat): (n: nat)
    requires limit > 0
    ensures 1 <= n <= limit
  {
    if count == 0 then 1 else if count > limit then limit else count
  }

  /** The descriptor never fails and, between retries, takes something often enough for this many bytes. */
  predicate Smooth(script: seq<WriteEvent>, size: nat) {
    Writes(script) >= size && NoError(script)
  }

  predicate NoError(script: seq<WriteEvent>) {
    forall i :: 0 <= i < |script| ==> !script[i].WriteError?
  }

  function Writes(script: seq<WriteEvent>): nat {
    if script == [] then 0 else Writes(script[..|script| - 1]) + if script[|script| - 1].Wrote? then 1 else 0
  }

  lemma WritesStep(script: seq<WriteEvent>, i: nat)
    requires i < |script|
    ensures Writes(script[..i + 1]) == Writes(script[..i]) + if script[i].Wrote? then 1 else 0
  {
    assert script[..i + 1][..i] == script[..i];
  }

  /** How many of `size` bytes the first n events take, and whether one of them was an error that ended the call. */
  function Taken(script: seq<WriteEvent>, n: nat, size: nat): (r: (nat, bool))
    requires n <= |script|
    ensures r.0 <= size
  {
    if n == 0 then (0, false)
    else
      var (taken, failed) := Taken(script, n - 1, size);
      if failed || taken == size then (taken, failed)
      else
        match script[n - 1]
        case WriteRetry => (taken, false)
        case Wrote(count) => (taken + Clamp(count, size - taken), false)
        case WriteError => (taken, true)
  }

  /** The descriptor takes everything. */
  predicate TakesAll(script: seq<WriteEvent>, size: nat) {
    Taken(script, |script|, size).0 == size
  }

  lemma {:induction false} TakenStays(script: seq<WriteEvent>, i: nat, n: nat, size: nat)
    requires i <= n <= |script| && (Taken(script, i, size).1 || Taken(script, i, size).0 == size)
    ensures Taken(script, n, size) == Taken(script, i, size)
    decreases n - i
  {
    if i < n {
      TakenStays(script, i + 1, n, size);
    }
  }

  lemma {:induction false} SmoothTakes(script: seq<WriteEvent>, n: nat, size: nat)
    requires n <= |script| && NoError(script)
    ensures !Taken(script, n, size).1
    ensures Taken(script, n, size).0 >= size || Taken(script, n, size).0 >= Writes(script[..n])
  {
    if n > 0 {
      SmoothTakes(script, n - 1, size);
      WritesStep(script, n - 1);
    }
  }

  lemma MoveOn(wire: seq<Byte>, bytes: seq<Byte>, done: nat, n: nat)
    requires done + n <= |bytes|
    ensures wire + bytes[..done] + bytes[done..][..n] == wire + bytes[..done + n]
  {
    SliceOfRest(bytes, done, n);
    assert bytes[..done] + bytes[done..done + n] == bytes[..done + n];
    Associative(wire, bytes[..done], bytes[done..done + n]);
  }

  lemma PrefixWritten(wire: seq<Byte>, bytes: seq<Byte>, done: nat)
    requires done <= |bytes|
    ensures var w := wire + bytes[..done];
      wire <= w && w[|wire|..] <= bytes && |w| == |wire| + done && (done == |bytes| <==> w == wire + bytes)
  {
    WholeSlice(bytes);
  }

  /** Writes until everything is taken, an error comes or the script ends. */
  method WriteSome(wire: seq<Byte>, bytes: seq<Byte>, script: seq<WriteEvent>)
    returns (done: nat, wire': seq<Byte>)
    ensures done == Taken(script, |script|, |bytes|).0 && wire' == wire + bytes[..done]
  {
    wire', done := wire, 0;
    var i := 0;
    while done < |bytes|
      invariant i <= |script| && done <= |bytes|
      invariant Taken(script, i, |bytes|) == (done, false)
      invariant wire' == wire + bytes[..done]
      decreases |script| - i
    {
      if i == |script| {
        return;
      }
      match script[i] {
        case WriteRetry =>
        case WriteError =>
          TakenStays(script, i + 1, |script|, |bytes|);
          return;
        case Wrote(count) =>
          var rest := bytes[done..];
          var sent := Clamp(count, |rest|);
          MoveOn(wire, bytes, done, sent);
          wire', done := wire' + rest[..sent], done + sent;
      }
      i := i + 1;
    }
    TakenStays(script, i, |script|, |bytes|);
  }

  /** `write_all`: what reached the descriptor is a prefix, and the call fails exactly when it is proper. */
  method WriteAll(wire: seq<Byte>, bytes: seq<Byte>, script: seq<WriteEvent>)
    returns (ok: bool, wire': seq<Byte>)
    ensures wire <= wire' && wire'[|wire|..] <= bytes
    ensures ok <==> wire' == wire + bytes
    ensures |wire'| == |wire| + Taken(script, |script|, |bytes|).0 && (ok <==> TakesAll(script, |bytes|))
    ensures Smooth(script, |bytes|) ==> ok
  {
    if Smooth(script, |bytes|) {
      SmoothTakes(script, |script|, |bytes|);
      WholeSlice(script);
    }
    var done;
    done, wire' := WriteSome(wire, bytes, script);
    PrefixWritten(wire, bytes, done);
    ok := done == |bytes|;
  }
}
