/** `calculateDigest`: the loop that feeds a slice of a file to the hash. */
module DigestLoops {
  import opened Sha256
  import opened Sha256Streams

  const BUFFER: nat := 4096
  /** Offsets in a file are below this. */
  const FILE_LIMIT: nat := 0x8000_0000_0000_0000

  /** What one call of `read` does: it delivers some bytes, none at the end of the file, is interrupted by a
      signal, or fails. */
  datatype Read = Got(count: nat) | Interrupted | Failed

  datatype Result =
    | Pending                 // the loop has not ended
    | Failure                 // an empty string is returned
    | Unhashed                // the file has ended, and `final` was not called
    | Hashed(bytes: Message)  // `final` was called after these bytes

  datatype State =
    | Running(at: nat, left: nat, expected: nat, fed: Message)
    | Ended(result: Result)

  function Start(offset: nat, length: nat): State {
    Running(offset, length, BUFFER, [])
  }

  /** What `read` may do when asked for `expected` bytes. */
  predicate Can(file: Message, st: State, r: Read)
    requires st.Running?
  {
    r.Got? ==>
      if st.at >= |file| then r.count == 0
      else 0 < r.count <= st.expected && st.at + r.count <= |file|
  }

  /** `size_t` subtraction. */
  function Minus(a: nat, b: nat): nat {
    (a - b) % TWO_64
  }

  /** One round of the loop. */
  function Next(file: Message, st: State, r: Read): State
    requires st.Running? && Can(file, st, r)
  {
    match r
    case Interrupted => st
    case Failed => Ended(Failure)
    case Got(n) =>
      if n == 0 then Ended(Unhashed)
      else GoOn(st.at + n, Minus(st.left, n), st.fed + file[st.at..st.at + n])
  }

  /** The end of a round that has fed bytes to the hash. */
  function GoOn(at: nat, left: nat, fed: Message): State {
    if left == 0 then Ended(Hashed(fed)) else Running(at, left, if left > BUFFER then BUFFER else left, fed)
  }

  predicate Possible(file: Message, st: State, calls: seq<Read>)
    decreases |calls|
  {
    st.Ended? || calls == [] ||
    (Can(file, st, calls[0]) && Possible(file, Next(file, st, calls[0]), calls[1..]))
  }

  function Run(file: Message, st: State, calls: seq<Read>): Result
    requires Possible(file, st, calls)
    decreases |calls|
  {
    if st.Ended? then st.result
    else if calls == [] then Pending
    else Run(file, Next(file, st, calls[0]), calls[1..])
  }

  // ----- as it runs

  datatype Answer = NotYet | Empty | Bytes(digest: Message)

  function AnswerOf(r: Result): Answer {
    match r
    case Pending => NotYet
    case Failure => Empty
    case Unhashed => Bytes(Zeros(32))
    case Hashed(bytes) => Bytes(Digest(bytes))
  }

  /** One round of the loop; `NotYet` means that it goes on. */
  method ReadOnce(sha: SHA256, digest: array<Octet>, file: Message, at: nat, left: nat, expected: nat, call: Read)
      returns (r: Answer, at': nat, left': nat, expected': nat)
    requires sha.Valid() && digest.Length == 32 && digest != sha.m && digest[..] == Zeros(32)
    requires Can(file, Running(at, left, expected, sha.fed), call)
    modifies sha, sha.H, sha.m, digest
    ensures var next := Next(file, Running(at, left, expected, old(sha.fed)), call);
            if next.Ended? then r == AnswerOf(next.result)
            else
              && r == NotYet && next == Running(at', left', expected', sha.fed) && sha.Valid()
              && digest[..] == Zeros(32)
  {
    ghost var next := Next(file, Running(at, left, expected, sha.fed), call);
    r, at', left', expected' := NotYet, at, left, expected;
    if call.Failed? {
      r := Empty;
    } else if call.Got? && call.count == 0 {
      r := Bytes(digest[..]);
    } else if call.Got? {
      ghost var fed := sha.fed + file[at..at + call.count];
      assert next == GoOn(at + call.count, Minus(left, call.count), fed);
      r, left' := Feed(sha, digest, file[at..at + call.count], left);
      at', expected' := at + call.count, if left' > BUFFER then BUFFER else left';
    }
  }

  /** The part of a round behind a read that has delivered something. */
  method Feed(sha: SHA256, digest: array<Octet>, bytes: Message, left: nat) returns (r: Answer, left': nat)
    requires sha.Valid() && digest.Length == 32 && digest != sha.m && digest[..] == Zeros(32)
    modifies sha, sha.H, sha.m, digest
    ensures left' == Minus(left, |bytes|)
    ensures left' == 0 ==> r == Bytes(Digest(old(sha.fed) + bytes))
    ensures left' != 0 ==>
              r == NotYet && sha.Valid() && sha.fed == old(sha.fed) + bytes && digest[..] == Zeros(32)
  {
    sha.Update(bytes);
    r, left' := NotYet, Minus(left, |bytes|);
    if left' == 0 {
      sha.Final(digest);
      assert digest[..32] == digest[..];
      r := Bytes(digest[..]);
    }
  }

  /** `calculateDigest` up to the hexadecimal text; `ready` says whether `dup` and `lseek` work. */
  method CalculateDigest(ready: bool, file: Message, offset: nat, length: nat, calls: seq<Read>) returns (r: Answer)
    requires length < TWO_64 && Possible(file, Start(offset, length), calls)
    ensures r == if ready then AnswerOf(Run(file, Start(offset, length), calls)) else Empty
  {
    if !ready {
      return Empty;
    }
    var sha := new SHA256();
    var digest := new Octet[32](_ => 0);
    var at: nat, left: nat, expected: nat := offset, length, BUFFER;
    ghost var st := Start(offset, length);
    for i := 0 to |calls|
      invariant sha.Valid() && fresh(sha) && fresh(sha.H) && fresh(sha.m) && fresh(digest)
      invariant digest.Length == 32 && digest != sha.m && digest[..] == Zeros(32)
      invariant st == Running(at, left, expected, sha.fed) && Possible(file, st, calls[i..])
      invariant Run(file, Start(offset, length), calls) == Run(file, st, calls[i..])
    {
      assert calls[i..][1..] == calls[i + 1..];
      ghost var next := Next(file, st, calls[i]);
      r, at, left, expected := ReadOnce(sha, digest, file, at, left, expected, calls[i]);
      if r != NotYet {
        return;
      }
      st := next;
    }
    return NotYet;
  }

  // ----- what is hashed

  ghost predicate Holds(file: Message, offset: nat, length: nat) {
    offset + length <= |file| < FILE_LIMIT
  }

  /** What the loop keeps as long as no read can pass the end of the slice: the next request does not, unless
      the slice is shorter than the buffer and the file ends with it. */
  ghost predicate OnCourse(file: Message, offset: nat, length: nat, st: State)
    requires offset + length <= |file|
  {
    match st
    case Running(at, left, expected, fed) =>
      && offset <= at && 0 < left && at + left == offset + length && fed == file[offset..at]
      && (expected <= left || (length < BUFFER && offset + length == |file|))
    case Ended(r) => r == Failure || r == Hashed(file[offset..offset + length])
  }

  lemma NextOnCourse(file: Message, offset: nat, length: nat, st: State, r: Read)
    requires Holds(file, offset, length) && OnCourse(file, offset, length, st)
    requires st.Running? && Can(file, st, r)
    ensures OnCourse(file, offset, length, Next(file, st, r))
  {
    if r.Got? {
      var n := r.count;
      assert st.fed + file[st.at..st.at + n] == file[offset..st.at + n];
    }
  }

  lemma {:induction false} RunOnCourse(file: Message, offset: nat, length: nat, st: State, calls: seq<Read>)
    requires Holds(file, offset, length) && OnCourse(file, offset, length, st) && Possible(file, st, calls)
    ensures Run(file, st, calls) in {Pending, Failure, Hashed(file[offset..offset + length])}
    decreases |calls|
  {
    if st.Running? && calls != [] {
      NextOnCourse(file, offset, length, st, calls[0]);
      RunOnCourse(file, offset, length, Next(file, st, calls[0]), calls[1..]);
    }
  }

  predicate NoFailure(calls: seq<Read>) {
    forall k :: 0 <= k < |calls| ==> !calls[k].Failed?
  }

  /** How many reads deliver something. */
  function Deliveries(calls: seq<Read>): nat {
    if calls == [] then 0 else (if calls[0].Got? then 1 else 0) + Deliveries(calls[1..])
  }

  /** Reads that do not fail finish the slice as soon as there are as many as it has bytes. */
  lemma {:induction false} RunEnds(file: Message, offset: nat, length: nat, st: State, calls: seq<Read>)
    requires Holds(file, offset, length) && OnCourse(file, offset, length, st) && Possible(file, st, calls)
    requires st.Ended? ==> st.result.Hashed?
    requires st.Running? ==> Deliveries(calls) >= st.left
    requires NoFailure(calls)
    ensures Run(file, st, calls) == Hashed(file[offset..offset + length])
    decreases |calls|
  {
    if st.Running? {
      NextOnCourse(file, offset, length, st, calls[0]);
      RunEnds(file, offset, length, Next(file, st, calls[0]), calls[1..]);
    }
  }

  lemma {:induction false} PossibleBefore(file: Message, st: State, calls: seq<Read>, n: nat)
    requires Possible(file, st, calls) && n <= |calls|
    ensures Possible(file, st, calls[..n])
    decreases n
  {
    if st.Running? && n > 0 {
      PossibleBefore(file, Next(file, st, calls[0]), calls[1..], n - 1);
      assert calls[..n][1..] == calls[1..][..n - 1];
    }
  }

  /** Read `n` fails while the loop is still waiting for it. */
  ghost predicate FailsAt(file: Message, st: State, calls: seq<Read>, n: nat)
    requires Possible(file, st, calls)
  {
    n < |calls| && calls[n].Failed? && (PossibleBefore(file, st, calls, n); Run(file, st, calls[..n]) == Pending)
  }

  /** An error is reported if and only if a read fails before the loop has ended. */
  lemma {:induction false} FailureIff(file: Message, st: State, calls: seq<Read>)
    requires Possible(file, st, calls) && (st.Ended? ==> st.result != Failure && st.result != Pending)
    ensures Run(file, st, calls) == Failure <==> exists n: nat :: FailsAt(file, st, calls, n)
    decreases |calls|
  {
    if st.Running? && calls != [] {
      if calls[0].Failed? {
        assert calls[..0] == [] && FailsAt(file, st, calls, 0);
      } else {
        FailureLater(file, st, calls);
      }
    }
  }

  lemma {:induction false} FailureLater(file: Message, st: State, calls: seq<Read>)
    requires Possible(file, st, calls) && st.Running? && calls != [] && !calls[0].Failed?
    ensures Run(file, st, calls) == Failure <==> exists n: nat :: FailsAt(file, st, calls, n)
    decreases |calls|, 0
  {
    var next, rest := Next(file, st, calls[0]), calls[1..];
    FailureIff(file, next, rest);
    forall n: nat | 0 < n < |calls|
      ensures FailsAt(file, st, calls, n) <==> FailsAt(file, next, rest, n - 1)
    {
      FailsOneOn(file, st, calls, n);
    }
    if exists n: nat :: FailsAt(file, st, calls, n) {
      var n: nat :| FailsAt(file, st, calls, n);
      assert n > 0 && FailsAt(file, next, rest, n - 1);
    }
    if exists n: nat :: FailsAt(file, next, rest, n) {
      var n: nat :| FailsAt(file, next, rest, n);
      assert FailsAt(file, next, rest, n + 1 - 1);
      assert FailsAt(file, st, calls, n + 1);
    }
  }

  lemma FailsOneOn(file: Message, st: State, calls: seq<Read>, n: nat)
    requires Possible(file, st, calls) && st.Running? && 0 < n < |calls| && !calls[0].Failed?
    ensures FailsAt(file, st, calls, n) <==> FailsAt(file, Next(file, st, calls[0]), calls[1..], n - 1)
  {
    assert calls[..n][1..] == calls[1..][..n - 1] && calls[..n][0] == calls[0];
    PossibleBefore(file, st, calls, n);
    PossibleBefore(file, Next(file, st, calls[0]), calls[1..], n - 1);
  }

  /** Full reads up to the end of the file. */
  function Greedy(file: Message, at: nat): seq<Read>
    decreases |file| - at
  {
    if at >= |file| then [Got(0)]
    else
      var n := if |file| - at < BUFFER then |file| - at else BUFFER;
      [Got(n)] + Greedy(file, at + n)
  }

  /** When more is left to read than the file has, because it is too short or because the subtraction has
      wrapped around, the loop goes on to the end of the file. */
  lemma {:induction false} RunsOut(file: Message, st: State)
    requires st.Running? && |file| - st.at < st.left < TWO_64
    requires st.expected >= BUFFER || st.expected >= |file| - st.at
    ensures Possible(file, st, Greedy(file, st.at)) && Run(file, st, Greedy(file, st.at)) == Unhashed
    decreases |file| - st.at
  {
    var calls := Greedy(file, st.at);
    assert Can(file, st, calls[0]);
    if st.at < |file| {
      var next := Next(file, st, calls[0]);
      assert calls[1..] == Greedy(file, next.at);
      RunsOut(file, next);
    }
  }

  /** The file holds the slice, the slice is not empty, and its first read cannot pass its end. */
  predicate Suits(file: Message, offset: nat, length: nat) {
    offset + length <= |file| && 0 < length && (length >= 4096 || offset + length == |file|)
  }

  /** In all other cases there are reads that make the loop miss the end of the slice. */
  lemma Overrun(file: Message, offset: nat, length: nat) returns (calls: seq<Read>)
    requires |file| < FILE_LIMIT && length < TWO_64 && !Suits(file, offset, length)
    ensures Possible(file, Start(offset, length), calls) && Run(file, Start(offset, length), calls) == Unhashed
  {
    var st := Start(offset, length);
    calls := Greedy(file, offset);
    if offset + length > |file| {
      RunsOut(file, st);
    } else {
      assert Can(file, st, calls[0]);
      if offset < |file| {
        var next := Next(file, st, calls[0]);
        assert calls[1..] == Greedy(file, next.at);
        RunsOut(file, next);
      }
    }
  }

  /** Whatever the reads do, the loop either hashes exactly the slice or reports an error. */
  ghost predicate AlwaysHashes(file: Message, offset: nat, length: nat) {
    forall calls :: Possible(file, Start(offset, length), calls) ==>
      var r := Run(file, Start(offset, length), calls);
      r == Pending || r == Failure || (offset + length <= |file| && r == Hashed(file[offset..offset + length]))
  }

  /** The loop is right under every schedule of reads exactly when the slice suits it, and then it ends. */
  lemma HashesExactly(file: Message, offset: nat, length: nat)
    requires |file| < FILE_LIMIT && length < TWO_64
    ensures AlwaysHashes(file, offset, length) <==> Suits(file, offset, length)
    ensures Suits(file, offset, length) ==>
              forall calls :: Possible(file, Start(offset, length), calls) ==>
                Deliveries(calls) >= length && NoFailure(calls) ==>
                Run(file, Start(offset, length), calls) == Hashed(file[offset..offset + length])
  {
    var st := Start(offset, length);
    if Suits(file, offset, length) {
      forall calls | Possible(file, st, calls)
        ensures Run(file, st, calls) in {Pending, Failure, Hashed(file[offset..offset + length])}
      {
        RunOnCourse(file, offset, length, st, calls);
      }
      forall calls | Possible(file, st, calls) && Deliveries(calls) >= length && NoFailure(calls)
        ensures Run(file, st, calls) == Hashed(file[offset..offset + length])
      {
        RunEnds(file, offset, length, st, calls);
      }
    } else {
      var calls := Overrun(file, offset, length);
      assert Run(file, st, calls) == Unhashed;
    }
  }
}
