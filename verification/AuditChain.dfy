// The append-only audit log with hash-chain integrity, eviction of the oldest entries and the seam
// that re-anchors the surviving chain.
module AuditChain {
  import opened Options

  datatype Decision = Allow | Deny | Review

  /** The fields an entry's hash covers besides the previous hash. */
  datatype Body = Body(timestamp: string, agentId: string, action: string, decision: Decision, metadata: Option<string>)

  datatype Payload = Payload(body: Body, previousHash: string)

  datatype Entry = Entry(body: Body, hash: string, previousHash: string)

  /** The hash function is a parameter everywhere: serialise the payload, digest it, print it in hexadecimal. */
  type Hash = Payload -> string

  function Zeros(n: nat): string {
    if n == 0 then "" else "0" + Zeros(n - 1)
  }

  const GENESIS_HASH: string := Zeros(64)

  function PayloadOf(e: Entry): Payload {
    Payload(e.body, e.previousHash)
  }

  /** An entry of one log and an entry of the other, with different contents, that share a hash: a collision in hand. */
  ghost predicate Collide(hash: Hash, log1: seq<Entry>, log2: seq<Entry>) {
    exists x, y :: x in log1 && y in log2 && PayloadOf(x) != PayloadOf(y) && hash(PayloadOf(x)) == hash(PayloadOf(y))
  }

  /** An entry of the log hashes to the genesis value. */
  ghost predicate HitsGenesis(hash: Hash, log: seq<Entry>) {
    exists x :: x in log && hash(PayloadOf(x)) == GENESIS_HASH
  }

  function Anchor(seam: Option<string>): string {
    if seam.Some? then seam.value else GENESIS_HASH
  }

  function MakeEntry(hash: Hash, body: Body, previousHash: string): Entry {
    Entry(body, hash(Payload(body, previousHash)), previousHash)
  }

  /** What entry `i` must chain to. */
  function ExpectedPrevious(anchor: string, entries: seq<Entry>, i: nat): string
    requires i < |entries|
  {
    if i == 0 then anchor else entries[i - 1].hash
  }

  predicate EntryVerifies(hash: Hash, anchor: string, entries: seq<Entry>, i: nat)
    requires i < |entries|
  {
    && entries[i].previousHash == ExpectedPrevious(anchor, entries, i)
    && entries[i].hash == hash(PayloadOf(entries[i]))
  }

  predicate Verifies(hash: Hash, anchor: string, entries: seq<Entry>) {
    forall i :: 0 <= i < |entries| ==> EntryVerifies(hash, anchor, entries, i)
  }

  // ---------------------------------------------------------------- the log as a value

  datatype Store = Store(entries: seq<Entry>, seam: Option<string>)

  function Append(hash: Hash, maxEntries: nat, st: Store, body: Body): Store {
    var previousHash := if |st.entries| > 0 then st.entries[|st.entries| - 1].hash else Anchor(st.seam);
    var entries := st.entries + [MakeEntry(hash, body, previousHash)];
    if |entries| > maxEntries then
      var overflow := |entries| - maxEntries;
      Store(entries[overflow..], Some(entries[overflow - 1].hash))
    else Store(entries, st.seam)
  }

  /** The store after logging the bodies in order. */
  function Run(hash: Hash, maxEntries: nat, bodies: seq<Body>): Store {
    if bodies == [] then Store([], None)
    else Append(hash, maxEntries, Run(hash, maxEntries, bodies[..|bodies| - 1]), bodies[|bodies| - 1])
  }

  /** The log that never forgets. */
  function FullLog(hash: Hash, bodies: seq<Body>): (log: seq<Entry>)
    ensures |log| == |bodies|
  {
    if bodies == [] then []
    else
      var log := FullLog(hash, bodies[..|bodies| - 1]);
      log + [MakeEntry(hash, bodies[|bodies| - 1], if log == [] then GENESIS_HASH else log[|log| - 1].hash)]
  }

  class AuditLogger {
    const maxEntries: nat
    const hash: Hash
    var entries: seq<Entry>
    var seamHash: Option<string>
    ghost var history: seq<Body>

    function Current(): Store
      reads this
    {
      Store(entries, seamHash)
    }

    ghost predicate Valid()
      reads this
    {
      Current() == Run(hash, maxEntries, history)
    }

    constructor (hash: Hash, limit: Option<nat>)
      ensures Valid() && history == [] && this.hash == hash
      ensures maxEntries == if limit.Some? then limit.value else 10_000
    {
      this.hash := hash;
      maxEntries := if limit.Some? then limit.value else 10_000;
      entries, seamHash := [], None;
      history := [];
    }

    method Log(body: Body) returns (full: Entry)
      requires Valid()
      modifies this
      ensures Valid() && history == old(history) + [body]
      ensures full == FullLog(hash, history)[|history| - 1]
    {
      LogStep(hash, maxEntries, history, body);
      ghost var before := Store(entries, seamHash);
      var previousHash := if |entries| > 0 then entries[|entries| - 1].hash else Anchor(seamHash);
      full := MakeEntry(hash, body, previousHash);
      entries := entries + [full];
      if |entries| > maxEntries {
        var overflow := |entries| - maxEntries;
        seamHash := Some(entries[overflow - 1].hash);
        entries := entries[overflow..];
      }
      assert Store(entries, seamHash) == Append(hash, maxEntries, before, body);
      history := history + [body];
    }

    method Verify() returns (ok: bool)
      ensures ok <==> Verifies(hash, Anchor(seamHash), entries)
      ensures Valid() ==> ok
    {
      ok := true;
      for i := 0 to |entries|
        invariant forall k :: 0 <= k < i ==> EntryVerifies(hash, Anchor(seamHash), entries, k)
      {
        var entry := entries[i];
        var expectedPrev := if i == 0 then Anchor(seamHash) else entries[i - 1].hash;
        var expectedHash := hash(Payload(entry.body, entry.previousHash));
        if entry.previousHash != expectedPrev || |entry.hash| != |expectedHash| || entry.hash != expectedHash {
          assert !EntryVerifies(hash, Anchor(seamHash), entries, i);
          ok := false;
          break;
        }
      }
      if Valid() {
        RunVerifies(hash, maxEntries, history);
      }
    }
  }

  // ---------------------------------------------------------------- what every run keeps

  lemma {:induction false} FullLogVerifies(hash: Hash, bodies: seq<Body>)
    ensures Verifies(hash, GENESIS_HASH, FullLog(hash, bodies))
    ensures forall i :: 0 <= i < |bodies| ==> FullLog(hash, bodies)[i].body == bodies[i]
  {
    if bodies != [] {
      var init := bodies[..|bodies| - 1];
      var log, prior := FullLog(hash, bodies), FullLog(hash, init);
      FullLogVerifies(hash, init);
      forall i | 0 <= i < |log| ensures EntryVerifies(hash, GENESIS_HASH, log, i) && log[i].body == bodies[i] {
        if i < |prior| {
          assert EntryVerifies(hash, GENESIS_HASH, prior, i);
        }
      }
    }
  }

  function Min(x: nat, y: nat): nat {
    if x <= y then x else y
  }

  /** The last `n` entries of a log. */
  function LastN(log: seq<Entry>, n: nat): (window: seq<Entry>)
    requires n <= |log|
    ensures |window| == n
  {
    if n == 0 then [] else LastN(log[..|log| - 1], n - 1) + [log[|log| - 1]]
  }

  lemma {:induction false} LastNAt(log: seq<Entry>, n: nat, i: nat)
    requires i < n <= |log|
    ensures LastN(log, n)[i] == log[|log| - n + i]
  {
    if i < n - 1 {
      LastNAt(log[..|log| - 1], n - 1, i);
    }
  }

  /** The hash that stands before position `k` of a log hung from `anchor`. */
  function HashBefore(anchor: string, log: seq<Entry>, k: nat): string
    requires k <= |log|
  {
    if k == 0 then anchor else log[k - 1].hash
  }

  function SeamAt(log: seq<Entry>, k: nat): Option<string>
    requires k <= |log|
  {
    if k == 0 then None else Some(log[k - 1].hash)
  }

  /**
   * After any number of calls, with any limit, the retained entries are the last ones of the full log, as many as
   * the limit allows, and the seam is the hash of the last entry evicted, absent while there is none.
   */
  lemma {:induction false} RetainedWindow(hash: Hash, maxEntries: nat, bodies: seq<Body>)
    ensures var log := FullLog(hash, bodies); var n := Min(|log|, maxEntries);
            Run(hash, maxEntries, bodies) == Store(LastN(log, n), SeamAt(log, |log| - n))
  {
    if bodies != [] {
      var init := bodies[..|bodies| - 1];
      RetainedWindow(hash, maxEntries, init);
      AppendToWindow(hash, maxEntries, FullLog(hash, init), bodies[|bodies| - 1]);
    }
  }

  lemma {:induction false} AppendToWindow(hash: Hash, maxEntries: nat, prior: seq<Entry>, body: Body)
    ensures var n := Min(|prior|, maxEntries);
            var log := prior + [MakeEntry(hash, body, HashBefore(GENESIS_HASH, prior, |prior|))];
            var n' := Min(|log|, maxEntries);
            Append(hash, maxEntries, Store(LastN(prior, n), SeamAt(prior, |prior| - n)), body)
            == Store(LastN(log, n'), SeamAt(log, |log| - n'))
  {
    var n := Min(|prior|, maxEntries);
    var x := MakeEntry(hash, body, HashBefore(GENESIS_HASH, prior, |prior|));
    var log := prior + [x];
    if n > 0 {
      LastNAt(prior, n, n - 1);
    }
    assert log[..|log| - 1] == prior;
    assert LastN(log, n + 1) == LastN(prior, n) + [x];
    if n == maxEntries {
      LastNAt(log, n + 1, 0);
      WindowStep(log, n);
    }
  }

  lemma {:induction false} WindowStep(log: seq<Entry>, n: nat)
    requires n < |log|
    ensures LastN(log, n + 1)[1..] == LastN(log, n)
  {
    var a, b := LastN(log, n + 1), LastN(log, n);
    forall i | 0 <= i < n ensures a[1 + i] == b[i] {
      LastNAt(log, n + 1, 1 + i);
      LastNAt(log, n, i);
    }
  }

  /** One more call, seen from the run and from the full log. */
  lemma {:induction false} LogStep(hash: Hash, maxEntries: nat, bodies: seq<Body>, body: Body)
    ensures var st := Run(hash, maxEntries, bodies);
            && Run(hash, maxEntries, bodies + [body]) == Append(hash, maxEntries, st, body)
            && FullLog(hash, bodies + [body])[|bodies|]
            == MakeEntry(hash, body, if |st.entries| > 0 then st.entries[|st.entries| - 1].hash else Anchor(st.seam))
  {
    var all := bodies + [body];
    assert all[..|all| - 1] == bodies;
    var log := FullLog(hash, bodies);
    var n := Min(|log|, maxEntries);
    RetainedWindow(hash, maxEntries, bodies);
    if n > 0 {
      LastNAt(log, n, n - 1);
    }
  }

  /** A window of a verifying chain verifies from the hash before it. */
  lemma {:induction false} WindowVerifies(hash: Hash, anchor: string, log: seq<Entry>, n: nat)
    requires n <= |log| && Verifies(hash, anchor, log)
    ensures Verifies(hash, HashBefore(anchor, log, |log| - n), LastN(log, n))
  {
    var start, window, k := HashBefore(anchor, log, |log| - n), LastN(log, n), |log| - n;
    forall i | 0 <= i < n ensures EntryVerifies(hash, start, window, i) {
      LastNAt(log, n, i);
      if i > 0 {
        LastNAt(log, n, i - 1);
      }
      assert EntryVerifies(hash, anchor, log, k + i);
    }
  }

  /** Every run verifies. */
  lemma {:induction false} RunVerifies(hash: Hash, maxEntries: nat, bodies: seq<Body>)
    ensures var st := Run(hash, maxEntries, bodies); Verifies(hash, Anchor(st.seam), st.entries)
  {
    var log := FullLog(hash, bodies);
    RetainedWindow(hash, maxEntries, bodies);
    FullLogVerifies(hash, bodies);
    WindowVerifies(hash, GENESIS_HASH, log, Min(|log|, maxEntries));
  }

  // ---------------------------------------------------------------- tamper evidence

  /** Dropping entries from the end is not detected: a prefix of a verifying log verifies. */
  lemma {:induction false} PrefixVerifies(hash: Hash, anchor: string, log: seq<Entry>, n: nat)
    requires n <= |log| && Verifies(hash, anchor, log)
    ensures Verifies(hash, anchor, log[..n])
  {
    forall i | 0 <= i < n ensures EntryVerifies(hash, anchor, log[..n], i) {
      assert EntryVerifies(hash, anchor, log, i);
    }
  }

  /**
   * Two verifying logs of one length that end in the same hash hold the same entries and hang from the same
   * anchor, unless an entry of one and an entry of the other collide.
   */
  lemma {:induction false} SameLastHash(hash: Hash, anchor1: string, log1: seq<Entry>, anchor2: string,
                                        log2: seq<Entry>)
    requires |log1| == |log2| > 0 && Verifies(hash, anchor1, log1) && Verifies(hash, anchor2, log2)
    requires log1[|log1| - 1].hash == log2[|log2| - 1].hash
    ensures (log1 == log2 && anchor1 == anchor2) || Collide(hash, log1, log2)
    decreases |log1|
  {
    var n := |log1| - 1;
    var x, y := log1[n], log2[n];
    assert EntryVerifies(hash, anchor1, log1, n) && EntryVerifies(hash, anchor2, log2, n);
    if PayloadOf(x) == PayloadOf(y) && n > 0 {
      PrefixVerifies(hash, anchor1, log1, n);
      PrefixVerifies(hash, anchor2, log2, n);
      SameLastHash(hash, anchor1, log1[..n], anchor2, log2[..n]);
      assert log1 == log1[..n] + [x] && log2 == log2[..n] + [y];
    }
  }

  lemma {:induction false} GenesisInside(hash: Hash, log: seq<Entry>, i: nat)
    requires i < |log| && Verifies(hash, GENESIS_HASH, log) && log[i].hash == GENESIS_HASH
    ensures HitsGenesis(hash, log)
  {
    assert EntryVerifies(hash, GENESIS_HASH, log, i);
    assert log[i] in log;
  }

  /**
   * Counting from the genesis value, no two positions of a log share a hash and none has the genesis hash, unless
   * entries of the log collide or one hits the genesis value.
   */
  lemma {:induction false} HashesAreDistinct(hash: Hash, log: seq<Entry>, i: nat, j: nat)
    requires i < j <= |log| && Verifies(hash, GENESIS_HASH, log)
    requires HashBefore(GENESIS_HASH, log, i) == HashBefore(GENESIS_HASH, log, j)
    ensures Collide(hash, log, log) || HitsGenesis(hash, log)
  {
    if i == 0 {
      GenesisInside(hash, log, j - 1);
    } else {
      var x, y := log[i - 1], log[j - 1];
      assert EntryVerifies(hash, GENESIS_HASH, log, i - 1) && EntryVerifies(hash, GENESIS_HASH, log, j - 1);
      assert x in log && y in log;
      if PayloadOf(x) == PayloadOf(y) {
        HashesAreDistinct(hash, log, i - 1, j - 1);
      }
    }
  }

  lemma {:induction false} DroppedWindowFails(hash: Hash, log: seq<Entry>, n: nat, k: nat)
    requires Verifies(hash, GENESIS_HASH, log) && 0 < k < n <= |log|
    requires Verifies(hash, HashBefore(GENESIS_HASH, log, |log| - n), LastN(log, n)[k..])
    ensures Collide(hash, log, log) || HitsGenesis(hash, log)
  {
    var e, rest := |log| - n, LastN(log, n)[k..];
    LastNAt(log, n, k);
    assert EntryVerifies(hash, HashBefore(GENESIS_HASH, log, e), rest, 0);
    assert EntryVerifies(hash, GENESIS_HASH, log, e + k);
    HashesAreDistinct(hash, log, e, e + k);
  }

  /**
   * Dropping entries from the front of any run's store while keeping its anchor makes verification fail, unless
   * entries of the run collide or one hits the genesis value.
   */
  lemma {:induction false} FrontDropFails(hash: Hash, maxEntries: nat, bodies: seq<Body>, k: nat)
    requires 0 < k < |Run(hash, maxEntries, bodies).entries|
    ensures var st := Run(hash, maxEntries, bodies); var log := FullLog(hash, bodies);
            !Verifies(hash, Anchor(st.seam), st.entries[k..]) || Collide(hash, log, log) || HitsGenesis(hash, log)
  {
    var st := Run(hash, maxEntries, bodies);
    var log := FullLog(hash, bodies);
    RetainedWindow(hash, maxEntries, bodies);
    FullLogVerifies(hash, bodies);
    if Verifies(hash, Anchor(st.seam), st.entries[k..]) {
      DroppedWindowFails(hash, log, Min(|log|, maxEntries), k);
    }
  }

  /** Evidence found in prefixes is evidence in the logs, and equal prefixes with equal last entries are equal logs. */
  lemma {:induction false} EvidenceGrows(hash: Hash, log1: seq<Entry>, log2: seq<Entry>, m: nat, n: nat)
    requires |log1| == m + 1 && |log2| == n + 1
    ensures log1[..m] == log2[..n] && log1[m] == log2[n] ==> log1 == log2
    ensures Collide(hash, log1[..m], log2[..n]) ==> Collide(hash, log1, log2)
    ensures HitsGenesis(hash, log1[..m]) ==> HitsGenesis(hash, log1)
    ensures HitsGenesis(hash, log2[..n]) ==> HitsGenesis(hash, log2)
  {
    assert log1 == log1[..m] + [log1[m]] && log2 == log2[..n] + [log2[n]];
  }

  /**
   * The last hash identifies a whole history: two logs of any lengths that verify from the genesis value and end
   * in the same hash are equal, unless entries of the two collide or one hits the genesis value.
   */
  lemma {:induction false} LastHashIdentifiesLog(hash: Hash, log1: seq<Entry>, log2: seq<Entry>)
    requires |log1| > 0 && |log2| > 0 && Verifies(hash, GENESIS_HASH, log1) && Verifies(hash, GENESIS_HASH, log2)
    requires log1[|log1| - 1].hash == log2[|log2| - 1].hash
    ensures log1 == log2 || Collide(hash, log1, log2) || HitsGenesis(hash, log1) || HitsGenesis(hash, log2)
    decreases |log1|
  {
    var m, n := |log1| - 1, |log2| - 1;
    var x, y := log1[m], log2[n];
    assert EntryVerifies(hash, GENESIS_HASH, log1, m) && EntryVerifies(hash, GENESIS_HASH, log2, n);
    if PayloadOf(x) == PayloadOf(y) {
      if m > 0 && n > 0 {
        PrefixVerifies(hash, GENESIS_HASH, log1, m);
        PrefixVerifies(hash, GENESIS_HASH, log2, n);
        LastHashIdentifiesLog(hash, log1[..m], log2[..n]);
        EvidenceGrows(hash, log1, log2, m, n);
      } else if m > 0 {
        GenesisInside(hash, log1, m - 1);
      } else if n > 0 {
        GenesisInside(hash, log2, n - 1);
      } else {
        assert log1 == [x] && log2 == [y];
      }
    }
  }

  // ---------------------------------------------------------------- the chain, entry by entry

  lemma {:induction false} ZerosAt(n: nat, i: nat)
    requires i < n
    ensures |Zeros(n)| == n && Zeros(n)[i] == '0'
  {
    if i > 0 {
      ZerosAt(n - 1, i - 1);
    } else if n > 1 {
      ZerosAt(n - 1, 0);
    } else {
      assert Zeros(0) == "";
    }
  }

  lemma {:induction false} GenesisIsZeros()
    ensures |GENESIS_HASH| == 64 && forall i :: 0 <= i < 64 ==> GENESIS_HASH[i] == '0'
  {
    forall i | 0 <= i < 64 ensures |GENESIS_HASH| == 64 && GENESIS_HASH[i] == '0' {
      ZerosAt(64, i);
    }
    ZerosAt(64, 0);
  }

  /** A log verifies exactly when every entry carries the hash of its own contents and that of the entry before it. */
  lemma {:induction false} VerifiesWhen(hash: Hash, st: Store)
    ensures Verifies(hash, Anchor(st.seam), st.entries) <==>
              forall i :: 0 <= i < |st.entries| ==>
                && st.entries[i].hash == hash(Payload(st.entries[i].body, st.entries[i].previousHash))
                && st.entries[i].previousHash ==
                     if i > 0 then st.entries[i - 1].hash
                     else match st.seam case Some(h) => h case None => GENESIS_HASH
  {
    forall i: nat | i < |st.entries|
      ensures EntryVerifies(hash, Anchor(st.seam), st.entries, i) <==>
                && st.entries[i].hash == hash(Payload(st.entries[i].body, st.entries[i].previousHash))
                && st.entries[i].previousHash ==
                     if i > 0 then st.entries[i - 1].hash
                     else match st.seam case Some(h) => h case None => GENESIS_HASH
    {
      assert PayloadOf(st.entries[i]) == Payload(st.entries[i].body, st.entries[i].previousHash);
    }
    if Verifies(hash, Anchor(st.seam), st.entries) {
      forall i: nat | i < |st.entries|
        ensures st.entries[i].hash == hash(Payload(st.entries[i].body, st.entries[i].previousHash))
        ensures st.entries[i].previousHash ==
                  if i > 0 then st.entries[i - 1].hash
                  else match st.seam case Some(h) => h case None => GENESIS_HASH
      {
        assert EntryVerifies(hash, Anchor(st.seam), st.entries, i);
      }
    }
  }

  /** The log that never forgets holds the bodies in order, chained from the genesis hash. */
  lemma {:induction false} FullLogChains(hash: Hash, bodies: seq<Body>, i: nat)
    requires i < |bodies|
    ensures var log := FullLog(hash, bodies);
            && log[i].body == bodies[i]
            && log[i].previousHash == (if i > 0 then log[i - 1].hash else GENESIS_HASH)
            && log[i].hash == hash(Payload(log[i].body, log[i].previousHash))
  {
    var log := FullLog(hash, bodies);
    FullLogVerifies(hash, bodies);
    assert EntryVerifies(hash, GENESIS_HASH, log, i);
    assert PayloadOf(log[i]) == Payload(log[i].body, log[i].previousHash);
    assert ExpectedPrevious(GENESIS_HASH, log, i) == if i > 0 then log[i - 1].hash else GENESIS_HASH;
  }

  /** An entry with another body under the same hash is noticed, unless the two bodies collide. */
  lemma {:induction false} TamperingIsNoticed(hash: Hash, anchor: string, log: seq<Entry>, i: nat, body: Body)
    requires i < |log| && Verifies(hash, anchor, log) && body != log[i].body
    ensures var forged := log[i := log[i].(body := body)];
            Verifies(hash, anchor, forged) ==>
              hash(Payload(body, log[i].previousHash)) == hash(Payload(log[i].body, log[i].previousHash))
  {
    var forged := log[i := log[i].(body := body)];
    assert EntryVerifies(hash, anchor, log, i);
    if Verifies(hash, anchor, forged) {
      assert EntryVerifies(hash, anchor, forged, i);
    }
  }
}
