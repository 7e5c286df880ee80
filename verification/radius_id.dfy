/**
 The relay's process-wide RADIUS packet-identifier counter.

 The relay object holds one integer, `radius_id`, that starts at the sentinel
 -1 ("no identifier issued yet"). Each Access-Request takes the next value:
 the first call seeds the counter to 4, every later call adds one and falls
 back to 0 once the value passes 255. The values issued are the one-octet
 Identifier field of a RADIUS packet (section 3 of RFC 2865).

 The counter is a Python integer, so it is modelled as an unbounded `int`;
 starting values outside {-1} and 0..255 are kept and behave as the code
 makes them behave.
 */
module RadiusId {
  import opened Octet

  /** The value of the counter before any identifier has been issued. */
  const Unset: int := -1

  /** The identifier the first call issues. */
  const Seed: int := 4

  /** Number of distinct identifiers, the length of one full cycle. */
  const Cycle: nat := 256

  /** A counter value reachable by the relay: unset, or a one-octet identifier. */
  predicate IsCounter(v: int) {
    v == Unset || IsOctet(v)
  }

  /** The relay object: its identifier counter and everything else it holds. */
  datatype Relay<T> = Relay(radiusId: int, rest: T)

  /** What one call leaves behind: the updated relay and the identifier returned. */
  datatype Issue<T> = Issue(relay: Relay<T>, id: int)

  /** One call of the identifier generator on the relay `c`. */
  function GetNextRadiusPacketId<T>(c: Relay<T>): (r: Issue<T>)
    // the value returned is the value stored, and nothing else changes
    ensures r.relay == c.(radiusId := r.id)
    // seeding from the sentinel
    ensures c.radiusId == Unset ==> r.id == Seed
    // stepping an issued identifier
    ensures 0 <= c.radiusId < MaxId ==> r.id == c.radiusId + 1
    ensures c.radiusId >= MaxId ==> r.id == 0
    ensures IsOctet(c.radiusId) ==> r.id == (c.radiusId + 1) % Cycle
    // the result is an octet exactly when the counter did not start below the sentinel
    ensures IsOctet(r.id) <==> c.radiusId >= Unset
  {
    if c.radiusId == Unset then
      Issue(c.(radiusId := Seed), Seed)
    else
      var bumped := c.radiusId + 1;
      var stored := if bumped > MaxId then 0 else bumped;
      Issue(c.(radiusId := stored), stored)
  }

  /** The relay after `n` consecutive calls. */
  function After<T>(c: Relay<T>, n: nat): Relay<T>
    decreases n
  {
    if n == 0 then c else After(GetNextRadiusPacketId(c).relay, n - 1)
  }

  /** The identifiers returned by `n` consecutive calls, in order. */
  function Issued<T>(c: Relay<T>, n: nat): seq<int>
    decreases n
  {
    if n == 0 then []
    else
      var r := GetNextRadiusPacketId(c);
      [r.id] + Issued(r.relay, n - 1)
  }

  /** `n` calls issue `n` identifiers, whatever the counter held. */
  lemma IssuedLength<T>(c: Relay<T>, n: nat)
    ensures |Issued(c, n)| == n
    decreases n
  {
    if n > 0 {
      IssuedLength(GetNextRadiusPacketId(c).relay, n - 1);
    }
  }

  /** From an issued identifier, `n` calls advance the counter by `n` modulo 256 and touch nothing else. */
  lemma {:induction false} AfterAdvances<T>(c: Relay<T>, n: nat)
    requires IsOctet(c.radiusId)
    ensures After(c, n).radiusId == (c.radiusId + n) % Cycle
    ensures After(c, n).rest == c.rest
    decreases n
  {
    if n > 0 {
      var c' := GetNextRadiusPacketId(c).relay;
      AfterAdvances(c', n - 1);
      ModShift(c.radiusId, n - 1);
    }
  }

  /** The i-th of `n` calls from an issued identifier returns the counter plus i+1, modulo 256. */
  lemma {:induction false} IssuedValues<T>(c: Relay<T>, n: nat)
    requires IsOctet(c.radiusId)
    ensures |Issued(c, n)| == n
    ensures forall i :: 0 <= i < n ==> Issued(c, n)[i] == (c.radiusId + i + 1) % Cycle
    decreases n
  {
    if n > 0 {
      var c' := GetNextRadiusPacketId(c).relay;
      IssuedValues(c', n - 1);
      forall i | 1 <= i < n
        ensures Issued(c, n)[i] == (c.radiusId + i + 1) % Cycle
      {
        ModShift(c.radiusId, i);
      }
    }
  }

  /** The last identifier issued by `n` calls is the value the counter then holds. */
  lemma {:induction false} LastIssuedIsStored<T>(c: Relay<T>, n: nat)
    requires n > 0
    ensures |Issued(c, n)| == n
    ensures Issued(c, n)[n - 1] == After(c, n).radiusId
    decreases n
  {
    IssuedLength(c, n);
    if n > 1 {
      LastIssuedIsStored(GetNextRadiusPacketId(c).relay, n - 1);
    }
  }

  /** Started from the sentinel, the i-th call returns 4 + i modulo 256. */
  lemma FromUnset<T>(c: Relay<T>, n: nat)
    requires c.radiusId == Unset
    ensures |Issued(c, n)| == n
    ensures forall i :: 0 <= i < n ==> Issued(c, n)[i] == (Seed + i) % Cycle
  {
    if n > 0 {
      var c' := GetNextRadiusPacketId(c).relay;
      IssuedValues(c', n - 1);
      forall i | 1 <= i < n
        ensures Issued(c, n)[i] == (Seed + i) % Cycle
      {
        assert Issued(c, n)[i] == Issued(c', n - 1)[i - 1];
      }
    }
  }

  /**
   From an issued identifier, 256 calls bring the counter back to where it
   started, and along the way every identifier 0..255 is issued exactly once.
   */
  lemma RadiusCycle<T>(c: Relay<T>)
    requires IsOctet(c.radiusId)
    ensures After(c, Cycle) == c
    ensures |Issued(c, Cycle)| == Cycle
    ensures forall k :: 0 <= k < Cycle ==> k in Issued(c, Cycle)
    ensures forall i, j :: 0 <= i < j < Cycle ==> Issued(c, Cycle)[i] != Issued(c, Cycle)[j]
  {
    AfterAdvances(c, Cycle);
    IssuedCovers(c, Cycle);
    WindowDistinct(c, Cycle);
  }

  /** At least 256 calls from an issued identifier issue every identifier 0..255. */
  lemma IssuedCovers<T>(c: Relay<T>, n: nat)
    requires IsOctet(c.radiusId)
    requires n >= Cycle
    ensures forall k :: 0 <= k < Cycle ==> k in Issued(c, n)
  {
    forall k | 0 <= k < Cycle
      ensures k in Issued(c, n)
    {
      IssuedContains(c, n, k);
    }
  }

  /** At least 256 calls from an issued identifier issue the identifier `k`. */
  lemma IssuedContains<T>(c: Relay<T>, n: nat, k: int)
    requires IsOctet(c.radiusId)
    requires n >= Cycle
    requires 0 <= k < Cycle
    ensures k in Issued(c, n)
  {
    var i := ModInverse(c.radiusId, k);
    IssuedValues(c, n);
    assert Issued(c, n)[i] == (c.radiusId + i + 1) % Cycle == k;
  }

  /**
   No two of any 256 consecutive calls return the same identifier, so
   requests outstanding at the same time never share one while fewer than 256
   have been issued since the oldest.
   */
  lemma WindowDistinct<T>(c: Relay<T>, n: nat)
    requires IsCounter(c.radiusId)
    requires n <= Cycle
    ensures |Issued(c, n)| == n
    ensures forall i, j :: 0 <= i < j < n ==> Issued(c, n)[i] != Issued(c, n)[j]
  {
    IssuedLength(c, n);
    forall i, j | 0 <= i < j < n
      ensures Issued(c, n)[i] != Issued(c, n)[j]
    {
      IssuedPairDistinct(c, n, i, j);
    }
  }

  /** Two different calls among at most 256 return different identifiers. */
  lemma IssuedPairDistinct<T>(c: Relay<T>, n: nat, i: nat, j: nat)
    requires IsCounter(c.radiusId)
    requires i < j < n <= Cycle
    ensures |Issued(c, n)| == n
    ensures Issued(c, n)[i] != Issued(c, n)[j]
  {
    if c.radiusId == Unset {
      FromUnset(c, n);
      ModDistinct(Seed, i, j);
    } else {
      IssuedValues(c, n);
      ModDistinct(c.radiusId + 1, i, j);
      assert Issued(c, n)[i] == (c.radiusId + 1 + i) % Cycle;
      assert Issued(c, n)[j] == (c.radiusId + 1 + j) % Cycle;
    }
  }


  // Arithmetic helpers for the modulo-256 reasoning above.

  lemma ModShift(v: int, m: nat)
    requires IsOctet(v)
    ensures ((v + 1) % Cycle + m) % Cycle == (v + m + 1) % Cycle
  {
  }

  /** The call, among 256 from `v`, that issues `k`. */
  lemma ModInverse(v: int, k: int) returns (i: int)
    requires 0 <= k < Cycle
    ensures 0 <= i < Cycle
    ensures (v + i + 1) % Cycle == k
  {
    i := (k - v - 1) % Cycle;
  }

  lemma ModDistinct(a: int, i: int, j: int)
    requires 0 <= i < j < Cycle
    ensures (a + i) % Cycle != (a + j) % Cycle
  {
  }
}
