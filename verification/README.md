# Identifier generators of the 802.1X relay (chewie)

The relay speaks EAP to the supplicant and RADIUS to the authentication
server. It numbers the packets of both sides with one-octet identifiers.
This project models the two generators that produce them, as they are
defined in `tests/unit/faucet/test_chewie.py`. That file installs them in
place of the engine's own generators for the 802.1X success scenario. The
project also proves properties of both generators.

- **RADIUS packet identifier** (`RadiusId`, `radius_id.dfy`). The relay
  keeps one process-wide counter, `radius_id`. Its sentinel value -1 means
  "unset". The first call stores and returns 4. Every later call adds one,
  falls back to 0 once the value passes 255, and returns the stored value.
  This is the Identifier of section 3 of RFC 2865. The relay is a datatype
  `Relay<T>` holding the counter and an abstract `rest`. One call is the
  pure function `GetNextRadiusPacketId`, which returns the new relay and
  the identifier.
- **EAP identifier** (`EapId`, `eap_id.dfy`). `nextId` reads the state
  machine's `currentId`. `None` gives 116. Otherwise the result is
  `currentId + 1`; if that passes 255, a value drawn by
  `random.randint(0, 200)` is returned instead. This is the Identifier of
  section 4 of RFC 3748. The draw is an argument `draw` whose precondition
  is the range that `randint` guarantees. `Series` runs the generator when
  the caller stores each result as `currentId`, with one draw per request.
- **Fixtures** (`Fixtures`, `fixtures.dfy`). These are the hex text of
  the scenario's supplicant and RADIUS replies, split at their fields. The
  model reads only the identifier octets. They are tied to the first two
  values of each generator.
- `Optional` (`option.dfy`) is the `None`/`Some` type that models Python's
  `None`; `Octet` (`octet.dfy`) defines the one-octet identifier range
  shared by both generators.

Python integers are unbounded, so the counters are Dafny `int`. Starting
values outside the reachable ones are not excluded. They behave as the
code makes them behave: a RADIUS counter below -1 yields a negative
identifier, and one above 255 yields 0. The contracts state exactly when
the result is an octet.

## Model

| member | source | states |
|---|---|---|
| RadiusId.GetNextRadiusPacketId | tests/unit/faucet/test_chewie.py:159-170 | the returned identifier is the value stored, and no other part of the relay changes; from -1 it is 4; from v in 0..254 it is v+1; from 255 or above it is 0; from an octet it is (v+1) mod 256; the result is an octet exactly when the counter was at least -1 |
| RadiusId.IssuedLength | tests/unit/faucet/test_chewie.py:159-170 | n calls issue exactly n identifiers, whatever the counter held |
| RadiusId.AfterAdvances | tests/unit/faucet/test_chewie.py:167-170 | from an octet v, n consecutive calls leave the counter at (v+n) mod 256 and leave the rest of the relay unchanged |
| RadiusId.IssuedValues | tests/unit/faucet/test_chewie.py:167-170 | from an octet v, the i-th of n consecutive calls returns (v+i+1) mod 256 |
| RadiusId.LastIssuedIsStored | tests/unit/faucet/test_chewie.py:164-170 | after any n > 0 calls, the last identifier returned is the value the counter holds |
| RadiusId.FromUnset | tests/unit/faucet/test_chewie.py:164-170 | from the sentinel -1, the i-th call returns (4+i) mod 256 |
| RadiusId.RadiusCycle | tests/unit/faucet/test_chewie.py:167-170 | from an octet, 256 calls restore the relay exactly, and the 256 identifiers issued are pairwise distinct and cover 0..255, so each is issued exactly once |
| RadiusId.IssuedCovers | tests/unit/faucet/test_chewie.py:167-170 | from an octet, any 256 or more consecutive calls issue every identifier 0..255 |
| RadiusId.IssuedContains | tests/unit/faucet/test_chewie.py:167-170 | from an octet, any 256 or more consecutive calls issue the given identifier k in 0..255 |
| RadiusId.WindowDistinct | tests/unit/faucet/test_chewie.py:164-170 | from the sentinel or an octet, no two of up to 256 consecutive calls return the same identifier |
| EapId.NextId | tests/unit/faucet/test_chewie.py:145-156 | with no current identifier the result is 116; with c where c+1 <= 255 it is c+1; with c+1 > 255 it is the draw, in 0..200 inclusive; the result is an octet exactly when there is no current identifier or it is at least -1, hence always for None or 0..255 |
| EapId.NextIdReadsOnlyCurrentId | tests/unit/faucet/test_chewie.py:145-156 | two state machines with the same `currentId` get the same identifier, whatever else they hold |
| EapId.SeriesInRange | tests/unit/faucet/test_chewie.py:145-156 | when each result is stored back as `currentId`, every identifier issued from None or an octet is an octet |
| EapId.SeriesSteps | tests/unit/faucet/test_chewie.py:153-156 | in a series, each identifier after the first is the previous one plus 1 while that is at most 255, and otherwise the draw of its own request |
| EapId.CountsUpToMax | tests/unit/faucet/test_chewie.py:153-156 | from an octet c, the first 255-c requests issue c+1, ..., 255 whatever the draws, and the next request issues its draw |
| EapId.FreshSeries | tests/unit/faucet/test_chewie.py:149-156 | a state machine with no identifier issues 116, 117, ..., 255 for its first 140 requests, and its 141st request issues its draw |
| Fixtures.IdentityResponseId | tests/unit/faucet/test_chewie.py:85 | the Identity response frame carries EAP identifier 0x74 |
| Fixtures.Md5ResponseId | tests/unit/faucet/test_chewie.py:86 | the MD5-Challenge response frame carries EAP identifier 0x75 |
| Fixtures.AccessChallengeIds | tests/unit/faucet/test_chewie.py:93 | the Access-Challenge carries RADIUS identifier 0x04, and its embedded EAP-Request carries 0x75 |
| Fixtures.AccessAcceptIds | tests/unit/faucet/test_chewie.py:94 | the Access-Accept carries RADIUS identifier 0x05, and its embedded EAP-Success carries 0x75 |
| Fixtures.EapFixtureIdentifiers | tests/unit/faucet/test_chewie.py:83-96 | from a state machine with no identifier, each result stored as `currentId`, the first two EAP identifiers (116, 117) are those of the two supplicant replies, and the second is also the identifier of the EAP packet inside both RADIUS replies |
| Fixtures.RadiusFixtureIdentifiers | tests/unit/faucet/test_chewie.py:92-96 | from the RADIUS counter at -1, the first two identifiers issued (4, 5) are those of the Access-Challenge and the Access-Accept, in that order |

## Left out

- The queue-based fake transports and reply generators
  (`tests/unit/faucet/test_chewie.py:77-142`) only forward data between
  queues.
- The fixed `os.urandom` stub (lines 99-110) returns two constant Request
  Authenticators; it has no logic to state.
- The test body (lines 186-199) sleeps, scans a log file and counts flow
  rules. This is I/O and depends on the network control plane, which is
  not part of this model.
- The YAML switch and ACL configuration (lines 13-75) is data, not
  behaviour.
- The engine itself (`faucet.faucet_dot1x.chewie`, with its EAP state
  machine, EAPOL/EAP/RADIUS codec, retransmission timers and
  Message-Authenticator checks) is not part of this model. The fixture
  bytes are used only as constants; the hex text is not parsed beyond the
  identifier octets. `build_byte_string` from `netils` is not part of this
  model either; `Fixtures.ByteAt` reads one byte from the hex text in its
  place.
- The test installs `get_next_radius_packet_id` with `mock.patch`
  (line 181), and the relay shares its `radius_id` counter across
  sessions. Neither the patching nor the concurrency is modelled: the
  counter is a single sequential value threaded through pure calls.
- `random.randint` is an argument, not a random source. The model
  constrains its value to 0..200 and says nothing about its distribution.
- `random.randint(0, 200)` includes both ends, so the draw is constrained
  to 0..200 inclusive.
