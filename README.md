# raddec-relay-udp: the UDP relay, modelled in Dafny

`RaddecRelayUdp` relays radio-detection records ("raddecs") to remote servers
over UDP. It is built from an options object whose `targets` list names the
servers. Each target entry gets a default port of 50001 when its port is missing
or falsy (including `0`). Only entries with their own `address` property are kept,
in input order. `relayRaddec` encodes a record once, as a hexadecimal string
with timestamp and packets included. It turns that string into bytes and sends
the same bytes to every stored target's port and address, in stored order. Send
errors are ignored.

Files:

- `raddecrelayudp.dfy` (module `RaddecRelayUdp`) holds the relay class, the
  target entries and the specification functions.
- `dgram.dfy` (module `Dgram`) is the UDP socket. It keeps a ghost log of every
  `send` call with its buffer, port and address.
- `nodebuffer.dfy` (module `NodeBuffer`) is Node's `Buffer.from(hex, 'hex')`.
  Decoding works on pairs of characters. It stops at the first pair that holds
  a non-hexadecimal character and drops an odd trailing character.
- `wrappers.dfy` (module `Wrappers`) holds `Option`, used for properties an
  object may lack.

Target entries are modelled as objects (`Target`), because the source defaults
the port of the caller's own entry objects in place. It also stores those same
objects, not copies. `Target.address` is `None` exactly when the entry has no own
`address` property. `Target.port` is `None` when the port is missing. Both are
mutable fields, as on any JavaScript object: the relay writes only `port`, but
reads both at send time.
JavaScript's `||` is modelled through `Truthy`: a missing port and port `0` are falsy.

The record and its codec are opaque. `RelayRaddec` takes the record together
with the record's `encodeAsHexString`, given as a function of the record and
the codec options.

## Model

| member | source | states |
|---|---|---|
| `RaddecRelayUdp.RaddecRelayUdp.constructor` | lib/raddecrelayudp.js:25-45 | codec options are always timestamp and packets on; stored targets are exactly `Retained` of the configured entries; every configured entry, kept or dropped, has its port replaced by its defaulted port and keeps its address; every stored target has an address and a truthy port; the new socket has sent nothing |
| `RaddecRelayUdp.RaddecRelayUdp.RelayRaddec` | lib/raddecrelayudp.js:51-60 | the send log grows by exactly one datagram per stored target, in stored order; the i-th goes to that target's port and address; all carry the one buffer decoded from the record's single hex encoding under the fixed options; with no targets nothing is sent; the target list and the target objects are unchanged |
| `RaddecRelayUdp.Configured` | lib/raddecrelayudp.js:27-34 | with no options, or options without `targets`, the entries walked are empty; otherwise they are the given list |
| `RaddecRelayUdp.DefaultedPort` | lib/raddecrelayudp.js:38 | the defaulted port is always truthy; a truthy port is kept unchanged; a missing port or port 0 becomes 50001 |
| `RaddecRelayUdp.DefaultedPortIdempotent` | lib/raddecrelayudp.js:37-38 | defaulting twice equals defaulting once, so an entry listed twice ends as if listed once |
| `RaddecRelayUdp.NormaliseTargets` | lib/raddecrelayudp.js:36-42 | the `forEach` loop: the collected targets are exactly `Retained` of the entries, and every entry's port, kept or dropped, is replaced in place by its defaulted port |
| `RaddecRelayUdp.Retained` | lib/raddecrelayudp.js:36-42 | at most as many targets are stored as entries given |
| `RaddecRelayUdp.RetainedMembers` | lib/raddecrelayudp.js:39-41 | a target is stored if and only if it is one of the entries and has an own address |
| `RaddecRelayUdp.RetainedIsSubsequence` | lib/raddecrelayudp.js:36-42 | the stored targets are the entries with some removed and the rest in input order |
| `RaddecRelayUdp.RetainedMultiplicity` | lib/raddecrelayudp.js:39-41 | an entry with an address is stored as many times as it occurs in the input; an entry without one is never stored, silently |
| `RaddecRelayUdp.RetainedSnoc` | lib/raddecrelayudp.js:37-41 | one more step of the walk appends the entry exactly when it has an address, otherwise leaves the stored list as it was |
| `RaddecRelayUdp.Fanout` | lib/raddecrelayudp.js:56-59 | one datagram per target, as many as targets; the i-th carries the shared buffer and the i-th target's port and address |
| `RaddecRelayUdp.FanoutSnoc` | lib/raddecrelayudp.js:56-59 | one more step of the send loop appends exactly the next target's datagram after those already sent |
| `RaddecRelayUdp.RelayedDatagramsAreAddressed` | lib/raddecrelayudp.js:56-59 | when every stored target has an address and a truthy port, as the constructor ensures, so does every datagram sent, and each carries the shared buffer |
| `Dgram.UdpSocket.constructor` | lib/raddecrelayudp.js:44 | a new UDP socket has sent nothing |
| `Dgram.UdpSocket.Send` | lib/raddecrelayudp.js:57-58 | a send appends one datagram with exactly the given buffer, port and address to the log |
| `NodeBuffer.FromHex` | lib/raddecrelayudp.js:54 | the buffer is at most half as long as the hex string; byte i is the value of hex characters 2i and 2i+1, in either case; decoding stops at the first pair that is not two hex digits; it is exactly half as long if and only if the whole even-length prefix is hex digits |
| `NodeBuffer.FromLowerHex` | lib/raddecrelayudp.js:53-54 | decoding the lower-case hex text of any byte string gives back that byte string |

## Left out

- Components not present in lib/raddecrelayudp.js: source listeners, a DNS resolution cache, a record dispatcher, forwarding to a subset of target indices, an `enableForwarding` flag, configurable encoding options and a terminate operation. The model follows the code, which has none of these.
- The record codec (`raddec.encodeAsHexString`) is not part of this model. It is a function parameter of `RelayRaddec`. That it is called once is visible in the method body; the contract states it as one shared buffer in every datagram.
- UDP I/O: delivery, the asynchronous completion callback and the error it may carry are not modelled. The source's callback discards the error, so the log records every send call and nothing about its outcome.
- Node's synchronous argument checks in `send` are not modelled. For example, a port outside 1-65535 makes `send` throw and would end the loop early.
- Dynamic typing beyond lines 38-39 is not modelled. A port is a missing value or an integer, so falsy values such as `null`, `NaN`, `""` or `false` appear only as "missing". An own `address` property counts as present whatever its value, even `null`. Non-array `targets` values and non-object entries are out of scope.
- `RaddecRelayUdp.RaddecRelayUdp.Valid`: callers can still change the port or the address of a target object after construction, because they are the caller's own objects. The constructor establishes `Valid`; `RelayRaddec` does not require it and sends whatever port and address each stored target holds at that moment. Deleting the `address` property after construction is modelled as setting it to `None`.
