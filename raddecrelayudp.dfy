/**
 * The relay of lib/raddecrelayudp.js: a registry of target endpoints built
 * once from the construction options, and `relayRaddec`, which encodes a
 * record once and sends the same bytes to every stored target, in order.
 */
module RaddecRelayUdp {
  import opened Wrappers
  import opened NodeBuffer
  import opened Dgram

  const DEFAULT_TARGETS: seq<Target> := []
  const DEFAULT_RADDEC_PORT: int := 50001

  /**
   * A target entry of the options. It is a caller's object: the constructor
   * writes its `port` in place and stores the object itself, not a copy.
   * `address` is None exactly when the object has no own `address` property.
   */
  class Target {
    var address: Option<string>
    var port: Option<int>

    constructor (address: Option<string>, port: Option<int>)
      ensures this.address == address && this.port == port
    {
      this.address := address;
      this.port := port;
    }
  }

  /** The construction options the relay reads: only `targets`. */
  datatype Options = Options(targets: Option<seq<Target>>)

  /** The options handed to the record codec. */
  datatype RaddecOptions = RaddecOptions(includeTimestamp: bool, includePackets: bool)

  /** JavaScript truthiness of a port: missing and `0` are falsy. */
  predicate Truthy(port: Option<int>) {
    port.Some? && port.value != 0
  }

  /** `target.port || DEFAULT_RADDEC_PORT`. */
  function DefaultedPort(port: Option<int>): (r: Option<int>)
    ensures Truthy(r)
    ensures Truthy(port) ==> r == port
    ensures !Truthy(port) ==> r == Some(DEFAULT_RADDEC_PORT)
  {
    if Truthy(port) then port else Some(DEFAULT_RADDEC_PORT)
  }

  /** Defaulting a port that is already defaulted changes nothing. */
  lemma DefaultedPortIdempotent(port: Option<int>)
    ensures DefaultedPort(DefaultedPort(port)) == DefaultedPort(port)
  {
  }

  /** `(options || {}).targets || DEFAULT_TARGETS`: the entries the constructor walks. */
  function Configured(options: Option<Options>): (ts: seq<Target>)
    ensures options.None? ==> ts == []
    ensures options.Some? && options.value.targets.None? ==> ts == []
    ensures options.Some? && options.value.targets.Some? ==> ts == options.value.targets.value
  {
    match options
    case None => DEFAULT_TARGETS
    case Some(o) => o.targets.GetOr(DEFAULT_TARGETS)
  }

  /** The entries kept by the constructor: those with an own `address`, in input order. */
  function Retained(ts: seq<Target>): (r: seq<Target>)
    reads ts`address
    ensures |r| <= |ts|
  {
    if ts == [] then []
    else if ts[0].address.Some? then [ts[0]] + Retained(ts[1..])
    else Retained(ts[1..])
  }

  /** A target is stored exactly when it is one of the entries and has an own address. */
  lemma {:induction false} RetainedMembers(ts: seq<Target>)
    ensures forall t :: t in Retained(ts) ==> t in ts && t.address.Some?
    ensures forall t :: t in ts && t.address.Some? ==> t in Retained(ts)
  {
    if ts != [] {
      RetainedMembers(ts[1..]);
      assert forall t :: t in ts ==> t == ts[0] || t in ts[1..];
    }
  }

  /** `xs` is `ys` with some entries removed and the rest in their order. */
  ghost predicate SubsequenceOf(xs: seq<Target>, ys: seq<Target>)
    decreases |ys|
  {
    if xs == [] then true
    else if ys == [] then false
    else (xs[0] == ys[0] && SubsequenceOf(xs[1..], ys[1..])) || SubsequenceOf(xs, ys[1..])
  }

  /** The stored targets keep the input order: they are a subsequence of the entries. */
  lemma {:induction false} RetainedIsSubsequence(ts: seq<Target>)
    ensures SubsequenceOf(Retained(ts), ts)
  {
    if ts != [] {
      RetainedIsSubsequence(ts[1..]);
    }
  }

  /**
   * Each entry with an address is stored as often as it occurs in the input,
   * each entry without one never.
   */
  lemma {:induction false} RetainedMultiplicity(ts: seq<Target>, t: Target)
    ensures multiset(Retained(ts))[t] == if t.address.Some? then multiset(ts)[t] else 0
  {
    if ts != [] {
      RetainedMultiplicity(ts[1..], t);
      assert ts == [ts[0]] + ts[1..];
    }
  }

  /** Walking one more entry either stores it at the end or leaves the stored list alone. */
  lemma {:induction false} RetainedSnoc(ts: seq<Target>, t: Target)
    ensures Retained(ts + [t]) == Retained(ts) + (if t.address.Some? then [t] else [])
  {
    if ts != [] {
      assert (ts + [t])[1..] == ts[1..] + [t];
      RetainedSnoc(ts[1..], t);
    }
  }

  /** The datagrams of one `relayRaddec`: one per target, in order, all carrying `buffer`. */
  ghost function Fanout(buffer: seq<byte>, ts: seq<Target>): (r: seq<Datagram>)
    reads ts
    ensures |r| == |ts|
    ensures forall i :: 0 <= i < |ts| ==> r[i] == Datagram(buffer, ts[i].port, ts[i].address)
  {
    if ts == [] then []
    else [Datagram(buffer, ts[0].port, ts[0].address)] + Fanout(buffer, ts[1..])
  }

  /** Sending to one more target appends exactly that target's datagram. */
  lemma FanoutSnoc(buffer: seq<byte>, ts: seq<Target>, t: Target)
    ensures Fanout(buffer, ts + [t]) == Fanout(buffer, ts) + [Datagram(buffer, t.port, t.address)]
  {
  }

  /**
   * The `forEach` over the configured entries: each entry's port is defaulted
   * in place, and the entries with an address are collected in input order.
   */
  method NormaliseTargets(entries: seq<Target>) returns (kept: seq<Target>)
    modifies entries`port
    ensures kept == Retained(entries)
    ensures forall t :: t in entries ==> t.port == DefaultedPort(old(t.port))
  {
    kept := [];
    var i := 0;
    while i < |entries|
      invariant 0 <= i <= |entries|
      invariant kept == Retained(entries[..i])
      invariant forall t :: t in entries[..i] ==> t.port == DefaultedPort(old(t.port))
      invariant forall t :: t in entries && t !in entries[..i] ==> t.port == old(t.port)
    {
      var target := entries[i];
      assert entries[..i + 1] == entries[..i] + [target];
      RetainedSnoc(entries[..i], target);
      if target.address.Some? {
        kept := kept + [target];
      }
      DefaultedPortIdempotent(old(target.port));
      target.port := DefaultedPort(target.port);
      i := i + 1;
    }
    assert entries[..i] == entries;
  }

  class RaddecRelayUdp {
    const raddecOptions: RaddecOptions
    var targets: seq<Target>
    const client: UdpSocket

    /** Every stored target has an address and a truthy port. */
    ghost predicate Valid()
      reads this, targets
    {
      forall t :: t in targets ==> t.address.Some? && Truthy(t.port)
    }

    /**
     * Builds the registry: every configured entry gets its port defaulted
     * in place, and those with an address are stored, in input order.
     */
    constructor (options: Option<Options>)
      modifies Configured(options)`port
      ensures raddecOptions == RaddecOptions(true, true)
      ensures targets == Retained(Configured(options))
      ensures forall t :: t in Configured(options) ==> t.port == DefaultedPort(old(t.port))
      ensures forall t :: t in Configured(options) ==> t.address == old(t.address)
      ensures Valid()
      ensures fresh(client) && client.sent == []
    {
      var entries := Configured(options);
      raddecOptions := RaddecOptions(true, true);
      client := new UdpSocket();
      var kept := NormaliseTargets(entries);
      RetainedMembers(entries);
      targets := kept;
    }

    /**
     * Encodes `raddec` once with the fixed codec options and sends the bytes
     * to each stored target's port and address, in stored order.
     */
    method RelayRaddec<R>(raddec: R, encodeAsHexString: (R, RaddecOptions) -> string)
      modifies client
      ensures targets == old(targets) && unchanged(targets)
      ensures client.sent == old(client.sent) + Fanout(FromHex(encodeAsHexString(raddec, raddecOptions)), targets)
    {
      var raddecHex := encodeAsHexString(raddec, raddecOptions);
      var raddecBuffer := FromHex(raddecHex);
      var i := 0;
      while i < |targets|
        invariant 0 <= i <= |targets|
        invariant client.sent == old(client.sent) + Fanout(raddecBuffer, targets[..i])
      {
        var target := targets[i];
        client.Send(raddecBuffer, target.port, target.address);
        assert targets[..i + 1] == targets[..i] + [target];
        FanoutSnoc(raddecBuffer, targets[..i], target);
        i := i + 1;
      }
      assert targets[..i] == targets;
    }
  }

  /** A relay built from the options sends to every stored target a truthy port and an address. */
  lemma RelayedDatagramsAreAddressed(buffer: seq<byte>, ts: seq<Target>, d: Datagram)
    requires forall t :: t in ts ==> t.address.Some? && Truthy(t.port)
    requires d in Fanout(buffer, ts)
    ensures d.buffer == buffer && d.address.Some? && Truthy(d.port)
  {
  }
}
