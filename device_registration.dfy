/** An enrolled U2F authenticator as the relying party stores it
    (FidoU2f/Models/FidoDeviceRegistration.cs): key handle, public key,
    attestation certificate and the replay-protection counter. The counter
    is the only state that changes after construction, and it only grows. */
module FidoDeviceRegistration {
  import opened Primitives

  /** Opaque byte buffers. Their C# classes are not part of this model; their
      `Equals` is assumed to compare content, so they are modelled as values. */
  datatype KeyHandle = KeyHandle(bytes: seq<byte>)
  datatype PublicKey = PublicKey(bytes: seq<byte>)
  datatype AttestationCertificate = AttestationCertificate(bytes: seq<byte>)

  /** The four properties of a registration, as one value: what `Equals` compares. */
  datatype Registration = Registration(
    keyHandle: KeyHandle,
    publicKey: PublicKey,
    certificate: AttestationCertificate,
    counter: uint32)

  /** `ArgumentNullException`, carrying the name of the null parameter. */
  datatype ConstructionError = ArgumentNull(paramName: string)

  /** `InvalidOperationException("Counter value too small!")`. */
  datatype UpdateError = CounterTooSmall

  ghost predicate StrictlyIncreasing(s: seq<uint32>) {
    forall i, j :: 0 <= i < j < |s| ==> s[i] < s[j]
  }

  /** The guard of `UpdateCounter`: a client counter is accepted only when
      it is strictly larger than the stored one (unsigned, no wrap-around). */
  predicate Admits(current: uint32, clientCounter: uint32)
    ensures Admits(current, clientCounter) ==> current < UINT32_MAX
  {
    current < clientCounter
  }

  /** The stored counter after `UpdateCounter` has been called with each of
      `attempts` in turn, starting from `start`; a rejected attempt leaves it as it was. */
  function CounterAfter(start: uint32, attempts: seq<uint32>): (final: uint32)
    ensures start <= final
    ensures final == start || final in attempts
    decreases |attempts|
  {
    if attempts == [] then start
    else CounterAfter(if Admits(start, attempts[0]) then attempts[0] else start, attempts[1..])
  }

  /** The attempts, in order, for which `UpdateCounter` succeeded. */
  function Accepted(start: uint32, attempts: seq<uint32>): (accepted: seq<uint32>)
    ensures |accepted| <= |attempts|
    ensures forall x :: x in accepted ==> x in attempts && start < x
    decreases |attempts|
  {
    if attempts == [] then []
    else if Admits(start, attempts[0]) then [attempts[0]] + Accepted(attempts[0], attempts[1..])
    else Accepted(start, attempts[1..])
  }

  /** Over any series of calls the successful counters form a strictly
      increasing sequence above the starting counter, and the last of them is
      the counter left stored. */
  lemma {:induction false} AcceptedStrictlyIncrease(start: uint32, attempts: seq<uint32>)
    ensures StrictlyIncreasing([start] + Accepted(start, attempts))
    ensures ([start] + Accepted(start, attempts))[|Accepted(start, attempts)|] == CounterAfter(start, attempts)
    decreases |attempts|
  {
    if attempts != [] {
      var a, rest := attempts[0], attempts[1..];
      if Admits(start, a) {
        AcceptedStrictlyIncrease(a, rest);
        var tail := [a] + Accepted(a, rest);
        assert [start] + Accepted(start, attempts) == [start] + tail;
        forall i, j | 0 <= i < j < |[start] + tail|
          ensures ([start] + tail)[i] < ([start] + tail)[j]
        {
          if i > 0 {
            assert ([start] + tail)[i] == tail[i - 1];
          } else {
            assert tail[j - 1] in tail;
          }
        }
      } else {
        AcceptedStrictlyIncrease(start, rest);
      }
    }
  }

  /** Calling `UpdateCounter` with `xs` and then with `ys` is calling it with `xs + ys`. */
  lemma {:induction false} CounterAfterConcat(start: uint32, xs: seq<uint32>, ys: seq<uint32>)
    ensures CounterAfter(start, xs + ys) == CounterAfter(CounterAfter(start, xs), ys)
    decreases |xs|
  {
    if xs != [] {
      assert (xs + ys)[0] == xs[0] && (xs + ys)[1..] == xs[1..] + ys;
      CounterAfterConcat(if Admits(start, xs[0]) then xs[0] else start, xs[1..], ys);
    } else {
      assert xs + ys == ys;
    }
  }

  /** Replay protection: once `UpdateCounter(c)` has succeeded, whatever
      calls follow, a later `UpdateCounter(d)` with `d <= c` (the same value
      replayed, or an older one) fails. */
  lemma ReplayRejected(start: uint32, before: seq<uint32>, c: uint32, between: seq<uint32>, d: uint32)
    requires Admits(CounterAfter(start, before), c)
    requires d <= c
    ensures !Admits(CounterAfter(start, before + [c] + between), d)
    ensures CounterAfter(start, before + [c] + between + [d]) == CounterAfter(start, before + [c] + between)
  {
    CounterAfterConcat(start, before, [c]);
    CounterAfterConcat(start, before + [c], between);
    CounterAfterConcat(start, before + [c] + between, [d]);
  }

  /** A counter at 2^32 - 1 can never be updated again: there is no wrap-around. */
  lemma {:induction false} SaturatedCounterIsFinal(attempts: seq<uint32>)
    ensures CounterAfter(UINT32_MAX, attempts) == UINT32_MAX
    ensures Accepted(UINT32_MAX, attempts) == []
    decreases |attempts|
  {
    if attempts != [] {
      SaturatedCounterIsFinal(attempts[1..]);
    }
  }

  class DeviceRegistration {
    // Set once, by the constructor (private setters in the C# code).
    const keyHandle: KeyHandle
    const publicKey: PublicKey
    const certificate: AttestationCertificate
    var counter: uint32

    /** Every value `counter` has held, oldest first. It records, for
        `Valid()` and for callers, that the counter has only ever grown. */
    ghost var history: seq<uint32>

    /** The counter has only ever grown. */
    ghost predicate Valid()
      reads this
    {
      |history| > 0 && history[|history| - 1] == counter && StrictlyIncreasing(history)
    }

    /** The constructor once its null checks have passed: the fields hold exactly the arguments. */
    constructor (keyHandle: KeyHandle, publicKey: PublicKey, certificate: AttestationCertificate, counter: uint32)
      ensures Valid()
      ensures Value() == Registration(keyHandle, publicKey, certificate, counter)
      ensures history == [counter]
    {
      this.keyHandle := keyHandle;
      this.publicKey := publicKey;
      this.certificate := certificate;
      this.counter := counter;
      history := [counter];
    }

    function Value(): Registration
      reads this
    {
      Registration(keyHandle, publicKey, certificate, counter)
    }

    /** Accepts a strictly larger counter from the device; otherwise fails and
        changes nothing. Only the counter (and its ghost history) can change:
        the other three properties are constants. */
    method UpdateCounter(clientCounter: uint32) returns (r: Outcome<UpdateError>)
      requires Valid()
      modifies this
      ensures Valid()
      ensures r == (if old(counter) < clientCounter then Pass else Fail(CounterTooSmall))
      ensures counter == CounterAfter(old(counter), [clientCounter])
      ensures history == old(history) + Accepted(old(counter), [clientCounter])
      ensures r.Pass? ==> forall v :: v in old(history) ==> v < counter
    {
      if clientCounter <= counter {
        return Fail(CounterTooSmall);
      }
      counter := clientCounter;
      history := history + [clientCounter];
      r := Pass;
    }

    /** `IEquatable.Equals`: false for null, otherwise equality of all four properties. */
    predicate Equals(other: DeviceRegistration?)
      reads this, other
      ensures Equals(other) <==> other != null && Value() == other.Value()
    {
      other != null &&
      counter == other.counter &&
      certificate == other.certificate &&
      keyHandle == other.keyHandle &&
      publicKey == other.publicKey
    }
  }

  /** The public constructor: each null argument is rejected, in parameter order. */
  method New(keyHandle: Option<KeyHandle>, publicKey: Option<PublicKey>,
             certificate: Option<AttestationCertificate>, counter: uint32)
    returns (r: Result<DeviceRegistration, ConstructionError>)
    ensures r.Err? <==> keyHandle.None? || publicKey.None? || certificate.None?
    ensures r.Err? ==> r.error == ArgumentNull(
      if keyHandle.None? then "keyHandle" else if publicKey.None? then "publicKey" else "certificate")
    ensures r.Ok? ==> fresh(r.value) && r.value.Valid() && r.value.history == [counter]
    ensures r.Ok? ==> r.value.Value() == Registration(keyHandle.value, publicKey.value, certificate.value, counter)
  {
    if keyHandle.None? { return Err(ArgumentNull("keyHandle")); }
    if publicKey.None? { return Err(ArgumentNull("publicKey")); }
    if certificate.None? { return Err(ArgumentNull("certificate")); }
    var d := new DeviceRegistration(keyHandle.value, publicKey.value, certificate.value, counter);
    r := Ok(d);
  }

  /** `Equals` is an equivalence relation on registrations. */
  lemma EqualsIsEquivalence(a: DeviceRegistration, b: DeviceRegistration, c: DeviceRegistration)
    ensures a.Equals(a)
    ensures a.Equals(b) ==> b.Equals(a)
    ensures a.Equals(b) && b.Equals(c) ==> a.Equals(c)
  {
  }

  /** A registration enrolled with counter 0: `UpdateCounter(1)` succeeds, then
      `UpdateCounter(1)` again and `UpdateCounter(0)` are both rejected. */
  method ReplayScenario(keyHandle: KeyHandle, publicKey: PublicKey, certificate: AttestationCertificate)
    returns (first: Outcome<UpdateError>, replayed: Outcome<UpdateError>, older: Outcome<UpdateError>, final: uint32)
    ensures first == Pass
    ensures replayed == Fail(CounterTooSmall) && older == Fail(CounterTooSmall)
    ensures final == 1
  {
    var device := new DeviceRegistration(keyHandle, publicKey, certificate, 0);
    first := device.UpdateCounter(1);
    replayed := device.UpdateCounter(1);
    older := device.UpdateCounter(0);
    final := device.counter;
  }
}
