/** The "signature data" an authenticator returns from an authentication
    request (FidoU2f/Models/FidoSignatureData.cs), laid out as in section 5.4
    of the FIDO U2F Raw Message Formats specification:
      1 byte  user presence
      4 bytes counter, big-endian
      rest    signature, up to the end of the buffer (no length prefix). */
module FidoSignatureData {
  import opened Primitives

  datatype SignatureData = SignatureData(userPresence: byte, counter: uint32, signature: seq<byte>)

  /** Why decoding fails. */
  datatype DecodeError =
    | EndOfStream      // `BinaryReader.ReadByte` on an empty buffer
    | CounterTooShort  // `BitConverter.ToUInt32` handed fewer than 4 bytes

  /** The unsigned value of four bytes, most significant first. */
  function BigEndianValue(b: seq<byte>): uint32
    requires |b| == 4
  {
    (b[0] as int * 0x100_0000 + b[1] as int * 0x1_0000 + b[2] as int * 0x100 + b[3] as int) as uint32
  }

  /** The unsigned value of four bytes, least significant first. */
  function LittleEndianValue(b: seq<byte>): uint32
    requires |b| == 4
  {
    (b[3] as int * 0x100_0000 + b[2] as int * 0x1_0000 + b[1] as int * 0x100 + b[0] as int) as uint32
  }

  /** The counter as it travels on the wire: four bytes, most significant first. */
  function BigEndianBytes(n: uint32): (b: seq<byte>)
    ensures |b| == 4 && BigEndianValue(b) == n
  {
    var q1 := n as int / 0x100;
    var q2 := q1 / 0x100;
    var q3 := q2 / 0x100;
    assert n as int == ((q3 * 0x100 + q2 % 0x100) * 0x100 + q1 % 0x100) * 0x100 + n as int % 0x100;
    [q3 as byte, (q2 % 0x100) as byte, (q1 % 0x100) as byte, (n as int % 0x100) as byte]
  }

  /** Four bytes are recovered from their big-endian value. */
  lemma BigEndianBytesOfValue(b: seq<byte>)
    requires |b| == 4
    ensures BigEndianBytes(BigEndianValue(b)) == b
  {
    var m := BigEndianValue(b) as int;
    var low := b[1] as int * 0x1_0000 + b[2] as int * 0x100 + b[3] as int;
    assert m == b[0] as int * 0x100_0000 + low && 0 <= low < 0x100_0000;
    assert m / 0x100_0000 == b[0] as int;
    var mid := b[2] as int * 0x100 + b[3] as int;
    assert m / 0x1_0000 == b[0] as int * 0x100 + b[1] as int;
    assert m / 0x100 == (b[0] as int * 0x100 + b[1] as int) * 0x100 + b[2] as int;
    assert m % 0x100 == b[3] as int;
  }

  /** `a` in reverse order, as `Array.Reverse` leaves it. */
  function Reversed(a: seq<byte>): (r: seq<byte>)
  {
    seq(|a|, i requires 0 <= i < |a| => a[|a| - 1 - i])
  }

  /** `BitConverter.ToUInt32(value, 0)`: the first four bytes read in the
      host's byte order; fewer than four bytes is an error. A little-endian
      host reads the four bytes as the big-endian value of their reversal. */
  function HostUInt32(value: seq<byte>, littleEndianHost: bool): (r: Result<uint32, DecodeError>)
    ensures r.Err? <==> |value| < 4
    ensures r.Err? ==> r.error == CounterTooShort
    ensures r.Ok? ==> r.value == if littleEndianHost then BigEndianValue(Reversed(value[..4])) else BigEndianValue(value[..4])
  {
    if |value| < 4 then Err(CounterTooShort)
    else if littleEndianHost then Ok(LittleEndianValue(value[..4]))
    else Ok(BigEndianValue(value[..4]))
  }

  /** Reversing the counter bytes on a little-endian host, and only there,
      makes the counter the big-endian value of the wire bytes on every host. */
  lemma CounterIsHostIndependent(wire: seq<byte>, littleEndianHost: bool)
    requires |wire| == 4
    ensures HostUInt32(if littleEndianHost then Reversed(wire) else wire, littleEndianHost) == Ok(BigEndianValue(wire))
  {
  }

  /** What `FromBytes` computes, as a function of the input buffer. */
  function Decode(input: seq<byte>): (r: Result<SignatureData, DecodeError>)
    ensures r.Err? <==> |input| < 5
    ensures r == Err(EndOfStream) <==> |input| == 0
    ensures r.Ok? ==> |r.value.signature| == |input| - 5
  {
    if |input| == 0 then Err(EndOfStream)
    else if |input| < 5 then Err(CounterTooShort)
    else Ok(SignatureData(input[0], BigEndianValue(input[1..5]), input[5..]))
  }

  /** The buffer a device produces for the given fields. */
  function Encode(d: SignatureData): (out: seq<byte>)
    ensures |out| == 5 + |d.signature|
  {
    [d.userPresence] + BigEndianBytes(d.counter) + d.signature
  }

  /** Decoding what a device encoded returns exactly the user presence, counter and signature. */
  lemma DecodeEncode(d: SignatureData)
    ensures Decode(Encode(d)) == Ok(d)
  {
  }

  /** Every buffer that decodes is the encoding of what it decodes to: nothing is dropped. */
  lemma EncodeDecode(input: seq<byte>)
    requires Decode(input).Ok?
    ensures Encode(Decode(input).value) == input
  {
    BigEndianBytesOfValue(input[1..5]);
    assert input == [input[0]] + input[1..5] + input[5..];
  }

  /** The example buffer 01 00 00 00 05 AA BB. */
  lemma ExampleDecodes()
    ensures Decode([0x01, 0x00, 0x00, 0x00, 0x05, 0xAA, 0xBB]) == Ok(SignatureData(1, 5, [0xAA, 0xBB]))
  {
  }

  /** `BinaryReader.ReadBytes(count)` with the stream at `position`: as many
      of the next `count` bytes as the buffer still holds, in a new array,
      and the advanced position. */
  method ReadBytes(source: array<byte>, position: nat, count: nat) returns (bytes: array<byte>, next: nat)
    requires position <= source.Length
    ensures next == if count <= source.Length - position then position + count else source.Length
    ensures fresh(bytes) && bytes[..] == source[position..next]
  {
    next := if count <= source.Length - position then position + count else source.Length;
    bytes := new byte[next - position];
    var i := 0;
    while i < bytes.Length
      invariant 0 <= i <= bytes.Length
      invariant forall k :: 0 <= k < i ==> bytes[k] == source[position + k]
    {
      bytes[i] := source[position + i];
      i := i + 1;
    }
  }

  /** `Array.Reverse`: swaps the outermost pair, then moves both ends inwards. */
  method Reverse(a: array<byte>)
    modifies a
    ensures a[..] == Reversed(old(a[..]))
  {
    var i, j := 0, a.Length - 1;
    while i < j
      invariant 0 <= i && j == a.Length - 1 - i && 2 * i <= a.Length
      invariant forall k :: 0 <= k < i ==> a[k] == old(a[a.Length - 1 - k]) && a[a.Length - 1 - k] == old(a[k])
      invariant forall k :: i <= k <= j ==> a[k] == old(a[k])
    {
      a[i], a[j] := a[j], a[i];
      i, j := i + 1, j - 1;
    }
    assert forall k :: 0 <= k < a.Length ==> a[k] == Reversed(old(a[..]))[k];
  }

  /** `FromBytes`/`FromStream`: reads the user-presence byte, then up to four
      counter bytes, reverses them on a little-endian host, converts them in
      host order, and reads the rest of the buffer as the signature. */
  method FromBytes(raw: array<byte>, littleEndianHost: bool) returns (r: Result<SignatureData, DecodeError>)
    ensures r == Decode(raw[..])
  {
    var position := 0;
    if position == raw.Length {
      return Err(EndOfStream);
    }
    var userPresence := raw[position];
    position := position + 1;

    var counterBytes;
    counterBytes, position := ReadBytes(raw, position, 4);
    ghost var wire := counterBytes[..];
    if littleEndianHost {
      Reverse(counterBytes);
    }
    var counter := HostUInt32(counterBytes[..], littleEndianHost);
    if counter.Err? {
      return Err(counter.error);
    }
    assert |wire| == 4 && wire == raw[1..5];
    CounterIsHostIndependent(wire, littleEndianHost);

    var size := raw.Length - position;
    var signatureBytes;
    signatureBytes, position := ReadBytes(raw, position, size);
    assert signatureBytes[..] == raw[..][5..];
    return Ok(SignatureData(userPresence, counter.value, signatureBytes[..]));
  }
}
