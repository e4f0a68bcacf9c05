/** The probe frame that send mode (`-s`) puts on the wire: a fixed-size
    buffer of random bytes whose first four bytes are a recognisable marker. */
module Probe {

  newtype byte = b: int | 0 <= b < 0x100

  /** The size of every probe frame. */
  const ProbeLength: nat := 200

  /** The marker at the start of every probe frame. */
  const Identifier: seq<byte> := [0xDE, 0xAD, 0xBE, 0xEF]

  /** How `Array.Copy(source, destination, length)` ends: it copies, or it
      throws because length is negative or longer than one of the arrays. */
  datatype CopyResult = Copied | ArgumentOutOfRangeException | ArgumentException

  /** `Array.Copy(source, destination, length)` on two one-dimensional arrays:
      the first length elements of source overwrite the first length elements
      of destination, and the rest of destination is untouched. Overlapping
      arrays behave as if source were read before destination is written. */
  method ArrayCopy(source: array<byte>, destination: array<byte>, length: int) returns (r: CopyResult)
    modifies destination
    ensures r == if length < 0 then ArgumentOutOfRangeException
                 else if length > source.Length || length > destination.Length then ArgumentException
                 else Copied
    ensures r != Copied ==> destination[..] == old(destination[..])
    ensures r == Copied ==> destination[..] == old(source[..length]) + old(destination[length..])
  {
    if length < 0 {
      return ArgumentOutOfRangeException;
    }
    if length > source.Length || length > destination.Length {
      return ArgumentException;
    }
    var i := 0;
    while i < length
      invariant 0 <= i <= length
      invariant destination[..i] == old(source[..i])
      invariant forall j :: i <= j < destination.Length ==> destination[j] == old(destination[j])
      invariant source == destination || source[..] == old(source[..])
    {
      destination[i] := source[i];
      i := i + 1;
    }
    assert destination[length..] == old(destination[length..]);
    assert destination[..] == destination[..length] + destination[length..];
    r := Copied;
  }

  /** `GetRandomPacket`: a fresh 200-byte frame whose bytes are first set from
      fill (the random source's output) and whose first four bytes are then
      overwritten with the marker. */
  method GetRandomPacket(fill: seq<byte>) returns (packet: array<byte>)
    requires |fill| == ProbeLength
    ensures fresh(packet)
    ensures packet.Length == ProbeLength
    ensures packet[..|Identifier|] == Identifier
    ensures packet[|Identifier|..] == fill[|Identifier|..]
  {
    packet := new byte[ProbeLength](i requires 0 <= i < ProbeLength => fill[i]);
    var identifier := new byte[|Identifier|](i requires 0 <= i < |Identifier| => Identifier[i]);
    var r := ArrayCopy(identifier, packet, identifier.Length);
    assert r == Copied;
    assert packet[..] == Identifier + fill[|Identifier|..];
  }
}
