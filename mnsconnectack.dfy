/** The MNSConnectAck message: a single int32 field, written to the payload by encode
    and read back from the very start of the payload by decode. */
module NSConnectAck {
  import opened Wire

  const TYPE_NAME := "NSConA"

  class MNSConnectAck {
    var rank: int32
    var payload: bytes

    /** MNSConnectAck(): no field set, empty payload. */
    constructor Empty()
      ensures payload == []
    {
      payload := [];
    }

    constructor (rank: int32)
      ensures this.rank == rank && GetRank() == rank && payload == []
    {
      this.rank := rank;
      payload := [];
    }

    function GetRank(): int32
      reads this
    {
      rank
    }

    /** Appends the field to whatever the payload already holds. */
    method EncodePayload()
      modifies this`payload
      ensures payload == old(payload) + EncodeInt(rank)
      ensures |payload| == |old(payload)| + INT_SIZE
    {
      payload := payload + EncodeInt(rank);
    }

    /** Reads the field from offset 0 of the payload; fails, changing
        nothing, when the payload is shorter than the field. */
    method DecodePayload() returns (ok: bool)
      modifies this`rank
      ensures ok <==> INT_SIZE <= |payload|
      ensures ok ==> rank == DecodeInt(payload[..INT_SIZE])
      ensures !ok ==> rank == old(rank)
    {
      ok := INT_SIZE <= |payload|;
      if ok {
        rank := DecodeInt(payload[0..INT_SIZE]);
      }
    }
  }

  /** A message built from v, encoded into its fresh payload, and decoded
      by a second message holding that payload, yields v again. */
  method Transmit(v: int32) returns (r: int32)
    ensures r == v
  {
    var m := new MNSConnectAck(v);
    m.EncodePayload();
    var m' := new MNSConnectAck.Empty();
    m'.payload := m.payload;
    var ok := m'.DecodePayload();
    DecodeEncodeInt(v);
    assert m'.payload[..INT_SIZE] == EncodeInt(v);
    r := m'.rank;
  }

  /** When the payload already held INT_SIZE bytes or more before encode, decode
      reads those old bytes and not the field just appended. */
  lemma DecodeSeesOldPrefix(old_payload: bytes, v: int32)
    requires INT_SIZE <= |old_payload|
    ensures (old_payload + EncodeInt(v))[..INT_SIZE] == old_payload[..INT_SIZE]
  {
  }
}
