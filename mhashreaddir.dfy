/** The MHashReaddir message: a single uint64 field, written to the payload by encode
    and read back from the very start of the payload by decode. */
module HashReaddir {
  import opened Wire

  const TYPE_NAME := "Hls"

  class MHashReaddir {
    var ino: uint64
    var payload: bytes

    /** MHashReaddir(): no field set, empty payload. */
    constructor Empty()
      ensures payload == []
    {
      payload := [];
    }

    constructor (ino: uint64)
      ensures this.ino == ino && GetIno() == ino && payload == []
    {
      this.ino := ino;
      payload := [];
    }

    function GetIno(): uint64
      reads this
    {
      ino
    }

    /** Appends the field to whatever the payload already holds. */
    method EncodePayload()
      modifies this`payload
      ensures payload == old(payload) + EncodeU64(ino)
      ensures |payload| == |old(payload)| + U64_SIZE
    {
      payload := payload + EncodeU64(ino);
    }

    /** Reads the field from offset 0 of the payload; fails, changing
        nothing, when the payload is shorter than the field. */
    method DecodePayload() returns (ok: bool)
      modifies this`ino
      ensures ok <==> U64_SIZE <= |payload|
      ensures ok ==> ino == DecodeU64(payload[..U64_SIZE])
      ensures !ok ==> ino == old(ino)
    {
      ok := U64_SIZE <= |payload|;
      if ok {
        ino := DecodeU64(payload[0..U64_SIZE]);
      }
    }
  }

  /** A message built from v, encoded into its fresh payload, and decoded
      by a second message holding that payload, yields v again. */
  method Transmit(v: uint64) returns (r: uint64)
    ensures r == v
  {
    var m := new MHashReaddir(v);
    m.EncodePayload();
    var m' := new MHashReaddir.Empty();
    m'.payload := m.payload;
    var ok := m'.DecodePayload();
    DecodeEncodeU64(v);
    assert m'.payload[..U64_SIZE] == EncodeU64(v);
    r := m'.ino;
  }

  /** When the payload already held U64_SIZE bytes or more before encode, decode
      reads those old bytes and not the field just appended. */
  lemma DecodeSeesOldPrefix(old_payload: bytes, v: uint64)
    requires U64_SIZE <= |old_payload|
    ensures (old_payload + EncodeU64(v))[..U64_SIZE] == old_payload[..U64_SIZE]
  {
  }
}
