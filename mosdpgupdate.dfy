/** The placement-group update message: map version, placement group id,
    completeness flag and last_any_complete, written to the payload at their
    fixed widths and read back in the same order from offset 0. */
module OSDPGUpdate {
  import opened Wire

  const TYPE_NAME := "PGUp"

  /** sizeof(version_t) and sizeof(pg_t). */
  const VERSION_SIZE: nat := U64_SIZE
  const PG_SIZE: nat := U64_SIZE

  type version = uint64
  type pg = uint64

  datatype PGUpdate = PGUpdate(mapVersion: version, pgid: pg, complete: bool, lastAnyComplete: version)

  const ENCODED_SIZE: nat := VERSION_SIZE + PG_SIZE + BOOL_SIZE + VERSION_SIZE

  function EncodeUpdate(u: PGUpdate): (r: bytes)
    ensures |r| == ENCODED_SIZE
  {
    EncodeU64(u.mapVersion) + EncodeU64(u.pgid) + EncodeBool(u.complete) + EncodeU64(u.lastAnyComplete)
  }

  /** The four fields read from offset 0, one after the other. */
  function DecodeUpdate(p: bytes): Option<PGUpdate>
  {
    var v := ReadU64(p, 0);
    var g := ReadU64(p, VERSION_SIZE);
    var c := ReadBool(p, VERSION_SIZE + PG_SIZE);
    var l := ReadU64(p, VERSION_SIZE + PG_SIZE + BOOL_SIZE);
    if v.None? || g.None? || c.None? || l.None? then None
    else Some(PGUpdate(v.value, g.value, c.value, l.value))
  }

  /** Encoding into an empty payload and decoding restores all four fields,
      whatever follows the encoding. */
  lemma DecodeEncodeUpdate(u: PGUpdate, post: bytes)
    ensures DecodeUpdate(EncodeUpdate(u) + post) == Some(u)
  {
    var e1, e2, e3, e4 := EncodeU64(u.mapVersion), EncodeU64(u.pgid), EncodeBool(u.complete), EncodeU64(u.lastAnyComplete);
    var p := EncodeUpdate(u) + post;
    assert p == [] + e1 + (e2 + e3 + e4 + post);
    ReadU64At([], u.mapVersion, e2 + e3 + e4 + post);
    assert p == e1 + e2 + (e3 + e4 + post);
    ReadU64At(e1, u.pgid, e3 + e4 + post);
    assert p == e1 + e2 + e3 + (e4 + post);
    ReadBoolAt(e1 + e2, u.complete, e4 + post);
    assert p == e1 + e2 + e3 + e4 + post;
    ReadU64At(e1 + e2 + e3, u.lastAnyComplete, post);
  }

  /** Decode fails exactly when the payload is shorter than the four fields. */
  lemma DecodeUpdateNeedsAllFields(p: bytes)
    ensures DecodeUpdate(p).Some? <==> ENCODED_SIZE <= |p|
  {
  }

  class MOSDPGUpdate {
    var mapVersion: version
    var pgid: pg
    var complete: bool
    var lastAnyComplete: version
    var payload: bytes

    function Fields(): PGUpdate
      reads this
    {
      PGUpdate(mapVersion, pgid, complete, lastAnyComplete)
    }

    constructor Empty()
      ensures payload == []
    {
      payload := [];
    }

    constructor (mv: version, pgid: pg, complete: bool, lastAnyComplete: version)
      ensures Fields() == PGUpdate(mv, pgid, complete, lastAnyComplete) && payload == []
      ensures GetVersion() == mv && GetPgid() == pgid && GetLastAnyComplete() == lastAnyComplete
      ensures IsComplete() <==> complete
    {
      mapVersion := mv;
      this.pgid := pgid;
      this.complete := complete;
      this.lastAnyComplete := lastAnyComplete;
      payload := [];
    }

    function GetVersion(): (r: version)
      reads this
    { mapVersion }

    function GetPgid(): (r: pg)
      reads this
    { pgid }

    predicate IsComplete()
      reads this
    { complete }

    function GetLastAnyComplete(): (r: version)
      reads this
    { lastAnyComplete }

    /** Appends the four fields, in order, to the payload. */
    method EncodePayload()
      modifies this`payload
      ensures payload == old(payload) + EncodeUpdate(Fields())
    {
      payload := payload + EncodeU64(mapVersion);
      payload := payload + EncodeU64(pgid);
      payload := payload + EncodeBool(complete);
      payload := payload + EncodeU64(lastAnyComplete);
    }

    /** Reads the four fields from offset 0, advancing a local offset; fails,
        changing nothing, when the payload is too short. */
    method DecodePayload() returns (ok: bool)
      modifies this`mapVersion, this`pgid, this`complete, this`lastAnyComplete
      ensures ok <==> DecodeUpdate(payload).Some?
      ensures ok ==> Fields() == DecodeUpdate(payload).value
      ensures !ok ==> Fields() == old(Fields())
    {
      var off := 0;
      var v := ReadU64(payload, off);
      off := off + VERSION_SIZE;
      var g := ReadU64(payload, off);
      off := off + PG_SIZE;
      var c := ReadBool(payload, off);
      off := off + BOOL_SIZE;
      var l := ReadU64(payload, off);
      off := off + VERSION_SIZE;
      ok := v.Some? && g.Some? && c.Some? && l.Some?;
      if ok {
        mapVersion, pgid, complete, lastAnyComplete := v.value, g.value, c.value, l.value;
      }
    }
  }

  /** Sending a freshly built update and decoding it on the other side
      restores every field. */
  method Transmit(u: PGUpdate) returns (r: PGUpdate)
    ensures r == u
  {
    var m := new MOSDPGUpdate(u.mapVersion, u.pgid, u.complete, u.lastAnyComplete);
    m.EncodePayload();
    var m' := new MOSDPGUpdate.Empty();
    m'.payload := m.payload;
    DecodeEncodeUpdate(u, []);
    assert m'.payload == EncodeUpdate(u) + [];
    var ok := m'.DecodePayload();
    r := m'.Fields();
  }
}
