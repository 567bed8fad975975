/** The inode-unlink message. Its body is one record, MInodeUnlink_st,
    holding the ino and the sender; encode appends the record to a caller's
    buffer and decode reads it back at a caller's offset, advancing it. */
module InodeUnlink {
  import opened Wire

  const TYPE_NAME := "InUl"

  /** MInodeUnlink_st. */
  datatype UnlinkSt = UnlinkSt(ino: uint64, from: int32)

  /** sizeof(MInodeUnlink_st), its fields laid out back to back. */
  const ST_SIZE: nat := U64_SIZE + INT_SIZE

  function EncodeSt(st: UnlinkSt): (r: bytes)
    ensures |r| == ST_SIZE
  {
    EncodeU64(st.ino) + EncodeInt(st.from)
  }

  function DecodeSt(b: bytes): UnlinkSt
    requires |b| == ST_SIZE
  {
    UnlinkSt(DecodeU64(b[..U64_SIZE]), DecodeInt(b[U64_SIZE..]))
  }

  lemma DecodeEncodeSt(st: UnlinkSt)
    ensures DecodeSt(EncodeSt(st)) == st
  {
    var b := EncodeSt(st);
    assert b[..U64_SIZE] == EncodeU64(st.ino);
    assert b[U64_SIZE..] == EncodeInt(st.from);
    DecodeEncodeU64(st.ino);
    DecodeEncodeInt(st.from);
  }

  class MInodeUnlink {
    var st: UnlinkSt

    constructor Empty()
    {
    }

    constructor (ino: uint64, from: int32)
      ensures st.ino == ino && st.from == from
      ensures GetIno() == ino && GetFrom() == from
    {
      st := UnlinkSt(ino, from);
    }

    function GetIno(): (r: uint64)
      reads this
    {
      st.ino
    }

    function GetFrom(): (r: int32)
      reads this
    {
      st.from
    }

    /** Appends the whole record to s. */
    method EncodePayload(s: bytes) returns (s': bytes)
      ensures s' == s + EncodeSt(st)
      ensures |s'| == |s| + ST_SIZE
    {
      s' := s + EncodeSt(st);
    }

    /** Reads the record at off and advances off past it; fails, changing
        nothing, when the record does not lie inside s. */
    method DecodePayload(s: bytes, off: int) returns (ok: bool, off': int)
      modifies this
      ensures ok <==> 0 <= off && off + ST_SIZE <= |s|
      ensures ok ==> st == DecodeSt(s[off..off + ST_SIZE]) && off' == off + ST_SIZE
      ensures !ok ==> st == old(st) && off' == off
    {
      ok, off' := false, off;
      var b := ReadBytes(s, off, ST_SIZE);
      if b.Some? {
        st := DecodeSt(b.value);
        ok, off' := true, off + ST_SIZE;
      }
    }
  }

  /** Decoding at the offset where the record was appended gives back the
      ino and the sender, and leaves the offset just after the record. */
  method Transmit(pre: bytes, ino: uint64, from: int32, post: bytes)
    returns (ino': uint64, from': int32, off': int)
    ensures ino' == ino && from' == from && off' == |pre| + ST_SIZE
  {
    var m := new MInodeUnlink(ino, from);
    var s := m.EncodePayload(pre);
    s := s + post;
    var m' := new MInodeUnlink.Empty();
    var ok;
    assert s[|pre|..|pre| + ST_SIZE] == EncodeSt(UnlinkSt(ino, from));
    ok, off' := m'.DecodePayload(s, |pre|);
    DecodeEncodeSt(UnlinkSt(ino, from));
    ino', from' := m'.GetIno(), m'.GetFrom();
  }
}
