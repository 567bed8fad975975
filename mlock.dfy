/** The metadata-server lock message: the action codes of the lock protocol,
    their replica/authority classification, the setters that fill in the
    lock object, and the payload encoding and decoding. */
module Lock {
  import opened Wire

  /** Lockable object types (otype). */
  const LOCK_OTYPE_IHARD: int8 := 1
  const LOCK_OTYPE_IFILE: int8 := 2
  const LOCK_OTYPE_DIR: int8 := 3
  const LOCK_OTYPE_DN: int8 := 4

  /** Actions sent to replicas. */
  const LOCK_AC_SYNC: int32 := 0
  const LOCK_AC_MIXED: int32 := 1
  const LOCK_AC_LOCK: int32 := 2
  const LOCK_AC_REQXLOCKACK: int32 := 9
  const LOCK_AC_REQXLOCKNAK: int32 := 10
  /** Actions sent to the authority. */
  const LOCK_AC_LOCKNAK: int32 := 12
  const LOCK_AC_SYNCACK: int32 := 13
  const LOCK_AC_MIXEDACK: int32 := 14
  const LOCK_AC_LOCKACK: int32 := 15
  const LOCK_AC_REQREAD: int32 := 19
  const LOCK_AC_REQWRITE: int32 := 20
  const LOCK_AC_REQXLOCK: int32 := 21
  const LOCK_AC_REQXLOCKC: int32 := 22
  const LOCK_AC_UNXLOCK: int32 := 23

  const TYPE_NAME := "ILock"

  const ReplicaActions: set<int32> :=
    {LOCK_AC_SYNC, LOCK_AC_MIXED, LOCK_AC_LOCK, LOCK_AC_REQXLOCKACK, LOCK_AC_REQXLOCKNAK}
  const AuthActions: set<int32> :=
    {LOCK_AC_LOCKNAK, LOCK_AC_SYNCACK, LOCK_AC_MIXEDACK, LOCK_AC_LOCKACK, LOCK_AC_REQREAD,
     LOCK_AC_REQWRITE, LOCK_AC_REQXLOCK, LOCK_AC_REQXLOCKC, LOCK_AC_UNXLOCK}

  /** An action addressed to a replica. */
  predicate ForReplica(a: int) { a <= 10 }
  /** An action addressed to the authority. */
  predicate ForAuth(a: int) { a >= 11 }

  /** Every action code is addressed to exactly one side. */
  lemma ReplicaAuthPartition(a: int)
    ensures ForReplica(a) <==> !ForAuth(a)
  {
  }

  lemma ActionCodeClassification()
    ensures forall a :: a in ReplicaActions ==> ForReplica(a) && !ForAuth(a)
    ensures forall a :: a in AuthActions ==> ForAuth(a) && !ForReplica(a)
  {
  }

  /** The fields a lock message carries on the wire. */
  datatype LockFields = LockFields(action: int32, asker: int32, otype: int8, ino: uint64,
                                   dn: bytes, path: bytes, data: bytes)

  /** Number of bytes encode appends. */
  function EncodedSize(f: LockFields): nat
  {
    INT_SIZE + INT_SIZE + CHAR_SIZE + U64_SIZE + |f.dn| + 1 + |f.path| + 1 + INT_SIZE + |f.data|
  }

  const HEADER_SIZE: nat := INT_SIZE + INT_SIZE + CHAR_SIZE + U64_SIZE

  /** action, asker, otype and ino at their fixed widths. */
  function EncodeHeader(f: LockFields): (r: bytes)
    ensures |r| == HEADER_SIZE
  {
    EncodeInt(f.action) + (EncodeInt(f.asker) + (EncodeChar(f.otype) + EncodeU64(f.ino)))
  }

  /** dn and path as C strings, then the data. */
  function EncodeTail(dn: bytes, path: bytes, data: bytes): (r: bytes)
    ensures |r| == |dn| + 1 + |path| + 1 + INT_SIZE + |data|
  {
    EncodeCString(dn) + (EncodeCString(path) + EncodeSized(data))
  }

  function EncodeLock(f: LockFields): (r: bytes)
    ensures |r| == EncodedSize(f)
  {
    EncodeHeader(f) + EncodeTail(f.dn, f.path, f.data)
  }

  datatype Header = Header(action: int32, asker: int32, otype: int8, ino: uint64)

  function DecodeHeader(s: bytes, off: int): Option<Header>
  {
    var action := ReadInt(s, off);
    var asker := ReadInt(s, off + INT_SIZE);
    var otype := ReadChar(s, off + 2 * INT_SIZE);
    var ino := ReadU64(s, off + 2 * INT_SIZE + CHAR_SIZE);
    if action.None? || asker.None? || otype.None? || ino.None? then None
    else Some(Header(action.value, asker.value, otype.value, ino.value))
  }

  datatype Tail = Tail(dn: bytes, path: bytes, data: bytes, end: int)

  /** dn, path and data from off on. */
  function DecodeTail(s: bytes, off: int): Option<Tail>
  {
    match ReadCString(s, off)
    case None => None
    case Some(dn) =>
      match ReadCString(s, off + |dn| + 1)
      case None => None
      case Some(path) =>
        match ReadSized(s, off + |dn| + 1 + |path| + 1)
        case None => None
        case Some((data, end)) => Some(Tail(dn, path, data, end))
  }

  /** Reads the fields back in the order they were written, starting at off;
      gives the fields and the offset just past them. */
  function DecodeLock(s: bytes, off: int): Option<(LockFields, int)>
  {
    match DecodeHeader(s, off)
    case None => None
    case Some(h) =>
      match DecodeTail(s, off + HEADER_SIZE)
      case None => None
      case Some(t) =>
        Some((LockFields(h.action, h.asker, h.otype, h.ino, t.dn, t.path, t.data), t.end))
  }

  lemma DecodeHeaderAt(pre: bytes, f: LockFields, post: bytes)
    ensures DecodeHeader(pre + EncodeHeader(f) + post, |pre|)
            == Some(Header(f.action, f.asker, f.otype, f.ino))
  {
    var e1, e2, e3, e4 := EncodeInt(f.action), EncodeInt(f.asker), EncodeChar(f.otype), EncodeU64(f.ino);
    var s := pre + EncodeHeader(f) + post;
    assert s == pre + e1 + (e2 + e3 + e4 + post);
    ReadIntAt(pre, f.action, e2 + e3 + e4 + post);
    assert s == pre + e1 + e2 + (e3 + e4 + post);
    ReadIntAt(pre + e1, f.asker, e3 + e4 + post);
    assert s == pre + e1 + e2 + e3 + (e4 + post);
    ReadCharAt(pre + e1 + e2, f.otype, e4 + post);
    assert s == pre + e1 + e2 + e3 + e4 + post;
    ReadU64At(pre + e1 + e2 + e3, f.ino, post);
  }

  lemma TailDentryAt(pre: bytes, dn: bytes, path: bytes, data: bytes, post: bytes)
    requires NoNul(dn)
    ensures ReadCString(pre + EncodeTail(dn, path, data) + post, |pre|) == Some(dn)
  {
    var c1, c2, d := EncodeCString(dn), EncodeCString(path), EncodeSized(data);
    assert pre + EncodeTail(dn, path, data) + post == pre + c1 + (c2 + d + post);
    ReadCStringAt(pre, dn, c2 + d + post);
  }

  lemma TailPathAt(pre: bytes, dn: bytes, path: bytes, data: bytes, post: bytes)
    requires NoNul(path)
    ensures ReadCString(pre + EncodeTail(dn, path, data) + post, |pre| + |dn| + 1) == Some(path)
  {
    var c1, c2, d := EncodeCString(dn), EncodeCString(path), EncodeSized(data);
    assert pre + EncodeTail(dn, path, data) + post == pre + c1 + c2 + (d + post);
    ReadCStringAt(pre + c1, path, d + post);
  }

  lemma TailDataAt(pre: bytes, dn: bytes, path: bytes, data: bytes, post: bytes)
    requires |data| < 0x8000_0000
    ensures ReadSized(pre + EncodeTail(dn, path, data) + post, |pre| + |dn| + 1 + |path| + 1)
            == Some((data, |pre| + |EncodeTail(dn, path, data)|))
  {
    var c1, c2, d := EncodeCString(dn), EncodeCString(path), EncodeSized(data);
    assert pre + EncodeTail(dn, path, data) + post == pre + c1 + c2 + d + post;
    ReadSizedAt(pre + c1 + c2, data, post);
  }

  lemma DecodeTailFrom(s: bytes, off: int, dn: bytes, path: bytes, data: bytes, end: int)
    requires ReadCString(s, off) == Some(dn)
    requires ReadCString(s, off + |dn| + 1) == Some(path)
    requires ReadSized(s, off + |dn| + 1 + |path| + 1) == Some((data, end))
    ensures DecodeTail(s, off) == Some(Tail(dn, path, data, end))
  {
  }

  lemma DecodeTailAt(pre: bytes, dn: bytes, path: bytes, data: bytes, post: bytes)
    requires NoNul(dn) && NoNul(path) && |data| < 0x8000_0000
    ensures DecodeTail(pre + EncodeTail(dn, path, data) + post, |pre|)
            == Some(Tail(dn, path, data, |pre| + |EncodeTail(dn, path, data)|))
  {
    TailDentryAt(pre, dn, path, data, post);
    TailPathAt(pre, dn, path, data, post);
    TailDataAt(pre, dn, path, data, post);
    DecodeTailFrom(pre + EncodeTail(dn, path, data) + post, |pre|, dn, path, data,
                   |pre| + |EncodeTail(dn, path, data)|);
  }

  lemma LockHeaderAt(pre: bytes, f: LockFields, post: bytes)
    ensures DecodeHeader(pre + EncodeLock(f) + post, |pre|)
            == Some(Header(f.action, f.asker, f.otype, f.ino))
  {
    var h, t := EncodeHeader(f), EncodeTail(f.dn, f.path, f.data);
    assert pre + EncodeLock(f) + post == pre + h + (t + post);
    DecodeHeaderAt(pre, f, t + post);
  }

  lemma LockTailAt(pre: bytes, f: LockFields, post: bytes)
    requires NoNul(f.dn) && NoNul(f.path) && |f.data| < 0x8000_0000
    ensures DecodeTail(pre + EncodeLock(f) + post, |pre| + HEADER_SIZE)
            == Some(Tail(f.dn, f.path, f.data, |pre| + EncodedSize(f)))
  {
    var h, t := EncodeHeader(f), EncodeTail(f.dn, f.path, f.data);
    assert pre + EncodeLock(f) + post == pre + h + t + post;
    DecodeTailAt(pre + h, f.dn, f.path, f.data, post);
  }

  /** Decoding what was encoded gives back every field and stops exactly
      after the encoding, provided neither string holds a NUL byte and the
      data length fits in an int. */
  lemma DecodeEncodeLock(pre: bytes, f: LockFields, post: bytes)
    requires NoNul(f.dn) && NoNul(f.path) && |f.data| < 0x8000_0000
    ensures DecodeLock(pre + EncodeLock(f) + post, |pre|) == Some((f, |pre| + EncodedSize(f)))
  {
    LockHeaderAt(pre, f, post);
    LockTailAt(pre, f, post);
  }

  /** A dentry name holding a NUL byte comes back cut at that byte. */
  lemma DecodeTruncatesDentry(pre: bytes, f: LockFields, post: bytes, i: nat)
    requires i < |f.dn| && f.dn[i] == 0 && NoNul(f.dn[..i])
    ensures DecodeLock(pre + EncodeLock(f) + post, |pre|).Some? ==>
              DecodeLock(pre + EncodeLock(f) + post, |pre|).value.0.dn == f.dn[..i]
  {
    var h := EncodeHeader(f);
    var rest := EncodeCString(f.path) + EncodeSized(f.data) + post;
    var s := pre + EncodeLock(f) + post;
    assert s == pre + h + EncodeCString(f.dn) + rest;
    ReadCStringStopsAtNul(pre + h, f.dn, rest, i);
  }

  /** The fixed-width fields, read one after the other from off. */
  method ReadHeader(s: bytes, off: int) returns (h: Option<Header>)
    ensures h == DecodeHeader(s, off)
  {
    var o := off;
    var a := ReadInt(s, o);
    o := o + INT_SIZE;
    var k := ReadInt(s, o);
    o := o + INT_SIZE;
    var t := ReadChar(s, o);
    o := o + CHAR_SIZE;
    var i := ReadU64(s, o);
    if a.None? || k.None? || t.None? || i.None? {
      return None;
    }
    return Some(Header(a.value, k.value, t.value, i.value));
  }

  /** dn, path and data, read one after the other from off, advancing the
      offset past each. */
  method ReadTail(s: bytes, off: int) returns (t: Option<Tail>)
    ensures t == DecodeTail(s, off)
  {
    var o := off;
    var d := ReadCString(s, o);
    if d.None? { return None; }
    o := o + |d.value| + 1;
    var p := ReadCString(s, o);
    if p.None? { return None; }
    o := o + |p.value| + 1;
    var len := ReadInt(s, o);
    if len.None? { return None; }
    o := o + INT_SIZE;
    var data := ReadBytes(s, o, len.value);
    if data.None? { return None; }
    o := o + len.value;
    return Some(Tail(d.value, p.value, data.value, o));
  }

  class MLock {
    var asker: int32
    var action: int32
    var otype: int8
    var ino: uint64
    var dn: bytes
    var data: bytes
    var path: bytes

    function Fields(): LockFields
      reads this
    {
      LockFields(action, asker, otype, ino, dn, path, data)
    }

    /** MLock(): every field left as it happens to be, strings empty. */
    constructor Empty()
      ensures dn == [] && data == [] && path == []
    {
      dn, data, path := [], [], [];
    }

    /** MLock(action, asker): otype and ino are left uninitialised. */
    constructor (action: int32, asker: int32)
      ensures this.action == action && this.asker == asker
      ensures dn == [] && data == [] && path == []
    {
      this.action, this.asker := action, asker;
      dn, data, path := [], [], [];
    }

    method SetIno(ino: uint64, ot: int8)
      modifies this
      ensures otype == ot && this.ino == ino
      ensures action == old(action) && asker == old(asker) && dn == old(dn)
      ensures data == old(data) && path == old(path)
    {
      otype := ot;
      this.ino := ino;
    }

    /** As written the ino assignment copies the field onto itself, so the
        directory ino passed in is dropped and ino keeps its old value. */
    method SetDirino(dirino: uint64)
      modifies this
      ensures otype == LOCK_OTYPE_DIR && ino == old(ino)
      ensures action == old(action) && asker == old(asker) && dn == old(dn)
      ensures data == old(data) && path == old(path)
    {
      otype := LOCK_OTYPE_DIR;
      this.ino := this.ino;
    }

    /** The evident intent of set_dirino: record dirino as the ino. */
    method SetDirinoIntended(dirino: uint64)
      modifies this
      ensures otype == LOCK_OTYPE_DIR && ino == dirino
      ensures action == old(action) && asker == old(asker) && dn == old(dn)
      ensures data == old(data) && path == old(path)
    {
      otype := LOCK_OTYPE_DIR;
      this.ino := dirino;
    }

    method SetDn(dirino: uint64, dn: bytes)
      modifies this
      ensures otype == LOCK_OTYPE_DN && ino == dirino && this.dn == dn
      ensures action == old(action) && asker == old(asker)
      ensures data == old(data) && path == old(path)
    {
      otype := LOCK_OTYPE_DN;
      this.ino := dirino;
      this.dn := dn;
    }

    method SetData(data: bytes)
      modifies this
      ensures Fields() == old(Fields()).(data := data)
    {
      this.data := data;
    }

    method SetPath(p: bytes)
      modifies this
      ensures Fields() == old(Fields()).(path := p)
    {
      path := p;
    }

    /** Appends the fields to s one after the other. */
    method EncodePayload(s: bytes) returns (s': bytes)
      ensures s' == s + EncodeLock(Fields())
      ensures |s'| == |s| + EncodedSize(Fields())
    {
      s' := s + EncodeInt(action);
      s' := s' + EncodeInt(asker);
      s' := s' + EncodeChar(otype);
      s' := s' + EncodeU64(ino);
      s' := s' + EncodeCString(dn);
      s' := s' + EncodeCString(path);
      var len := TruncateToInt(|data|);
      s' := s' + EncodeInt(len);
      s' := s' + data;
    }

    /** Reads the fields from s at off and returns the advanced offset. When
        the buffer is too short for a field, reports failure and changes
        nothing. */
    method DecodePayload(s: bytes, off: int) returns (ok: bool, off': int)
      modifies this
      ensures DecodeLock(s, off).None? ==> !ok && off' == off && Fields() == old(Fields())
      ensures DecodeLock(s, off).Some? ==>
                ok && (Fields(), off') == DecodeLock(s, off).value
    {
      ok, off' := false, off;
      var h := ReadHeader(s, off);
      if h.None? { return; }
      var t := ReadTail(s, off + HEADER_SIZE);
      if t.None? { return; }
      action, asker, otype, ino := h.value.action, h.value.asker, h.value.otype, h.value.ino;
      dn, path, data := t.value.dn, t.value.path, t.value.data;
      ok, off' := true, t.value.end;
    }
  }

  /** The self-assignment in set_dirino in action: after set_ino(5, ...)
      a call set_dirino(7) leaves ino at 5. */
  method SetDirinoKeepsOldIno() returns (m: MLock)
    ensures m.ino == 5 && m.otype == LOCK_OTYPE_DIR
  {
    m := new MLock(LOCK_AC_LOCK, 0);
    m.SetIno(5, LOCK_OTYPE_IHARD);
    m.SetDirino(7);
  }
}
