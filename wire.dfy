/** Byte-level building blocks shared by the message serialisers.
    A message payload is a sequence of bytes; a fixed-width field is written
    least-significant byte first (the little-endian layout of the hosts the
    messages are exchanged between), a C string is written with its
    terminating NUL byte. Reads that would run past the end of the buffer
    report None. */
module Wire {

  datatype Option<T> = None | Some(value: T)

  type byte = b: int | 0 <= b < 256
  type bytes = seq<byte>

  /** C integer types of the messages. */
  type int8 = x: int | -0x80 <= x < 0x80
  type int32 = x: int | -0x8000_0000 <= x < 0x8000_0000
  type uint64 = x: int | 0 <= x < 0x1_0000_0000_0000_0000

  /** sizeof of the field types. */
  const CHAR_SIZE: nat := 1
  const BOOL_SIZE: nat := 1
  const INT_SIZE: nat := 4
  const U64_SIZE: nat := 8

  function Pow256(n: nat): (r: nat)
    ensures r >= 1
  {
    if n == 0 then 1 else 256 * Pow256(n - 1)
  }

  lemma Pow256Widths()
    ensures Pow256(1) == 0x100
    ensures Pow256(4) == 0x1_0000_0000
    ensures Pow256(8) == 0x1_0000_0000_0000_0000
  {
    assert Pow256(2) == 0x1_0000;
    assert Pow256(4) == 0x1_0000_0000;
  }

  /** The n low-order bytes of x, least significant first. */
  function EncodeLE(x: nat, n: nat): (r: bytes)
    requires x < Pow256(n)
    ensures |r| == n
  {
    if n == 0 then []
    else
      assert x / 256 < Pow256(n - 1);
      [(x % 256) as byte] + EncodeLE(x / 256, n - 1)
  }

  /** The unsigned value of a little-endian byte string. */
  function DecodeLE(s: bytes): (r: nat)
    ensures r < Pow256(|s|)
  {
    if s == [] then 0 else s[0] + 256 * DecodeLE(s[1..])
  }

  lemma {:induction false} DecodeEncodeLE(x: nat, n: nat)
    requires x < Pow256(n)
    ensures DecodeLE(EncodeLE(x, n)) == x
  {
    if n > 0 {
      var e := EncodeLE(x, n);
      assert e[1..] == EncodeLE(x / 256, n - 1);
      DecodeEncodeLE(x / 256, n - 1);
    }
  }

  lemma {:induction false} EncodeDecodeLE(s: bytes)
    ensures EncodeLE(DecodeLE(s), |s|) == s
  {
    if s != [] {
      var d := DecodeLE(s);
      assert d % 256 == s[0] && d / 256 == DecodeLE(s[1..]);
      EncodeDecodeLE(s[1..]);
    }
  }

  /** Two's complement image of a signed value in n bytes. */
  function EncodeSigned(x: int, n: nat): (r: bytes)
    requires 0 <= 2 * x + Pow256(n) && 2 * x < Pow256(n)
    ensures |r| == n
  {
    EncodeLE(if x < 0 then x + Pow256(n) else x, n)
  }

  function DecodeSigned(s: bytes): (r: int)
    ensures 0 <= 2 * r + Pow256(|s|) && 2 * r < Pow256(|s|)
  {
    var u := DecodeLE(s);
    if 2 * u >= Pow256(|s|) then u - Pow256(|s|) else u
  }

  lemma DecodeEncodeSigned(x: int, n: nat)
    requires 0 <= 2 * x + Pow256(n) && 2 * x < Pow256(n)
    ensures DecodeSigned(EncodeSigned(x, n)) == x
  {
    DecodeEncodeLE(if x < 0 then x + Pow256(n) else x, n);
  }

  // ---------- fixed-width fields ----------

  function EncodeInt(x: int32): (r: bytes)
    ensures |r| == INT_SIZE
  {
    Pow256Widths();
    EncodeSigned(x, INT_SIZE)
  }

  function DecodeInt(s: bytes): (r: int32)
    requires |s| == INT_SIZE
  {
    Pow256Widths();
    DecodeSigned(s)
  }

  function EncodeU64(x: uint64): (r: bytes)
    ensures |r| == U64_SIZE
  {
    Pow256Widths();
    EncodeLE(x, U64_SIZE)
  }

  function DecodeU64(s: bytes): (r: uint64)
    requires |s| == U64_SIZE
  {
    Pow256Widths();
    DecodeLE(s)
  }

  function EncodeChar(c: int8): (r: bytes)
    ensures |r| == CHAR_SIZE
  {
    Pow256Widths();
    EncodeSigned(c, CHAR_SIZE)
  }

  function DecodeChar(s: bytes): (r: int8)
    requires |s| == CHAR_SIZE
  {
    Pow256Widths();
    DecodeSigned(s)
  }

  /** A C++ bool occupies one byte holding 0 or 1. */
  function EncodeBool(b: bool): (r: bytes)
    ensures |r| == BOOL_SIZE
  {
    [if b then 1 else 0]
  }

  function DecodeBool(s: bytes): bool
    requires |s| == BOOL_SIZE
  {
    s[0] != 0
  }

  lemma DecodeEncodeInt(x: int32)
    ensures DecodeInt(EncodeInt(x)) == x
  {
    Pow256Widths();
    DecodeEncodeSigned(x, INT_SIZE);
  }

  lemma DecodeEncodeU64(x: uint64)
    ensures DecodeU64(EncodeU64(x)) == x
  {
    Pow256Widths();
    DecodeEncodeLE(x, U64_SIZE);
  }

  lemma DecodeEncodeChar(c: int8)
    ensures DecodeChar(EncodeChar(c)) == c
  {
    Pow256Widths();
    DecodeEncodeSigned(c, CHAR_SIZE);
  }

  // ---------- reading at an offset ----------

  /** The n bytes of s starting at off, as copy(off, n, ...) on the buffer
      reads them; None when they are not all inside s. */
  function ReadBytes(s: bytes, off: int, n: int): (r: Option<bytes>)
    ensures r.Some? <==> 0 <= off && 0 <= n && off + n <= |s|
    ensures r.Some? ==> |r.value| == n && r.value == s[off..off + n]
  {
    if 0 <= off && 0 <= n && off + n <= |s| then Some(s[off..off + n]) else None
  }

  lemma ReadBytesAt(pre: bytes, b: bytes, post: bytes)
    ensures ReadBytes(pre + b + post, |pre|, |b|) == Some(b)
  {
    assert (pre + b + post)[|pre|..|pre| + |b|] == b;
  }

  function ReadInt(s: bytes, off: int): Option<int32>
  {
    match ReadBytes(s, off, INT_SIZE)
    case None => None
    case Some(b) => Some(DecodeInt(b))
  }

  function ReadU64(s: bytes, off: int): Option<uint64>
  {
    match ReadBytes(s, off, U64_SIZE)
    case None => None
    case Some(b) => Some(DecodeU64(b))
  }

  function ReadChar(s: bytes, off: int): Option<int8>
  {
    match ReadBytes(s, off, CHAR_SIZE)
    case None => None
    case Some(b) => Some(DecodeChar(b))
  }

  function ReadBool(s: bytes, off: int): Option<bool>
  {
    match ReadBytes(s, off, BOOL_SIZE)
    case None => None
    case Some(b) => Some(DecodeBool(b))
  }

  lemma ReadIntAt(pre: bytes, x: int32, post: bytes)
    ensures ReadInt(pre + EncodeInt(x) + post, |pre|) == Some(x)
  {
    ReadBytesAt(pre, EncodeInt(x), post);
    DecodeEncodeInt(x);
  }

  lemma ReadU64At(pre: bytes, x: uint64, post: bytes)
    ensures ReadU64(pre + EncodeU64(x) + post, |pre|) == Some(x)
  {
    ReadBytesAt(pre, EncodeU64(x), post);
    DecodeEncodeU64(x);
  }

  lemma ReadCharAt(pre: bytes, c: int8, post: bytes)
    ensures ReadChar(pre + EncodeChar(c) + post, |pre|) == Some(c)
  {
    ReadBytesAt(pre, EncodeChar(c), post);
    DecodeEncodeChar(c);
  }

  lemma ReadBoolAt(pre: bytes, b: bool, post: bytes)
    ensures ReadBool(pre + EncodeBool(b) + post, |pre|) == Some(b)
  {
    ReadBytesAt(pre, EncodeBool(b), post);
  }

  // ---------- NUL-terminated strings ----------

  /** True when the byte string holds no NUL byte. */
  predicate NoNul(s: bytes)
  {
    forall i :: 0 <= i < |s| ==> s[i] != 0
  }

  /** A C string: its bytes and then the terminating NUL. */
  function EncodeCString(str: bytes): (r: bytes)
    ensures |r| == |str| + 1 && r[|str|] == 0 && r[..|str|] == str
  {
    str + [0]
  }

  /** The number of bytes from off up to (not including) the first NUL, or
      up to the end of s when there is none. */
  function CStringLength(s: bytes, off: nat): (k: nat)
    requires off <= |s|
    ensures off + k <= |s|
    ensures off + k < |s| ==> s[off + k] == 0
    decreases |s| - off
  {
    if off == |s| || s[off] == 0 then 0 else 1 + CStringLength(s, off + 1)
  }

  /** What `s.c_str() + off` denotes as a C string: the bytes up to the
      first NUL (the buffer's own terminator stands at its end). */
  function ReadCString(s: bytes, off: int): (r: Option<bytes>)
    ensures r.Some? <==> 0 <= off <= |s|
  {
    if 0 <= off <= |s| then Some(s[off..off + CStringLength(s, off)]) else None
  }

  lemma {:induction false} CStringLengthOf(pre: bytes, str: bytes, post: bytes, off: nat)
    requires NoNul(str) && off <= |str|
    ensures CStringLength(pre + EncodeCString(str) + post, |pre| + off) == |str| - off
    decreases |str| - off
  {
    var s := pre + EncodeCString(str) + post;
    if off < |str| {
      assert s[|pre| + off] == str[off];
      CStringLengthOf(pre, str, post, off + 1);
    } else {
      assert s[|pre| + off] == 0;
    }
  }

  lemma ReadCStringAt(pre: bytes, str: bytes, post: bytes)
    requires NoNul(str)
    ensures ReadCString(pre + EncodeCString(str) + post, |pre|) == Some(str)
  {
    var s := pre + EncodeCString(str) + post;
    CStringLengthOf(pre, str, post, 0);
    assert s[|pre|..|pre| + |str|] == str;
  }

  /** An embedded NUL cuts the string short when it is read back. */
  lemma ReadCStringStopsAtNul(pre: bytes, str: bytes, post: bytes, i: nat)
    requires i < |str| && str[i] == 0 && NoNul(str[..i])
    ensures ReadCString(pre + EncodeCString(str) + post, |pre|) == Some(str[..i])
  {
    var s := pre + EncodeCString(str) + post;
    CStringLengthPrefix(s, |pre|, str[..i]);
    assert s[|pre|..|pre| + i] == str[..i];
  }

  lemma {:induction false} CStringLengthPrefix(s: bytes, off: nat, p: bytes)
    requires off + |p| < |s| && s[off..off + |p|] == p && NoNul(p) && s[off + |p|] == 0
    ensures CStringLength(s, off) == |p|
    decreases |p|
  {
    if |p| > 0 {
      assert s[off] == p[0];
      assert s[off + 1..off + 1 + |p[1..]|] == p[1..];
      CStringLengthPrefix(s, off + 1, p[1..]);
    }
  }

  // ---------- length-prefixed byte strings ----------

  /** The C int that `int len = s.length()` stores. */
  function TruncateToInt(n: nat): (r: int32)
    ensures n < 0x8000_0000 ==> r == n
  {
    var w := n % 0x1_0000_0000;
    if w >= 0x8000_0000 then w - 0x1_0000_0000 else w
  }

  /** A byte string, preceded by its length as a C int. */
  function EncodeSized(data: bytes): (r: bytes)
    ensures |r| == INT_SIZE + |data|
  {
    EncodeInt(TruncateToInt(|data|)) + data
  }

  /** The length-prefixed byte string at off, and the offset just past it. */
  function ReadSized(s: bytes, off: int): Option<(bytes, int)>
  {
    match ReadInt(s, off)
    case None => None
    case Some(len) =>
      match ReadBytes(s, off + INT_SIZE, len)
      case None => None
      case Some(data) => Some((data, off + INT_SIZE + len))
  }

  lemma ReadSizedAt(pre: bytes, data: bytes, post: bytes)
    requires |data| < 0x8000_0000
    ensures ReadSized(pre + EncodeSized(data) + post, |pre|) == Some((data, |pre| + INT_SIZE + |data|))
  {
    var e := EncodeInt(TruncateToInt(|data|));
    var s := pre + EncodeSized(data) + post;
    assert s == pre + e + (data + post);
    ReadIntAt(pre, |data|, data + post);
    assert s == pre + e + data + post;
    ReadBytesAt(pre + e, data, post);
  }

  // ---------- sequences of records ----------

  /** The encodings of xs, one after the other. */
  function EncodeMany<T>(enc: T -> bytes, xs: seq<T>): bytes
  {
    if xs == [] then [] else enc(xs[0]) + EncodeMany(enc, xs[1..])
  }

  /** n records read one after the other from off; none when n <= 0, as a
      loop over a count that is not positive does nothing. */
  function ReadMany<T>(read: (bytes, int) -> Option<(T, int)>, s: bytes, off: int, n: int)
    : Option<(seq<T>, int)>
    decreases n
  {
    if n <= 0 then Some(([], off))
    else match read(s, off)
      case None => None
      case Some((x, o)) =>
        match ReadMany(read, s, o, n - 1)
        case None => None
        case Some((xs, o')) => Some(([x] + xs, o'))
  }

  /** read recovers every record that ok admits from its encoding by enc,
      whatever bytes surround it. */
  ghost predicate RoundTrips<T(!new)>(read: (bytes, int) -> Option<(T, int)>, enc: T -> bytes, ok: T -> bool)
  {
    forall x, pre, post :: ok(x) ==> read(pre + enc(x) + post, |pre|) == Some((x, |pre| + |enc(x)|))
  }

  /** Records that round-trip one at a time round-trip as a sequence. */
  lemma {:induction false} ReadManyAt<T(!new)>(read: (bytes, int) -> Option<(T, int)>, enc: T -> bytes,
                                               ok: T -> bool, pre: bytes, xs: seq<T>, post: bytes)
    requires RoundTrips(read, enc, ok)
    requires forall i :: 0 <= i < |xs| ==> ok(xs[i])
    ensures ReadMany(read, pre + EncodeMany(enc, xs) + post, |pre|, |xs|)
            == Some((xs, |pre| + |EncodeMany(enc, xs)|))
    decreases |xs|
  {
    if xs != [] {
      var e, rest := enc(xs[0]), EncodeMany(enc, xs[1..]);
      var s := pre + EncodeMany(enc, xs) + post;
      assert s == pre + e + (rest + post);
      assert ok(xs[0]);
      assert s == (pre + e) + rest + post;
      ReadManyAt(read, enc, ok, pre + e, xs[1..], post);
      assert [xs[0]] + xs[1..] == xs;
    }
  }

  lemma {:induction false} EncodeManySnoc<T>(enc: T -> bytes, xs: seq<T>, x: T)
    ensures EncodeMany(enc, xs + [x]) == EncodeMany(enc, xs) + enc(x)
    decreases |xs|
  {
    if xs == [] {
      assert [] + [x] == [x];
    } else {
      assert (xs + [x])[1..] == xs[1..] + [x];
      EncodeManySnoc(enc, xs[1..], x);
    }
  }

  /** The overall outcome of a read, given the records already read. */
  function Prefixed<T>(got: seq<T>, r: Option<(seq<T>, int)>): Option<(seq<T>, int)>
  {
    match r
    case None => None
    case Some((xs, o)) => Some((got + xs, o))
  }

  lemma PrefixedEmpty<T>(r: Option<(seq<T>, int)>)
    ensures Prefixed([], r) == r
  {
    match r
    case None =>
    case Some((xs, o)) => assert [] + xs == xs;
  }

  /** One step of a loop that reads records: a record read moves from what
      is left to read to what has been read. */
  lemma ReadManyStep<T>(read: (bytes, int) -> Option<(T, int)>, s: bytes, off: int, n: int,
                        got: seq<T>, x: T, o: int)
    requires n > 0 && read(s, off) == Some((x, o))
    ensures Prefixed(got, ReadMany(read, s, off, n)) == Prefixed(got + [x], ReadMany(read, s, o, n - 1))
  {
    match ReadMany(read, s, o, n - 1)
    case None =>
    case Some((xs, o')) => assert got + ([x] + xs) == got + [x] + xs;
  }

  /** A read that stops early makes the whole read fail. */
  lemma ReadManyFails<T>(read: (bytes, int) -> Option<(T, int)>, s: bytes, off: int, n: int, got: seq<T>)
    requires n > 0 && read(s, off).None?
    ensures Prefixed(got, ReadMany(read, s, off, n)).None?
  {
  }

  lemma ReadManyDone<T>(read: (bytes, int) -> Option<(T, int)>, s: bytes, off: int, n: int, got: seq<T>)
    requires n <= 0
    ensures Prefixed(got, ReadMany(read, s, off, n)) == Some((got, off))
  {
    assert got + [] == got;
  }

  /** acc after step has been applied to each of xs in turn. */
  function Fold<T, A>(step: (A, T) -> A, acc: A, xs: seq<T>): A
    decreases |xs|
  {
    if xs == [] then acc else Fold(step, step(acc, xs[0]), xs[1..])
  }

  lemma {:induction false} FoldSnoc<T, A>(step: (A, T) -> A, acc: A, xs: seq<T>, x: T)
    ensures Fold(step, acc, xs + [x]) == step(Fold(step, acc, xs), x)
    decreases |xs|
  {
    if xs != [] {
      assert (xs + [x])[1..] == xs[1..] + [x];
      FoldSnoc(step, step(acc, xs[0]), xs[1..], x);
    } else {
      assert (xs + [x])[1..] == [];
    }
  }

  /** The result of folding what a read produced into acc. */
  function FoldRead<T, A>(step: (A, T) -> A, acc: A, r: Option<(seq<T>, int)>): Option<A>
  {
    match r
    case None => None
    case Some((xs, _)) => Some(Fold(step, acc, xs))
  }

  /** A loop that reads n records from off and folds each into acc as soon
      as it is read; None when the buffer runs out first. */
  method ReadInto<T, A>(read: (bytes, int) -> Option<(T, int)>, step: (A, T) -> A,
                        s: bytes, off: int, n: int, acc: A) returns (r: Option<A>)
    ensures r == FoldRead(step, acc, ReadMany(read, s, off, n))
  {
    var a := acc;
    var o := off;
    ghost var got: seq<T> := [];
    PrefixedEmpty(ReadMany(read, s, off, n));
    var j := 0;
    while j < n
      invariant 0 <= j && (n >= 0 ==> j <= n)
      invariant ReadMany(read, s, off, n) == Prefixed(got, ReadMany(read, s, o, n - j))
      invariant Fold(step, acc, got) == a
      decreases n - j
    {
      var e := read(s, o);
      if e.None? {
        ReadManyFails(read, s, o, n - j, got);
        return None;
      }
      var (x, o') := e.value;
      ReadManyStep(read, s, o, n - j, got, x, o');
      FoldSnoc(step, acc, got, x);
      got := got + [x];
      a := step(a, x);
      o := o';
      j := j + 1;
    }
    ReadManyDone(read, s, o, n - j, got);
    return Some(a);
  }

  lemma AppendAssoc4<T>(a: seq<T>, b: seq<T>, c: seq<T>, d: seq<T>)
    ensures a + b + c + d == a + (b + c + d)
  {
  }
}
