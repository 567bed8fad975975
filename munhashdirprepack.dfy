/** The unhash-prep acknowledgement: the directory ino, whether the sender
    has assimilated the directory, and the dentry names of the directory's
    subdirectories with a replica description of each inode. Encode writes
    the ino, the entry count and then one (name, inode) pair per map key in
    ascending key order; decode reads them back into the map.

    The string and inode sub-encoders are not part of this model: both are
    stood in for by a length-prefixed byte string, which round-trips. */
module UnhashDirPrepAck {
  import opened Wire

  const TYPE_NAME := "HP"

  /** Stand-in for CInodeDiscover: the replica description, as bytes. */
  datatype InodeDiscover = InodeDiscover(state: bytes)

  // ---------- key order of map<string, ...> ----------

  /** std::less on strings: lexicographic on unsigned bytes, a proper
      prefix first. */
  predicate KeyLess(a: bytes, b: bytes)
  {
    if |a| == 0 then |b| > 0
    else if |b| == 0 then false
    else if a[0] != b[0] then a[0] < b[0]
    else KeyLess(a[1..], b[1..])
  }

  lemma {:induction false} KeyLessIrreflexive(a: bytes)
    ensures !KeyLess(a, a)
  {
    if |a| > 0 { KeyLessIrreflexive(a[1..]); }
  }

  lemma {:induction false} KeyLessTransitive(a: bytes, b: bytes, c: bytes)
    requires KeyLess(a, b) && KeyLess(b, c)
    ensures KeyLess(a, c)
  {
    if |a| > 0 && |b| > 0 && |c| > 0 && a[0] == b[0] == c[0] {
      KeyLessTransitive(a[1..], b[1..], c[1..]);
    }
  }

  lemma {:induction false} KeyLessTotal(a: bytes, b: bytes)
    requires a != b
    ensures KeyLess(a, b) || KeyLess(b, a)
  {
    if |a| > 0 && |b| > 0 && a[0] == b[0] {
      assert a == [a[0]] + a[1..] && b == [b[0]] + b[1..];
      KeyLessTotal(a[1..], b[1..]);
    }
  }

  /** k is the smallest key of ks. */
  predicate IsLeast(k: bytes, ks: set<bytes>)
  {
    k in ks && forall j :: j in ks ==> !KeyLess(j, k)
  }

  lemma {:induction false} LeastExists(ks: set<bytes>)
    requires ks != {}
    ensures exists k :: IsLeast(k, ks)
    decreases |ks|
  {
    var x :| x in ks;
    if ks == {x} {
      KeyLessIrreflexive(x);
      assert IsLeast(x, ks);
    } else {
      LeastExists(ks - {x});
      var m :| IsLeast(m, ks - {x});
      if KeyLess(x, m) {
        forall j | j in ks ensures !KeyLess(j, x) {
          if j == x { KeyLessIrreflexive(x); }
          else if KeyLess(j, x) { KeyLessTransitive(j, x, m); }
        }
        assert IsLeast(x, ks);
      } else {
        assert IsLeast(m, ks);
      }
    }
  }

  lemma LeastUnique(k: bytes, k': bytes, ks: set<bytes>)
    requires IsLeast(k, ks) && IsLeast(k', ks)
    ensures k == k'
  {
    if k != k' { KeyLessTotal(k, k'); }
  }

  /** The keys of a map in the order std::map iterates them. */
  ghost function SortedKeys(ks: set<bytes>): seq<bytes>
    decreases |ks|
  {
    if ks == {} then []
    else
      LeastExists(ks);
      var k :| IsLeast(k, ks);
      [k] + SortedKeys(ks - {k})
  }

  lemma SortedKeysStep(ks: set<bytes>, k: bytes)
    requires IsLeast(k, ks)
    ensures SortedKeys(ks) == [k] + SortedKeys(ks - {k})
  {
    var s := SortedKeys(ks);
    LeastExists(ks);
    var k' :| IsLeast(k', ks) && s == [k'] + SortedKeys(ks - {k'});
    LeastUnique(k, k', ks);
  }

  predicate StrictlyAscending(s: seq<bytes>)
  {
    forall i, j :: 0 <= i < j < |s| ==> KeyLess(s[i], s[j])
  }

  /** The iteration order lists every key exactly once, ascending. */
  lemma {:induction false} SortedKeysSpec(ks: set<bytes>)
    ensures |SortedKeys(ks)| == |ks|
    ensures forall k :: k in SortedKeys(ks) <==> k in ks
    ensures StrictlyAscending(SortedKeys(ks))
    decreases |ks|
  {
    if ks != {} {
      LeastExists(ks);
      var k :| IsLeast(k, ks);
      SortedKeysStep(ks, k);
      var rest := SortedKeys(ks - {k});
      SortedKeysSpec(ks - {k});
      var s := [k] + rest;
      forall i, j | 0 <= i < j < |s| ensures KeyLess(s[i], s[j]) {
        if i == 0 {
          assert s[j] in ks - {k};
          KeyLessTotal(k, s[j]);
        } else {
          assert s[i] == rest[i - 1] && s[j] == rest[j - 1];
        }
      }
    }
  }

  // ---------- payload ----------

  type Entry = (bytes, InodeDiscover)

  /** One map entry: the dentry name, then its inode. */
  function EncodeEntry(e: Entry): bytes
  {
    EncodeSized(e.0) + EncodeSized(e.1.state)
  }

  /** The pairs (k, m[k]) for keys, in the order given. */
  function Pairs(m: map<bytes, InodeDiscover>, keys: seq<bytes>): (r: seq<Entry>)
    requires forall k :: k in keys ==> k in m
    ensures |r| == |keys|
    ensures forall i :: 0 <= i < |r| ==> r[i] == (keys[i], m[keys[i]])
  {
    if keys == [] then [] else [(keys[0], m[keys[0]])] + Pairs(m, keys[1..])
  }

  /** The map's entries in the order std::map iterates them. */
  ghost function MapEntries(m: map<bytes, InodeDiscover>): seq<Entry>
  {
    SortedKeysSpec(m.Keys);
    Pairs(m, SortedKeys(m.Keys))
  }

  /** ino, the entry count as a C int, then every entry in key order. */
  ghost function EncodeAck(ino: uint64, m: map<bytes, InodeDiscover>): bytes
  {
    EncodeU64(ino) + EncodeInt(TruncateToInt(|m|)) + EncodeMany(EncodeEntry, MapEntries(m))
  }

  /** One entry read at off, and the offset after it. */
  function ReadEntry(s: bytes, off: int): Option<(Entry, int)>
  {
    match ReadSized(s, off)
    case None => None
    case Some((name, o)) =>
      match ReadSized(s, o)
      case None => None
      case Some((state, o')) => Some(((name, InodeDiscover(state)), o'))
  }

  /** The offset where the entries start: after ino and the count. */
  const ENTRIES_OFFSET := U64_SIZE + INT_SIZE

  /** The ino and the entries, read from offset 0. */
  function DecodeAck(p: bytes): Option<(uint64, seq<Entry>)>
  {
    match ReadU64(p, 0)
    case None => None
    case Some(ino) =>
      match ReadInt(p, U64_SIZE)
      case None => None
      case Some(ni) =>
        match ReadMany(ReadEntry, p, ENTRIES_OFFSET, ni)
        case None => None
        case Some((es, _)) => Some((ino, es))
  }

  /** `inodes[name] = inode` for one decoded entry. */
  function InsertEntry(m: map<bytes, InodeDiscover>, e: Entry): map<bytes, InodeDiscover>
  {
    m[e.0 := e.1]
  }

  /** The map after inserting each decoded entry in turn. */
  function Insert(m: map<bytes, InodeDiscover>, es: seq<Entry>): map<bytes, InodeDiscover>
  {
    Fold(InsertEntry, m, es)
  }

  // ---------- round trip ----------

  predicate SizedOk(m: map<bytes, InodeDiscover>)
  {
    forall k :: k in m ==> |k| < 0x8000_0000 && |m[k].state| < 0x8000_0000
  }

  predicate EntrySizedOk(e: Entry)
  {
    |e.0| < 0x8000_0000 && |e.1.state| < 0x8000_0000
  }

  lemma ReadEntryAt(pre: bytes, e: Entry, post: bytes)
    requires EntrySizedOk(e)
    ensures ReadEntry(pre + EncodeEntry(e) + post, |pre|) == Some((e, |pre| + |EncodeEntry(e)|))
  {
    var e1, e2 := EncodeSized(e.0), EncodeSized(e.1.state);
    assert pre + EncodeEntry(e) + post == pre + e1 + (e2 + post);
    ReadSizedAt(pre, e.0, e2 + post);
    assert pre + EncodeEntry(e) + post == pre + e1 + e2 + post;
    ReadSizedAt(pre + e1, e.1.state, post);
  }

  lemma EntryRoundTrips()
    ensures RoundTrips(ReadEntry, EncodeEntry, EntrySizedOk)
  {
    forall e, pre, post | EntrySizedOk(e)
      ensures ReadEntry(pre + EncodeEntry(e) + post, |pre|) == Some((e, |pre| + |EncodeEntry(e)|))
    {
      ReadEntryAt(pre, e, post);
    }
  }

  /** Inserting the pairs for keys adds exactly those keys, with m's
      inodes, and keeps every other entry of acc. */
  lemma {:induction false} InsertPairs(acc: map<bytes, InodeDiscover>, m: map<bytes, InodeDiscover>,
                                       keys: seq<bytes>)
    requires forall k :: k in keys ==> k in m
    ensures forall k :: k in Insert(acc, Pairs(m, keys)) <==> k in acc || k in keys
    ensures forall k :: k in keys ==> Insert(acc, Pairs(m, keys))[k] == m[k]
    ensures forall k :: k in acc && k !in keys ==> Insert(acc, Pairs(m, keys))[k] == acc[k]
    decreases |keys|
  {
    if keys != [] {
      var p := Pairs(m, keys);
      assert p[1..] == Pairs(m, keys[1..]);
      assert p[0] == (keys[0], m[keys[0]]);
      InsertPairs(acc[keys[0] := m[keys[0]]], m, keys[1..]);
      assert forall k :: k in keys <==> k == keys[0] || k in keys[1..];
    }
  }

  lemma DecodeAckFrom(p: bytes, ino: uint64, ni: int32, es: seq<Entry>, o: int)
    requires ReadU64(p, 0) == Some(ino) && ReadInt(p, U64_SIZE) == Some(ni)
    requires ReadMany(ReadEntry, p, ENTRIES_OFFSET, ni) == Some((es, o))
    ensures DecodeAck(p) == Some((ino, es))
  {
  }

  lemma AckHeaderAt(ino: uint64, n: int32, e3: bytes, post: bytes)
    ensures ReadU64(EncodeU64(ino) + EncodeInt(n) + e3 + post, 0) == Some(ino)
    ensures ReadInt(EncodeU64(ino) + EncodeInt(n) + e3 + post, U64_SIZE) == Some(n)
  {
    var e1, e2 := EncodeU64(ino), EncodeInt(n);
    assert e1 + e2 + e3 + post == [] + e1 + (e2 + e3 + post);
    ReadU64At([], ino, e2 + e3 + post);
    assert e1 + e2 + e3 + post == e1 + e2 + (e3 + post);
    ReadIntAt(e1, n, e3 + post);
  }

  lemma MapEntriesSized(m: map<bytes, InodeDiscover>)
    requires SizedOk(m)
    ensures |MapEntries(m)| == |m|
    ensures forall i :: 0 <= i < |MapEntries(m)| ==> EntrySizedOk(MapEntries(m)[i])
  {
    var es := MapEntries(m);
    SortedKeysSpec(m.Keys);
    forall i | 0 <= i < |es| ensures EntrySizedOk(es[i]) {
      assert es[i].0 in m;
    }
  }

  lemma EntriesAt(pre: bytes, es: seq<Entry>, post: bytes, off: int, n: int, end: int)
    requires forall i :: 0 <= i < |es| ==> EntrySizedOk(es[i])
    requires off == |pre| && n == |es| && end == |pre| + |EncodeMany(EncodeEntry, es)|
    ensures ReadMany(ReadEntry, pre + EncodeMany(EncodeEntry, es) + post, off, n) == Some((es, end))
  {
    EntryRoundTrips();
    ReadManyAt(ReadEntry, EncodeEntry, EntrySizedOk, pre, es, post);
  }

  /** Reading the encoding back gives the ino and the map's entries in key
      order. */
  lemma DecodeEncodeAckEntries(ino: uint64, m: map<bytes, InodeDiscover>, post: bytes)
    requires |m| < 0x8000_0000 && SizedOk(m)
    ensures DecodeAck(EncodeAck(ino, m) + post) == Some((ino, MapEntries(m)))
  {
    MapEntriesSized(m);
    assert TruncateToInt(|m|) == |m|;
    AckRoundTrip(ino, |m|, MapEntries(m), post);
  }

  lemma AckRoundTrip(ino: uint64, n: int32, es: seq<Entry>, post: bytes)
    requires n == |es| && forall i :: 0 <= i < |es| ==> EntrySizedOk(es[i])
    ensures DecodeAck(EncodeU64(ino) + EncodeInt(n) + EncodeMany(EncodeEntry, es) + post) == Some((ino, es))
  {
    var e1, e2, e3 := EncodeU64(ino), EncodeInt(n), EncodeMany(EncodeEntry, es);
    var end := |e1 + e2| + |e3|;
    EntriesAt(e1 + e2, es, post, ENTRIES_OFFSET, n, end);
    AckHeaderAt(ino, n, e3, post);
    DecodeAckFrom(e1 + e2 + e3 + post, ino, n, es, end);
  }

  /** Decoding an encoding into a message whose map is empty gives back the
      same ino and the same map (same keys, same inodes). */
  lemma DecodeEncodeAck(ino: uint64, m: map<bytes, InodeDiscover>, post: bytes)
    requires |m| < 0x8000_0000 && SizedOk(m)
    ensures DecodeAck(EncodeAck(ino, m) + post).Some?
    ensures DecodeAck(EncodeAck(ino, m) + post).value.0 == ino
    ensures Insert(map[], DecodeAck(EncodeAck(ino, m) + post).value.1) == m
  {
    DecodeEncodeAckEntries(ino, m, post);
    InsertMapEntries(m);
  }

  /** Inserting a map's entries into an empty map rebuilds it. */
  lemma InsertMapEntries(m: map<bytes, InodeDiscover>)
    ensures Insert(map[], MapEntries(m)) == m
  {
    SortedKeysSpec(m.Keys);
    var keys := SortedKeys(m.Keys);
    InsertPairs(map[], m, keys);
    var r := Insert(map[], Pairs(m, keys));
    assert r.Keys == m.Keys;
  }

  lemma PairsSnoc(m: map<bytes, InodeDiscover>, keys: seq<bytes>, k: bytes)
    requires k in m && forall j :: j in keys ==> j in m
    ensures Pairs(m, keys + [k]) == Pairs(m, keys) + [(k, m[k])]
  {
    var l, r := Pairs(m, keys + [k]), Pairs(m, keys) + [(k, m[k])];
    assert |l| == |r|;
    forall i | 0 <= i < |l| ensures l[i] == r[i] {
      if i < |keys| { assert (keys + [k])[i] == keys[i]; }
    }
  }

  /** One step of the encode loop: the least remaining key's entry is next. */
  lemma EncodeStep(m: map<bytes, InodeDiscover>, all: seq<bytes>, done: seq<bytes>,
                   remaining: set<bytes>, k: bytes)
    requires remaining <= m.Keys && forall j :: j in done ==> j in m
    requires all == done + SortedKeys(remaining)
    requires IsLeast(k, remaining)
    ensures forall j :: j in done + [k] ==> j in m
    ensures all == (done + [k]) + SortedKeys(remaining - {k})
    ensures Pairs(m, done + [k]) == Pairs(m, done) + [(k, m[k])]
    ensures EncodeMany(EncodeEntry, Pairs(m, done) + [(k, m[k])])
            == EncodeMany(EncodeEntry, Pairs(m, done)) + EncodeEntry((k, m[k]))
  {
    SortedKeysStep(remaining, k);
    PairsSnoc(m, done, k);
    EncodeManySnoc(EncodeEntry, Pairs(m, done), (k, m[k]));
  }

  /** The loop of encode_payload over the map: name, then inode, for each
      key in ascending order. */
  method EncodeMapEntries(m: map<bytes, InodeDiscover>) returns (p: bytes)
    ensures p == EncodeMany(EncodeEntry, MapEntries(m))
  {
    var remaining := m.Keys;
    p := [];
    ghost var done: seq<bytes> := [];
    ghost var es: seq<Entry> := [];
    ghost var all := SortedKeys(m.Keys);
    while remaining != {}
      invariant remaining <= m.Keys
      invariant forall k :: k in done ==> k in m
      invariant all == done + SortedKeys(remaining)
      invariant es == Pairs(m, done)
      invariant p == EncodeMany(EncodeEntry, es)
      decreases |remaining|
    {
      LeastExists(remaining);
      var k :| IsLeast(k, remaining);
      EncodeStep(m, all, done, remaining, k);
      p := p + EncodeSized(k) + EncodeSized(m[k].state);
      done := done + [k];
      es := es + [(k, m[k])];
      remaining := remaining - {k};
    }
    assert done == all;
  }

  class MUnhashDirPrepAck {
    var ino: uint64
    var assim: bool
    var inodes: map<bytes, InodeDiscover>
    var payload: bytes

    /** MUnhashDirPrepAck(): not assimilated, ino left uninitialised. */
    constructor Empty()
      ensures !assim && inodes == map[] && payload == []
    {
      assim, inodes, payload := false, map[], [];
    }

    constructor (ino: uint64)
      ensures this.ino == ino && !assim && inodes == map[] && payload == []
    {
      this.ino := ino;
      assim, inodes, payload := false, map[], [];
    }

    function GetIno(): uint64
      reads this
    {
      ino
    }

    function GetInodes(): map<bytes, InodeDiscover>
      reads this
    {
      inodes
    }

    predicate DidAssim()
      reads this
    {
      assim
    }

    method MarkAssim()
      requires !assim
      modifies this`assim
      ensures assim
    {
      assim := true;
    }

    /** inodes[dentry] = inode: overwrites an entry already there. */
    method AddInode(dentry: bytes, inode: InodeDiscover)
      modifies this`inodes
      ensures inodes == old(inodes)[dentry := inode]
      ensures dentry in inodes && inodes[dentry] == inode
      ensures forall k :: k != dentry ==> (k in inodes <==> k in old(inodes))
      ensures forall k :: k != dentry && k in inodes ==> inodes[k] == old(inodes)[k]
    {
      inodes := inodes[dentry := inode];
    }

    /** Appends ino, the count and every entry, iterating the map's keys in
        ascending order. */
    method EncodePayload()
      modifies this`payload
      ensures payload == old(payload) + EncodeAck(ino, inodes)
    {
      payload := payload + EncodeU64(ino);
      payload := payload + EncodeInt(TruncateToInt(|inodes|));
      var entries := EncodeMapEntries(inodes);
      payload := payload + entries;
      AppendAssoc4(old(payload), EncodeU64(ino), EncodeInt(TruncateToInt(|inodes|)), entries);
    }

    /** Reads ino, the count and that many entries from offset 0, inserting
        each entry into the map (entries already there stay unless a decoded
        name overwrites them). Fails, changing nothing, when the payload is
        too short. */
    method DecodePayload() returns (ok: bool)
      modifies this`ino, this`inodes
      ensures ok <==> DecodeAck(payload).Some?
      ensures ok ==> ino == DecodeAck(payload).value.0 &&
                     inodes == Insert(old(inodes), DecodeAck(payload).value.1)
      ensures !ok ==> ino == old(ino) && inodes == old(inodes)
    {
      var off := 0;
      var i := ReadU64(payload, off);
      if i.None? { return false; }
      off := off + U64_SIZE;
      var n := ReadInt(payload, off);
      if n.None? { return false; }
      off := off + INT_SIZE;
      var r := ReadInto(ReadEntry, InsertEntry, payload, off, n.value, inodes);
      if r.None? { return false; }
      ino, inodes := i.value, r.value;
      ok := true;
    }
  }
}
