/** The ebofs collection node: a reference count, a dirty flag and the
    node's attributes. The node stays pinned in its LRU while anything
    holds a reference to it, and being dirty counts as one reference.

    lru_pin and lru_unpin belong to the LRU object base class, which is
    not part of this model: they are recorded in a log of calls and set or
    clear the pinned flag. */
module CollectionNode {
  import opened Wire

  type CollId = uint64

  /** Where the node is stored on disk: a first block and a block count. */
  datatype Extent = Extent(start: nat, length: nat)

  /** An attribute value; only its length matters here. */
  datatype AttrVal = AttrVal(len: nat)

  datatype LruCall = Pin | Unpin

  /** What one attribute adds to get_attr_bytes: the name with its NUL, the
      value and an int for the value's length. */
  function AttrCost(name: bytes, v: AttrVal): (c: nat)
    ensures c > 0
  {
    |name| + 1 + v.len + INT_SIZE
  }

  /** The sum of AttrCost over the attributes named in ks, in any order. */
  ghost function AttrSum(attr: map<bytes, AttrVal>, ks: set<bytes>): nat
    requires ks <= attr.Keys
    decreases ks
  {
    if ks == {} then 0
    else
      var k :| k in ks;
      AttrCost(k, attr[k]) + AttrSum(attr, ks - {k})
  }

  /** The sum does not depend on which name is taken first. */
  lemma {:induction false} AttrSumRemove(attr: map<bytes, AttrVal>, ks: set<bytes>, k: bytes)
    requires ks <= attr.Keys && k in ks
    ensures AttrSum(attr, ks) == AttrCost(k, attr[k]) + AttrSum(attr, ks - {k})
    decreases ks
  {
    var j :| j in ks && AttrSum(attr, ks) == AttrCost(j, attr[j]) + AttrSum(attr, ks - {j});
    if j != k {
      AttrSumRemove(attr, ks - {j}, k);
      AttrSumRemove(attr, ks - {k}, j);
      assert ks - {j} - {k} == ks - {k} - {j};
    }
  }

  /** The attribute bytes of a node: AttrSum over all its attributes. */
  ghost function AttrBytes(attr: map<bytes, AttrVal>): nat
  {
    AttrSum(attr, attr.Keys)
  }

  /** No attributes, no bytes; otherwise at least one byte per attribute. */
  lemma AttrBytesBounds(attr: map<bytes, AttrVal>)
    ensures AttrBytes(attr) == 0 <==> attr == map[]
    ensures AttrBytes(attr) >= |attr|
  {
    AttrSumAtLeast(attr, attr.Keys);
    if attr != map[] {
      var k :| k in attr;
      AttrSumRemove(attr, attr.Keys, k);
    }
  }

  lemma {:induction false} AttrSumAtLeast(attr: map<bytes, AttrVal>, ks: set<bytes>)
    requires ks <= attr.Keys
    ensures AttrSum(attr, ks) >= |ks|
    decreases ks
  {
    if ks != {} {
      var k :| k in ks;
      AttrSumRemove(attr, ks, k);
      AttrSumAtLeast(attr, ks - {k});
    }
  }

  /** Adding an attribute under a new name adds exactly its cost. */
  lemma AttrBytesAdd(attr: map<bytes, AttrVal>, name: bytes, v: AttrVal)
    requires name !in attr
    ensures AttrBytes(attr[name := v]) == AttrBytes(attr) + AttrCost(name, v)
  {
    var attr' := attr[name := v];
    AttrSumRemove(attr', attr'.Keys, name);
    assert attr'.Keys - {name} == attr.Keys;
    AttrSumSame(attr, attr', attr.Keys);
  }

  /** The sum only looks at the named attributes. */
  lemma {:induction false} AttrSumSame(a: map<bytes, AttrVal>, b: map<bytes, AttrVal>, ks: set<bytes>)
    requires ks <= a.Keys && ks <= b.Keys
    requires forall k :: k in ks ==> a[k] == b[k]
    ensures AttrSum(a, ks) == AttrSum(b, ks)
    decreases ks
  {
    if ks != {} {
      var k :| k in ks;
      AttrSumRemove(a, ks, k);
      AttrSumRemove(b, ks, k);
      AttrSumSame(a, b, ks - {k});
    }
  }

  class Cnode {
    var ref: int
    var dirty: bool
    var collId: CollId
    var cnodeLoc: Extent
    var attr: map<bytes, AttrVal>
    /** The LRU pin bit, set by lru_pin and cleared by lru_unpin. */
    var pinned: bool
    /** Every lru_pin and lru_unpin call made so far, in order. */
    var lruCalls: seq<LruCall>

    /** Pinned exactly while referenced, and a dirty node holds a reference. */
    ghost predicate Valid()
      reads this
    {
      && ref >= 0
      && (pinned <==> ref > 0)
      && (dirty ==> ref >= 1)
    }

    /** A new node: no references, clean, a zero-length location, and (as a
        new LRU object) not pinned. */
    constructor (cid: CollId)
      ensures ref == 0 && !dirty && collId == cid && cnodeLoc.length == 0
      ensures !pinned && lruCalls == [] && attr == map[]
      ensures Valid()
    {
      ref, dirty, collId := 0, false, cid;
      cnodeLoc := Extent(0, 0);
      attr, pinned, lruCalls := map[], false, [];
    }

    function GetCnodeId(): nat
      reads this
    {
      cnodeLoc.start
    }

    function GetCnodeLen(): nat
      reads this
    {
      cnodeLoc.length
    }

    function IsDirty(): bool
      reads this
    {
      dirty
    }

    /** get: one more reference; the first one pins the node. */
    method Get()
      modifies this`ref, this`pinned, this`lruCalls
      ensures ref == old(ref) + 1
      ensures lruCalls == old(lruCalls) + if old(ref) == 0 then [Pin] else []
      ensures pinned == (old(ref) == 0 || old(pinned))
      ensures old(Valid()) ==> Valid()
    {
      if ref == 0 {
        LruPin();
      }
      ref := ref + 1;
    }

    /** put: one reference fewer; dropping the last one unpins the node.
        Nothing stops a put at no references, which leaves the count
        negative; the invariant survives when a reference beyond the dirty
        one was held. */
    method Put()
      modifies this`ref, this`pinned, this`lruCalls
      ensures ref == old(ref) - 1
      ensures lruCalls == old(lruCalls) + if ref == 0 then [Unpin] else []
      ensures pinned == (ref != 0 && old(pinned))
      ensures old(Valid()) && old(ref) > (if dirty then 1 else 0) ==> Valid()
    {
      ref := ref - 1;
      if ref == 0 {
        LruUnpin();
      }
    }

    /** mark_dirty: a clean node becomes dirty and takes a reference; a
        dirty node is left as it is. */
    method MarkDirty()
      modifies this`dirty, this`ref, this`pinned, this`lruCalls
      ensures dirty
      ensures old(dirty) ==> ref == old(ref) && pinned == old(pinned) && lruCalls == old(lruCalls)
      ensures !old(dirty) ==> ref == old(ref) + 1 &&
                              lruCalls == old(lruCalls) + (if old(ref) == 0 then [Pin] else []) &&
                              pinned == (old(ref) == 0 || old(pinned))
      ensures old(Valid()) ==> Valid()
    {
      if !dirty {
        dirty := true;
        Get();
      }
    }

    /** mark_clean: a dirty node becomes clean and drops its reference; a
        clean node is left as it is. */
    method MarkClean()
      modifies this`dirty, this`ref, this`pinned, this`lruCalls
      ensures !dirty
      ensures !old(dirty) ==> ref == old(ref) && pinned == old(pinned) && lruCalls == old(lruCalls)
      ensures old(dirty) ==> ref == old(ref) - 1 &&
                             lruCalls == old(lruCalls) + (if ref == 0 then [Unpin] else []) &&
                             pinned == (ref != 0 && old(pinned))
      ensures old(Valid()) ==> Valid()
    {
      if dirty {
        dirty := false;
        Put();
      }
    }

    /** get_attr_bytes: walks the attributes adding each one's cost. */
    method GetAttrBytes() returns (s: nat)
      ensures s == AttrBytes(attr)
    {
      s := 0;
      var remaining := attr.Keys;
      while remaining != {}
        invariant remaining <= attr.Keys
        invariant s + AttrSum(attr, remaining) == AttrBytes(attr)
        decreases remaining
      {
        var k :| k in remaining;
        AttrSumRemove(attr, remaining, k);
        s := s + |k| + 1;
        s := s + attr[k].len + INT_SIZE;
        remaining := remaining - {k};
      }
    }

    method LruPin()
      modifies this`pinned, this`lruCalls
      ensures pinned && lruCalls == old(lruCalls) + [Pin]
    {
      pinned := true;
      lruCalls := lruCalls + [Pin];
    }

    method LruUnpin()
      modifies this`pinned, this`lruCalls
      ensures !pinned && lruCalls == old(lruCalls) + [Unpin]
    {
      pinned := false;
      lruCalls := lruCalls + [Unpin];
    }
  }

  /** Dirtying twice is dirtying once, and cleaning a node just dirtied
      from clean gives back its reference count and pin state. */
  method DirtyThenClean(c: Cnode)
    requires c.Valid() && !c.dirty
    modifies c
    ensures c.Valid() && !c.dirty
    ensures c.ref == old(c.ref) && c.pinned == old(c.pinned)
  {
    c.MarkDirty();
    c.MarkDirty();
    c.MarkClean();
  }
}
