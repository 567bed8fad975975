/** The metadata server's cache skeleton: the root inode, the index of
    cached inodes by number, the expiry LRU and the per-request bookkeeping
    record. Inodes are referred to by number; an inode's parent directory is
    named by the number of the directory's inode.

    The LRU is kept abstract, as the two segments of ceph's LRU class: a top
    segment (recently used, authoritative items) and a bottom segment that
    starts at the middle of the list. lru_touch puts an item at the head of
    the top segment and lru_midtouch at the head of the bottom segment,
    taking it out of wherever it was first. */
module MetadataCache {
  import opened Wire

  type Ino = uint64
  /** Directories (CDir*), dentries (CDentry*) and messages (Message*) are
      identified by opaque numbers. */
  type DirId = nat
  type DentryId = nat
  type MessageId = nat

  /** The parts of a CInode the cache logic looks at. */
  datatype CInode = CInode(ino: Ino, auth: bool, parentDirIno: Option<Ino>)

  // ---------- the LRU ----------

  predicate NoDup(s: seq<Ino>)
  {
    forall i, j :: 0 <= i < j < |s| ==> s[i] != s[j]
  }

  /** s without x. */
  function Remove(s: seq<Ino>, x: Ino): (r: seq<Ino>)
    ensures x !in r
    ensures forall y :: y in r <==> y in s && y != x
  {
    if s == [] then []
    else if s[0] == x then Remove(s[1..], x)
    else [s[0]] + Remove(s[1..], x)
  }

  lemma {:induction false} RemoveNoDup(s: seq<Ino>, x: Ino)
    requires NoDup(s)
    ensures NoDup(Remove(s, x))
    ensures |Remove(s, x)| == if x in s then |s| - 1 else |s|
  {
    if s != [] {
      assert NoDup(s[1..]) by {
        forall i, j | 0 <= i < j < |s[1..]| ensures s[1..][i] != s[1..][j] {
          assert s[1..][i] == s[i + 1] && s[1..][j] == s[j + 1];
        }
      }
      RemoveNoDup(s[1..], x);
      assert s[0] !in s[1..] by {
        forall k | 0 <= k < |s[1..]| ensures s[1..][k] != s[0] {
          assert s[1..][k] == s[k + 1];
        }
      }
      if s[0] != x {
        var r := [s[0]] + Remove(s[1..], x);
        forall i, j | 0 <= i < j < |r| ensures r[i] != r[j] {
          if i == 0 { assert r[j] in Remove(s[1..], x); }
          else { assert r[i] == Remove(s[1..], x)[i - 1] && r[j] == Remove(s[1..], x)[j - 1]; }
        }
        assert x in s <==> x in s[1..];
      } else {
        assert x in s;
      }
    }
  }

  datatype Lru = Lru(top: seq<Ino>, bot: seq<Ino>)
  {
    /** lru_get_size: the number of items in the LRU. */
    function Size(): nat { |top| + |bot| }

    ghost predicate Items(x: Ino) { x in top || x in bot }

    ghost predicate Valid() { NoDup(top + bot) }
  }

  /** lru_touch: x becomes the most recently used item of the top segment. */
  function LruTouch(l: Lru, x: Ino): (r: Lru)
    ensures |r.top| > 0 && r.top[0] == x && x !in r.bot
  {
    Lru([x] + Remove(l.top, x), Remove(l.bot, x))
  }

  /** lru_midtouch: x goes to the middle of the LRU, the head of the bottom
      segment. */
  function LruMidtouch(l: Lru, x: Ino): (r: Lru)
    ensures |r.bot| > 0 && r.bot[0] == x && x !in r.top
  {
    Lru(Remove(l.top, x), [x] + Remove(l.bot, x))
  }

  /** What touch_inode does for one inode: top if authoritative, middle if
      a replica. */
  function TouchOne(l: Lru, node: CInode): Lru
  {
    if node.auth then LruTouch(l, node.ino) else LruMidtouch(l, node.ino)
  }

  /** Touch each inode of cs in turn, first to last. */
  function TouchAll(l: Lru, cs: seq<CInode>): Lru
    decreases |cs|
  {
    if cs == [] then l else TouchOne(TouchAll(l, cs[..|cs| - 1]), cs[|cs| - 1])
  }

  lemma NoDupConcat(a: seq<Ino>, b: seq<Ino>)
    ensures NoDup(a + b) <==> NoDup(a) && NoDup(b) && forall x :: x in a ==> x !in b
  {
    if NoDup(a) && NoDup(b) && forall x :: x in a ==> x !in b {
      forall i, j | 0 <= i < j < |a + b| ensures (a + b)[i] != (a + b)[j] {
        if j < |a| {
        } else if i >= |a| {
          assert (a + b)[i] == b[i - |a|] && (a + b)[j] == b[j - |a|];
        } else {
          assert (a + b)[i] in a && (a + b)[j] == b[j - |a|];
        }
      }
    }
    if NoDup(a + b) {
      forall i, j | 0 <= i < j < |b| ensures b[i] != b[j] {
        assert (a + b)[|a| + i] == b[i] && (a + b)[|a| + j] == b[j];
      }
      forall i, j | 0 <= i < |a| && 0 <= j < |b| ensures a[i] != b[j] {
        assert (a + b)[i] == a[i] && (a + b)[|a| + j] == b[j];
      }
      assert forall i, j :: 0 <= i < j < |a| ==> (a + b)[i] == a[i] && (a + b)[j] == a[j];
    }
  }

  /** A touch keeps the LRU free of duplicates, adds x and keeps every other
      item; the size grows by one exactly when x was not in the LRU. */
  lemma TouchOneSpec(l: Lru, node: CInode)
    requires l.Valid()
    ensures TouchOne(l, node).Valid()
    ensures forall y :: TouchOne(l, node).Items(y) <==> l.Items(y) || y == node.ino
    ensures TouchOne(l, node).Size() == if l.Items(node.ino) then l.Size() else l.Size() + 1
  {
    var x := node.ino;
    var r := TouchOne(l, node);
    NoDupConcat(l.top, l.bot);
    var t, b := Remove(l.top, x), Remove(l.bot, x);
    RemoveNoDup(l.top, x);
    RemoveNoDup(l.bot, x);
    NoDupConcat([x], t);
    NoDupConcat([x], b);
    NoDupConcat(r.top, r.bot);
  }

  /** The inode numbers of cs. */
  function Inos(cs: seq<CInode>): set<Ino>
  {
    set k | 0 <= k < |cs| :: cs[k].ino
  }

  /** Touching a sequence keeps the LRU free of duplicates and adds exactly
      the touched inodes; when they were all in the LRU already, only the
      order changes and the size stays. */
  lemma {:induction false} TouchAllSpec(l: Lru, cs: seq<CInode>)
    requires l.Valid()
    ensures TouchAll(l, cs).Valid()
    ensures forall y :: TouchAll(l, cs).Items(y) <==> l.Items(y) || y in Inos(cs)
    ensures (forall k :: 0 <= k < |cs| ==> l.Items(cs[k].ino)) ==> TouchAll(l, cs).Size() == l.Size()
    decreases |cs|
  {
    if cs != [] {
      var init := cs[..|cs| - 1];
      TouchAllSpec(l, init);
      TouchOneSpec(TouchAll(l, init), cs[|cs| - 1]);
      if forall k :: 0 <= k < |cs| ==> l.Items(cs[k].ino) {
        assert forall k :: 0 <= k < |init| ==> init[k] == cs[k];
        assert l.Items(cs[|cs| - 1].ino);
      }
      assert Inos(cs) == Inos(init) + {cs[|cs| - 1].ino} by {
        forall y | y in Inos(cs) ensures y in Inos(init) + {cs[|cs| - 1].ino} {
          var k :| 0 <= k < |cs| && cs[k].ino == y;
          if k < |cs| - 1 { assert init[k] == cs[k]; }
        }
        forall y | y in Inos(init) ensures y in Inos(cs) {
          var k :| 0 <= k < |init| && init[k].ino == y;
          assert cs[k] == init[k];
        }
      }
    }
  }

  /** After touching a chain, its last inode is the most recent item of the
      top segment when authoritative, of the bottom segment otherwise. */
  lemma TouchAllLast(l: Lru, cs: seq<CInode>)
    requires cs != []
    ensures var r, last := TouchAll(l, cs), cs[|cs| - 1];
            if last.auth then |r.top| > 0 && r.top[0] == last.ino && last.ino !in r.bot
            else |r.bot| > 0 && r.bot[0] == last.ino && last.ino !in r.top
  {
  }

  // ---------- per-request state ----------

  /** active_request_t: what a request in progress holds, so that all of it
      can be dropped when the request finishes or is forwarded. */
  datatype ActiveRequest = ActiveRequest(
    ref: Option<Ino>,
    requestPins: set<Ino>,
    requestDirPins: set<DirId>,
    traces: map<DentryId, seq<DentryId>>,
    xlocks: set<DentryId>,
    foreignXlocks: set<DentryId>)

  const EmptyRequest := ActiveRequest(None, {}, {}, map[], {}, {})

  function PinInode(r: ActiveRequest, i: Ino): (r': ActiveRequest)
    ensures r'.requestPins == r.requestPins + {i}
    ensures r'.requestDirPins == r.requestDirPins && r'.xlocks == r.xlocks &&
            r'.foreignXlocks == r.foreignXlocks && r'.traces == r.traces && r'.ref == r.ref
  {
    r.(requestPins := r.requestPins + {i})
  }

  function PinDir(r: ActiveRequest, d: DirId): (r': ActiveRequest)
    ensures r'.requestDirPins == r.requestDirPins + {d}
    ensures r'.requestPins == r.requestPins && r'.xlocks == r.xlocks &&
            r'.foreignXlocks == r.foreignXlocks && r'.traces == r.traces && r'.ref == r.ref
  {
    r.(requestDirPins := r.requestDirPins + {d})
  }

  function AddXlock(r: ActiveRequest, dn: DentryId): (r': ActiveRequest)
    ensures r'.xlocks == r.xlocks + {dn}
    ensures r'.requestPins == r.requestPins && r'.requestDirPins == r.requestDirPins &&
            r'.foreignXlocks == r.foreignXlocks && r'.traces == r.traces && r'.ref == r.ref
  {
    r.(xlocks := r.xlocks + {dn})
  }

  function AddForeignXlock(r: ActiveRequest, dn: DentryId): (r': ActiveRequest)
    ensures r'.foreignXlocks == r.foreignXlocks + {dn}
    ensures r'.requestPins == r.requestPins && r'.requestDirPins == r.requestDirPins &&
            r'.xlocks == r.xlocks && r'.traces == r.traces && r'.ref == r.ref
  {
    r.(foreignXlocks := r.foreignXlocks + {dn})
  }

  /** The pins and xlocks are sets: recording the same object twice leaves
      the record as one recording left it. */
  lemma RecordTwiceIsOnce(r: ActiveRequest, i: Ino, d: DirId, dn: DentryId)
    ensures PinInode(PinInode(r, i), i) == PinInode(r, i)
    ensures PinDir(PinDir(r, d), d) == PinDir(r, d)
    ensures AddXlock(AddXlock(r, dn), dn) == AddXlock(r, dn)
    ensures AddForeignXlock(AddForeignXlock(r, dn), dn) == AddForeignXlock(r, dn)
  {
    assert r.requestPins + {i} + {i} == r.requestPins + {i};
    assert r.requestDirPins + {d} + {d} == r.requestDirPins + {d};
    assert r.xlocks + {dn} + {dn} == r.xlocks + {dn};
    assert r.foreignXlocks + {dn} + {dn} == r.foreignXlocks + {dn};
  }

  // ---------- the cache ----------

  /** Every indexed inode is indexed under its own number and its parent
      directory's inode is indexed too, at a smaller depth, so that parent
      chains end. */
  ghost predicate Tree(m: map<Ino, CInode>, depth: map<Ino, nat>)
  {
    && (forall i :: i in m ==> i in depth && m[i].ino == i)
    && (forall i :: i in m && m[i].parentDirIno.Some? ==>
          m[i].parentDirIno.value in m && depth[m[i].parentDirIno.value] < depth[i])
  }

  /** The inode's parent chain, root-most first and the inode itself last. */
  ghost function Chain(m: map<Ino, CInode>, depth: map<Ino, nat>, ino: Ino): (cs: seq<CInode>)
    requires Tree(m, depth) && ino in m
    ensures |cs| > 0 && cs[|cs| - 1] == m[ino]
    ensures cs[0].parentDirIno.None?
    ensures forall k :: 0 <= k < |cs| - 1 ==> cs[k + 1].parentDirIno == Some(cs[k].ino)
    ensures forall k :: 0 <= k < |cs| ==> cs[k].ino in m && m[cs[k].ino] == cs[k]
    decreases depth[ino]
  {
    var node := m[ino];
    if node.parentDirIno.Some? then Chain(m, depth, node.parentDirIno.value) + [node] else [node]
  }

  /** Touching a chain is touching the parent's chain, then the inode. */
  lemma ChainStep(m: map<Ino, CInode>, depth: map<Ino, nat>, ino: Ino, l: Lru)
    requires Tree(m, depth) && ino in m
    ensures TouchAll(l, Chain(m, depth, ino)) ==
            TouchOne(if m[ino].parentDirIno.Some?
                     then TouchAll(l, Chain(m, depth, m[ino].parentDirIno.value))
                     else l, m[ino])
  {
    var cs := Chain(m, depth, ino);
    assert cs[..|cs| - 1] == if m[ino].parentDirIno.Some? then Chain(m, depth, m[ino].parentDirIno.value) else [];
  }

  class MDCache {
    var root: Option<Ino>
    var inodeMap: map<Ino, CInode>
    var lru: Lru
    var lruMax: nat
    var imports: set<DirId>
    var exports: set<DirId>
    var hashdirs: set<DirId>
    var nestedExports: map<DirId, set<DirId>>
    var activeRequests: map<MessageId, ActiveRequest>
    /** Distance from the top of the directory tree: a parent is always
        shallower than its child, so the parent chain ends. */
    ghost var depth: map<Ino, nat>

    /** The index is a tree, and the LRU holds each cached inode exactly
        once: its items are exactly the index's keys. */
    ghost predicate Valid()
      reads this
    {
      Tree(inodeMap, depth) && lru.Valid() && (forall i :: lru.Items(i) <==> i in inodeMap)
    }

    /** An empty cache. The constructor's body is not part of this model;
        it is taken to start with nothing cached. */
    constructor ()
      ensures Valid()
      ensures root == None && inodeMap == map[] && lru == Lru([], []) && activeRequests == map[]
      ensures imports == {} && exports == {} && hashdirs == {} && nestedExports == map[]
    {
      root, inodeMap, lru, lruMax := None, map[], Lru([], []), 0;
      imports, exports, hashdirs, nestedExports := {}, {}, {}, map[];
      activeRequests, depth := map[], map[];
    }

    function GetRoot(): Option<Ino>
      reads this
    {
      root
    }

    /** have_inode: whether the index holds the inode. */
    predicate HaveInode(ino: Ino)
      reads this
    {
      ino in inodeMap
    }

    /** get_inode: the indexed inode, or none; looks only (it indexes the
        map after the membership test, so nothing is inserted). */
    function GetInode(ino: Ino): (r: Option<CInode>)
      reads this
      ensures r.Some? <==> HaveInode(ino)
      ensures r.Some? ==> r.value == inodeMap[ino]
    {
      if HaveInode(ino) then Some(inodeMap[ino]) else None
    }

    /** add_inode: its body is not part of this model; it is taken to index
        a newly created inode whose parent directory is already cached and
        to insert it at the middle of the LRU. */
    method AddInode(node: CInode)
      requires Valid()
      requires node.ino !in inodeMap
      requires node.parentDirIno.Some? ==> node.parentDirIno.value in inodeMap
      modifies this`inodeMap, this`depth, this`lru
      ensures Valid()
      ensures inodeMap == old(inodeMap)[node.ino := node]
      ensures lru == LruMidtouch(old(lru), node.ino)
      ensures GetCacheSize() == old(GetCacheSize()) + 1
    {
      TouchOneSpec(lru, node.(auth := false));
      var d := if node.parentDirIno.Some? then depth[node.parentDirIno.value] + 1 else 0;
      inodeMap := inodeMap[node.ino := node];
      depth := depth[node.ino := d];
      lru := LruMidtouch(lru, node.ino);
    }

    /** set_root: r becomes the root and is indexed. */
    method SetRoot(r: CInode)
      requires Valid()
      requires r.ino !in inodeMap && r.parentDirIno.None?
      modifies this`root, this`inodeMap, this`depth, this`lru
      ensures Valid()
      ensures root == Some(r.ino) && HaveInode(r.ino) && GetInode(r.ino) == Some(r)
      ensures inodeMap == old(inodeMap)[r.ino := r]
      ensures lru == LruMidtouch(old(lru), r.ino) && GetCacheSize() == old(GetCacheSize()) + 1
    {
      root := Some(r.ino);
      AddInode(r);
    }

    /** set_cache_size: sets the LRU's maximum and nothing else. */
    method SetCacheSize(max: nat)
      modifies this`lruMax
      ensures lruMax == max
      ensures GetCacheSize() == old(GetCacheSize())
    {
      lruMax := max;
    }

    /** get_cache_size: the number of items in the LRU, not its maximum. */
    function GetCacheSize(): nat
      reads this
    {
      lru.Size()
    }

    /** touch_inode: touches the parent directory's inode first (and so on
        up to the root), then the inode itself, to the top when
        authoritative and to the middle when a replica. Only the LRU
        changes, and only in its order. */
    method TouchInode(ino: Ino)
      requires Valid() && ino in inodeMap
      modifies this`lru
      ensures Valid()
      ensures lru == TouchAll(old(lru), Chain(inodeMap, depth, ino))
      ensures GetCacheSize() == old(GetCacheSize())
      decreases depth[ino]
    {
      var node := inodeMap[ino];
      ChainStep(inodeMap, depth, ino, lru);
      if node.parentDirIno.Some? {
        TouchInode(node.parentDirIno.value);
      }
      TouchOneSpec(lru, node);
      if node.auth {
        lru := LruTouch(lru, node.ino);
      } else {
        lru := LruMidtouch(lru, node.ino);
      }
    }
  }

  /** Touching an inode leaves every ancestor and the inode itself in the
      LRU, and the inode itself where its authority says. When the LRU
      already holds every cached inode, as the cache keeps it, the touch
      changes only positions: the same items and the same size. */
  lemma TouchInodeEffect(m: map<Ino, CInode>, depth: map<Ino, nat>, l: Lru, ino: Ino)
    requires Tree(m, depth) && l.Valid() && ino in m
    ensures var r, cs := TouchAll(l, Chain(m, depth, ino)), Chain(m, depth, ino);
            && r.Valid()
            && (forall y :: r.Items(y) <==> l.Items(y) || y in Inos(cs))
            && (if m[ino].auth then r.top[0] == ino else r.bot[0] == ino)
    ensures (forall i :: i in m ==> l.Items(i)) ==>
            var r := TouchAll(l, Chain(m, depth, ino));
            (forall y :: r.Items(y) <==> l.Items(y)) && r.Size() == l.Size()
  {
    var cs := Chain(m, depth, ino);
    TouchAllSpec(l, cs);
    TouchAllLast(l, cs);
    if forall i :: i in m ==> l.Items(i) {
      forall y | y in Inos(cs) ensures l.Items(y) {
        var k :| 0 <= k < |cs| && cs[k].ino == y;
      }
    }
  }
}
