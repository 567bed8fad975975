# Ceph core pieces, modelled in Dafny

This project models the parts of an early Ceph tree whose logic appears in
full in its headers, plus two later kernels:

- **Metadata cache** (`MetadataCache`, `mdcache.dfy`). The MDS inode index
  (`have_inode`, `get_inode`), root installation, the cache-size accessors,
  the recursive `touch_inode`, and the per-request bookkeeping record
  `active_request_t`. `touch_inode` moves authoritative inodes to the top of
  the LRU and replicas to its middle, ancestors first. The LRU is two
  segments: `lru_touch` puts an item at the head of the top segment and
  `lru_midtouch` at the head of the bottom segment. Parent directories are
  named by inode number, and a ghost depth map keeps the parent chain
  acyclic.
- **Collection node** (`CollectionNode`, `cnode.dfy`). The ebofs `Cnode`:
  reference counting with LRU pinning, the dirty flag taking one reference,
  and the attribute-size sum.
- **Messenger state** (`MessengerState`, `messenger.dfy`). The 64-bit
  Lamport clock with explicit wrap-around, the address and the dispatcher.
- **MDS cluster** (`Cluster`, `mdcluster.dfy`). The lazily built set of MDS
  ranks.
- **Message serialisers** (`Wire` plus one module per message). `MLock`,
  `MUnhashDirPrepAck`, `MOSDPGUpdate`, `MInodeUnlink`, `MUnhashDirNotify`,
  `MHashDirPrepAck`, `MHashReaddir` and `MNSConnectAck`. Buffers are
  sequences of bytes. Fixed-width fields are little-endian: `int` 4 bytes,
  `inodeno_t`, `version_t` and `pg_t` 8 bytes, `char` and `bool` 1 byte.
  Strings are NUL-terminated, while `crope` data and map sections carry a
  length or count prefix. Each message is a class whose `EncodePayload` and
  `DecodePayload` methods change its fields and payload as the C++ does.
  They are proved against pure encode/decode functions, with round-trip
  lemmas about those functions.
- **Epoll driver** (`EpollDriverModel`, `eventepoll.dfy`). The mask
  arithmetic of `add_event` and `del_event` (ADD, MOD or DEL, merged masks,
  edge trigger) and the translation of fired kernel bits back into
  readable/writable masks. Also the wait timeout, the adaptive-polling
  window counters, and `init`'s error codes. System calls are recorded as
  values (`CtlCall`, `WaitCall`), and what the kernel answers (result codes,
  errno, ready events, the monotonic clock) comes in as parameters.
- **cephiostat** (`IoStat`, `cephiostat.dfy`). Building `BdevStat` from a
  perf-counter dictionary, its attribute defaults, the 32-bit sector-counter
  delta, `_stat_format`'s checks, in-place conversion and column widths,
  `check_positive`, and the interval/time pairing check.

Plain field getters without a contract of their own are modelled as
`reads`-functions and appear in the constructors' postconditions. These are
`MDCache.GetRoot`, `MDCluster.GetNumMds`, `Cnode.GetCnodeId`/`GetCnodeLen`/`IsDirty`,
`Messenger.GetMyaddr`/`PeekLamport`/`GetDispatcher`, `MLock.Fields`,
`MUnhashDirPrepAck.GetIno`/`GetInodes`/`DidAssim`, `MOSDPGUpdate.Fields`/`GetVersion`/`GetPgid`/`IsComplete`/`GetLastAnyComplete`,
`MInodeUnlink.GetIno`/`GetFrom`, and `GetIno`/`GetRank` of the single-field
messages. `MDCache.HaveInode` is index membership; `SetRoot` and `AddInode`
state what it then finds. `EpollDriver.ResizeEvents` (resize_events) is the
constant 0, since epoll keeps no fixed-size table. Each message's
`get_type_name` string is the constant `TYPE_NAME` of its module.

## Model

| member | source | states |
|---|---|---|
| MetadataCache.Remove | ceph/mds/MDCache.h:213-216 | the item is gone from the LRU sequence and every other item is kept (the removal part of a touch) |
| MetadataCache.RemoveNoDup | ceph/mds/MDCache.h:213-216 | removal keeps the LRU duplicate-free and shrinks it by one exactly when the item was there |
| MetadataCache.LruTouch | ceph/mds/MDCache.h:214 | lru_touch: the item heads the top segment and is not in the bottom one |
| MetadataCache.LruMidtouch | ceph/mds/MDCache.h:216 | lru_midtouch: the item heads the bottom (middle) segment and is not in the top one |
| MetadataCache.NoDupConcat | ceph/mds/MDCache.h:213-216 | the two segments together are duplicate-free iff each is and they are disjoint |
| MetadataCache.TouchOneSpec | ceph/mds/MDCache.h:213-216 | touching one inode keeps the LRU duplicate-free, adds that inode and keeps all others; the size grows by one exactly when the inode was new |
| MetadataCache.TouchAllSpec | ceph/mds/MDCache.h:208-217 | touching a sequence of inodes keeps the LRU duplicate-free and leaves exactly the old items plus the touched inodes; when all of them were in the LRU, its size does not change |
| MetadataCache.TouchAllLast | ceph/mds/MDCache.h:213-216 | the last inode touched is at the head of the top segment if authoritative, of the middle otherwise |
| MetadataCache.PinInode | ceph/mds/MDCache.h:98-105 | adds the inode to request_pins; every other part of the record is unchanged |
| MetadataCache.PinDir | ceph/mds/MDCache.h:98-105 | adds the directory to request_dir_pins; every other part of the record is unchanged |
| MetadataCache.AddXlock | ceph/mds/MDCache.h:98-105 | adds the dentry to xlocks; every other part of the record is unchanged |
| MetadataCache.AddForeignXlock | ceph/mds/MDCache.h:98-105 | adds the dentry to foreign_xlocks; every other part of the record is unchanged |
| MetadataCache.RecordTwiceIsOnce | ceph/mds/MDCache.h:100-104 | the pins and xlocks are sets: recording the same object twice gives the record one recording gives |
| MetadataCache.Chain | ceph/mds/MDCache.h:208-211 | the parent chain starts at an inode with no parent, each element is the parent of the next, and it ends at the inode itself |
| MetadataCache.ChainStep | ceph/mds/MDCache.h:208-217 | touching an inode's chain is touching its parent's chain and then the inode |
| MetadataCache.MDCache.constructor | ceph/mds/MDCache.h:160 | a cache with no root, no inodes, an empty LRU, no requests and empty topology sets |
| MetadataCache.MDCache.GetInode | ceph/mds/MDCache.h:188-192 | the indexed inode when present, none otherwise; a reads-only function, so nothing is inserted |
| MetadataCache.MDCache.AddInode | ceph/mds/MDCache.h:203 | the new inode is indexed under its number and inserted at the middle of the LRU, which grows by one; the cache invariant, that the LRU holds exactly the indexed inodes once each, is kept |
| MetadataCache.MDCache.SetRoot | ceph/mds/MDCache.h:165-168 | r becomes the root and is indexed, so have_inode and get_inode find it, and it enters the LRU at the middle |
| MetadataCache.MDCache.SetCacheSize | ceph/mds/MDCache.h:171-172 | sets the LRU maximum and does not change what get_cache_size reports |
| MetadataCache.MDCache.TouchInode | ceph/mds/MDCache.h:208-217 | the new LRU is the old one touched along the parent chain, root-most first and the inode last, each by authority; only the LRU changes, its size stays and the cache invariant is kept, so every cached inode is still in it |
| MetadataCache.TouchInodeEffect | ceph/mds/MDCache.h:208-217 | after touch_inode the LRU is duplicate-free, holds the old items plus every inode of the chain, and the inode heads the top segment if authoritative, the middle otherwise; when the LRU already held every cached inode, it ends with the same items and the same size, so only positions change |
| CollectionNode.AttrCost | ceph/ebofs/Cnode.h:85-86 | one attribute's contribution (name, NUL, value, an int) is positive |
| CollectionNode.AttrSumRemove | ceph/ebofs/Cnode.h:82-87 | the attribute sum does not depend on which attribute is taken first |
| CollectionNode.AttrBytesBounds | ceph/ebofs/Cnode.h:80-89 | the attribute bytes are 0 exactly when there are no attributes, and at least one per attribute |
| CollectionNode.AttrSumAtLeast | ceph/ebofs/Cnode.h:80-89 | a sum over k attributes is at least k |
| CollectionNode.AttrBytesAdd | ceph/ebofs/Cnode.h:80-89 | a new attribute adds exactly its own cost to the total |
| CollectionNode.AttrSumSame | ceph/ebofs/Cnode.h:80-89 | the sum depends only on the attributes it names |
| CollectionNode.Cnode.constructor | ceph/ebofs/Cnode.h:47-49 | no references, clean, the given collection id, a zero-length location, unpinned, no attributes |
| CollectionNode.Cnode.Get | ceph/ebofs/Cnode.h:56-59 | ref goes up by one; lru_pin is called exactly when ref was 0; the pin/ref invariant is kept |
| CollectionNode.Cnode.Put | ceph/ebofs/Cnode.h:60-63 | ref goes down by one; lru_unpin is called exactly when ref reaches 0; the invariant is kept when a reference beyond the dirty one was held |
| CollectionNode.Cnode.MarkDirty | ceph/ebofs/Cnode.h:65-70 | a clean node becomes dirty with one more reference (pinning at 0); a dirty node is unchanged; the invariant is kept |
| CollectionNode.Cnode.MarkClean | ceph/ebofs/Cnode.h:71-76 | a dirty node becomes clean with one reference fewer (unpinning at 0); a clean node is unchanged; the invariant is kept |
| CollectionNode.Cnode.GetAttrBytes | ceph/ebofs/Cnode.h:80-89 | the loop's sum equals the sum over all attributes of name length + 1 + value length + sizeof(int) |
| CollectionNode.Cnode.LruPin | ceph/ebofs/Cnode.h:57 | sets the pin bit and logs one pin call |
| CollectionNode.Cnode.LruUnpin | ceph/ebofs/Cnode.h:62 | clears the pin bit and logs one unpin call |
| CollectionNode.DirtyThenClean | ceph/ebofs/Cnode.h:65-76 | dirtying twice and cleaning once restores a clean node's reference count and pin state |
| MessengerState.Tick | ceph/msg/Messenger.h:64 | the post-increment on a 64-bit clock: one more, or 0 after the largest value |
| MessengerState.BumpMonotone | ceph/msg/Messenger.h:66-69 | below the wrap point, a bump leaves the clock past other and not below its old value: the larger of the old clock and other + 1 |
| MessengerState.BumpWraps | ceph/msg/Messenger.h:66-69 | bumping by the largest 64-bit time wraps the clock to 0 |
| MessengerState.BumpIdempotent | ceph/msg/Messenger.h:66-69 | a second bump by the same time changes nothing |
| MessengerState.Messenger.constructor | ceph/msg/Messenger.h:58 | no dispatcher, address w, clock 0, last call id 1 |
| MessengerState.Messenger.SetMyaddr | ceph/msg/Messenger.h:61-62 | get_myaddr returns the address just set |
| MessengerState.Messenger.GetLamport | ceph/msg/Messenger.h:64 | returns the current clock and leaves it one tick further |
| MessengerState.Messenger.BumpLamport | ceph/msg/Messenger.h:66-69 | a time at or past the clock moves it to one past that time; an earlier time leaves it |
| MessengerState.Messenger.SetDispatcher | ceph/msg/Messenger.h:76-78 | get_dispatcher returns the dispatcher just set, or none when none was passed (ready() does nothing) |
| MessengerState.TwoStamps | ceph/msg/Messenger.h:64-65 | two get_lamport calls return consecutive, increasing times, and a peek between them sees the second without changing it |
| Cluster.Ranks | ceph/mds/MDCluster.h:69-70 | exactly the integers 0 .. n-1 |
| Cluster.RanksSize | ceph/mds/MDCluster.h:69-70 | that set has num_mds elements, or none when num_mds is not positive |
| Cluster.FilledSetSpec | ceph/mds/MDCluster.h:67-72 | an empty set is filled with num_mds ranks, all in range; a non-empty set is kept even when it disagrees with num_mds; filling twice is filling once |
| Cluster.MDCluster.constructor | ceph/mds/MDCluster.h:49 | stores the two counts and starts with no ranks |
| Cluster.MDCluster.GetMdsSet | ceph/mds/MDCluster.h:67-72 | the member set becomes the filled set and is returned |
| Cluster.AskTwice | ceph/mds/MDCluster.h:67-72 | two calls in a row return the same set |
| Wire.Pow256 | ceph/messages/MOSDPGUpdate.h:52-57 | the range of an n-byte field is positive |
| Wire.Pow256Widths | ceph/messages/MOSDPGUpdate.h:52-57 | the ranges of 1-, 4- and 8-byte fields |
| Wire.EncodeLE | ceph/messages/MOSDPGUpdate.h:52-57 | a field of n bytes is written as exactly n bytes |
| Wire.DecodeLE | ceph/messages/MOSDPGUpdate.h:58-68 | an n-byte field reads back as a value in range |
| Wire.DecodeEncodeLE | ceph/messages/MOSDPGUpdate.h:52-68 | reading a written unsigned field gives the value back |
| Wire.EncodeDecodeLE | ceph/messages/MOSDPGUpdate.h:52-68 | writing a read field gives the bytes back |
| Wire.EncodeSigned | ceph/messages/MLock.h:135-136 | a signed field of n bytes is written as exactly n bytes |
| Wire.DecodeSigned | ceph/messages/MLock.h:110-114 | a signed n-byte field reads back in range |
| Wire.DecodeEncodeSigned | ceph/messages/MLock.h:110-114 | reading a written signed field gives the value back |
| Wire.EncodeInt | ceph/messages/MLock.h:135-136 | an int takes sizeof(int) bytes |
| Wire.EncodeU64 | ceph/messages/MLock.h:140 | an inodeno_t takes 8 bytes |
| Wire.EncodeChar | ceph/messages/MLock.h:138 | a char takes one byte |
| Wire.EncodeBool | ceph/messages/MOSDPGUpdate.h:55 | a bool takes one byte |
| Wire.DecodeEncodeInt | ceph/messages/MLock.h:110-114 | an int reads back as written |
| Wire.DecodeEncodeU64 | ceph/messages/MLock.h:119-120 | an inodeno_t reads back as written |
| Wire.DecodeEncodeChar | ceph/messages/MLock.h:116-117 | a char reads back as written |
| Wire.ReadBytes | ceph/messages/MLock.h:110 | copy(off, n) succeeds exactly when the n bytes from off lie inside the buffer, and gives those bytes |
| Wire.ReadBytesAt | ceph/messages/MLock.h:110 | copy at the offset where bytes were appended gives them back |
| Wire.ReadIntAt | ceph/messages/MLock.h:110-114 | an int appended anywhere in a buffer reads back at its offset |
| Wire.ReadU64At | ceph/messages/MLock.h:119-120 | an inodeno_t appended anywhere reads back at its offset |
| Wire.ReadCharAt | ceph/messages/MLock.h:116-117 | a char appended anywhere reads back at its offset |
| Wire.ReadBoolAt | ceph/messages/MOSDPGUpdate.h:64 | a bool appended anywhere reads back at its offset |
| Wire.EncodeCString | ceph/messages/MLock.h:142-143 | the string's bytes followed by one NUL |
| Wire.CStringLength | ceph/messages/MLock.h:122-126 | strlen: stops at the first NUL or at the end of the buffer |
| Wire.ReadCString | ceph/messages/MLock.h:122 | `c_str() + off` names a string exactly when off lies in the buffer |
| Wire.CStringLengthOf | ceph/messages/MLock.h:122-123 | strlen of a written NUL-free string, from any point inside it |
| Wire.ReadCStringAt | ceph/messages/MLock.h:122-126 | a NUL-free string reads back at the offset where it was appended |
| Wire.ReadCStringStopsAtNul | ceph/messages/MLock.h:122 | a string with an embedded NUL reads back cut at that NUL |
| Wire.CStringLengthPrefix | ceph/messages/MLock.h:122-123 | strlen at a NUL-free run ended by a NUL is the run's length |
| Wire.TruncateToInt | ceph/messages/MLock.h:145 | a length below 2^31 is stored unchanged as an int |
| Wire.EncodeSized | ceph/messages/MLock.h:145-147 | a length int and then the data: sizeof(int) + length bytes |
| Wire.ReadSizedAt | ceph/messages/MLock.h:128-132 | data appended with its length reads back, ending just past the data |
| Wire.ReadManyAt | ceph/messages/MUnhashDirPrepAck.h:72-82 | records that read back one at a time read back as a sequence, ending just past the last |
| Wire.EncodeManySnoc | ceph/messages/MUnhashDirPrepAck.h:91-96 | encoding one more record appends its encoding |
| Wire.PrefixedEmpty | ceph/messages/MUnhashDirPrepAck.h:72-82 | with nothing read yet, the loop's outcome is the whole read |
| Wire.ReadManyStep | ceph/messages/MUnhashDirPrepAck.h:72-82 | one loop step moves a record from the remaining read to those read |
| Wire.ReadManyFails | ceph/messages/MUnhashDirPrepAck.h:72-82 | a record that cannot be read makes the whole read fail |
| Wire.ReadManyDone | ceph/messages/MUnhashDirPrepAck.h:72 | with no records left the loop ends where it stands |
| Wire.FoldSnoc | ceph/messages/MUnhashDirPrepAck.h:81 | folding one more record applies the step to it last |
| Wire.ReadInto | ceph/messages/MUnhashDirPrepAck.h:72-82 | the read-and-insert loop's result is the fold of the whole read, or failure when it fails |
| Lock.ReplicaAuthPartition | ceph/messages/MLock.h:42-43 | every action code is for replicas exactly when it is not for the authority |
| Lock.ActionCodeClassification | ceph/messages/MLock.h:33-57 | SYNC, MIXED, LOCK, REQXLOCKACK, REQXLOCKNAK are replica actions; LOCKNAK, SYNCACK, MIXEDACK, LOCKACK, REQREAD, REQWRITE, REQXLOCK, REQXLOCKC, UNXLOCK are authority actions |
| Lock.EncodeHeader | ceph/messages/MLock.h:135-140 | action, asker, otype and ino take 4+4+1+8 bytes |
| Lock.EncodeTail | ceph/messages/MLock.h:142-147 | dn, NUL, path, NUL, a length int, the data |
| Lock.EncodeLock | ceph/messages/MLock.h:134-148 | the encoding is 4+4+1+8+\|dn\|+1+\|path\|+1+4+\|data\| bytes |
| Lock.DecodeHeaderAt | ceph/messages/MLock.h:110-120 | the fixed-width fields read back at the offset where they were appended |
| Lock.TailDentryAt | ceph/messages/MLock.h:122-123 | a NUL-free dn reads back |
| Lock.TailPathAt | ceph/messages/MLock.h:125-126 | a NUL-free path reads back, after dn's NUL |
| Lock.TailDataAt | ceph/messages/MLock.h:128-132 | the data reads back after path's NUL |
| Lock.DecodeTailFrom | ceph/messages/MLock.h:122-132 | the string part reads as its three reads in turn |
| Lock.DecodeTailAt | ceph/messages/MLock.h:122-132 | dn, path and data read back where they were appended, ending just past the data |
| Lock.LockHeaderAt | ceph/messages/MLock.h:109-120 | the fixed fields of a whole encoding read back |
| Lock.LockTailAt | ceph/messages/MLock.h:122-147 | the string part of a whole encoding reads back |
| Lock.DecodeEncodeLock | ceph/messages/MLock.h:109-148 | decoding an encoding gives every field back when dn and path hold no NUL, and advances off by exactly the bytes appended |
| Lock.DecodeTruncatesDentry | ceph/messages/MLock.h:122 | a dn holding a NUL comes back cut at that NUL |
| Lock.ReadHeader | ceph/messages/MLock.h:110-120 | the step-by-step reads of the fixed fields agree with the header decoder |
| Lock.ReadTail | ceph/messages/MLock.h:122-132 | the step-by-step reads of dn, path and data agree with the tail decoder |
| Lock.MLock.Empty | ceph/messages/MLock.h:81 | dn, data and path start empty |
| Lock.MLock.constructor | ceph/messages/MLock.h:82-86 | stores action and asker; dn, data and path start empty |
| Lock.MLock.SetIno | ceph/messages/MLock.h:89-92 | sets otype and ino; everything else is unchanged |
| Lock.MLock.SetDirino | ceph/messages/MLock.h:93-96 | as written: otype becomes LOCK_OTYPE_DIR, and ino keeps its old value because it is assigned to itself |
| Lock.MLock.SetDirinoIntended | ceph/messages/MLock.h:93-96 | as intended: otype becomes LOCK_OTYPE_DIR and ino becomes dirino |
| Lock.MLock.SetDn | ceph/messages/MLock.h:97-101 | otype becomes LOCK_OTYPE_DN, ino becomes dirino, dn is set; the rest is unchanged |
| Lock.MLock.SetData | ceph/messages/MLock.h:102-104 | only the data changes |
| Lock.MLock.SetPath | ceph/messages/MLock.h:105-107 | only the path changes |
| Lock.MLock.EncodePayload | ceph/messages/MLock.h:134-148 | appends the fields' encoding to s, growing it by the encoded size |
| Lock.MLock.DecodePayload | ceph/messages/MLock.h:109-133 | on a readable buffer the fields become the decoded ones and off moves past them; otherwise nothing changes |
| Lock.SetDirinoKeepsOldIno | ceph/messages/MLock.h:89-96 | after set_ino(5, ...) then set_dirino(7), ino is still 5 |
| UnhashDirPrepAck.KeyLessIrreflexive | ceph/messages/MUnhashDirPrepAck.h:34 | std::less on strings is irreflexive |
| UnhashDirPrepAck.KeyLessTransitive | ceph/messages/MUnhashDirPrepAck.h:34 | std::less on strings is transitive |
| UnhashDirPrepAck.KeyLessTotal | ceph/messages/MUnhashDirPrepAck.h:34 | any two different strings are ordered |
| UnhashDirPrepAck.LeastExists | ceph/messages/MUnhashDirPrepAck.h:91 | a non-empty key set has a least key, where iteration begins |
| UnhashDirPrepAck.LeastUnique | ceph/messages/MUnhashDirPrepAck.h:91 | that least key is unique |
| UnhashDirPrepAck.SortedKeysStep | ceph/messages/MUnhashDirPrepAck.h:91-93 | iteration visits the least key and then the rest in order |
| UnhashDirPrepAck.SortedKeysSpec | ceph/messages/MUnhashDirPrepAck.h:91-93 | map iteration lists every key exactly once, in strictly ascending order |
| UnhashDirPrepAck.Pairs | ceph/messages/MUnhashDirPrepAck.h:94-95 | the (name, inode) pairs for the given keys, in the order given |
| UnhashDirPrepAck.ReadEntryAt | ceph/messages/MUnhashDirPrepAck.h:74-79 | one (name, inode) entry reads back where it was appended |
| UnhashDirPrepAck.EntryRoundTrips | ceph/messages/MUnhashDirPrepAck.h:74-95 | the entry reader inverts the entry writer for every entry |
| UnhashDirPrepAck.InsertPairs | ceph/messages/MUnhashDirPrepAck.h:81 | inserting entries adds exactly their keys with their inodes and keeps the other keys |
| UnhashDirPrepAck.DecodeAckFrom | ceph/messages/MUnhashDirPrepAck.h:63-83 | decoding reads ino, the count and that many entries |
| UnhashDirPrepAck.AckHeaderAt | ceph/messages/MUnhashDirPrepAck.h:65-71 | ino and the count read back at offsets 0 and 8 |
| UnhashDirPrepAck.MapEntriesSized | ceph/messages/MUnhashDirPrepAck.h:89-96 | iteration yields as many entries as the map, each encodable |
| UnhashDirPrepAck.EntriesAt | ceph/messages/MUnhashDirPrepAck.h:72-96 | the written entries read back as a sequence |
| UnhashDirPrepAck.DecodeEncodeAckEntries | ceph/messages/MUnhashDirPrepAck.h:63-97 | decoding an encoding gives the ino and the map's entries in key order |
| UnhashDirPrepAck.AckRoundTrip | ceph/messages/MUnhashDirPrepAck.h:63-97 | decoding ino, count and entries gives them back, whatever follows |
| UnhashDirPrepAck.DecodeEncodeAck | ceph/messages/MUnhashDirPrepAck.h:63-97 | decoding an encoding into an empty map gives the same ino and the same map, so the same key set |
| UnhashDirPrepAck.InsertMapEntries | ceph/messages/MUnhashDirPrepAck.h:81 | inserting a map's entries into an empty map rebuilds the map |
| UnhashDirPrepAck.PairsSnoc | ceph/messages/MUnhashDirPrepAck.h:91-96 | one more key adds its pair at the end |
| UnhashDirPrepAck.EncodeStep | ceph/messages/MUnhashDirPrepAck.h:91-96 | one step of the encode loop writes the least remaining key's entry next |
| UnhashDirPrepAck.EncodeMapEntries | ceph/messages/MUnhashDirPrepAck.h:91-96 | the iterator loop writes the map's entries in ascending key order |
| UnhashDirPrepAck.MUnhashDirPrepAck.Empty | ceph/messages/MUnhashDirPrepAck.h:43 | not assimilated, no inodes, empty payload |
| UnhashDirPrepAck.MUnhashDirPrepAck.constructor | ceph/messages/MUnhashDirPrepAck.h:44-48 | stores ino; not assimilated, no inodes, empty payload |
| UnhashDirPrepAck.MUnhashDirPrepAck.MarkAssim | ceph/messages/MUnhashDirPrepAck.h:40-41 | demands not yet assimilated, then did_assim holds |
| UnhashDirPrepAck.MUnhashDirPrepAck.AddInode | ceph/messages/MUnhashDirPrepAck.h:59-61 | inodes[dentry] becomes the inode, overwriting any prior entry; every other key and value is unchanged |
| UnhashDirPrepAck.MUnhashDirPrepAck.EncodePayload | ceph/messages/MUnhashDirPrepAck.h:85-97 | appends ino, inodes.size() as an int, and one (name, inode) pair per key in ascending key order |
| UnhashDirPrepAck.MUnhashDirPrepAck.DecodePayload | ceph/messages/MUnhashDirPrepAck.h:63-83 | on a readable payload ino becomes the decoded one and each decoded entry is inserted into the map; otherwise nothing changes |
| OSDPGUpdate.EncodeUpdate | ceph/messages/MOSDPGUpdate.h:52-57 | the encoding is sizeof(version) + sizeof(pg) + sizeof(bool) + sizeof(version) bytes |
| OSDPGUpdate.DecodeEncodeUpdate | ceph/messages/MOSDPGUpdate.h:52-68 | decoding an encoding from offset 0 restores all four fields, whatever follows |
| OSDPGUpdate.DecodeUpdateNeedsAllFields | ceph/messages/MOSDPGUpdate.h:58-68 | decoding fails exactly when the payload is shorter than the four fields |
| OSDPGUpdate.MOSDPGUpdate.Empty | ceph/messages/MOSDPGUpdate.h:41 | an empty payload |
| OSDPGUpdate.MOSDPGUpdate.constructor | ceph/messages/MOSDPGUpdate.h:35-48 | stores the version, pgid, complete flag and last_any_complete, so that get_version, get_pgid, is_complete and get_last_any_complete of the new message give back exactly the constructor's arguments |
| OSDPGUpdate.MOSDPGUpdate.EncodePayload | ceph/messages/MOSDPGUpdate.h:52-57 | appends the four fields in order |
| OSDPGUpdate.MOSDPGUpdate.DecodePayload | ceph/messages/MOSDPGUpdate.h:58-68 | on a long enough payload the fields become the decoded ones; otherwise nothing changes |
| OSDPGUpdate.Transmit | ceph/messages/MOSDPGUpdate.h:41-68 | a built, encoded and decoded update arrives intact |
| InodeUnlink.EncodeSt | ceph/messages/MInodeUnlink.h:25-28 | the record takes sizeof(st) bytes |
| InodeUnlink.DecodeEncodeSt | ceph/messages/MInodeUnlink.h:45-51 | the record reads back as written |
| InodeUnlink.MInodeUnlink.constructor | ceph/messages/MInodeUnlink.h:34-42 | stores ino and from in st, so that get_ino and get_from of the new message give them back |
| InodeUnlink.MInodeUnlink.EncodePayload | ceph/messages/MInodeUnlink.h:49-51 | appends the whole record, sizeof(st) bytes |
| InodeUnlink.MInodeUnlink.DecodePayload | ceph/messages/MInodeUnlink.h:45-48 | on a readable buffer reads st at off and advances off by exactly sizeof(st); otherwise nothing changes |
| InodeUnlink.Transmit | ceph/messages/MInodeUnlink.h:38-51 | decoding at the offset where the record was appended restores ino and from |
| UnhashDirNotify.MUnhashDirNotify.Empty | ceph/messages/MUnhashDirNotify.h:35 | an empty payload |
| UnhashDirNotify.MUnhashDirNotify.constructor | ceph/messages/MUnhashDirNotify.h:32-40 | stores ino and get_ino returns it |
| UnhashDirNotify.MUnhashDirNotify.EncodePayload | ceph/messages/MUnhashDirNotify.h:50-53 | appends exactly sizeof(ino) bytes, the ino; no peer field |
| UnhashDirNotify.MUnhashDirNotify.DecodePayload | ceph/messages/MUnhashDirNotify.h:43-49 | reads ino from offset 0 when the payload holds it; otherwise nothing changes |
| UnhashDirNotify.Transmit | ceph/messages/MUnhashDirNotify.h:35-53 | encoding into a fresh payload and decoding gives the ino back |
| UnhashDirNotify.DecodeSeesOldPrefix | ceph/messages/MUnhashDirNotify.h:43-53 | after encoding into a payload that already held an ino, decode sees the old bytes |
| HashDirPrepAck.MHashDirPrepAck.Empty | ceph/messages/MHashDirPrepAck.h:34 | an empty payload |
| HashDirPrepAck.MHashDirPrepAck.constructor | ceph/messages/MHashDirPrepAck.h:32-38 | stores ino and get_ino returns it |
| HashDirPrepAck.MHashDirPrepAck.EncodePayload | ceph/messages/MHashDirPrepAck.h:45-47 | appends exactly sizeof(ino) bytes, the ino |
| HashDirPrepAck.MHashDirPrepAck.DecodePayload | ceph/messages/MHashDirPrepAck.h:42-44 | reads ino from offset 0 when the payload holds it; otherwise nothing changes |
| HashDirPrepAck.Transmit | ceph/messages/MHashDirPrepAck.h:34-47 | encoding into a fresh payload and decoding gives the ino back |
| HashDirPrepAck.DecodeSeesOldPrefix | ceph/messages/MHashDirPrepAck.h:42-47 | after encoding into a payload that already held an ino, decode sees the old bytes |
| HashReaddir.MHashReaddir.Empty | ceph/messages/MHashReaddir.h:32 | an empty payload |
| HashReaddir.MHashReaddir.constructor | ceph/messages/MHashReaddir.h:33-38 | stores ino and get_ino returns it |
| HashReaddir.MHashReaddir.EncodePayload | ceph/messages/MHashReaddir.h:45-47 | appends exactly sizeof(ino) bytes, the ino |
| HashReaddir.MHashReaddir.DecodePayload | ceph/messages/MHashReaddir.h:42-44 | reads ino from offset 0 when the payload holds it; otherwise nothing changes |
| HashReaddir.Transmit | ceph/messages/MHashReaddir.h:32-47 | encoding into a fresh payload and decoding gives the ino back |
| HashReaddir.DecodeSeesOldPrefix | ceph/messages/MHashReaddir.h:42-47 | after encoding into a payload that already held an ino, decode sees the old bytes |
| NSConnectAck.MNSConnectAck.Empty | ceph/messages/MNSConnectAck.h:32 | an empty payload |
| NSConnectAck.MNSConnectAck.constructor | ceph/messages/MNSConnectAck.h:33-40 | stores rank and get_rank returns it |
| NSConnectAck.MNSConnectAck.EncodePayload | ceph/messages/MNSConnectAck.h:42-44 | appends exactly sizeof(int) bytes, the rank |
| NSConnectAck.MNSConnectAck.DecodePayload | ceph/messages/MNSConnectAck.h:45-47 | reads rank from offset 0 when the payload holds it; otherwise nothing changes |
| NSConnectAck.Transmit | ceph/messages/MNSConnectAck.h:32-47 | encoding into a fresh payload and decoding gives the rank back |
| NSConnectAck.DecodeSeesOldPrefix | ceph/messages/MNSConnectAck.h:42-47 | after encoding into a payload that already held a rank, decode sees the old bytes |
| EpollDriverModel.EpollBits | src/msg/async/EventEpoll.cc:94-96 | EPOLLIN exactly for readable, EPOLLOUT exactly for writable, nothing else |
| EpollDriverModel.AddOp | src/msg/async/EventEpoll.cc:66-67 | ADD exactly when the descriptor was watched for nothing, MOD otherwise |
| EpollDriverModel.AddEvents | src/msg/async/EventEpoll.cc:69-74 | EPOLLET always, EPOLLIN iff old or new mask is readable, EPOLLOUT iff writable, nothing else |
| EpollDriverModel.RemainingMask | src/msg/async/EventEpoll.cc:91 | cur & ~del: none of the deleted bits and nothing that was not there |
| EpollDriverModel.DelOp | src/msg/async/EventEpoll.cc:99-113 | DEL exactly when nothing is left, MOD otherwise |
| EpollDriverModel.DelEventsNoEdge | src/msg/async/EventEpoll.cc:94-96 | del_event never registers EPOLLET |
| EpollDriverModel.FiredMask | src/msg/async/EventEpoll.cc:142-145 | readable iff EPOLLIN, EPOLLERR or EPOLLHUP; writable iff EPOLLOUT, EPOLLERR or EPOLLHUP; no other bit |
| EpollDriverModel.FiredMaskOfRegistered | src/msg/async/EventEpoll.cc:69-74 | an event fired with exactly the registered bits reports the registered readable/writable mask |
| EpollDriverModel.CDiv | src/msg/async/EventEpoll.cc:180 | C division, truncating toward zero |
| EpollDriverModel.ToCInt | src/msg/async/EventEpoll.cc:179-180 | the long timeout narrowed to the int parameter: unchanged in range, otherwise equal modulo 2^32 |
| EpollDriverModel.WaitTimeoutSpec | src/msg/async/EventEpoll.cc:179-180 | -1 without a timeval; tv_sec*1000 + tv_usec/1000 for an ordinary one; 0 for less than a millisecond |
| EpollDriverModel.WaitTimeoutPastIntRange | src/msg/async/EventEpoll.cc:179-180 | a timeval of 2147484 seconds turns the timeout negative |
| EpollDriverModel.StepWindowOk | src/msg/async/EventEpoll.cc:151-173 | the counters stay within one window, with valid polls never more than polls, and the working start gets set |
| EpollDriverModel.StepWindowCounts | src/msg/async/EventEpoll.cc:132-173 | a window's end resets both counters; before it, a poll adds one poll, one valid poll if it found events, and leaves need_sleep |
| EpollDriverModel.StepWindowSleep | src/msg/async/EventEpoll.cc:154-168 | 500 or more valid polls at a window's end while sleeping stop the sleeping and restart the working period; sleeping resumes only after a working period with at most one valid poll |
| EpollDriverModel.Resize | src/msg/async/EventEpoll.cc:137 | vector::resize: n entries, the old ones kept up to n |
| EpollDriverModel.FillFired | src/msg/async/EventEpoll.cc:137-148 | n fired events, each the descriptor and translated mask of the kernel's entry |
| EpollDriverModel.EpollDriver.constructor | src/msg/async/EventEpoll.h:34-37 | no descriptor (-1), size 0, the two polling flags from the configuration; no calls yet and the statics' initial values (sleeping, no polls) |
| EpollDriverModel.EpollDriver.Init | src/msg/async/EventEpoll.cc:30-57 | -ENOMEM, -errno of epoll_create, -errno of fcntl, or 0 with size set; 0 exactly on success |
| EpollDriverModel.EpollDriver.AddEvent | src/msg/async/EventEpoll.cc:59-84 | records one epoll_ctl with the chosen op and merged events; -errno when it returns -1, 0 otherwise |
| EpollDriverModel.EpollDriver.DelEvent | src/msg/async/EventEpoll.cc:86-115 | records one epoll_ctl, MOD with the remaining events or DEL; -errno when it returns a negative value, 0 otherwise |
| EpollDriverModel.EpollDriver.EventWait | src/msg/async/EventEpoll.cc:122-202 | one epoll_wait, timeout 0 when adaptive and the caller's otherwise; the fired events are exactly the translated ready entries when there are any, otherwise untouched with 0 returned; an adaptive wait steps the window and naps when it says to sleep |
| IoStat.Lookup | cephiostat.py:39-46 | d[key]: present exactly when the key occurs, and then the value stored under its last occurrence |
| IoStat.Sectors | cephiostat.py:33-37 | value >> 9: the number of whole 512-byte sectors, rounding down |
| IoStat.NewBdevStat | cephiostat.py:25-51 | BdevStat(None) sets nothing; otherwise it raises exactly when a counter does, and else holds the counters' attributes plus merges 0 and uptime 0 |
| IoStat.SetFromCounter | cephiostat.py:30-46 | one pass of the loop sets the attributes the counter's branch sets |
| IoStat.AbsorbFails | cephiostat.py:29-46 | once an entry raises, the constructor raises |
| IoStat.AbsorbFailsIff | cephiostat.py:29-46 | the constructor raises exactly when some entry raises |
| IoStat.ConvertPoint | cephiostat.py:30-46 | a counter sets exactly the attributes it is the source of, with the derived values |
| IoStat.AbsorbAttr | cephiostat.py:29-46 | each attribute is derived from its counter's last value (sectors = bytes >> 9, time = sum, count = avgcount, name as given), and is unset when its counter is absent |
| IoStat.DefaultsReadZero | cephiostat.py:48-54 | merges and every attribute no counter sets read as 0 |
| IoStat.BdevStat.GetAttr | cephiostat.py:53-54 | an attribute never set reads as 0 |
| IoStat.SectorDeltaSpec | cephiostat.py:169-179 | a counter moving forward gives its difference; a 32-bit counter that wrapped gives the distance across the wrap; a wider counter going back gives a negative delta; for 32-bit values last + delta = cur modulo 2^32 |
| IoStat.Digits | cephiostat.py:113 | str() of a number: a non-empty string of decimal digits |
| IoStat.DigitsRoundTrip | cephiostat.py:113 | the digits str() writes for a natural number denote that number, and the first digit is 0 only for zero, which is written "0" |
| IoStat.ShowRow | cephiostat.py:112-113 | each cell replaced by its str() |
| IoStat.ShowRowIdempotent | cephiostat.py:112-113 | converting a row twice is converting it once |
| IoStat.FirstBadRow | cephiostat.py:107-111 | the first row whose length differs from the first row's, or the row count |
| IoStat.FirstBadFrom | cephiostat.py:109-111 | the first mismatching row from j on |
| IoStat.StatFormat | cephiostat.py:101-129 | raises on no rows, on a row of another length (converting the rows before it) and on a row length unequal to the header's; otherwise every cell is converted and the width of column i is the larger of len(header[i]) and its longest cell |
| IoStat.ConvertRows | cephiostat.py:109-113 | rows are converted in place up to the first row of another length, which is where it stops |
| IoStat.ColumnWidths | cephiostat.py:119-129 | one width per header column, at least the header and every cell, and equal to one of them |
| IoStat.WidthsSpec | cephiostat.py:119-129 | the per-column maximum bounds the header and every cell and is attained |
| IoStat.FirstBadAt | cephiostat.py:109-111 | the loop's stopping row is the first mismatching row |
| IoStat.LongestCellSpec | cephiostat.py:125-127 | the longest cell bounds every cell of the column and is attained |
| IoStat.ColumnWidthSpec | cephiostat.py:129 | max(len(header[i]), longest cell) bounds both and equals one |
| IoStat.MaxCell | cephiostat.py:125-127 | the inner loop computes the longest cell of the column |
| IoStat.CheckPositive | cephiostat.py:142-146 | the value when positive, an error otherwise |
| IoStat.ArgsConsistent | cephiostat.py:314-317 | interval and time are both zero or both non-zero |

## Left out

- The MDCache handlers declared without bodies (trim, path traversal, request handling, export/import, hash/unhash, rename, locks, caps; ceph/mds/MDCache.h:266-499): MDCache.cc is not part of this model, so their behaviour is unknown here.
- MetadataCache.MDCache.constructor: its body is elsewhere; it is taken to start with an empty cache.
- MetadataCache.MDCache.AddInode: its body is elsewhere; it is taken to index a new inode whose parent directory is cached and to insert it at the middle of the LRU (the head of the bottom segment). The insertion position is an assumption; that the inode enters the LRU is what the cache invariant needs.
- The LRU class is not part of this model. Pinning is a flag plus a call log, and lru_set_max / lru_get_size are a field and a sequence length. The LRU's internal list layout and its expiry are not modelled.
- The kernel MDS client (trunk/ceph/kernel/mds_client.c) is not modelled. It is blocking network I/O under spinlocks, and an unfinished draft.
- The crush hash functions (src/crush/hash.h) are declarations only; their definitions are not part of this model.
- EventEpoll.h (`need_wakeup`, destructor resource cleanup) is not modelled.
- EpollDriverModel.EpollDriver.EventWait: epoll_wait, usleep and the monotonic clock are parameters; the clock is read once per call and kept in microseconds. The function-local statics are fields of the driver object, whereas the source shares them across every driver in the process.
- EpollDriverModel.EpollDriver.Init: malloc, epoll_create, fcntl and close are an outcome parameter. The errno values are taken to be positive, as errno is.
- The event-center mask values (none 0, readable 1, writable 2) are taken from ceph's event center; Event.h is not part of this model. The epoll constants are the Linux ones.
- MessengerState.Messenger.SetDispatcher: the transport methods (send, dispatch, sendrecv, shutdown, queue_callback) and the Mutex/Cond call table are concurrency and virtual I/O, and are not modelled. ready() is the base class no-op.
- Cluster.MDCluster.GetMdsSet: the source returns a reference to the member set; the model returns its value, so later changes made through that reference are not modelled.
- Cluster.MDCluster.constructor: its body is elsewhere; it is taken to store the counts and leave the rank set empty. map_osds, hash_dentry and the OSD/log placement functions have no bodies here.
- The serialisers assume little-endian byte order and pack MInodeUnlink_st with no padding. Host endianness and struct padding are not modelled.
- The string and CInodeDiscover sub-encoders of MUnhashDirPrepAck are not part of this model. An inode description is a byte string, and both are written as length-prefixed byte strings that round-trip.
- UnhashDirPrepAck.MUnhashDirPrepAck.Empty: the destructor deleting the CInodeDiscover objects is left out, since inodes are values here.
- Lock.MLock.DecodePayload: reading past the end of the buffer is undefined behaviour in the source. The model reports failure and leaves the fields unchanged. The other DecodePayload methods do the same.
- The commented-out `peer` field of MUnhashDirNotify and `info` field of MOSDPGUpdate are not part of any encoding, as in the source.
- CollectionNode.Cnode.GetAttrBytes: the int accumulator is unbounded here, so 32-bit overflow of a huge attribute set is not modelled. The map is walked in an unspecified order, which does not change the sum.
- CollectionNode.Cnode.Get: ref is an unbounded integer, so int overflow is not modelled.
- CollectionNode.Cnode.constructor: cnode_loc.start is left unconstrained, as the source leaves it unset.
- IoStat.NewBdevStat: numbers are integers. The uptime float 0.0 is the number 0, and a string where a number is expected makes `>> 9` raise. Attributes are a map from names, and object fields are looked up by name.
- IoStat.NewBdevStat: a JSON object is a sequence of (name, value) pairs, which may repeat a name. Lookup takes the last occurrence, as a decoded Python dict does, but the attribute loop visits every occurrence, so an earlier invalid duplicate (a string under read_bytes) fails here where Python would have kept only the later value. Parsed objects are taken to have distinct names.
- IoStat.StatFormat: only leave_first=False is modelled, since the leave_first=True path builds mismatched rows and is never used. Printing and the format string are I/O.
- The rest of cephiostat.py is left out: querying the OSD sockets, JSON parsing, /proc/uptime, the float rate and latency computations, the display loop, signal handling, the kb/mb help exit and argparse's int() parsing.

## Findings

| source | as written | input that shows it | evidently intended | confidence | as-written member | corrected member |
|---|---|---|---|---|---|---|
| ceph/messages/MLock.h:95 | `set_dirino` assigns `this->ino` to itself, so the directory inode number passed in is dropped | set_ino(5, ...) then set_dirino(7) leaves ino at 5 | ino becomes dirino, as set_dn does with its dirino | not executed | Lock.SetDirinoKeepsOldIno | Lock.MLock.SetDirinoIntended |

`Lock.MLock.SetDirino` models the setter as written. `Lock.MLock.SetDirinoIntended`
is the corrected setter, whose contract states that ino becomes dirino.
