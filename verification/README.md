# RPC channel manager — Dafny model

This project models the discovery-driven RPC channel manager of the chat
server (`code/server/common/channel.hpp`). There are two layers:

- **`ServiceChannel`**, the per-service pool (module `Channels`). It keeps an
  ordered rotation of channel handles, a host → handle map and a
  round-robin counter. Its operations are `Append`, `Remove` and `Choose`.
- **`ServiceManager`**, the registry (module `Manager`). It keeps the set of
  followed service names and a name → pool map. It parses
  `<name>/<suffix>` instance ids and routes online and offline events to
  the right pool. Events for services nobody declared are ignored.

Every operation is a pure function from state to state. Selections return
the handle together with the advanced state. Channel handles are opaque ids
(`Handle(id)`), and two handles are the same channel exactly when their ids
agree, as the source compares shared pointers. The registry's `nextHandle`
counter stands for allocating a new channel object. Whether the transport
channel initialises is an `initOk` parameter of `Append`.

Two pool invariants are proved:

- `Channels.Valid` holds after any history. No handle is in the rotation
  twice, no two hosts share a handle, and every mapped handle is in the
  rotation.
- `Channels.Consistent` also says that every handle in the rotation is
  mapped. It is kept only while no host is appended twice without a remove
  in between. The source does not deduplicate: a second append of a mapped
  host adds a new handle that no host points at, and a later remove of that
  host leaves the new handle selectable (`Channels.DuplicateAppendOrphans`).

An instance id without `/` is its own service name. The source's
`find_last_of` gives `npos`, and `substr(0, npos)` keeps the whole string.

An online event for a followed service creates the pool before the channel
is initialised. A failed `Init` therefore still leaves an empty pool behind
(channel.hpp:119-135). The model keeps this.

Files: `wrappers.dfy` (`Option`), `channels.dfy` (the pool), `manager.dfy`
(the registry and event replay), `scenarios.dfy` (concrete runs).
Verify them together from this directory with
`dafny verify --resource-limit 2000000 --verification-time-limit 0 --warn-contradictory-assumptions *.dfy`
(Dafny 4.11); plain `dafny verify *.dfy` verifies them as well.

## Model

| member | source | states |
|---|---|---|
| Channels.NewServiceChannel | code/server/common/channel.hpp:13-15 | a new pool is empty with counter 0, and it satisfies the consistency invariant |
| Channels.Append | code/server/common/channel.hpp:18-35 | a failed Init leaves the pool unchanged; on success the handle joins the end of the rotation, the host is mapped to it only if it was unmapped, existing mappings are kept, and the counter is untouched |
| Channels.IndexOf | code/server/common/channel.hpp:47-49 | the first position holding the handle, or the length when it is absent; no earlier position holds it |
| Channels.DeleteAt | code/server/common/channel.hpp:51 | erasing position i keeps everything before i in place and moves everything after it one place forward, shortening the rotation by one |
| Channels.RemoveFirst | code/server/common/channel.hpp:47-54 | exactly one copy of the handle leaves the rotation (multiset difference); re-inserting it at its first position gives back the original; nothing changes when it is absent |
| Channels.EraseFirstMatch | code/server/common/channel.hpp:47-54 | the front-to-back erase-and-break loop computes the same rotation as `RemoveFirst` |
| Channels.Remove | code/server/common/channel.hpp:38-56 | an unmapped host changes nothing; a mapped host loses its key, only the first copy of its handle leaves the rotation, other mappings and the counter are kept |
| Channels.Choose | code/server/common/channel.hpp:58-68 | an empty rotation yields none and keeps the counter; otherwise the handle at counter mod size, always a member of the rotation, and the counter moves on by exactly one |
| Channels.AppendPreservesValid | code/server/common/channel.hpp:18-35 | appending a newly allocated handle keeps the pool invariant, even for a host already mapped |
| Channels.AppendPreservesConsistent | code/server/common/channel.hpp:32-34 | appending a new handle for an unmapped host keeps rotation and host map holding the same handles |
| Channels.DuplicateAppendOrphans | code/server/common/channel.hpp:33-55 | appending a mapped host again keeps the old mapping and breaks consistency; removing that host then takes out only the first handle, leaving the second in the rotation with no host mapped to it |
| Channels.DistinctRemoveFirstMembers | code/server/common/channel.hpp:47-54 | in a duplicate-free rotation the erase removes the handle entirely and keeps every other handle |
| Channels.RemovePreservesValid | code/server/common/channel.hpp:38-56 | removal keeps the pool invariant |
| Channels.RemovePreservesConsistent | code/server/common/channel.hpp:38-56 | removal keeps rotation and host map holding the same handles |
| Channels.ChoosePreservesConsistent | code/server/common/channel.hpp:58-68 | selection keeps the consistency invariant |
| Channels.ChooseReturnsMappedHandle | code/server/common/channel.hpp:58-68 | in a consistent pool every handle handed out is the channel of some host |
| Channels.ConsistentSameHandles | code/server/common/channel.hpp:73-74 | in a consistent pool the rotation and the host map hold the same set of handles and have equal size |
| Channels.RoundRobin | code/server/common/channel.hpp:66 | on a stable pool the k-th of n selections is the handle at (counter + k) mod size, and the counter ends n further on |
| Channels.RoundRobinFair | code/server/common/channel.hpp:58-68 | from any counter, over n selections on a stable duplicate-free rotation of size S, the handle at position j is handed out n / S times, plus one when (j - counter) mod S < n mod S, so every handle gets n / S or that plus one |
| Manager.NewServiceManager | code/server/common/channel.hpp:83 | a new registry follows nothing and has no pools |
| Manager.FindLastOf | code/server/common/channel.hpp:170 | the position of the last occurrence of the character, with none after it; none exactly when the character is absent |
| Manager.GetServiceName | code/server/common/channel.hpp:168-172 | without '/' the whole id; otherwise a proper prefix of the id followed by the final '/', with no '/' in the rest |
| Manager.ServiceNameOfInstance | code/server/common/channel.hpp:168-172 | parsing inverts the id format: `name + "/" + suffix` gives back `name` whenever the suffix has no '/' |
| Manager.PoolFor | code/server/common/channel.hpp:119-128 | the pool an online event uses: the existing pool for the name, or a new empty pool named after the service when none exists |
| Manager.Declared | code/server/common/channel.hpp:99-103 | the name becomes followed, no followed name is dropped, no other name is added, and the pools are untouched |
| Manager.DeclaredIdempotent | code/server/common/channel.hpp:99-103 | declaring a name twice equals declaring it once |
| Manager.OnServiceOnline | code/server/common/channel.hpp:106-137 | an unfollowed service leaves the registry unchanged; otherwise the named pool is fetched or created at most once and gets the append of a newly allocated handle, and every other pool is untouched |
| Manager.OnServiceOffline | code/server/common/channel.hpp:140-166 | an unfollowed service, or a followed one without a pool, leaves the registry unchanged; otherwise only the named pool changes, by `Remove` |
| Manager.Choose | code/server/common/channel.hpp:86-96 | a service without a pool yields none and no change; otherwise the pool's round-robin pick, a member of that pool, and only that pool's counter advances |
| Manager.OnlinePreservesValid | code/server/common/channel.hpp:106-137 | online events keep pools limited to followed names, every pool valid and every handle allocated |
| Manager.OfflinePreservesValid | code/server/common/channel.hpp:140-166 | offline events keep the registry invariant |
| Manager.ReplayPreservesValid | code/server/common/channel.hpp:86-166 | every history of declarations, events and selections keeps the registry invariant |
| Manager.ReplayNeverShrinks | code/server/common/channel.hpp:99-166 | no history removes a followed name or a pool |
| Manager.PoolOnlyAfterOnline | code/server/common/channel.hpp:119-124 | a pool exists after a history only if it existed before or an online event of that history named its service |
| Manager.OnlinePreservesConsistent | code/server/common/channel.hpp:106-137 | an online event for a host its pool has not mapped keeps every pool consistent |
| Manager.OfflinePreservesConsistent | code/server/common/channel.hpp:140-166 | offline events keep every pool consistent |
| Manager.ChooseReturnsMappedHandle | code/server/common/channel.hpp:86-96 | in a consistent registry a handle handed out for a service is the channel of one of its hosts |
| Scenarios.ThreeHostsCycle | code/server/common/channel.hpp:18-68 | three distinct hosts A, B, C appended to a new pool are each mapped to their own channel, and four selections hand out A, B, C, A |
| Scenarios.DeclaredServiceIsSelectable | code/server/common/channel.hpp:86-137 | after declaring "chat" and an online event for "chat/node-1", selecting "chat" returns that host's channel |
| Scenarios.UndeclaredServiceIsIgnored | code/server/common/channel.hpp:106-117 | an online event for an undeclared service leaves selection for it at none |
| Scenarios.JoinThenLeave | code/server/common/channel.hpp:106-166 | an instance that joins and then leaves leaves its service with no selectable channel |

## Left out

- Construction of the transport channel and its options (connect and call timeouts, retry count, protocol): a foreign library call, reduced to an opaque handle and the `initOk` flag.
- Locking (`std::mutex` in both classes, and the narrowed lock scope in `onServiceOnline`): the operations are modelled sequentially, one event at a time.
- Logging calls: output only, with no effect on state.
- The `if(!service)` check after the pool lookup in `onServiceOnline`: `make_shared` never yields an empty pointer, so the branch is dead and is not modelled.
- Channels.Choose: the `int32_t` counter is an unbounded `nat`, so the overflow of `_index` (undefined behaviour in C++) and the signed-to-unsigned conversion in the modulo are not modelled.
- Handle reuse after release: a removed channel object may be freed and its address reused by a later allocation; the model never reuses an id, which agrees with the source for every handle still held by a pool.
- The search-index, message-queue, SMS, speech-recognition and logger adapters in `code/server/common/`: thin wrappers over external libraries and network I/O, with no state of their own to model.
