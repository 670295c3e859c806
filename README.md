# GameCommon message plane in Dafny

This project models the shared message plane of the GameCommon game-server
backend. It has four parts:

- **Routing table** (`ServerConfigManager`). A refresh filters the membership
  feed's instance descriptors. It drops the node's own instance id and
  unhealthy instances. It parses the `"min"`, `"max"` and `"g"` metadata and
  the instance id into `ServerConfig` records and upserts them into
  `serverConfigMap`. It then rebuilds `serverConfigList`: the map's values
  sorted by `minProtoId` and grouped by equal `minProtoId`. `getChannelKey`
  then picks the group for a protocol id.
- **Frame header serialiser** (`MsgUtil`). Client frames have a 16-byte
  big-endian header. Server frames have a 24-byte header led by an 8-byte user
  id. The body's bytes follow the header when there is a body.
- **Response envelope** (`MsgResponse`). A pooled object with an error code, a
  body and a flag byte. Bit 0 of the flag marks encryption
  (`ENCRYPTION_MASK = 1`) and bit 1 compression (`COMPRESSION_MASK = 2`).
  `recycle` resets the three fields and returns the object to its pool.
- **Dispatch table** (`HandlePbBeanManager`). Three maps keyed by protocol id.
  The handler-class map keeps the first non-null registration (`putIfAbsent`).
  The parser map and the handler-method map keep the last one (`put`).

Files:

| file | module | models |
|---|---|---|
| `java_types.dfy` | `JavaTypes` | Java integer widths, null as `Option`, exceptions as `Result`, `Integer.parseInt` |
| `server_config.dfy` | `ServerConfigs` | the `ServerConfig` record, the metadata keys, parsing one descriptor |
| `routing.dfy` | `Routing` | `refreshServerInstances`, `sortAndGroupByMinProtoId`, `getChannelKey` and the `ServerConfigManager` class |
| `frame_codec.dfy` | `FrameCodec` | `buildClientMsg`, `buildServerMsg`, the output buffer's writes |
| `envelope.dfy` | `Envelope` | `MsgResponse`, its pool, the flag bits |
| `dispatch.dfy` | `Dispatch` | `HandlePbBeanManager` |

Each stateful operation is a method on a class. Its `ensures` ties the new
state or the result to a pure function, and the lemmas state what the source
promises about that function:

- `Refresh` specifies a refresh.
- `SortByMin`, `WellGrouped` and `ValuesOf` specify the sort and the grouping.
- `ChannelKey` specifies the lookup.
- `EncodeClientHeader` and `EncodeServerHeader` give the header layout.
  `DecodeClientHeader` reads the fields back from their fixed offsets.
- `WithEncrypted` specifies the flag update.
- `Put`, `PutIfAbsent` and `GetOrNull` specify the dispatch maps. `PutAll` and
  `PutAllIfAbsent` fold a series of registrations.

**How the lookup behaves.** The model follows the code of `getChannelKey`
literally:

- The `break` at `ServerConfigManager.java:161` leaves only the loop over the
  group's members. The scan then moves on to the next group.
- Only the first member of each group is compared, and only against its
  `maxProtoId`. `minProtoId` is never read.

So the lookup does not stop at the first group that misses, and a group is
not returned when only a later member covers the id. Three concrete lemmas
show this:

- `Routing.ContiguousRangesExample`
- `Routing.LookupIgnoresMinProtoId`
- `Routing.LookupComparesFirstMemberOnly`

The map is never pruned. An instance that disappears from the feed or turns
unhealthy keeps its earlier record, and `Routing.RefreshKeepsUnadmitted`
states this.

## Model

Source paths are relative to `common/src/main/java/com/slg/module/` inside the
repository; each cell below spells the path out in full.

| member | source | states |
|---|---|---|
| JavaTypes.ParseInt | common/src/main/java/com/slg/module/connection/ServerConfigManager.java:84-87 | `Integer.parseInt` succeeds only on a non-empty string that starts with a digit or a sign. A `-` sign gives a value at most 0; any other start gives a value at least 0. |
| JavaTypes.ParseFormatRoundTrip | common/src/main/java/com/slg/module/connection/ServerConfigManager.java:87 | Every int's decimal form parses back to that int, so every canonical numeric instance id is accepted. |
| JavaTypes.ParseIntSignedDigits | common/src/main/java/com/slg/module/connection/ServerConfigManager.java:84-87 | An optional '+' or '-' followed by one or more digits parses to the signed value of the digits when that is an int, and throws otherwise. |
| JavaTypes.SignedValue | common/src/main/java/com/slg/module/connection/ServerConfigManager.java:84-87 | A magnitude is an int exactly when it is below 2^31, or at most 2^31 with a '-' sign; the value then carries the sign. |
| JavaTypes.ParseIntOverflow | common/src/main/java/com/slg/module/connection/ServerConfigManager.java:84-87 | Every digit string whose value is 2^31 or more throws, bare or after '+'. After '-' it throws once the value is above 2^31. |
| JavaTypes.ParseIntBound | common/src/main/java/com/slg/module/connection/ServerConfigManager.java:84-87 | "2147483648" throws, while "-2147483648" is the smallest int. |
| JavaTypes.DigitsValueLeadingZeros | common/src/main/java/com/slg/module/connection/ServerConfigManager.java:84-87 | Zeros in front of a digit string do not change its value. |
| JavaTypes.ParseIntLeadingZeros | common/src/main/java/com/slg/module/connection/ServerConfigManager.java:84-87 | Leading zeros are accepted: "007" parses to 7, like "7". |
| JavaTypes.ParseIntPlusSign | common/src/main/java/com/slg/module/connection/ServerConfigManager.java:84-87 | A leading '+' is accepted and changes nothing: "+7" and "+007" parse to 7. |
| JavaTypes.ParseIntRejects | common/src/main/java/com/slg/module/connection/ServerConfigManager.java:84-87 | The empty string, a lone sign and any string with a non-digit after the optional sign are rejected (a NumberFormatException). |
| ServerConfigs.MetadataGet | common/src/main/java/com/slg/module/connection/ServerConfigManager.java:84-86 | `metadata.get` returns a value exactly when the key is present, and then the stored value; otherwise null. |
| ServerConfigs.ParseNullable | common/src/main/java/com/slg/module/connection/ServerConfigManager.java:84-86 | Parsing a missing (null) value throws. A present value succeeds exactly when `parseInt` accepts it. The exception carries the offending input. |
| ServerConfigs.ToServerConfig | common/src/main/java/com/slg/module/connection/ServerConfigManager.java:81-92 | A descriptor yields a record exactly when "max", "min", "g" and the instance id all parse. serverId, minProtoId, maxProtoId and groupId are the parsed values; host and port are copied. The first value that does not parse, in the order "max", "min", "g", instance id, is the one the exception carries. |
| Routing.Refresh | common/src/main/java/com/slg/module/connection/ServerConfigManager.java:71-98 | A refresh never removes a key from the map: it only upserts. |
| Routing.RefreshKeepsUnadmitted | common/src/main/java/com/slg/module/connection/ServerConfigManager.java:71-98 | An id whose descriptors are all excluded or unhealthy (or that is absent from the feed) keeps exactly its earlier entry, or stays absent. |
| Routing.RefreshNeverAddsExcluded | common/src/main/java/com/slg/module/connection/ServerConfigManager.java:74-77 | The excluded instance id is never added to the map. |
| Routing.RefreshIgnoresUnhealthy | common/src/main/java/com/slg/module/connection/ServerConfigManager.java:78-80 | An id that is unhealthy in every descriptor of the feed is neither added nor updated. |
| Routing.RefreshAddsOnlyAdmitted | common/src/main/java/com/slg/module/connection/ServerConfigManager.java:72-93 | Every newly added key is the instance id of an admitted descriptor (not excluded, healthy). |
| Routing.RefreshStoresLastAdmitted | common/src/main/java/com/slg/module/connection/ServerConfigManager.java:81-93 | After a refresh without exception, an id maps to the record parsed from its last admitted descriptor: later descriptors overwrite earlier ones. |
| Routing.RefreshStopsAtFirstFailure | common/src/main/java/com/slg/module/connection/ServerConfigManager.java:84-97 | The first admitted descriptor that does not parse aborts the refresh with its exception. The records upserted before it stay in the map; nothing after it is applied. |
| Routing.RefreshSucceedsIffAllParse | common/src/main/java/com/slg/module/connection/ServerConfigManager.java:71-98 | A refresh finishes without exception exactly when every admitted descriptor parses. |
| Routing.InsertByMin | common/src/main/java/com/slg/module/connection/ServerConfigManager.java:123 | Inserting a record into a list sorted by minProtoId keeps it sorted, one longer, and led by the record or the old head. |
| Routing.InsertByMinPermutes | common/src/main/java/com/slg/module/connection/ServerConfigManager.java:123 | Insertion adds exactly the inserted record: nothing is lost or duplicated. |
| Routing.SortByMin | common/src/main/java/com/slg/module/connection/ServerConfigManager.java:123 | The sort's result is ordered by minProtoId and is a permutation of its input. |
| Routing.SortByMinStable | common/src/main/java/com/slg/module/connection/ServerConfigManager.java:123 | The sort is stable: records with equal minProtoId keep their relative order. |
| Routing.WellGroupedFlattenSorted | common/src/main/java/com/slg/module/connection/ServerConfigManager.java:132-151 | The concatenation of well-formed groups is sorted by minProtoId and bounded by the last group's minProtoId. |
| Routing.CloseGroup | common/src/main/java/com/slg/module/connection/ServerConfigManager.java:143-151 | Appending a closed group with a larger minProtoId keeps the groups well formed and extends their concatenation by that group. |
| Routing.MapValues | common/src/main/java/com/slg/module/connection/ServerConfigManager.java:120 | The list of the map's values holds each value once per key that maps to it, in an unspecified order. |
| Routing.GroupSortedByMinProtoId | common/src/main/java/com/slg/module/connection/ServerConfigManager.java:127-153 | Grouping a sorted list gives non-empty groups with one minProtoId each, strictly increasing from group to group. Their concatenation is the input, in order. |
| Routing.SortAndGroupByMinProtoId | common/src/main/java/com/slg/module/connection/ServerConfigManager.java:118-154 | The result is well grouped and its concatenation is a permutation of the map's values. The result is empty exactly when the map is empty. |
| Routing.ChannelKeyIsFirstServing | common/src/main/java/com/slg/module/connection/ServerConfigManager.java:157-168 | The lookup returns the first group, in list order, whose first member's maxProtoId is at least the protocol id. |
| Routing.ChannelKeyNone | common/src/main/java/com/slg/module/connection/ServerConfigManager.java:157-168 | The lookup returns null exactly when no group's first member reaches the protocol id. |
| Routing.ChannelKeyFound | common/src/main/java/com/slg/module/connection/ServerConfigManager.java:158-164 | A returned group is one of the list's groups, and its first member's maxProtoId is at least the protocol id. |
| Routing.EmptyTableRoutesNothing | common/src/main/java/com/slg/module/connection/ServerConfigManager.java:157-168 | With an empty map, every lookup returns null. |
| Routing.PartitionedRouting | common/src/main/java/com/slg/module/connection/ServerConfigManager.java:157-168 | When the groups' ranges are disjoint and increasing, an id inside a group's range is routed to that group. |
| Routing.ContiguousRangesExample | common/src/main/java/com/slg/module/connection/ServerConfigManager.java:157-168 | With groups [1,10] and [11,20], 5 routes to the first, 15 to the second (the scan goes on past a miss) and 25 to null. |
| Routing.LookupIgnoresMinProtoId | common/src/main/java/com/slg/module/connection/ServerConfigManager.java:160 | An id below a group's minProtoId still routes to it: minProtoId is not consulted. |
| Routing.LookupComparesFirstMemberOnly | common/src/main/java/com/slg/module/connection/ServerConfigManager.java:159-164 | A group whose second member covers the id but whose first member does not is not returned. |
| Routing.ServerConfigManager.constructor | common/src/main/java/com/slg/module/connection/ServerConfigManager.java:18-20 | A new manager has an empty map and an empty group list. |
| Routing.ServerConfigManager.RefreshServerInstances | common/src/main/java/com/slg/module/connection/ServerConfigManager.java:71-98 | The new map and the exception, if any, are those `Refresh` gives. Without an exception the group list is a well-formed grouping of the new map's values. With one, the group list is unchanged. |
| Routing.ServerConfigManager.GetChannelKey | common/src/main/java/com/slg/module/connection/ServerConfigManager.java:157-168 | The nested scan with its inner `break` returns exactly `ChannelKey` of the current group list. |
| FrameCodec.UnsignedReadBack | common/src/main/java/com/slg/module/message/MsgUtil.java:33-39 | Bytes written for a value read back, unsigned, as that value modulo 256^n. |
| FrameCodec.EncodeReadBack | common/src/main/java/com/slg/module/message/MsgUtil.java:33-39 | A field written in n bytes reads back, as a two's-complement value, as the value written when it fits in n bytes. |
| FrameCodec.EncodeClientHeader | common/src/main/java/com/slg/module/message/MsgUtil.java:33-39 | The client header is exactly 16 bytes. |
| FrameCodec.ClientHeaderRoundTrip | common/src/main/java/com/slg/module/message/MsgUtil.java:33-39 | Every header field reads back from its fixed offset: cid at 0-3, errorCode at 4-7, protocolId at 8-11, zip at 12, encrypted at 13, length at 14-15. |
| FrameCodec.ClientHeaderBytesRoundTrip | common/src/main/java/com/slg/module/message/MsgUtil.java:33-39 | Every 16-byte string is the header of exactly the fields read from it, so the layout is a bijection. |
| FrameCodec.DecodeClientHeaderIgnoresBody | common/src/main/java/com/slg/module/message/MsgUtil.java:41-48 | Appending a body does not change the header fields read from a frame. |
| FrameCodec.EncodeServerHeader | common/src/main/java/com/slg/module/message/MsgUtil.java:58-65 | The server header is exactly 24 bytes. |
| FrameCodec.ServerHeaderRoundTrip | common/src/main/java/com/slg/module/message/MsgUtil.java:58-65 | The user id reads back from bytes 0-7 and the client fields from bytes 8-23. |
| FrameCodec.ClientFrameLayout | common/src/main/java/com/slg/module/message/MsgUtil.java:29-49 | In a client header followed by body bytes, the first 16 bytes are the header and decode to its fields. The flag bytes sit at 12 and 13, the length reads back unsigned from 14-15, and the body follows unchanged. |
| FrameCodec.ServerFrameLayout | common/src/main/java/com/slg/module/message/MsgUtil.java:54-75 | In a server header followed by body bytes, the first 24 bytes are the user id's 8 bytes then the client header. The user id and the client fields read back, and the body follows unchanged. |
| FrameCodec.ByteBuf.constructor | common/src/main/java/com/slg/module/message/MsgUtil.java:31 | A new output buffer holds no bytes. |
| FrameCodec.ByteBuf.WriteLong | common/src/main/java/com/slg/module/message/MsgUtil.java:58 | `writeLong` appends the 8-byte big-endian encoding. |
| FrameCodec.ByteBuf.WriteInt | common/src/main/java/com/slg/module/message/MsgUtil.java:33-35 | `writeInt` appends the 4-byte big-endian encoding. |
| FrameCodec.ByteBuf.WriteShort | common/src/main/java/com/slg/module/message/MsgUtil.java:39 | `writeShort` appends the low 16 bits, big-endian. |
| FrameCodec.ByteBuf.WriteByte | common/src/main/java/com/slg/module/message/MsgUtil.java:36-37 | `writeByte` appends the low 8 bits. |
| FrameCodec.BuildClientMsg | common/src/main/java/com/slg/module/message/MsgUtil.java:29-49 | The frame is the 16-byte header of the arguments followed by the body's bytes unchanged, or nothing for a null body. Every field reads back from its offset as the argument written. The length is stored as given (unsigned, length mod 65536) and is not checked against the body. |
| FrameCodec.BuildServerMsg | common/src/main/java/com/slg/module/message/MsgUtil.java:54-75 | The frame is the user id's 8 bytes, then the client layout, then the body's bytes unchanged. The user id and every field read back from their offsets. The int zip and encrypted flags keep only their low 8 bits. |
| Envelope.WithEncrypted | common/src/main/java/com/slg/module/message/MsgResponse.java:64-71 | The encryption bit of the result is the requested one, and every other bit is as before. |
| Envelope.WithEncryptedKeepsCompression | common/src/main/java/com/slg/module/message/MsgResponse.java:64-71 | Setting or clearing the encryption bit leaves the compression bit unchanged. |
| Envelope.WithEncryptedIdempotent | common/src/main/java/com/slg/module/message/MsgResponse.java:64-71 | Setting the encryption bit to the same value twice equals setting it once. |
| Envelope.WithEncryptedNoChange | common/src/main/java/com/slg/module/message/MsgResponse.java:64-71 | A flag that already has the requested encryption bit is returned unchanged. |
| Envelope.MsgResponse.constructor | common/src/main/java/com/slg/module/message/MsgResponse.java:26-28 | A new envelope has flag 0, error code 0 and no body, and keeps its pool handle. |
| Envelope.MsgResponse.IsEncrypted | common/src/main/java/com/slg/module/message/MsgResponse.java:58-60 | True exactly when bit 0 (`ENCRYPTION_MASK`) of the flag is set. |
| Envelope.MsgResponse.SetEncrypted | common/src/main/java/com/slg/module/message/MsgResponse.java:64-71 | Sets or clears bit 0 only and returns the new flag. The error code and body are unchanged. |
| Envelope.MsgResponse.Recycle | common/src/main/java/com/slg/module/message/MsgResponse.java:74-79 | Resets flag, error code and body, and pushes the envelope onto its pool, which stays valid. |
| Envelope.MsgResponse.GetErrorCode | common/src/main/java/com/slg/module/message/MsgResponse.java:82-84 | Returns the stored error code. |
| Envelope.MsgResponse.SetErrorCode | common/src/main/java/com/slg/module/message/MsgResponse.java:86-88 | Stores the error code and touches no other field. |
| Envelope.MsgResponse.SetFlag | common/src/main/java/com/slg/module/message/MsgResponse.java:90-92 | Stores the flag and touches no other field. |
| Envelope.MsgResponse.GetFlag | common/src/main/java/com/slg/module/message/MsgResponse.java:94-96 | Returns the stored flag. |
| Envelope.MsgResponse.GetBody | common/src/main/java/com/slg/module/message/MsgResponse.java:98-100 | Returns the stored body. |
| Envelope.MsgResponse.SetBody | common/src/main/java/com/slg/module/message/MsgResponse.java:102-104 | Stores the body and touches no other field. |
| Envelope.Recycler.constructor | common/src/main/java/com/slg/module/message/MsgResponse.java:16-21 | A new pool is empty and valid. |
| Envelope.Recycler.Get | common/src/main/java/com/slg/module/message/MsgResponse.java:16-21 | Hands out the last returned envelope, or a newly constructed one when the pool is empty. Either way the envelope is in its reset state, its handle is this pool, and it has left the pool; the pool loses exactly that last element, or is unchanged when it was empty. Every pooled envelope has this pool as its handle, so a handed-out envelope can always be recycled. |
| Envelope.Recycler.Release | common/src/main/java/com/slg/module/message/MsgResponse.java:78 | Takes back a reset envelope of this pool that is not already pooled; it is appended and the pool stays valid. |
| Envelope.NewInstance | common/src/main/java/com/slg/module/message/MsgResponse.java:31-36 | Error code SUCCESS and the given body. The flag is the pooled one, which is always 0. The envelope comes from the pool (its last element, or a new one when the pool is empty) and its handle is the pool, so it can be recycled. |
| Envelope.NewInstanceWithError | common/src/main/java/com/slg/module/message/MsgResponse.java:38-43 | The given error code, a null body and flag 0. The envelope comes from the pool as for `newInstance(body)`, with the pool as its handle. |
| Envelope.NewInstanceEncrypted | common/src/main/java/com/slg/module/message/MsgResponse.java:45-55 | Error code SUCCESS and the given body. The flag is `ENCRYPTION_MASK` when encrypted and 0 otherwise, so it is always in {0, ENCRYPTION_MASK} and never marks compression. The envelope comes from the pool as for `newInstance(body)`, with the pool as its handle. |
| Dispatch.GetOrNull | common/src/main/java/com/slg/module/register/HandlePbBeanManager.java:44-54 | `getOrDefault(key, null)` gives the stored value (possibly null) for a key in the map, and null for a key that is not in it. |
| Dispatch.Put | common/src/main/java/com/slg/module/register/HandlePbBeanManager.java:32-34 | After `put` the key reads back as the new value, and every other key reads as before. |
| Dispatch.PutIfAbsent | common/src/main/java/com/slg/module/register/HandlePbBeanManager.java:36-38 | After `putIfAbsent` a key with a non-null value keeps it, and a key that is absent or null gets the new value. Every other key reads as before. |
| Dispatch.PutAllKeepsLast | common/src/main/java/com/slg/module/register/HandlePbBeanManager.java:32-46 | After any series of `put` registrations, a key reads as its most recent registration, or as before when it was never registered. |
| Dispatch.PutAllIfAbsentKeepsFirst | common/src/main/java/com/slg/module/register/HandlePbBeanManager.java:36-50 | After any series of `putIfAbsent` registrations, a key keeps a non-null value it had. Otherwise it reads as its first non-null registration. |
| Dispatch.PutIfAbsentKeepsPresent | common/src/main/java/com/slg/module/register/HandlePbBeanManager.java:36-38 | Registering a class for a key that already has one changes nothing. |
| Dispatch.UnregisteredIsNull | common/src/main/java/com/slg/module/register/HandlePbBeanManager.java:44-54 | Starting from empty maps, a key that was never registered reads as null in every map. |
| Dispatch.HandlePbBeanManager.constructor | common/src/main/java/com/slg/module/register/HandlePbBeanManager.java:16-20 | A new manager has all three maps empty. |
| Dispatch.HandlePbBeanManager.SetParseFromMethodMap | common/src/main/java/com/slg/module/register/HandlePbBeanManager.java:32-34 | The parser map becomes `Put` of the old one; the other two maps are unchanged. |
| Dispatch.HandlePbBeanManager.SetHandleClassMap | common/src/main/java/com/slg/module/register/HandlePbBeanManager.java:36-38 | The class map becomes `PutIfAbsent` of the old one; the other two maps are unchanged. |
| Dispatch.HandlePbBeanManager.SetHandleMethodMap | common/src/main/java/com/slg/module/register/HandlePbBeanManager.java:40-42 | The handler-method map becomes `Put` of the old one; the other two maps are unchanged. |
| Dispatch.HandlePbBeanManager.GetParseFromMethod | common/src/main/java/com/slg/module/register/HandlePbBeanManager.java:44-46 | Returns the parser map's value for the key, or null. |
| Dispatch.HandlePbBeanManager.GetClassHandle | common/src/main/java/com/slg/module/register/HandlePbBeanManager.java:48-50 | Returns the class map's value for the key, or null. |
| Dispatch.HandlePbBeanManager.GetHandleMethod | common/src/main/java/com/slg/module/register/HandlePbBeanManager.java:52-54 | Returns the handler-method map's value for the key, or null. |

## Left out

- The membership feed and configuration I/O are not modelled: `ServerConfigManager.init`, its listeners, and the Nacos client and registry. Neither are the double-checked-locking singletons of `ServerConfigManager` and `HandlePbBeanManager`. A refresh receives its descriptors as a parameter.
- The logging line printed for the skipped own instance is left out.
- Concurrency is not modelled. `serverConfigList` is a plain field assignment in the source, and the model treats it the same way.
- `HashMap` iteration order is unspecified. `Routing.MapValues` picks the values in an arbitrary order, and the grouping is proved for every order.
- `List.sort` is modelled as a stable insertion sort (`Routing.SortByMin`), because the library sort is stable. Its algorithm and complexity are not modelled.
- Null descriptors, a null instance id and a null metadata map are not modelled; in the source each throws a NullPointerException. A null `excludeInstanceId` is modelled (`None`).
- `JavaTypes.ParseInt`: only ASCII digits are modelled. `Integer.parseInt` also accepts other Unicode decimal digits.
- Netty buffer mechanics are not modelled: `CompositeByteBuf` ownership and reference counting, and the capacity hints `16 + length` and `24 + length` (a negative hint makes the allocator throw). A frame is the sequence of bytes it holds. A body is the sequence of its readable bytes, or `None` for null.
- The pool of `MsgResponse` is modelled as an unbounded stack. Netty's per-thread pools, capacity limits and the possibility of dropping a returned object are left out. Recycling an object twice is excluded by `Recycle`'s precondition; Netty rejects it at run time.
- `ErrorCodeConstants` is not part of this model, so `SUCCESS` is a constant whose value is left open.
- The flag is modelled as its 8-bit pattern (`bv8`). Java's `byte` is signed, but only its bits are used.
- The protobuf builder, `java.lang.reflect.Method` and `Class<?>` are opaque type parameters. The dispatch maps key on `int32`, and a null `Integer` key is not modelled.
- Out of scope:
  - the crypto utilities (AES-CBC and SHA-256 over JCE and BouncyCastle);
  - the LZ4 compression wrapper;
  - Spring bean scanning and reflection;
  - `ConfigReader`, `VirtualThreadUtils` and the commented-out `ResponsePool`.

  All of these are library wrappers, I/O or framework code.
