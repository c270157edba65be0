# librpc message identifiers and packet layout, in Dafny

This project models the protocol core of gear-lib's `librpc`, as declared in
`gear-lib/librpc/librpc.h`:

- **The message identifier** (`msg_id.dfy`, module `RpcMsgId`). This is the
  32-bit value that `BUILD_RPC_MSG_ID` packs from a service group, a "needs a
  return" flag, a direction, a payload parser and a command. It is unpacked by
  `GET_RPC_MSG_GROUP`, `IS_RPC_MSG_NEED_RETURN`, `GET_RPC_MSG_DIR` and
  `GET_RPC_MSG_PARSE`. The model works on `bv32` and uses exactly the
  operations the macros use. `BUILD_RPC_MSG_ID` casts each argument to
  `uint32_t`, then masks, shifts and ORs. The extractors cast nothing: they
  AND their argument with `RPC_MSG_ID_MASK` and then shift and mask. The
  `bv32` parameter of an extractor stands for that 32-bit masked value. The enums
  `rpc_direction`, `rpc_parser`, `rpc_return` and `rpc_cmd_inner` are
  constants.
- **The packet wire layout** (`header.dfy`, module `RpcHeader`, built on
  `little_endian.dfy`, module `LittleEndian`). A packet is
  `[rpc_header][rpc_payload]`. The header is six little-endian fields in
  declared order: `uuid_dst`, `uuid_src` and `msg_id` (4 bytes each),
  `timestamp` (8 bytes), then `payload_len` and `checksum` (4 bytes each). That
  makes 28 bytes. This part models the layout the header documents. The
  serialiser and parser behind it (`rpc_send`, `rpc_packet_parse`) are not part
  of this model. `ParsePacket` splits one packet off the front of a byte stream
  using `payload_len`, or reports `Truncated`.

**Field widths follow the code, not the layout comment.** The comment at
`librpc.h:78-96` describes a 7-bit group in bits 31-25 ("max support 128
group") and a 16-bit command in bits 15-0. The constants the code uses are
different: `RPC_GROUP_MASK` is `0x07`, a 3-bit group at bit 25, and
`RPC_CMD_MASK` is `0xFF`, an 8-bit command at bit 0. The model uses the
constants. Lemmas state the consequences:

- only 8 groups can be told apart, so group 8 is group 0;
- command `0x108` is command 8;
- bits 8-15 and 28-31 of a built id are always zero.

The comment's own line "8 ~ 255 user cmd" agrees with the 8-bit mask.

The header has no `GET_RPC_MSG_CMD` macro. `RpcMsgId.CmdOf` is an addition: it
is `id & RPC_CMD_MASK`, the extractor the other macros imply.

## Model

| member | source | states |
|---|---|---|
| `RpcMsgId.GroupOf` | gear-lib/librpc/librpc.h:258-259 | the group extracted from any 32-bit id is at most 7 (`RPC_GROUP_MASK`) |
| `RpcMsgId.NeedReturnOf` | gear-lib/librpc/librpc.h:255-256 | the return flag of any id is `_RPC_NO_RETURN` or `_RPC_NEED_RETURN` |
| `RpcMsgId.DirOf` | gear-lib/librpc/librpc.h:261-262 | the direction of any id is `_RPC_DIR_UP` or `_RPC_DIR_DOWN` |
| `RpcMsgId.ParseOf` | gear-lib/librpc/librpc.h:264-265 | the parser field of any id is at most 3 (`RPC_PARSE_MASK`) |
| `RpcMsgId.CmdOf` | gear-lib/librpc/librpc.h:245-246 | (addition: no macro exists) the command of any id is at most 255 (`RPC_CMD_MASK`) |
| `RpcMsgId.Build` | gear-lib/librpc/librpc.h:248-253 | each extractor gives back its own argument masked to the field width, whatever the other arguments; no bit outside the five fields is set |
| `RpcMsgId.BuildRoundTrip` | gear-lib/librpc/librpc.h:248-265 | for group < 8, ret < 2, dir < 2, parse < 4 and cmd < 256, every field extracted from the built id equals its argument |
| `RpcMsgId.BuildMasksArguments` | gear-lib/librpc/librpc.h:248-253 | wrap, don't fail: building from any arguments equals building from the arguments masked with 0x07, 0x01, 0x01, 0x03 and 0xFF |
| `RpcMsgId.MsgIdMaskIsIdentity` | gear-lib/librpc/librpc.h:231 | `id & RPC_MSG_ID_MASK == id` for every 32-bit id, so each extractor is just a shift and a field mask |
| `RpcMsgId.ExtractorsOfWideArgument` | gear-lib/librpc/librpc.h:255-265 | for a 64-bit argument, `RPC_MSG_ID_MASK` cuts it to 32 bits without changing any extracted field, and each macro's 64-bit result equals the model's extractor applied to the low 32 bits |
| `RpcMsgId.FieldMasksDisjoint` | gear-lib/librpc/librpc.h:233-246 | the shifted masks occupy bits 25-27, 19, 18, 16-17 and 0-7, they are pairwise disjoint, and together they are 0x0E0F00FF |
| `RpcMsgId.FieldsIndependent` | gear-lib/librpc/librpc.h:248-265 | each extractor's value on a built id depends on its own argument only: changing any other argument leaves it unchanged |
| `RpcMsgId.UnusedBitsZero` | gear-lib/librpc/librpc.h:248-253 | bits 8-15, 20-24 and 28-31 of every built id are zero |
| `RpcMsgId.Rebuild` | gear-lib/librpc/librpc.h:248-265 | building from the fields extracted from any id gives that id with every bit outside the fields cleared |
| `RpcMsgId.BuiltIdsExactly` | gear-lib/librpc/librpc.h:248-253 | an id is produced by `BUILD_RPC_MSG_ID` for some arguments if and only if it has no bit outside the five fields |
| `RpcMsgId.GroupWiderThanMaskWraps` | gear-lib/librpc/librpc.h:78-81 | the comment's 7-bit group is not realised: a group comes back unchanged if and only if it is below 8; groups that differ by 8 build the same id; group 8 comes back as 0 and group 127 as 7 |
| `RpcMsgId.CmdWiderThanMaskWraps` | gear-lib/librpc/librpc.h:94-96 | the comment's 16-bit command is not realised: a command comes back unchanged if and only if it is below 256; command 256 comes back as 0; command 0x108 builds the same id as command 8; 0xFFFF keeps only its low byte |
| `RpcMsgId.EnumsFitTheirFields` | gear-lib/librpc/librpc.h:268-281 | every enumerator of `rpc_direction`, `rpc_parser` and `rpc_return` survives a build/extract round trip |
| `RpcMsgId.IsInnerCmd` | gear-lib/librpc/librpc.h:283-293 | a command is inner (below `_RPC_USER_BASE`) if and only if it is one of `_RPC_INNER_0`..`_RPC_INNER_7` |
| `RpcMsgId.InnerCmdsRoundTrip` | gear-lib/librpc/librpc.h:95-96 | every inner command survives a build/extract round trip; the command read back is inner exactly when the argument's low byte is below 8 |
| `LittleEndian.ToBytes` | gear-lib/librpc/librpc.h:36 | a value is encoded in exactly n bytes (which byte holds which digit is `ToBytesDigits`) |
| `LittleEndian.FromBytes` | gear-lib/librpc/librpc.h:36 | the value of n little-endian bytes is below 256^n |
| `LittleEndian.ToBytesDigits` | gear-lib/librpc/librpc.h:36 | byte i of the little-endian encoding of x is the base-256 digit of x of weight 256^i, so the least significant byte comes first |
| `LittleEndian.FromToBytes` | gear-lib/librpc/librpc.h:36 | a value below 256^n, encoded in n bytes and decoded, is itself |
| `LittleEndian.ToFromBytes` | gear-lib/librpc/librpc.h:36 | any n bytes, decoded and re-encoded in n bytes, are themselves |
| `RpcHeader.EncodeU32` | gear-lib/librpc/librpc.h:112-117 | a `uint32_t` field is 4 bytes; the first is its low byte and the last is its high byte |
| `RpcHeader.DecodeU32` | gear-lib/librpc/librpc.h:112-117 | any 4 bytes are the encoding of the `uint32_t` they read as |
| `RpcHeader.U32RoundTrip` | gear-lib/librpc/librpc.h:112-117 | a `uint32_t` field written as 4 bytes reads back as itself |
| `RpcHeader.EncodeU64` | gear-lib/librpc/librpc.h:115 | the `uint64_t` timestamp is 8 bytes; the first is its low byte and the last is its high byte |
| `RpcHeader.DecodeU64` | gear-lib/librpc/librpc.h:115 | any 8 bytes are the encoding of the timestamp they read as |
| `RpcHeader.U64RoundTrip` | gear-lib/librpc/librpc.h:115 | the `uint64_t` timestamp written as 8 bytes reads back as itself |
| `RpcHeader.EncodeHeader` | gear-lib/librpc/librpc.h:40-56 | the header encodes to exactly 28 bytes; each field reads back from its offset (0, 4, 8, 12, 20, 24) in declared order; the low byte of `msg_id` comes first |
| `RpcHeader.DecodeHeader` | gear-lib/librpc/librpc.h:40-56 | each of the six fields is the value whose little-endian encoding is the bytes at its offset (0, 4, 8, 12, 20, 24) in the first 28 bytes |
| `RpcHeader.DecodeHeaderReadsPrefix` | gear-lib/librpc/librpc.h:37-56 | the header of a stream depends only on its first 28 bytes |
| `RpcHeader.HeaderRoundTrip` | gear-lib/librpc/librpc.h:111-118 | decoding an encoded header reproduces all six fields |
| `RpcHeader.HeaderBytesRoundTrip` | gear-lib/librpc/librpc.h:40-56 | any 28 bytes are the encoding of the header they decode to |
| `RpcHeader.EncodePacket` | gear-lib/librpc/librpc.h:37 | a packet is its header's 28 bytes followed by its payload: the header decodes back and the payload follows byte 28 |
| `RpcHeader.ParsePacket` | gear-lib/librpc/librpc.h:35-56 | the result is `Truncated` exactly when the stream holds fewer than 28 bytes, or fewer than 28 plus the declared `payload_len`; otherwise the packet parsed is well formed and its encoding followed by the remaining bytes is the stream |
| `RpcHeader.ParseEncodedPacket` | gear-lib/librpc/librpc.h:35-56 | a packet whose `payload_len` is its payload's length, followed by any bytes, parses back to itself and those bytes |
| `RpcHeader.ParseIgnoresLaterBytes` | gear-lib/librpc/librpc.h:35-56 | once the front of a stream holds a whole packet, appending bytes changes only the leftover bytes |

## Left out

- The transport and session object (`struct rpc_ops`, `struct rpc`): socket init/accept/connect/send/recv, `unicast`/`broadcast`, and the `rpc_state` enum. This is I/O and connection state whose code is not in the header.
- The client calls and the dispatch thread (`rpc_call`, `rpc_peer_call`, the semaphore, `dispatch_thread`, `workq`, the event base). This is concurrency, and only declarations exist.
- The hash tables `dict_async_cmd`, `dict_uuid2fd` and `dict_fd2rpc`. The code that keeps them consistent, and libhash, are not part of this model.
- The handler table: `register_msg_map`, `find_msg_handler`, `process_msg` and the `BEGIN_RPC_MAP`/`RPC_MAP`/`RPC_REGISTER_MSG_MAP` macros. Only declarations exist, so lookup and overwrite behaviour would be invented.
- The uuid derivation from `connect_ip_info`. Its hash function is not shown.
- The checksum. Neither its algorithm nor the bytes it covers are defined, so the `checksum` field is carried as an opaque 32-bit value.
- The in-memory `struct rpc_header`. A compiler may pad before `timestamp`, so the model claims nothing about `sizeof`. It describes the 28-byte wire layout only.
- The limits `MAX_RPC_RESP_BUF_LEN`, `MAX_RPC_MESSAGE_SIZE` and `MAX_MESSAGES_IN_MAP`. They bound buffers and the handler table, none of which is modelled.
- The debug dumpers `dump_buffer`, `dump_packet` and `print_packet`.
- Argument types: `Build` takes each argument after its `(uint32_t)` cast. The extractors take their argument after the AND with `RPC_MSG_ID_MASK`. C's conversion of a signed or wider argument is modelled only for a 64-bit unsigned extractor argument (`ExtractorsOfWideArgument`).
- `RpcHeader.Header.msgId`: this is an integer `uint32` in the byte-layout model. It is the same 32 bits that `RpcMsgId` handles as a `bv32`, but no lemma converts between the two representations.
