/*
 * The 32-bit RPC message identifier of gear-lib's librpc (librpc.h).
 *
 * A message id packs five fields into one uint32_t: a service group, a
 * "needs a return" flag, a direction, the payload parser and a command.
 * BUILD_RPC_MSG_ID masks each argument, shifts it into place and ORs the
 * pieces together; the GET_RPC_MSG_* and IS_RPC_MSG_NEED_RETURN macros shift
 * and mask to take a field back out.
 *
 * The widths here are those of the RPC_*_MASK constants, which is what the
 * code computes: a 3-bit group at bit 25 and an 8-bit command at bit 0. The
 * layout comment above the constants describes a 7-bit group (bits 31-25)
 * and a 16-bit command (bits 15-0); the lemmas at the end of this module
 * state what the code does with the values that comment would allow.
 *
 * BUILD_RPC_MSG_ID casts each argument to uint32_t, so its parameters here
 * are the bv32 values after that cast. The extractor macros apply no cast:
 * they AND their argument, as passed, with RPC_MSG_ID_MASK, and that step
 * is what cuts a wider argument to 32 bits. The extractors' bv32 parameter
 * stands for `arg & RPC_MSG_ID_MASK`; ExtractorsOfWideArgument shows that
 * on a 64-bit argument the macro and the model agree.
 */
module RpcMsgId {

  // RPC_MSG_ID_MASK: all 32 bits
  const MSG_ID_MASK: bv32 := 0xFFFF_FFFF

  const GROUP_BIT: bv32 := 25
  const GROUP_MASK: bv32 := 0x07

  const RET_BIT: bv32 := 19
  const RET_MASK: bv32 := 0x01

  const DIR_BIT: bv32 := 18
  const DIR_MASK: bv32 := 0x01

  const PARSE_BIT: bv32 := 16
  const PARSE_MASK: bv32 := 0x03

  const CMD_BIT: bv32 := 0
  const CMD_MASK: bv32 := 0xFF

  // enum rpc_direction
  const DIR_UP: bv32 := 0
  const DIR_DOWN: bv32 := 1

  // enum rpc_parser
  const PARSE_JSON: bv32 := 0
  const PARSE_PROTOBUF: bv32 := 1

  // enum rpc_return
  const NO_RETURN: bv32 := 0
  const NEED_RETURN: bv32 := 1

  // enum rpc_cmd_inner
  const INNER_0: bv32 := 0
  const INNER_1: bv32 := 1
  const INNER_2: bv32 := 2
  const INNER_3: bv32 := 3
  const INNER_4: bv32 := 4
  const INNER_5: bv32 := 5
  const INNER_6: bv32 := 6
  const INNER_7: bv32 := 7
  const USER_BASE: bv32 := 8

  /** The enumerators of rpc_cmd_inner below the user base, in order. */
  const INNER_CMDS: seq<bv32> := [INNER_0, INNER_1, INNER_2, INNER_3, INNER_4, INNER_5, INNER_6, INNER_7]

  /** The bits that some field of a message id occupies: each mask shifted to its field. */
  const FIELD_BITS: bv32 :=
    (GROUP_MASK << GROUP_BIT) | (RET_MASK << RET_BIT) | (DIR_MASK << DIR_BIT)
    | (PARSE_MASK << PARSE_BIT) | (CMD_MASK << CMD_BIT)

  /** Extractors: shift the field down and mask it. */

  // GET_RPC_MSG_GROUP
  function GroupOf(id: bv32): (group: bv32)
    ensures group <= GROUP_MASK
  {
    ((id & MSG_ID_MASK) >> GROUP_BIT) & GROUP_MASK
  }

  // IS_RPC_MSG_NEED_RETURN
  function NeedReturnOf(id: bv32): (ret: bv32)
    ensures ret == NO_RETURN || ret == NEED_RETURN
  {
    ((id & MSG_ID_MASK) >> RET_BIT) & RET_MASK
  }

  // GET_RPC_MSG_DIR
  function DirOf(id: bv32): (dir: bv32)
    ensures dir == DIR_UP || dir == DIR_DOWN
  {
    ((id & MSG_ID_MASK) >> DIR_BIT) & DIR_MASK
  }

  // GET_RPC_MSG_PARSE
  function ParseOf(id: bv32): (parse: bv32)
    ensures parse <= PARSE_MASK
  {
    ((id & MSG_ID_MASK) >> PARSE_BIT) & PARSE_MASK
  }

  /**
   * The command field. The header defines no GET_RPC_MSG_CMD; this is the
   * extractor the other macros imply, id & RPC_CMD_MASK (RPC_CMD_BIT is 0).
   */
  function CmdOf(id: bv32): (cmd: bv32)
    ensures cmd <= CMD_MASK
  {
    ((id & MSG_ID_MASK) >> CMD_BIT) & CMD_MASK
  }

  /**
   * BUILD_RPC_MSG_ID. Out-of-range arguments are masked, never rejected:
   * each extractor gives back its own argument cut to the field's width,
   * and no bit outside the five fields is ever set.
   */
  function Build(group: bv32, ret: bv32, dir: bv32, parse: bv32, cmd: bv32): (id: bv32)
    ensures GroupOf(id) == group & GROUP_MASK
    ensures NeedReturnOf(id) == ret & RET_MASK
    ensures DirOf(id) == dir & DIR_MASK
    ensures ParseOf(id) == parse & PARSE_MASK
    ensures CmdOf(id) == cmd & CMD_MASK
    ensures id & !FIELD_BITS == 0
  {
    ((group & GROUP_MASK) << GROUP_BIT)
    | ((ret & RET_MASK) << RET_BIT)
    | ((dir & DIR_MASK) << DIR_BIT)
    | ((parse & PARSE_MASK) << PARSE_BIT)
    | ((cmd & CMD_MASK) << CMD_BIT)
  }

  /** Every field in range comes back unchanged from the id built from it. */
  lemma BuildRoundTrip(group: bv32, ret: bv32, dir: bv32, parse: bv32, cmd: bv32)
    requires group < 8 && ret < 2 && dir < 2 && parse < 4 && cmd < 256
    ensures GroupOf(Build(group, ret, dir, parse, cmd)) == group
    ensures NeedReturnOf(Build(group, ret, dir, parse, cmd)) == ret
    ensures DirOf(Build(group, ret, dir, parse, cmd)) == dir
    ensures ParseOf(Build(group, ret, dir, parse, cmd)) == parse
    ensures CmdOf(Build(group, ret, dir, parse, cmd)) == cmd
  {
  }

  /** Wrap, don't fail: building from any arguments is building from their masked values. */
  lemma BuildMasksArguments(group: bv32, ret: bv32, dir: bv32, parse: bv32, cmd: bv32)
    ensures Build(group, ret, dir, parse, cmd)
         == Build(group & 0x07, ret & 0x01, dir & 0x01, parse & 0x03, cmd & 0xFF)
  {
  }

  /**
   * On a value that is already 32 bits wide the RPC_MSG_ID_MASK step is the
   * identity, so each extractor is just a shift and a field mask.
   */
  lemma MsgIdMaskIsIdentity(id: bv32)
    ensures id & MSG_ID_MASK == id
    ensures GroupOf(id) == (id >> GROUP_BIT) & GROUP_MASK
    ensures NeedReturnOf(id) == (id >> RET_BIT) & RET_MASK
    ensures DirOf(id) == (id >> DIR_BIT) & DIR_MASK
    ensures ParseOf(id) == (id >> PARSE_BIT) & PARSE_MASK
  {
  }

  /**
   * An extractor macro applied to a 64-bit argument x computes
   * ((x & RPC_MSG_ID_MASK) >> BIT) & MASK in 64 bits. That is the model's
   * extractor applied to the low 32 bits of x, and the mask changes nothing:
   * the field is read from bits below 32 either way.
   */
  lemma ExtractorsOfWideArgument(x: bv64)
    ensures ((x & 0xFFFF_FFFF) >> 25) & 0x07 == (x >> 25) & 0x07
    ensures ((x & 0xFFFF_FFFF) >> 19) & 0x01 == (x >> 19) & 0x01
    ensures ((x & 0xFFFF_FFFF) >> 18) & 0x01 == (x >> 18) & 0x01
    ensures ((x & 0xFFFF_FFFF) >> 16) & 0x03 == (x >> 16) & 0x03
    ensures GroupOf((x & 0xFFFF_FFFF) as bv32) as bv64 == ((x & 0xFFFF_FFFF) >> 25) & 0x07
    ensures NeedReturnOf((x & 0xFFFF_FFFF) as bv32) as bv64 == ((x & 0xFFFF_FFFF) >> 19) & 0x01
    ensures DirOf((x & 0xFFFF_FFFF) as bv32) as bv64 == ((x & 0xFFFF_FFFF) >> 18) & 0x01
    ensures ParseOf((x & 0xFFFF_FFFF) as bv32) as bv64 == ((x & 0xFFFF_FFFF) >> 16) & 0x03
  {
  }

  /**
   * The shifted masks are pairwise disjoint: group in bits 25-27, ret in
   * bit 19, dir in bit 18, parse in bits 16-17 and cmd in bits 0-7.
   */
  lemma FieldMasksDisjoint()
    ensures GROUP_MASK << GROUP_BIT == 0x0E00_0000
    ensures RET_MASK << RET_BIT == 0x0008_0000
    ensures DIR_MASK << DIR_BIT == 0x0004_0000
    ensures PARSE_MASK << PARSE_BIT == 0x0003_0000
    ensures CMD_MASK << CMD_BIT == 0x0000_00FF
    ensures (GROUP_MASK << GROUP_BIT) & (RET_MASK << RET_BIT) == 0
    ensures (GROUP_MASK << GROUP_BIT) & (DIR_MASK << DIR_BIT) == 0
    ensures (GROUP_MASK << GROUP_BIT) & (PARSE_MASK << PARSE_BIT) == 0
    ensures (GROUP_MASK << GROUP_BIT) & (CMD_MASK << CMD_BIT) == 0
    ensures (RET_MASK << RET_BIT) & (DIR_MASK << DIR_BIT) == 0
    ensures (RET_MASK << RET_BIT) & (PARSE_MASK << PARSE_BIT) == 0
    ensures (RET_MASK << RET_BIT) & (CMD_MASK << CMD_BIT) == 0
    ensures (DIR_MASK << DIR_BIT) & (PARSE_MASK << PARSE_BIT) == 0
    ensures (DIR_MASK << DIR_BIT) & (CMD_MASK << CMD_BIT) == 0
    ensures (PARSE_MASK << PARSE_BIT) & (CMD_MASK << CMD_BIT) == 0
    ensures FIELD_BITS == 0x0E0F_00FF
  {
  }

  /**
   * Field independence: what an extractor reads from a built id depends on
   * its own argument only, so changing any other argument leaves it alone.
   */
  lemma FieldsIndependent(group: bv32, ret: bv32, dir: bv32, parse: bv32, cmd: bv32,
                          group': bv32, ret': bv32, dir': bv32, parse': bv32, cmd': bv32)
    ensures GroupOf(Build(group, ret, dir, parse, cmd)) == GroupOf(Build(group, ret', dir', parse', cmd'))
    ensures NeedReturnOf(Build(group, ret, dir, parse, cmd)) == NeedReturnOf(Build(group', ret, dir', parse', cmd'))
    ensures DirOf(Build(group, ret, dir, parse, cmd)) == DirOf(Build(group', ret', dir, parse', cmd'))
    ensures ParseOf(Build(group, ret, dir, parse, cmd)) == ParseOf(Build(group', ret', dir', parse, cmd'))
    ensures CmdOf(Build(group, ret, dir, parse, cmd)) == CmdOf(Build(group', ret', dir', parse', cmd))
  {
  }

  /**
   * Bits 8-15, 20-24 and 28-31 of every built id are zero: the unused bits
   * of the layout, and also the upper group bits and the upper command bits
   * that the layout comment assigns.
   */
  lemma UnusedBitsZero(group: bv32, ret: bv32, dir: bv32, parse: bv32, cmd: bv32)
    ensures (Build(group, ret, dir, parse, cmd) >> 8) & 0xFF == 0
    ensures (Build(group, ret, dir, parse, cmd) >> 20) & 0x1F == 0
    ensures Build(group, ret, dir, parse, cmd) >> 28 == 0
  {
  }

  /**
   * Rebuilding an id from its extracted fields keeps exactly its field bits
   * and clears the rest.
   */
  lemma Rebuild(id: bv32)
    ensures Build(GroupOf(id), NeedReturnOf(id), DirOf(id), ParseOf(id), CmdOf(id)) == id & FIELD_BITS
  {
  }

  /** The ids BUILD_RPC_MSG_ID can produce are exactly those with no bit outside the fields. */
  lemma BuiltIdsExactly(id: bv32)
    ensures (exists group, ret, dir, parse, cmd :: Build(group, ret, dir, parse, cmd) == id)
        <==> id & !FIELD_BITS == 0
  {
    if exists group, ret, dir, parse, cmd :: Build(group, ret, dir, parse, cmd) == id {
      var group, ret, dir, parse, cmd :| Build(group, ret, dir, parse, cmd) == id;
      assert id & !FIELD_BITS == 0;
    }
    if id & !FIELD_BITS == 0 {
      Rebuild(id);
      assert Build(GroupOf(id), NeedReturnOf(id), DirOf(id), ParseOf(id), CmdOf(id)) == id;
    }
  }

  /**
   * The layout comment's 7-bit group is not realised: a group of 8 or more
   * does not survive a build/extract round trip, groups that differ by 8
   * build the same id, and so at most 8 groups can be told apart.
   */
  lemma GroupWiderThanMaskWraps(group: bv32, ret: bv32, dir: bv32, parse: bv32, cmd: bv32)
    ensures GroupOf(Build(group, ret, dir, parse, cmd)) == group <==> group < 8
    ensures Build(group + 8, ret, dir, parse, cmd) == Build(group, ret, dir, parse, cmd)
    ensures GroupOf(Build(8, ret, dir, parse, cmd)) == 0
    ensures GroupOf(Build(127, ret, dir, parse, cmd)) == 7
    ensures Build(8, ret, dir, parse, cmd) == Build(0, ret, dir, parse, cmd)
  {
    assert (group + 8) & GROUP_MASK == group & GROUP_MASK;
    BuildMasksArguments(group + 8, ret, dir, parse, cmd);
    BuildMasksArguments(group, ret, dir, parse, cmd);
  }

  /**
   * The layout comment's 16-bit command is not realised: a command of 256
   * or more comes back cut to its low 8 bits, so command 0x108 is command 8.
   */
  lemma CmdWiderThanMaskWraps(group: bv32, ret: bv32, dir: bv32, parse: bv32, cmd: bv32)
    ensures CmdOf(Build(group, ret, dir, parse, cmd)) == cmd <==> cmd < 256
    ensures CmdOf(Build(group, ret, dir, parse, 256)) == 0
    ensures Build(group, ret, dir, parse, 0x108) == Build(group, ret, dir, parse, 8)
    ensures Build(group, ret, dir, parse, 0xFFFF) & 0xFFFF == 0xFF
  {
  }

  /** Every enumerator of rpc_direction, rpc_parser and rpc_return survives a build/extract round trip. */
  lemma EnumsFitTheirFields(group: bv32, ret: bv32, dir: bv32, parse: bv32, cmd: bv32)
    ensures DirOf(Build(group, ret, DIR_UP, parse, cmd)) == DIR_UP
    ensures DirOf(Build(group, ret, DIR_DOWN, parse, cmd)) == DIR_DOWN
    ensures ParseOf(Build(group, ret, dir, PARSE_JSON, cmd)) == PARSE_JSON
    ensures ParseOf(Build(group, ret, dir, PARSE_PROTOBUF, cmd)) == PARSE_PROTOBUF
    ensures NeedReturnOf(Build(group, NO_RETURN, dir, parse, cmd)) == NO_RETURN
    ensures NeedReturnOf(Build(group, NEED_RETURN, dir, parse, cmd)) == NEED_RETURN
  {
  }

  /**
   * An inner command is one below _RPC_USER_BASE: exactly the enumerators
   * _RPC_INNER_0 .. _RPC_INNER_7. The rest, up to 255, are user commands.
   */
  predicate IsInnerCmd(cmd: bv32): (inner: bool)
    ensures inner <==> cmd in INNER_CMDS
  {
    cmd < USER_BASE
  }

  /**
   * Every inner command survives a build/extract round trip and is still
   * inner when read back; a command read back is inner exactly when the
   * argument's low byte is below _RPC_USER_BASE.
   */
  lemma InnerCmdsRoundTrip(group: bv32, ret: bv32, dir: bv32, parse: bv32, cmd: bv32)
    ensures cmd in INNER_CMDS ==> CmdOf(Build(group, ret, dir, parse, cmd)) == cmd
    ensures IsInnerCmd(CmdOf(Build(group, ret, dir, parse, cmd))) <==> cmd & 0xFF < USER_BASE
  {
  }
}
