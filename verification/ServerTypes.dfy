/** The records attached to channels and users (src/ACL.h, src/Group.h, src/ServerUser.h).  The
    operations modelled here only read them, so they are values. */
module ServerTypes {

  /** One permission flag, by the value of its bit. */
  type Flag = nat

  /** ChanACL::Permissions: a mask is the set of the flags whose bits are set in it, so that |, & and
      & ~ are union, intersection and difference. */
  type Permissions = set<Flag>

  const NONE: Permissions := {}
  const WRITE: Flag := 0x1
  const TRAVERSE: Flag := 0x2
  const ENTER: Flag := 0x4
  const SPEAK: Flag := 0x8
  const MUTE_DEAFEN: Flag := 0x10
  const MOVE: Flag := 0x20
  const MAKE_CHANNEL: Flag := 0x40
  const LINK_CHANNEL: Flag := 0x80
  const WHISPER: Flag := 0x100
  const TEXT_MESSAGE: Flag := 0x200
  const MAKE_TEMP_CHANNEL: Flag := 0x400
  const LISTEN: Flag := 0x800
  const KICK: Flag := 0x1_0000
  const BAN: Flag := 0x2_0000
  const REGISTER: Flag := 0x4_0000
  const SELF_REGISTER: Flag := 0x8_0000
  const RESET_USER_CONTENT: Flag := 0x10_0000
  const CACHED: Flag := 0x800_0000
  const ALL: Permissions := {
    WRITE, TRAVERSE, ENTER, SPEAK, MUTE_DEAFEN, MOVE, MAKE_CHANNEL, LINK_CHANNEL, WHISPER, TEXT_MESSAGE,
    MAKE_TEMP_CHANNEL, LISTEN, KICK, BAN, REGISTER, SELF_REGISTER, RESET_USER_CONTENT}

  /** One entry of a channel's access control list. */
  datatype ChanACL = ChanACL(
    bApplyHere: bool,
    bApplySubs: bool,
    iUserId: int,
    qsGroup: string,
    pAllow: Permissions,
    pDeny: Permissions)

  /** A group as defined in one channel. */
  datatype Group = Group(
    qsName: string,
    bInherit: bool,
    bInheritable: bool,
    qsAdd: set<int>,
    qsRemove: set<int>,
    qsTemporary: set<int>)
}
