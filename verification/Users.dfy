/** Connected users (src/User.h, src/murmur/ServerUser.h), as far as permissions depend on them. */
module Users {
  import opened Bytes
  import opened Channels

  class ServerUser {
    var iId: int
    var uiSession: u32
    var bVerified: bool
    var qsHash: string
    var qslAccessTokens: seq<string>
    var cChannel: Channel?

    constructor (id: int, session: u32, channel: Channel?)
      ensures iId == id && uiSession == session && cChannel == channel
    {
      iId, uiSession, cChannel := id, session, channel;
      bVerified, qsHash, qslAccessTokens := false, "", [];
    }
  }

  /** A user as it was at one moment. */
  datatype UserView = UserView(
    iId: int,
    uiSession: u32,
    bVerified: bool,
    qsHash: string,
    qslAccessTokens: seq<string>,
    cChannel: Channel?)

  function ViewOf(u: ServerUser): UserView
    reads u
  {
    UserView(u.iId, u.uiSession, u.bVerified, u.qsHash, u.qslAccessTokens, u.cChannel)
  }
}
