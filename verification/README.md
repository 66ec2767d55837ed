# Mumble: a verified model of its permission, protocol and overlay cores

This project models ten pieces of Mumble and proves what they are for.  It is written in Dafny 4.11;
`dafny verify dfyconfig.toml` checks all of it.

Where the source changes objects step by step, the model does too: channels, the stream, the encoders, the
connection, the hook and the resynchronizer are classes whose methods are proved against functions on
values, and the properties of whole runs are lemmas about those functions.

| part | source | modules |
|---|---|---|
| permissions over the channel tree, with the memo cache | `src/ACL.cpp` | `ServerTypes`, `Users`, `Paths`, `Acl`, `Decisions`, `PermissionCache` |
| group membership and group specifications | `src/Group.cpp` | `Groups`, `Specifications` |
| channel links, tree walks | `src/Channel.cpp` | `Channels` |
| the packet stream | `src/PacketDataStream.h` | `Bytes`, `Buffers`, `Sequences`, `Varint`, `StreamValues`, `StreamBounds`, `PacketStream` |
| the legacy UDP voice protocol | `src/MumbleProtocol.cpp` | `LegacyPackets`, `PacketLayouts`, `VoiceCodec` |
| TCP framing | `src/Connection.cpp` | `Framing` |
| merging dirty rectangles | `overlay/lib.cpp` | `DirtyRects` |
| code trampolines and hooks | `overlay/HardHook_x86.cpp` | `Trampolines`, `CodePages`, `HardHooks` |
| echo resynchronizer and frame assembly | `testecho_mono/` | `Resync`, `EchoFrames` |
| the DER writer | `scripts/generate-ffdhe.py` | `Der` |

## Conventions

- Integers are unbounded; where the source's width matters, the wrap-around is written out (`u32`, `u64`,
  `ToU32`, `ToInt32`, `SentFrame`, `AddU32`).  Shifts and masks are division and remainder.
- A set of permission bits is a set of flags: `|`, `&` and `& ~` are union, intersection and difference.
- `next() << 8 | next()` leaves the order of its operands open in C++; the model reads left to right.
- The channel tree is a finite set `S` of channel objects with a ghost level for each (`TreeOk`): parents
  are one level up, and parents and children name each other.  A link graph is well formed when
  `LinksOk(S)` holds: links are symmetric and the permanent links are the keys of the link counts.
- Library routines that the source calls are parameters: text to number and case folding in `Groups`, the
  Speex canceller and preprocessor in `EchoFrames`, the newer ping format in `UDPDecoder`, and the answers
  of the operating system in `CodePages` and `HardHooks`.
- The four bytes of a packet float stay four bytes.  Audio samples between frames are reals, for which the
  scaling by 32768 is exact, as it is for floats.

## Where the code does not do what one might expect

Each of these is a theorem or a proved contract, with the exact condition where there is one.

- A TCP header with length -1 (`FF FF FF FF`) is taken for "no header read yet", so the reader stops
  although data is there and goes on only when more arrives.  Two ways of cutting a stream can end differently
  exactly for the streams in which such a header is followed by six bytes or more: then one delivery of
  everything and deliveries of one byte each do (`CuttingMattersIffStalls`, `StallExample`).  What
  `messageToNetwork` writes is never such a stream.
- The two-byte type of a TCP header is cast to a one-byte enumeration, so its high byte is ignored
  (`TypeHighByteIgnored`).
- A server-to-client Opus packet of exactly 24 bytes is taken for a ping (`OpusRoundTrip`,
  `TwentyFourBytesExample`).
- A frame number survives the legacy encoding exactly when it is below 2^31 or at least 2^64 - 2^31
  (`FrameSurvives`).
- Positional data added after a static part that did not fit is written at the start of the buffer, and an
  update then returns those twelve bytes with the target stamped on them (`EncodeAudioPacket`).
- Packets of the codecs before Opus lose, when decoded, one payload byte per frame (`OldCodecLosesBytes`,
  `OldCodecArrives`).  With target 1 a CELT Alpha packet is taken for a ping in the newer format, and some
  packets of 12 or 24 bytes for extended pings (`OldCodecDispatch`).
- A plain legacy ping is refused by `decodePing` (`PlainPingRoundTrip`, and `RestrictedDecode` for all bytes); an answer to an extended ping is
  lost exactly when the high byte of the major version is 1, and the decoder never says that it contains
  additional information (`PingAnswerRoundTrip`, `LostAnswerExample`).
- A blit whose extent is zero, or whose far edge passes 2^31 - 1, gives an empty rectangle, which the merging
  passes through (`BlitIsNonEmpty` says exactly which).
- Matching a group and being in `members()` disagree exactly for a user who is no member, is known
  temporarily to some contributing definition, and is removed neither by that one nor by a nearer one
  (`MembershipMatches`, `TemporaryExample`).
- A group specification of prefixes alone applies to nobody, even if one of them is `!` (`PrefixesAlone`).
- `derLength` uses the reserved initial octet FF for lengths that need 127 octets, against X.690, 8.1.3.5
  (`LengthReadsBack`); it refuses 0, so an empty sequence cannot be written (`EmptySequenceFails`); and an
  integer text with a redundant leading zero octet is not in the minimal form (`IntegerReadsBack`).

## Model

| member | source | states |
|---|---|---|
| `Acl.HeldBeforeExpansion` | src/ACL.cpp:121-226 | before Write brings in others, a flag is held exactly when no channel on the path leaves the user without Traverse and Write, and the last applicable entry naming it, from the last non-inheriting channel on, allows and does not deny it, or it is a default that no entry names; root-only flags need an allowing, not denying entry of the root's own list |
| `Acl.FreshFlag` | src/ACL.cpp:103-242 | the whole result for every flag and every user but the superuser, in terms of the entries, including what Write implies |
| `Acl.ServerWideOnlyInRoot` | src/ACL.cpp:194-233 | kick, ban, register, self-register and reset-content are never held in a channel whose id is not 0 |
| `Acl.BlockedIsCutOff` | src/ACL.cpp:222-225 | the walk is cut off exactly when after some channel the last entries on Traverse and Write leave the user with neither |
| `Acl.FreshIsNotCached` | src/ACL.cpp:217 | a fresh result never carries the cache's mark |
| `Acl.TraverseFlag` | src/ACL.cpp:134-182 | the running traverse flag is the verdict of all entries so far that concern the user and apply to traversing |
| `Acl.WriteFlag` | src/ACL.cpp:135-192 | the same for the running write flag |
| `Acl.GrantedFlag` | src/ACL.cpp:140-219 | the same for an ordinary flag, from the last non-inheriting channel on |
| `Acl.RootFlag` | src/ACL.cpp:194-219 | a root-only flag is granted by the target's own list only, and only in the root |
| `Acl.VerdictIsLastEntry` | src/ACL.cpp:174-219 | applying allow and then deny entry by entry leaves the verdict of the last entry that names the flag |
| `Decisions.FreshByPlaces` | src/ACL.cpp:103-242 | the whole result on the lists themselves: a flag is held by nobody stopped on the way, and otherwise by whoever the last entry that names it, is in effect and is about the user (by own id, or by group) allows it, by default, or by what Write brings along; all flags as literal bits |
| `Decisions.UserIdDecides` | src/ACL.cpp:145-219 | a last entry in effect with the own id of the user decides the flags it names, whatever its group |
| `Decisions.SoleEntryDecides` | src/ACL.cpp:145-170 | an entry with the own id is about the user always; one with -1 or another id exactly by its group, never for "none" or no group, always for "all" |
| `Decisions.DefaultsAlone` | src/ACL.cpp:129-142 | without entries exactly the six default flags are held |
| `Decisions.WriteByIdExample` | src/ACL.cpp:145-233 | user 7 with a single entry by id that allows Write in the root holds every flag |
| `Decisions.SuperUser` | src/ACL.cpp:104-107 | the user with id 0 holds everything but speaking and whispering |
| `Decisions.AllowedIsLastEntry` | src/ACL.cpp:144-220 | the last word over places of the lists is that of the last applicable entry |
| `PermissionCache.EffectivePermissions` | src/ACL.cpp:103-242 | the result is that of a fresh walk, plus the mark if it was stored; afterwards the cache holds it with the mark at the asked place, every entry is still the fresh result plus the mark, and for the superuser nothing is stored |
| `PermissionCache.HasPermission` | src/ACL.cpp:96-100 | for any flags without the mark the answer is the same with and without a cache |
| `PermissionCache.AskAll` | src/ACL.cpp:96-119 | every answer of every run of queries on one cache is the fresh answer, and the cache stays right |
| `PermissionCache.WalkFromRoot` | src/ACL.cpp:121-226 | the loop over the stack of channels computes the walk on values, cut-off included |
| `PermissionCache.ComputeFresh` | src/ACL.cpp:121-233 | walk and expansion of Write give the fresh result |
| `PermissionCache.VisitChannel` | src/ACL.cpp:138-226 | one channel of the walk |
| `PermissionCache.ApplyList` | src/ACL.cpp:144-221 | the entries of one channel, in order |
| `PermissionCache.ApplyEntry` | src/ACL.cpp:145-220 | one entry: whom it concerns, where it applies, what it changes |
| `PermissionCache.Matches` | src/ACL.cpp:145-170 | an entry is about the user, by id or by group, with the two root paths that the group decision needs; `Decisions.SoleEntryDecides` says what that comes to |
| `PermissionCache.Decide` | src/ACL.cpp:170-220 | what an entry that concerns the user does to the granted flags and the two running flags |
| `PermissionCache.Remember` | src/ACL.cpp:235-240 | a fresh result is stored with the mark, and the cache stays right |
| `PermissionCache.PutKeepsTable` | src/ACL.cpp:235-240 | storing a fresh result with the mark keeps the table right |
| `PermissionCache.PutSetsOne` | src/ACL.cpp:235-240 | storing sets one entry and leaves the others |
| `PermissionCache.QueryFields` | src/ACL.cpp:144-147 | an entry on the path is about the user exactly if it has the own id of the user object, or its group applies to the user in the present state of the tree |
| `PermissionCache.AclCache.Insert` | src/ACL.cpp:235-240 | one entry is there with its value, and all others are as they were |
| `Paths.Hierarchy` | src/Group.cpp:181-196 | prepending parents lists the root path of the channel |
| `Paths.StackToRoot` | src/ACL.cpp:121-127 | pushing parents stacks the root path, root on top |
| `Paths.IndexIsLevel` | src/Group.cpp:198-210 | the index of a channel in a hierarchy is its level if it is at or above, and -1 otherwise |
| `Groups.MatchIsFoundMembership` | src/Group.cpp:29-75 | without temporary members, matching a name is the same as finding a group by that name and being among its members |
| `Groups.PlainNameIsMembership` | src/Group.cpp:220-249 | for a plain group name the decision of appliesToUser is that membership |
| `Groups.TreeNameIsMembership` | src/Group.cpp:220-249 | the same on every channel tree: the lookup finds a channel at or above with the group, and the user is among the members of that group computed from its own path |
| `Groups.NamesAreFound` | src/Group.cpp:60-99 | a name is among groupNames exactly when getGroup finds it: upward search against top-down fold |
| `Groups.MatchesIsMembership` | src/Group.cpp:49-55 | without temporary members the fold of appliesToUser and that of members() agree |
| `Groups.MatchesExactly` | src/Group.cpp:240-247 | who matches, with temporary members: the members, and those known temporarily to a definition whose removals, and those of nearer ones, leave them |
| `Groups.MembershipMatches` | src/Group.cpp:49-57 | members always match, and matching and membership disagree exactly for somebody who is no member and wins temporarily |
| `Groups.TemporaryExample` | src/Group.cpp:240-247 | a user who matches without being a member, and how a removal ends that |
| `Groups.DefinitionsFromLookup` | src/Group.cpp:60-75 | the definitions found from a channel are those found from the channel getGroup stops at |
| `Groups.SubIsDistance` | src/Group.cpp:162-219 | "sub" matches exactly when the clamped required channel is at or above the user's channel, at a distance between min and max; the asserted index is never -1 in a call from the permission walk |
| `Groups.InvertNegates` | src/Group.cpp:112-141 | a leading "!" negates the decision exactly when the specification names something and has no "!" yet, and otherwise changes nothing |
| `Specifications.PrefixesAreNoted` | src/Group.cpp:112-141 | prefixes in any order and number are noted, and what follows them is the name |
| `Specifications.PrefixesAlone` | src/Group.cpp:139-141 | a specification of prefixes alone applies to nobody, inverted or not |
| `Specifications.TokensAndHashes` | src/Group.cpp:146-149 | after "#" exactly the users with that access token, after "$" exactly those with that certificate hash; "#" goes first |
| `Specifications.NamesAboutTheUser` | src/Group.cpp:150-157 | "all" is everybody, "none" nobody, "auth" exactly the users with an id of 0 or more, "strong" exactly the verified ones, each negated by "!" |
| `Specifications.NamesAboutTheChannel` | src/Group.cpp:158-161 | "in" is exactly who is in the evaluated channel, "out" who is not; after "~" the channel of the list |
| `Specifications.InAndOut` | src/Group.cpp:158-161 | the same without prefixes |
| `Specifications.InAndOutOfAcl` | src/Group.cpp:158-161 | the same after "~" alone |
| `Specifications.AllAndNone` | src/Group.cpp:139-157 | the names about the user and the empty specification, without prefixes |
| `Specifications.NoArguments` | src/Group.cpp:165-179 | "sub" alone stands for offset 0, minimum 1, maximum 1000 |
| `Specifications.OneArgument` | src/Group.cpp:169-179 | an offset alone; an empty one is the default |
| `Specifications.TwoArguments` | src/Group.cpp:169-179 | an offset and a minimum |
| `Specifications.ThreeArguments` | src/Group.cpp:169-179 | offset, minimum and maximum; further arguments are ignored |
| `Specifications.SubMeans` | src/Group.cpp:162-219 | a "sub" specification applies exactly to users at or below the ancestor of the evaluated channel that is the offset below the context (or the root), at a distance between minimum and maximum |
| `Specifications.PlainSub` | src/Group.cpp:162-219 | "sub" alone: exactly the users in channels properly below the evaluated one, by at most 1000 levels |
| `Specifications.GroupMeans` | src/Group.cpp:220-250 | the name of a group applies exactly to whom some contributing channel knows, by id, temporarily, or by negated session, and neither it nor a nearer contributor removes |
| `Specifications.MembersOnTree` | src/Group.cpp:29-58 | the members are exactly those whom some contributing channel adds and neither it nor a nearer one removes |
| `Specifications.LookupOnTree` | src/Group.cpp:60-75 | the definition found is the nearest one, if it is inheritable or the own one of the channel |
| `Specifications.MembersExactly` | src/Group.cpp:29-58 | membership on any root path, by places |
| `Specifications.MatchesByPlaces` | src/Group.cpp:220-248 | matching on any root path, by places |
| `Specifications.LookupIsNearest` | src/Group.cpp:60-75 | the lookup on any root path, by places |
| `Groups.Members` | src/Group.cpp:29-58 | the two loops compute the members of the definitions found |
| `Groups.StackDefinitions` | src/Group.cpp:222-238 | the walk up pushes exactly the contributing definitions, nearest first |
| `Groups.GetGroup` | src/Group.cpp:60-75 | finds the channel whose definition is in force, or none |
| `Groups.GroupNames` | src/Group.cpp:77-99 | computes the names folded from the root down |
| `Groups.AppliesToUser` | src/Group.cpp:104-250 | the decision for any specification, on the heap; the rows of `Specifications` say what it is for each kind |
| `Groups.MatchSpec` | src/Group.cpp:144-248 | the chain of special names, "sub" and group names, on the heap; the rows of `Specifications` say what each answers |
| `Groups.StripSpecification` | src/Group.cpp:112-141 | the prefix loop computes the specification's four marks and its name |
| `Groups.IsBelowRequired` | src/Group.cpp:162-219 | the "sub" branch, all indices in range |
| `Groups.DepthInRange` | src/Group.cpp:198-219 | the comparison of the two assembled hierarchies |
| `Groups.IsGroupMember` | src/Group.cpp:220-248 | the branch for an actual group name |
| `Bytes.CastsAgree` | src/Group.cpp:244 | the cast of a session to int keeps it modulo 2^32 |
| `Channels.Channel.Link` | src/Channel.cpp:184-191 | the two are linked with each other and reach each other, every other pair is linked exactly if it was before; links stay symmetric, permanent links the keys of the counts |
| `Channels.Channel.Unlink` | src/Channel.cpp:193-203 | the one link, or every link of the channel, is gone in both directions, and every other pair is linked exactly if it was before |
| `Channels.Channel.UnlinkOne` | src/Channel.cpp:194-198 | takes one link away in both directions and nothing else |
| `Channels.Channel.UnlinkEach` | src/Channel.cpp:200-202 | the loop over the keys takes every link of the channel away |
| `Channels.Channel.LinkNew` | src/Channel.cpp:187-190 | a new link is symmetric and changes no other |
| `Channels.Channel.AddLink` | src/Channel.cpp:187-190 | the four updates; a channel linked with itself counts twice |
| `Channels.LastOperationDecides` | src/Channel.cpp:184-203 | over any run on graphs the last operation about a pair decides whether it is linked |
| `Channels.RunLinkOps` | src/Channel.cpp:184-203 | after every run of link and unlink two channels are linked exactly when the last operation about the pair links it, or there is none and they were linked before; the graph stays symmetric |
| `Channels.Channel.AllLinks` | src/Channel.cpp:205-224 | terminates and returns exactly the channels reachable by links |
| `Channels.LinkComponents` | src/Channel.cpp:205-224 | reachability is symmetric, and channels that reach each other reach the same channels |
| `Channels.AloneWithoutLinks` | src/Channel.cpp:205-209 | a channel without links reaches itself only |
| `Channels.Channel.AllChildren` | src/Channel.cpp:226-242 | terminates and returns exactly the channels below |
| `Channels.Channel.ListChildren` | src/Channel.cpp:234-238 | one turn of the search: all children seen, those with children pushed |
| `Channels.Channel.GetLevel` | src/Channel.cpp:279-289 | the channel's distance from the root |
| `Channels.Channel.GetDepth` | src/Channel.cpp:291-300 | the greatest distance to a channel below, reached by one; 0 when there is none |
| `Channels.Channel.constructor` | src/Channel.cpp:24-41 | a new channel keeps the tree and the links well formed |
| `Channels.VisitedAllBelow` | src/Channel.cpp:232-239 | when the search ends, the children of the visited channels are exactly the channels below |
| `Channels.SearchStep` | src/Channel.cpp:233-238 | one turn keeps the invariant: nothing visited twice, everything reached on the stack or visited |
| `Channels.BelowThroughChild` | src/Channel.cpp:297 | a channel is below another exactly through one of the other's children |
| `Varint.RoundTrip` | src/PacketDataStream.h:142-237 | every 64-bit value decodes from its encoding, followed by anything, and exactly the bytes written are asked for |
| `Varint.PrefixFree` | src/PacketDataStream.h:142-200 | no encoding is the beginning of another value's |
| `Varint.IntegerRoundTrip` | src/PacketDataStream.h:284-295 | every integer of 1, 2, 4 or 8 bytes, signed or not, comes back through its extension to 64 bits |
| `Varint.AsksLittle` | src/PacketDataStream.h:202-237 | on arbitrary bytes the decoder stops after the run of negation marks and at most nine more bytes |
| `Varint.Encode` | src/PacketDataStream.h:142-200 | every encoding takes between one and nine bytes |
| `Varint.ShortForms` | src/PacketDataStream.h:160-177 | the one to four bytes of numbers below 2^28: the marks 0, 10, 110 and 1110 and the number, high byte first |
| `Varint.LongForms` | src/PacketDataStream.h:178-198 | the bytes of larger numbers, after 0xF0 or 0xF4 |
| `Varint.NegativeForms` | src/PacketDataStream.h:145-159 | the bytes of small negative numbers, 0xFC to 0xFF or 0xF8 and the complement |
| `Varint.OtherForms` | src/PacketDataStream.h:145-160 | every other number is written as an unsigned one |
| `Varint.ReadForms` | src/PacketDataStream.h:202-237 | how any bytes are read, by the value of the first |
| `Varint.NarrowIsCast` | src/PacketDataStream.h:289-295 | a number read for a smaller type keeps its value modulo the width and lands in the range |
| `StreamValues.SizesAddUp` | src/PacketDataStream.h:41-64 | after any writes size plus undersize is the total serialized length, modulo 2^32, and the stream is valid exactly when that fits; then the buffer starts with it and the rest is untouched |
| `StreamValues.WriteThenRead` | src/PacketDataStream.h:239-407 | what any sequence of writes that fits has written is read back equal, ending at the same offset and valid |
| `StreamValues.SequenceReadsBack` | src/PacketDataStream.h:239-407 | the same from any offset and with anything after |
| `StreamValues.ReadsBack` | src/PacketDataStream.h:239-407 | byte arrays, floats, integers, lists, sets and pairs, nested to any depth, read back equal; the length guards do not fire |
| `StreamValues.AtLeastOneByte` | src/PacketDataStream.h:351-399 | every element takes a byte, so a list's length is at most the bytes left |
| `StreamValues.WriteWrote` | src/PacketDataStream.h:41-64 | a write puts its bytes in front of the rest, or counts what did not fit and clears the flag |
| `StreamValues.BlockZeroFills` | src/PacketDataStream.h:57-63 | a block that does not fit leaves zeros up to the end and counts what is missing |
| `StreamBounds.ReadMovesOn` | src/PacketDataStream.h:73-407 | reading any value from any bytes takes a byte if there is one, and never raises the flag |
| `StreamBounds.ElementsMoveOn` | src/PacketDataStream.h:359-370 | however many elements are promised, no more are read than there are bytes, and if a list comes short the flag drops at the end |
| `StreamBounds.ListsAreBounded` | src/PacketDataStream.h:351-371 | a list read from any bytes has no more elements than there were bytes |
| `StreamBounds.SetsAreBounded` | src/PacketDataStream.h:380-399 | the same for a set |
| `StreamBounds.SetsHaveNoneTwice` | src/PacketDataStream.h:380-399 | a set read from any bytes has no element twice |
| `StreamBounds.InsertedIsThere` | src/PacketDataStream.h:380-399 | every element read is in the set |
| `StreamBounds.ArrayCutDown` | src/PacketDataStream.h:245-255 | a byte array that promises more than is left is what is left, with the flag dropped |
| `StreamBounds.PastTheEnd` | src/PacketDataStream.h:73-89 | past the end integers and floats are zeros |
| `StreamBounds.SmallContainers` | src/PacketDataStream.h:344-379 | the bytes of a list or set of small numbers: the count and then the elements in order |
| `StreamBounds.SmallPair` | src/PacketDataStream.h:401-403 | the first of a pair stands before the second |
| `StreamBounds.SmallArray` | src/PacketDataStream.h:239-243 | the length of an array stands before its bytes |
| `PacketStream.PacketDataStream.Append` | src/PacketDataStream.h:41-51 | one byte written, or counted as overshoot; the rest of the buffer untouched |
| `PacketStream.PacketDataStream.AppendBlock` | src/PacketDataStream.h:53-64 | a block is written whole, or the stream is filled with zeros and the excess counted |
| `PacketStream.PacketDataStream.Skip` | src/PacketDataStream.h:66-71 | moves on, or clears the flag and stays |
| `PacketStream.PacketDataStream.Next` | src/PacketDataStream.h:73-80 | the next byte, or 0 with the flag cleared; never past the end |
| `PacketStream.PacketDataStream.WriteU64` | src/PacketDataStream.h:142-200 | writes the encoding of the value, byte by byte |
| `PacketStream.PacketDataStream.ReadU64` | src/PacketDataStream.h:202-237 | reads as the decoder on values does, chains of negation marks included |
| `PacketStream.PacketDataStream.ReadFlagged` | src/PacketDataStream.h:209-230 | the four forms that start with four ones, the recursive one included |
| `PacketStream.PacketDataStream.ReadLength` | src/PacketDataStream.h:351-358 | the length read and cut to the bytes left |
| `PacketStream.PacketDataStream.WriteBytes` | src/PacketDataStream.h:239-243 | a byte array's length and contents |
| `PacketStream.PacketDataStream.ReadBytes` | src/PacketDataStream.h:245-255 | a byte array, cut to the bytes left |
| `PacketStream.PacketDataStream.WriteFloat` | src/PacketDataStream.h:320-328 | four bytes one by one |
| `PacketStream.PacketDataStream.ReadFloat` | src/PacketDataStream.h:330-342 | four bytes, or zeros with the flag cleared |
| `PacketStream.PacketDataStream.WriteValue` | src/PacketDataStream.h:344-404 | a value of any type, nested containers included, is written as its meaning says |
| `PacketStream.PacketDataStream.ReadValue` | src/PacketDataStream.h:351-407 | a value of any type is read as its meaning says, on any bytes |
| `PacketStream.PacketDataStream.ReadElements` | src/PacketDataStream.h:359-370 | the element loop with its guard for an empty rest; a set keeps each element once |
| `LegacyPackets.OpusRoundTrip` | src/MumbleProtocol.cpp:164-268 | an Opus packet that fits is decoded by the other role to what was sent, exactly unless it is a server's packet of 24 bytes, which comes out as a ping |
| `LegacyPackets.TwentyFourBytesExample` | src/MumbleProtocol.cpp:586-591 | a sendable Opus packet of 24 bytes that a client takes for a ping |
| `LegacyPackets.ArrivesUnchanged` | src/MumbleProtocol.cpp:756-848 | which fields come back equal, and exactly when all do |
| `LegacyPackets.FrameSurvives` | src/MumbleProtocol.cpp:196 | a frame number survives the cast to int exactly in the ranges given |
| `LegacyPackets.SentFrameBits` | src/MumbleProtocol.cpp:196 | every other frame number keeps its low 32 bits, sign-extended |
| `LegacyPackets.OpusIsNoPing` | src/MumbleProtocol.cpp:586-596 | of all Opus packets only a server's with 24 bytes is taken for a ping |
| `LegacyPackets.OldFramesIsChain` | src/MumbleProtocol.cpp:786-810 | the frame loop accepts exactly the complete chains of frames and counts one byte too few for each |
| `LegacyPackets.OldCodecLosesBytes` | src/MumbleProtocol.cpp:786-831 | an accepted packet of an older codec has lost one payload byte per frame |
| `LegacyPackets.OldCodecDispatch` | src/MumbleProtocol.cpp:569-611 | what the whole decoder makes of any encoded packet of an older codec: a ping in the newer format, an extended ping or audio, with the exact condition of each |
| `LegacyPackets.OldCodecArrives` | src/MumbleProtocol.cpp:756-848 | as audio, a payload that is a complete chain of frames arrives short of one byte per frame, with the end mark if a frame is empty, and every other field as for Opus |
| `LegacyPackets.PlainPingRoundTrip` | src/MumbleProtocol.cpp:512-526 | a plain ping brings its timestamp back in both directions, but not through decodePing |
| `LegacyPackets.PingRequestRoundTrip` | src/MumbleProtocol.cpp:475-511 | a client's request for information is recognised by the server, also through decodePing |
| `LegacyPackets.PingAnswerRoundTrip` | src/MumbleProtocol.cpp:498-511 | a server's answer is read back, with minor and patch version cut at 255, exactly when the high byte of the major version is not 1 |
| `LegacyPackets.LostAnswerExample` | src/MumbleProtocol.cpp:498-506 | an answer from major version 256, which the client takes for a ping in the newer format |
| `PacketLayouts.RestrictedDecode` | src/MumbleProtocol.cpp:563-635 | for every role and all bytes, decodePing never gives audio, gives what decode gives exactly for pings in the newer format and extended pings of that role, and refuses everything else |
| `PacketLayouts.HeaderKinds` | src/MumbleProtocol.cpp:586-615 | what the first three bits of every other packet say, with the refusals |
| `PacketLayouts.TooShort` | src/MumbleProtocol.cpp:564-567 | a packet of at most one byte is refused |
| `PacketLayouts.AnswerFields` | src/MumbleProtocol.cpp:676-691 | which bytes of an answer are which field |
| `PacketLayouts.AnswerLayout` | src/MumbleProtocol.cpp:498-506 | which bytes of an answer each field is written to |
| `PacketLayouts.TimestampLayout` | src/MumbleProtocol.cpp:478-511 | size of extended pings, their leading zeros, and the timestamp low byte first at places 4 to 11 |
| `PacketLayouts.PlainPingLayout` | src/MumbleProtocol.cpp:512-529 | a plain ping is 0x20 and the encoded timestamp |
| `PacketLayouts.AudioLayout` | src/MumbleProtocol.cpp:129-268 | the bytes of an encoded audio packet for every input: header, session, frame number, size, payload, position, at most 1024 in all, and what is left of a packet that does not fit |
| `PacketLayouts.NoTarget` | src/MumbleProtocol.cpp:231-237 | a target of 32 or more gives no packet |
| `PacketLayouts.SmallOpusLayout` | src/MumbleProtocol.cpp:164-228 | the bytes of an Opus packet with small numbers, one by one |
| `PacketLayouts.AnyOpusPacket` | src/MumbleProtocol.cpp:756-848 | what an Opus packet with any numbers in its fields is decoded to: the low 32 bits of the session, the low 13 bits of the size field, and the mark above them |
| `PacketLayouts.BehindThePayload` | src/MumbleProtocol.cpp:833-843 | behind the payload only nothing or twelve bytes are accepted |
| `PacketLayouts.OpusTail` | src/MumbleProtocol.cpp:833-843 | an Opus packet with bytes behind it is accepted exactly when there are none or twelve |
| `PacketLayouts.OpusCutShort` | src/MumbleProtocol.cpp:811-829 | an Opus packet whose size field promises more than follows is refused |
| `PacketLayouts.LastOldFrame` | src/MumbleProtocol.cpp:786-810 | a byte below 128 starts the last frame and is its length |
| `PacketLayouts.NextOldFrame` | src/MumbleProtocol.cpp:786-810 | a larger byte exceeds the length by 128, and another frame must follow |
| `VoiceCodec.UDPAudioEncoder.PrepareAudioPacket` | src/MumbleProtocol.cpp:164-228 | the buffer starts with the header and the static part, or both sizes are 0 when that does not fit |
| `VoiceCodec.UDPAudioEncoder.WriteStatic` | src/MumbleProtocol.cpp:189-217 | session, frame number and payload, as far as they fit |
| `VoiceCodec.UDPAudioEncoder.AddPositionalData` | src/MumbleProtocol.cpp:249-268 | appends the position if it fits; the static part is unchanged |
| `VoiceCodec.UDPAudioEncoder.DropPositionalData` | src/MumbleProtocol.cpp:159-162 | forgets the position and changes no byte |
| `VoiceCodec.UDPAudioEncoder.UpdateAudioPacket` | src/MumbleProtocol.cpp:231-246 | puts the target beside the codec bits, changes no other byte, and returns the packet with or without position |
| `VoiceCodec.UDPAudioEncoder.EncodeAudioPacket` | src/MumbleProtocol.cpp:129-133 | the whole packet, also when it does not fit |
| `VoiceCodec.RunOps` | src/MumbleProtocol.cpp:159-268 | after one preparation every interleaving of adding, dropping and updating keeps the static bytes and the codec bits, and returns the packets computed on values |
| `VoiceCodec.LastEffectiveDecides` | src/MumbleProtocol.cpp:249-268 | operations before the last effective add or drop leave no trace |
| `VoiceCodec.PositionForgets` | src/MumbleProtocol.cpp:249-268 | after any history the positional data is what the last effective operation alone would leave |
| `VoiceCodec.UpdateForgetsHistory` | src/MumbleProtocol.cpp:231-246 | after any history an update returns what a fresh preparation, the last effective operation, if there was one, and that update return |
| `VoiceCodec.UpdatesPrepared` | src/MumbleProtocol.cpp:239-245 | changing the low five bits of the header keeps a prepared buffer prepared, and gives the expected packet |
| `VoiceCodec.UDPPingEncoder.EncodePingPacket` | src/MumbleProtocol.cpp:470-529 | the three layouts of a legacy ping |
| `VoiceCodec.UDPPingEncoder.EncodeExtended` | src/MumbleProtocol.cpp:475-511 | the twelve- and the twenty-four-byte layout |
| `VoiceCodec.UDPDecoder.Decode` | src/MumbleProtocol.cpp:563-615 | the dispatch on header, size and role, with the message it leaves in the decoder; with the restriction only a ping is ever accepted (`PacketLayouts.RestrictedDecode`) |
| `VoiceCodec.UDPDecoder.DecodePingLegacy` | src/MumbleProtocol.cpp:652-722 | the shapes of a legacy ping for each role |
| `VoiceCodec.UDPDecoder.DecodeAudioLegacy` | src/MumbleProtocol.cpp:756-848 | the audio packet of each codec, with all its refusals |
| `VoiceCodec.UDPDecoder.ReadOldFrames` | src/MumbleProtocol.cpp:795-808 | the frame loop terminates and gives size, end mark and position of the chain on values |
| `VoiceCodec.UDPDecoder.ReadPosition` | src/MumbleProtocol.cpp:833-843 | exactly twelve bytes are a position, none is no position, anything else refuses the packet |
| `Framing.EveryScheduleAgrees` | src/Connection.cpp:113-143 | for every stream in which no header of length -1 is followed by another header, every way of cutting it leaves the messages and the pending header of the whole stream |
| `Framing.CuttingMattersIffStalls` | src/Connection.cpp:113-143 | two ways of cutting the stream end in different states for some pair of schedules exactly when the stream holds a header of length -1 that another header follows |
| `Framing.BytewiseReadsAll` | src/Connection.cpp:113-143 | delivered byte by byte, every stream is read whole, stalling headers included |
| `Framing.StallExample` | src/Connection.cpp:124-129 | twelve bytes for which one delivery gives no message and two give one |
| `Framing.NothingLost` | src/Connection.cpp:113-143 | for all streams, what has been emitted is a prefix of the whole stream's messages and the rest is still to come |
| `Framing.RoundTrip` | src/Connection.cpp:161-177 | what messageToNetwork writes parses to the messages sent, without the oversize ones, and never stalls |
| `Framing.SentIsReceived` | src/Connection.cpp:113-177 | however the bytes of a list of messages are cut, what is received is a prefix of the list, and all of it once all bytes are there |
| `Framing.LoopResumes` | src/Connection.cpp:114-142 | a run of the read loop stops where the parse of what is buffered stops, or at a header of length -1 |
| `Framing.TypeHighByteIgnored` | src/Connection.cpp:123 | the high byte of the type makes no difference, neither to the reader in whatever state it comes to a header nor to the stream wherever a header starts |
| `Framing.Connection.SocketRead` | src/Connection.cpp:113-143 | the loop over header and body, with its three returns |
| `Framing.Connection.Deliver` | src/Connection.cpp:113-115 | bytes arriving, followed by a read |
| `Framing.MessageToNetwork` | src/Connection.cpp:161-177 | header and body, or nothing for an oversize message |
| `Framing.WireFormat` | src/Connection.cpp:161-177 | the six bytes of the header and the payload, for at most 0x7fffff bytes; nothing for more |
| `Framing.HeaderBytes` | src/Connection.cpp:123-124 | the second byte is the type, the last four are the signed length |
| `Framing.LengthLimits` | src/Connection.cpp:128-141 | a length above 0x7fffff ends the connection once so many bytes are there, one below -1 gives an empty message, every other one its payload |
| `Framing.MessagesAreSmall` | src/Connection.cpp:131-141 | no message longer than 0x7fffff bytes is ever handed on |
| `DirtyRects.CollectBlits` | overlay/lib.cpp:280-298 | the list kept is pairwise disjoint, covers every blit by one member, and is the least such family; every point of every blit lies in some rectangle of the result, and no point in two |
| `DirtyRects.AddBlit` | overlay/lib.cpp:285-297 | the restarting loop terminates and keeps that for one more rectangle |
| `DirtyRects.OrderDoesNotMatter` | overlay/lib.cpp:280-298 | blits in any order give the same rectangles |
| `DirtyRects.MergeKeepsLeast` | overlay/lib.cpp:288-292 | merging two intersecting rectangles keeps the family least |
| `DirtyRects.MergeKeepsCover` | overlay/lib.cpp:288-292 | and keeps every blit covered |
| `DirtyRects.BlitIsNonEmpty` | overlay/lib.cpp:281-283 | which messages give a non-empty rectangle, with the 32-bit casts |
| `DirtyRects.PointsOfBlit` | overlay/lib.cpp:281-283 | which points are in the rectangle of a message, for all messages: from x and y on, w wide and h high, and none if a far edge leaves the signed range |
| `DirtyRects.Corners` | overlay/lib.cpp:281-283 | the corners of the rectangle, modulo 2^32 |
| `DirtyRects.IntersectingShareAPoint` | overlay/lib.cpp:288 | rectangles are merged only if they share a point; touching ones are not |
| `DirtyRects.UnionIsBoundingBox` | overlay/lib.cpp:289 | the merged rectangle is the smallest that holds the points of both |
| `Trampolines.ModRmBytesIsOperandLength` | overlay/HardHook_x86.cpp:42-67 | for all byte pairs, the count is the length of SIB byte and displacement of Intel SDM, Volume 2, section 2.1.5 |
| `Trampolines.ExtraBytes` | overlay/HardHook_x86.cpp:148-195 | the decoder accepts exactly the listed instructions and gives their lengths by the opcode map |
| `Trampolines.OperandTable` | overlay/HardHook_x86.cpp:42-67 | the operand lengths row by row |
| `Trampolines.KnownLengths` | overlay/HardHook_x86.cpp:148-195 | the lengths of usual prologue instructions |
| `Trampolines.UnknownOpcodes` | overlay/HardHook_x86.cpp:148-195 | exactly which instructions are not moved |
| `Trampolines.LengthIsInside` | overlay/HardHook_x86.cpp:143-195 | the length read ahead of an instruction depends on its own bytes only |
| `Trampolines.ScanFindsFirstBoundary` | overlay/HardHook_x86.cpp:142-204 | the copy ends at the first instruction boundary at or past byte 6, at most at byte 16, and fails exactly when there is none |
| `Trampolines.JumpLandsAfterTheCopy` | overlay/HardHook_x86.cpp:206-212 | the relative jump leads to the first byte not copied, for all addresses modulo 2^32 |
| `Trampolines.JumpBytes` | overlay/HardHook_x86.cpp:206-212 | the five bytes of the jump |
| `Trampolines.TrampolineRunsTheOriginal` | overlay/HardHook_x86.cpp:138-221 | the trampoline decodes to the same whole instructions as the original, at least the six bytes overwritten, and then jumps to the rest |
| `Trampolines.FollowJumps` | overlay/HardHook_x86.cpp:111-132 | the loop ends at the end of the chain of jumps, or where the code cannot be made readable |
| `Trampolines.ChainEndIsStable` | overlay/HardHook_x86.cpp:117-132 | where a chain of jumps ends does not depend on how many jumps one follows |
| `Trampolines.SelfJumpGoesOn` | overlay/HardHook_x86.cpp:117-132 | a chain that never ends, and with it the loop |
| `CodePages.CopyInstructions` | overlay/HardHook_x86.cpp:142-204 | the copying loop writes those instructions and nothing else |
| `CodePages.CopyInstruction` | overlay/HardHook_x86.cpp:143-202 | one instruction copied whole, or nothing |
| `CodePages.WriteTrampoline` | overlay/HardHook_x86.cpp:138-215 | the instructions and the jump, inside the page; on failure the instructions before the unknown one |
| `CodePages.CodePage.EnsurePage` | overlay/HardHook_x86.cpp:97-104 | a page with at most 4000 bytes used is kept; otherwise a new one of 4096 bytes is taken if the system gives it, and the old one stays as it is |
| `CodePages.CodePage.CloneCode` | overlay/HardHook_x86.cpp:94-221 | where the jumps lead, when a trampoline is made, what it holds and how far the page is used; success or failure, every trampoline handed out before is intact |
| `CodePages.CodePage.AddTrampoline` | overlay/HardHook_x86.cpp:134-220 | one more trampoline in the unused part of the page, all others intact |
| `HardHooks.OrigOrReplace` | overlay/HardHook_x86.cpp:302-379 | over every run of inject, restore and check the six bytes are the original or the replacement |
| `HardHooks.LastEffectiveDecides` | overlay/HardHook_x86.cpp:302-379 | and the last operation with an effect decides which |
| `HardHooks.IneffectiveRun` | overlay/HardHook_x86.cpp:305-308 | a run without such an operation changes nothing |
| `HardHooks.CheckSparesOthers` | overlay/HardHook_x86.cpp:368-379 | bytes put there by somebody else survive every check |
| `HardHooks.OriginalIsCalledUnhooked` | overlay/HardHook_x86.cpp:245-250 | without a trampoline, restore() and inject() around a call give the original bytes and then the replacement |
| `HardHooks.ReplacementLeadsToTheHook` | overlay/HardHook_x86.cpp:255-258 | the six bytes push the hook's address and return to it |
| `HardHooks.ReplacementBytes` | overlay/HardHook_x86.cpp:255-258 | the six bytes one by one |
| `HardHooks.RunAndRestore` | overlay/HardHook_x86.cpp:302-379 | after any run of calls on a hook over the original bytes, a forced restore gives all of the code back |
| `HardHooks.RunHook` | overlay/HardHook_x86.cpp:302-379 | any run of calls on a hook is the run on values, and changes no byte but those six |
| `HardHooks.HardHook.Setup` | overlay/HardHook_x86.cpp:233-273 | the whole new state for every answer of the system: where the hook goes, saved and replacement bytes, the way to the original, the code |
| `HardHooks.HardHook.Inject` | overlay/HardHook_x86.cpp:302-327 | puts in the replacement exactly if forced or without a trampoline, and writable; changes nothing else |
| `HardHooks.HardHook.Restore` | overlay/HardHook_x86.cpp:338-353 | puts back the original bytes exactly if forced or without a trampoline, and writable; changes nothing else |
| `HardHooks.HardHook.Check` | overlay/HardHook_x86.cpp:368-379 | puts the replacement back exactly where the original bytes are and the code is writable |
| `HardHooks.HardHook.Reset` | overlay/HardHook_x86.cpp:283-290 | forgets the hook and touches no code |
| `Resync.QueueConserved` | testecho_mono/MumbleEchoResynchronizer.cpp:14-112 | over every run the frames removed followed by the queue are the frames added, in order |
| `Resync.MachineIsHysteresis` | testecho_mono/MumbleEchoResynchronizer.cpp:14-112 | the eight states are a fill level with two hysteresis flags; the queue's length is the level, and a frame is dropped exactly when the flags say so |
| `Resync.NominalBandLosesNothing` | testecho_mono/MumbleEchoResynchronizer.cpp:14-101 | from the nominal state, events that keep the level within 1 to 4 drop no frame |
| `Resync.Resynchronizer.AddMic` | testecho_mono/MumbleEchoResynchronizer.cpp:14-55 | the step of the machine; a frame deleted is the oldest one |
| `Resync.Resynchronizer.AddSpeaker` | testecho_mono/MumbleEchoResynchronizer.cpp:57-101 | the step of the machine; the front is never taken from an empty queue |
| `Resync.Resynchronizer.Clear` | testecho_mono/MumbleEchoResynchronizer.cpp:103-112 | back to the initial state with an empty queue |
| `EchoFrames.CallsDoNotMatter` | testecho_mono/MumbleEchoProcessor.cpp:180-295 | on either side, microphone or speaker, however a sample stream is split into calls, its consecutive 480-sample blocks go on and the remainder is kept |
| `EchoFrames.OnlySampleOrderMatters` | testecho_mono/MumbleEchoProcessor.cpp:180-295 | with the calls of both sides mixed in any way, queue, output and remainders depend only on the order in which the samples come |
| `EchoFrames.RunCalls` | testecho_mono/MumbleEchoProcessor.cpp:180-295 | any run of calls on the object is the run on values |
| `EchoFrames.FeedMicIsRun` | testecho_mono/MumbleEchoProcessor.cpp:222-225 | the microphone blocks go to the resynchronizer one by one, in order |
| `EchoFrames.FeedSpeakerIsRun` | testecho_mono/MumbleEchoProcessor.cpp:280-292 | and so do the speaker blocks |
| `EchoFrames.SpeakerOutput` | testecho_mono/MumbleEchoProcessor.cpp:287-318 | a speaker block that is not dropped adds the oldest microphone block, cancelled against it and then preprocessed |
| `EchoFrames.BlocksAreTheStream` | testecho_mono/MumbleEchoProcessor.cpp:181-229 | the blocks and the remainder are the stream |
| `EchoFrames.BlocksSplit` | testecho_mono/MumbleEchoProcessor.cpp:181-229 | cutting the stream in two changes neither |
| `EchoFrames.SampleUnchanged` | testecho_mono/MumbleEchoProcessor.cpp:20-31 | a 16-bit sample is unchanged by the way to float and back |
| `EchoFrames.Saturates` | testecho_mono/MumbleEchoProcessor.cpp:217-220 | what lies outside the 16-bit range ends on the nearer bound |
| `EchoFrames.CutsOffTheFraction` | testecho_mono/MumbleEchoProcessor.cpp:217-220 | between the bounds the cast cuts towards zero |
| `EchoFrames.Mix` | testecho_mono/MumbleEchoProcessor.cpp:20-31 | mono samples mixed into a buffer come out of it unchanged, and the rest of the buffer stays |
| `EchoFrames.Processor.AddMic` | testecho_mono/MumbleEchoProcessor.cpp:180-230 | the resynchronizer gets the blocks of the pending samples and the new ones, in order |
| `EchoFrames.Processor.AddEcho` | testecho_mono/MumbleEchoProcessor.cpp:232-295 | each speaker block may release a chunk, which is processed at once, in order |
| `EchoFrames.Processor.ProcessAudioFrame` | testecho_mono/MumbleEchoProcessor.cpp:297-321 | the canceller gets the microphone and then the speaker frame, the preprocessor its result, and that ends up at the end of the output |
| `EchoFrames.Processor.GetProcessedAudio` | testecho_mono/MumbleEchoProcessor.cpp:323-335 | takes from the front; the buffer holds 480 samples for each chunk less those taken, and all samples come out in the order they went in |
| `Der.LengthReadsBack` | scripts/generate-ffdhe.py:364-396 | a reader of X.690, 8.1.3 and 10.1, gets the length back and knows where the contents start, exactly when no more than 126 octets follow the initial one |
| `Der.LengthIsShortest` | scripts/generate-ffdhe.py:364-396 | no other length octets for the same size are shorter |
| `Der.Encodable` | scripts/generate-ffdhe.py:364-399 | which sizes have an encoding: from 1 on, below 256 to the 127th |
| `Der.OctetsValue` | scripts/generate-ffdhe.py:364-389 | the hexadecimal detour gives the number's octets, without a leading zero |
| `Der.IntegerReadsBack` | scripts/generate-ffdhe.py:423-457 | a reader of X.690, 8.3, gets the non-negative number back exactly when its text had no redundant leading zero octet |
| `Der.IntegerIsWritten` | scripts/generate-ffdhe.py:423-457 | when an integer is written, with tag 0x02, and which error there is otherwise |
| `Der.ContentsSize` | scripts/generate-ffdhe.py:449-455 | how many octets the contents take |
| `Der.PairReadsBack` | scripts/generate-ffdhe.py:401-457 | the sequence of two integers reads back as the two numbers with nothing left over, exactly when both can be read |
| `Der.EmptySequenceFails` | scripts/generate-ffdhe.py:416-421 | a sequence without contents cannot be written |
| `Der.DerSequence` | scripts/generate-ffdhe.py:401-421 | the loop gives the concatenation of its entries after tag 0x30 and the length |

## Left out

- The protobuf branches of the UDP encoder and decoder: the wire format of the library is not part of this
  model.  The decoder's switch to the newer format on a ping with header byte 1 is modelled, with the parser of
  that ping as a parameter.
- Volume adjustments in audio data: the legacy format does not carry them.
- `addChannel` and `removeChannel` of an existing channel, and the destructor of a channel: the tree grows by
  the constructor only, and the queries are proved for every well-formed tree.
- The reading and writing of `double`, `bool` and `QString` in the packet stream, and its constructors for
  byte arrays: thin variants of the operators modelled.
- Trampolines.FollowJumps: needs a chain of jumps that ends, or reaches code that cannot be made readable,
  because the loop of the source runs on otherwise (`SelfJumpGoesOn`).  CodePages.CodePage.CloneCode and
  HardHooks.HardHook.Setup need the same.  A hook's code page, its own two buffers and the hooked code are
  different memory, and only code of the modelled process can be made readable.
- HardHooks.HardHook.Check: is for a hook that is set up, because the source compares through a null pointer
  otherwise.
- VoiceCodec.UDPDecoder.Decode: does not say what message type and data a refused packet leaves in the decoder,
  because they are meant to be read after an accepted one only.
- The instruction decoder covers what the source covers; that the instructions copied do not depend on their
  own address is a property of the processor and is not stated.
- Addresses of the 64-bit build, MinHook, `setupInterface` and the log output of the hook.
- The Speex canceller and preprocessor, which are functions of their state and the chunk; the resampler, float
  input, more than one channel, and `reset` of the echo processor.
- Sockets, threads, locks and signals: each slot or locked section is one step.  Disconnecting ends a
  connection; what happens to it afterwards is not modelled.
- The wire format of a message's body, which stays a byte sequence; a message too large to send leaves the
  cache as it was, which the model gives as no bytes.
- `Group` objects of a channel are values filed under their names; editing a group or an access control list
  while a query runs is not modelled, and neither is the clearing of the cache that follows such an edit.
- `isPassword`, texts of permissions, access-token configuration, `HostAddress` and `VolumeAdjustment`.
- Whitespace and line structure of the hexadecimal text in `generate-ffdhe.py`, its type check, and the PEM
  and C output.
- Acl.HeldBeforeExpansion: speaks of every flag but the cache's own mark, which no entry is meant to name.
- LegacyPackets.OpusRoundTrip: positions are compared as the bytes of their floats.
- CodePages.CodePage.CloneCode: does not say which bytes above the used part of the page a failed attempt
  leaves behind; CodePages.WriteTrampoline does.
