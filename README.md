# UDP presence core of the community server

The server's UDP side keeps track of who is in which community "room". A
game client first announces itself and the room it joins (C2S_INIT). It
then sends a heartbeat (C2S_UNK2) about once a second. The server answers
each datagram, refreshes the member's presence, and periodically sends back
the room's roster (S2C_LIST_PLAYERS). The roster may be split into several
fragments that share one message id.

This Dafny project models that core in six modules:

- **Frame** (`frame.dfy`) is the outbound frame codec of `udp/common.ts`.
  - `constructRes` writes a 24- or 26-byte header, then the data.
  - `encString` writes a length-prefixed, zero-terminated string.
- **Sessions** (`sessions.dfy`) is the peer session registry of
  `udp/common.ts`.
  - `linkUserToRInfo` maintains the two-way map between endpoints and
    account ids.
  - `nextMsgId` keeps one outgoing message id counter per endpoint, in
    1..65534.
  - `Registry` is a class holding the three module-level maps.
- **Rooms** (`rooms.dfy`) is the room directory of `udp/roomMan.ts`.
  - It holds the rooms, the account → room index `userMap`, and the ghost
    entries.
  - It models join, leave, ping, the periodic cull, create-or-get and the
    population queries.
  - The class `RoomManager` keeps the three dictionaries as fields. Its
    `CullRooms` method runs the source's nested loops with their
    invariants.
- **Rates** (`rates.dfy`) is the sliding-window rate limiter of
  `udp/rates.ts`. Its class is `RateLimiter`.
- **Roster** (`roster.dfy`) is `sendPlayerList`.
  - The members are sorted with the requester first, then by name.
  - The roster is capped at 48 entries, and each entry is serialised.
  - The roster is sent as one frame or as fragments.
  - The sort, the entry loop and the fragment loop are methods, each proved
    against a specification function.
- **Manager** (`manager.dfy`) is the datagram listener of `udp/manager.ts`.
  - It checks the magic, applies the rate limit and decodes the header.
  - It finds the type marker, parses the C2S_INIT payload, and dispatches
    to the announcement and the heartbeat.

`base.dfy` holds the shared byte and integer helpers:

- little-endian u16 and signed 64-bit fields;
- decimal and hexadecimal text;
- byte-wise lexicographic order.

**How state is modelled.** Every piece of state is also a value:

- `SessionState`, `Directory` and `Window`;
- the `ServerState` triple that holds all three.

Each operation is a function on these values. The classes' methods, which
update fields in place as the source does, are proved to compute exactly
that function of their old state.

**The properties** are stated as lemmas about those functions:

- round trips between the encoders and a reader;
- the effect of each directory operation;
- the invariants every operation keeps;
- the fragment layout of a long roster;
- the rate limiter's admission count;
- the listener's answer to each kind of datagram.

Times are milliseconds, passed in as `now`. Account ids are 64-bit signed
integers. Endpoints are the "address:port" strings the source uses as map
keys.

## Model

| member | source | states |
|---|---|---|
| Base.I64LERoundTrip | udp/manager.ts:28 | the 64-bit little-endian reader returns every signed 64-bit account id its writer encodes |
| Base.NatTextInjective | udp/common.ts:137-139 | distinct account ids have distinct decimal texts (id.toString()) |
| Base.IntTextInjective | udp/roomMan.ts:131 | the decimal text of a community id determines the id |
| Base.LexTransitive | udp/common.ts:120 | the byte-wise name order used for localeCompare is transitive |
| Base.LexTotal | udp/common.ts:120 | of two different names, one comes first in the name order |
| Frame.Header | udp/common.ts:30-38 | the fixed header is always 24 bytes |
| Frame.ConstructRes | udp/common.ts:30-49 | a frame is HEADER_LENGTH plus the data length, whatever the fragment kind |
| Frame.FlagsChildBit | udp/common.ts:38 | the low bit of byte 15 is set exactly for a continuation fragment |
| Frame.HeaderLayout | udp/common.ts:31-38 | magic, account id, unk1, message id and flags sit at offsets 0, 2, 10, 11 and 15; all other header bytes are zero |
| Frame.FrameLayout | udp/common.ts:30-49 | each field reads back at its offset; a head frame has separator 0x0D and its type at 24-25 and the data from 26; a continuation frame has the data from 24, followed by two zero bytes |
| Frame.CarriedDataOfFrame | udp/common.ts:40-46 | a receiver that takes the data from offset 26 (head) or 24 (continuation) gets back exactly the data constructRes was given |
| Frame.EncString | udp/common.ts:51-56 | an encoded string is 3 bytes longer than the string; its u16 length field is the string length plus one; the string follows; the last byte is zero |
| Sessions.Link | udp/common.ts:69-77 | after a link, the endpoint resolves to the account and the account maps back to the endpoint; message id counters are untouched |
| Sessions.LinkEffect | udp/common.ts:71-76 | the account's previous endpoint stops resolving; every other endpoint resolves as before; other accounts keep their reverse entries |
| Sessions.LinkPreservesMirrored | udp/common.ts:69-77 | every endpoint → account entry stays mirrored by account → endpoint |
| Sessions.MirroredIsInjective | udp/common.ts:70-73 | under the mirror invariant, no two endpoints resolve to the same account |
| Sessions.LinkLeavesStaleReverseEntry | udp/common.ts:69-77 | an account displaced from a reused endpoint keeps a stale reverse entry pointing at that endpoint |
| Sessions.Resolve | udp/common.ts:79-82 | the account an endpoint resolves to, None when it has no entry; LinkEffect and MirroredIsInjective state how links change it |
| Sessions.NextId | udp/common.ts:92-102 | the next id is 1 for a new endpoint, else the stored id plus one, wrapping to 1 when it would reach 0xFFFF |
| Sessions.Bump | udp/common.ts:99 | only the endpoint's own counter changes, and it becomes the id just handed out |
| Sessions.BumpTimesCycle | udp/common.ts:88-102 | the n-th id for a new endpoint is ((n - 1) mod 65534) + 1 |
| Sessions.Registry.constructor | udp/common.ts:66-67 | the registry starts empty and consistent |
| Sessions.Registry.LinkUserToRInfo | udp/common.ts:69-77 | the new maps are Link of the old ones, and the mirror invariant is kept |
| Sessions.Registry.NextMsgId | udp/common.ts:92-102 | returns NextId and stores Bump of the old state |
| Rooms.Without | udp/roomMan.ts:46 | removing a key from the key order removes exactly that key |
| Rooms.FindFrom | udp/roomMan.ts:122 | the scan stops at the first room of the community in key order, or at the end when there is none |
| Rooms.RoomKey | udp/roomMan.ts:131 | a created room key starts with "c_" and so is never the empty string |
| Rooms.KeyNamesUnique | udp/roomMan.ts:131 | a room key names only one community |
| Rooms.Join | udp/roomMan.ts:83-94 | joinRoom on the directory value; JoinEffect, JoinKeepsEarlierMembership and JoinPreservesConsistent state what it does |
| Rooms.Leave | udp/roomMan.ts:96-107 | leaveRoom on the directory value; LeaveEffect and LeavePreservesConsistent state what it does |
| Rooms.Touch | udp/roomMan.ts:75-80 | the last-ping refresh of one member; TouchTwice and TouchAfterJoin state what it does |
| Rooms.Ping | udp/roomMan.ts:63-81 | pingRoomMember on the directory value; PingRefreshes, PingRejoinsGhost, PingWithoutRoom and PingIdempotent state what it does |
| Rooms.CullAll | udp/roomMan.ts:25-49 | the outer loop of cullRooms over the room keys in enumeration order; CullAllRooms, CullAllUsers and CullAllGhosts state what it does |
| Rooms.Cull | udp/roomMan.ts:24-59 | cullRooms with one clock reading; CullRooms, CullIndex, CullGhosts and CullPreservesConsistent state what it does |
| Rooms.CreateOrGet | udp/roomMan.ts:121-139 | createOrGetRoom with createRoom; the CreateOrGet lemmas state what it does |
| Rooms.OnlineCount | udp/roomMan.ts:15-17 | getOnlineCount: the sum of the recorded pop of the community's rooms; OnlineCountIgnoresMembership and OnlineCountIgnoresCreate state when it moves |
| Rooms.RoomPopulation | udp/roomMan.ts:113-115 | getRoomPopulation: a room's recorded pop, 0 for an unknown room; CullRooms states its value after a cull |
| Rooms.UserRoomId | udp/roomMan.ts:109-111 | getUserRoomId: the room userMap names for the account; JoinEffect and LeaveEffect state how it changes |
| Rooms.GetRoom | udp/roomMan.ts:117-119 | getRoom: the room stored under a key; CullRoomByRoom states it after a cull |
| Rooms.JoinEffect | udp/roomMan.ts:83-94 | on an existing room: the member is (re)written with a fresh timestamp, the account is indexed to the room and its ghost entry is dropped, while other rooms, other accounts and the room's pop are unchanged; on a missing room nothing changes |
| Rooms.JoinKeepsEarlierMembership | udp/roomMan.ts:83-94 | joining a second room leaves the account a member of the first as well |
| Rooms.LeaveEffect | udp/roomMan.ts:96-107 | an indexed account leaves its room and the index, and nothing else changes; an account not indexed changes nothing |
| Rooms.PingRefreshes | udp/roomMan.ts:63-81 | for an indexed account, only the last ping of its member entry changes |
| Rooms.PingRejoinsGhost | udp/roomMan.ts:66-73 | an account with no room but a ghost entry whose room exists rejoins that room with a fresh timestamp and loses the ghost entry |
| Rooms.PingWithoutRoom | udp/roomMan.ts:66-69 | with no room and no usable ghost entry, a ping changes nothing |
| Rooms.TouchTwice | udp/roomMan.ts:75-80 | refreshing a member twice equals refreshing it once at the later time |
| Rooms.TouchAfterJoin | udp/roomMan.ts:71-79 | refreshing a just-joined member equals joining at the later time |
| Rooms.PingIdempotent | udp/roomMan.ts:63-81 | two pings equal one ping at the later time |
| Rooms.CullVisit | udp/roomMan.ts:30-41 | visiting a member removes it exactly when it is stale (≥ 5 s), and records a ghost exactly when it is also under 30 s old |
| Rooms.CullRoomEffect | udp/roomMan.ts:25-48 | one room's pass turns that room into CulledRoom and leaves every other room alone |
| Rooms.CullRoomMaps | udp/roomMan.ts:33-40 | one room's pass removes its stale members from userMap and adds their ghost entries |
| Rooms.CullAllRooms | udp/roomMan.ts:25-49 | the outer loop culls each visited room as CulledRoom says and leaves the others alone |
| Rooms.CullAllUsers | udp/roomMan.ts:40 | the outer loop drops from userMap exactly the accounts stale in a visited room |
| Rooms.CullAllGhosts | udp/roomMan.ts:33-36 | the outer loop adds the visited rooms' ghost entries; for an account stale in several rooms, the room visited last wins |
| Rooms.CullRooms | udp/roomMan.ts:24-59 | a room with no members is left exactly as it was; every other room keeps exactly its members heard from within 5 s, pop becomes their number, and the room is deleted when none is left; no room is created |
| Rooms.CullIndex | udp/roomMan.ts:39-40 | after the cull, userMap holds exactly the accounts not stale in any room, each with its old entry |
| Rooms.CullGhosts | udp/roomMan.ts:31-58 | afterwards an account has a ghost entry exactly when it was stale and under 30 s old in some room, or it kept an old entry under 30 s old; every ghost entry left is under 30 s old |
| Rooms.PurgedMerge | udp/roomMan.ts:51-58 | the ghost purge keeps the new entries and the unreplaced old entries under 30 s old |
| Rooms.CreateOrGetFinds | udp/roomMan.ts:121-128 | when the community has a room, the first one in key order is returned and nothing changes |
| Rooms.CreateOrGetCreates | udp/roomMan.ts:121-139 | otherwise an empty room with pop 0 is added under "c_<c>_<hex now>", at the end of the key order, and nothing else changes |
| Rooms.CreateOrGetNamesCommunityRoom | udp/roomMan.ts:121-128 | the returned key always names a room of the community |
| Rooms.CreateOrGetIdempotent | udp/roomMan.ts:121-128 | a second call returns the same room and changes nothing, whatever the clock reads |
| Rooms.OnlineCountIgnoresMembership | udp/roomMan.ts:15-17 | join, leave and ping never change getOnlineCount |
| Rooms.OnlineCountIgnoresCreate | udp/roomMan.ts:15-17 | creating a room does not change getOnlineCount |
| Rooms.GhostRejoin | udp/roomMan.ts:31-81 | a member silent 5 to 30 s, in a room another member keeps alive, is culled to a ghost entry; its next ping puts it back in the same room |
| Rooms.LoneGhostCannotRejoin | udp/roomMan.ts:43-75 | a lone member's room is deleted by the same cull, so its ghost entry never brings it back and its pings change nothing |
| Rooms.JoinPreservesConsistent | udp/roomMan.ts:83-94 | join keeps the directory consistent |
| Rooms.LeavePreservesConsistent | udp/roomMan.ts:96-107 | leave keeps the directory consistent |
| Rooms.PingPreservesConsistent | udp/roomMan.ts:63-81 | ping keeps the directory consistent |
| Rooms.CullPreservesConsistent | udp/roomMan.ts:24-59 | the cull keeps the directory consistent |
| Rooms.CreateOrGetPreservesConsistent | udp/roomMan.ts:121-139 | create-or-get keeps the directory consistent |
| Rooms.RoomManager.constructor | udp/roomMan.ts:19-22 | the dictionaries start empty |
| Rooms.RoomManager.JoinRoom | udp/roomMan.ts:83-94 | the new state is Join of the old |
| Rooms.RoomManager.LeaveRoom | udp/roomMan.ts:96-107 | the new state is Leave of the old |
| Rooms.RoomManager.PingRoomMember | udp/roomMan.ts:63-81 | the new state is Ping of the old |
| Rooms.RoomManager.CullRoomMembers | udp/roomMan.ts:30-48 | the inner member loop leaves the state CullRoom describes |
| Rooms.RoomManager.VisitMember | udp/roomMan.ts:31-47 | one member visit removes the member exactly when it is stale, then recounts |
| Rooms.RoomManager.PurgeGhosts | udp/roomMan.ts:51-58 | only ghost entries 30 s old or more are removed |
| Rooms.RoomManager.CullRooms | udp/roomMan.ts:24-59 | the nested loops compute Cull of the old state |
| Rooms.RoomManager.CreateOrGetRoom | udp/roomMan.ts:121-139 | returns and stores CreateOrGet of the old state |
| Rates.AdmitsIsEstimate | udp/rates.ts:53-56 | the integer admission test agrees exactly with the source's real-valued estimate prev·(1 − elapsed/60000) + curr ≤ 100 |
| Rates.Allow | udp/rates.ts:43-56 | allowPacket on the window value; AllowCounts, AllowWithoutCarry and AdmitsIsEstimate state what it does |
| Rates.AllowCounts | udp/rates.ts:43-51 | every packet adds one to the endpoint's current count, admitted or not; nothing else changes |
| Rates.AllowWithoutCarry | udp/rates.ts:43-56 | with nothing carried over, a packet is admitted exactly when it is at most the 100th of the window |
| Rates.BurstCounts | udp/rates.ts:43-56 | a burst of n packets raises the count by n, and each verdict is the estimate at its own count |
| Rates.FirstHundredAdmitted | udp/rates.ts:15-56 | from a fresh endpoint, exactly the first 100 packets of a window are admitted |
| Rates.Refresh | udp/rates.ts:27-39 | idle endpoints are forgotten; every other endpoint moves curr into prev and restarts curr at 0; the window restarts now |
| Rates.RefreshRestartsWindow | udp/rates.ts:28-53 | right after a refresh, the verdict is whether prev plus the new count is at most 100 |
| Rates.IdleEndpointForgotten | udp/rates.ts:30-37 | an endpoint silent through two refreshes is idle, and after three it is gone |
| Rates.AdmittedAfterIdle | udp/rates.ts:27-56 | the first packet after two idle refreshes is always admitted |
| Rates.RateLimiter.constructor | udp/rates.ts:18-25 | the tracker starts empty with the window starting now |
| Rates.RateLimiter.AllowPacket | udp/rates.ts:43-56 | the verdict and the new state are Allow of the old state |
| Rates.RateLimiter.RefreshWindow | udp/rates.ts:27-39 | the loop over the tracker computes Refresh of the old state |
| Roster.KeyBeforeTransitive | udp/common.ts:117-121 | the comparator's order on members is transitive |
| Roster.KeyBeforeTotal | udp/common.ts:117-121 | of two different members, one comes first |
| Roster.SortedUnique | udp/common.ts:117-121 | two sorted lists of the same members are equal, so the order does not depend on enumeration order |
| Roster.Insert | udp/common.ts:117-121 | inserting a member into a sorted list keeps it sorted and adds exactly that member |
| Roster.RankedOrder | udp/common.ts:117-121 | members named like the requester come before all others, and the rest are in name order |
| Roster.RosterListsMembers | udp/common.ts:117-123 | the sorted list holds every room member exactly once, and the entries cover the first min(n, 48) |
| Roster.RequesterFirst | udp/common.ts:117-119 | a requester listed under its own, unshared name heads the roster |
| Roster.IdText | udp/common.ts:137-139 | an id's decimal text is at most 20 characters |
| Roster.Entry | udp/common.ts:137-146 | an entry is 14 bytes plus the lengths of the id text and the name |
| Roster.ParseEntryOfEntry | udp/common.ts:137-146 | a reader gets back the index, the id text and the name from an entry |
| Roster.EntryIdFields | udp/common.ts:138-139 | the index and the id string are at offsets 0 and 2 |
| Roster.EntryNameFields | udp/common.ts:140-141 | the name string follows the id string and the 0x02 byte |
| Roster.EntryIdentifies | udp/common.ts:137-146 | equal entries come from members with the same id and name |
| Roster.Capped | udp/common.ts:123 | the cap is min(n, 48) |
| Roster.Entries | udp/common.ts:123-147 | there are min(n, 48) entries |
| Roster.ChunksCover | udp/common.ts:158-175 | the fragment slices put back together are the roster plus the end marker |
| Roster.ChunkCount | udp/common.ts:158-164 | the loop stops after the fragment whose slice reaches the end of the roster |
| Roster.ChunkAt | udp/common.ts:161-168 | chunk i is fragment i's slice, and only the last chunk carries the end marker |
| Roster.FragmentCount | udp/common.ts:158-175 | a roster of n bytes goes out in one fragment up to 1244 bytes, plus one per started 1246 bytes beyond |
| Roster.SingleFrame | udp/common.ts:151-153 | a roster under 1241 bytes goes out as one plain frame carrying five zero bytes, the roster and the end marker |
| Roster.Fragmented | udp/common.ts:154-176 | a longer roster goes out as multi-flagged fragments that share one message id; only the first is a head fragment; their data, after the five zero bytes, put back together is the roster plus the end marker |
| Roster.LoneMultiFragment | udp/common.ts:151-170 | a roster of 1241 to 1244 bytes goes out as a single frame flagged multi |
| Roster.RosterFrames | udp/common.ts:151-176 | the frames a combined roster goes out as; SingleFrame, Fragmented and LoneMultiFragment state their layout |
| Roster.PlayerList | udp/common.ts:104-177 | sendPlayerList on the state values: nothing for an account without a (truthy, existing) room, otherwise RosterFrames of the sorted roster under NextId; RosterListsMembers and RequesterFirst state the roster's content |
| Roster.EntryFixedFields | udp/common.ts:140-144 | the 0x02 byte follows the id text; an entry ends with the rank byte 0 and the shorts 1 and 0 |
| Roster.SortMembers | udp/common.ts:117-121 | the members come out in roster order |
| Roster.SerialiseRoster | udp/common.ts:123-149 | the entry loop produces the concatenated entries of the first 48 members |
| Roster.FrameRoster | udp/common.ts:151-176 | the frames are exactly the single frame or the fragment sequence the roster calls for |
| Roster.SendPlayerList | udp/common.ts:104-177 | nothing is sent for an account without a room; otherwise the roster frames are sent under one fresh message id |
| Manager.IndexOfFrom | udp/manager.ts:34 | the scan returns the first marker at or after the start, or −1 when there is none |
| Manager.DecodeFrom | udp/manager.ts:28-40 | the header decode with the marker scan starting at a given offset; None where a read would throw (fewer than 16 bytes, or the marker in the last byte) |
| Manager.DecodeAsWritten | udp/manager.ts:28-40 | the decode as written, scanning from offset 12; DecodeAsWrittenMisreadsHighIds and DecodesAgreeOnLowIds state what it does |
| Manager.Decode | udp/manager.ts:28-40 | the intended decode, scanning from offset 13; DecodeOfEncode states it reads every field back |
| Manager.DecodeOfEncode | udp/manager.ts:28-40 | the intended decode reads back account id, unk1, message id, multi flag, type and payload of every inbound datagram, whatever its message id |
| Manager.DecodeAsWrittenMisreadsHighIds | udp/manager.ts:31-35 | as written, a message id of 0xFF00 or more is taken for the marker: the wrong type is read and the real type lands in the payload |
| Manager.HeartbeatWithHighIdLost | udp/manager.ts:34-35 | a heartbeat with message id 0xFF00 is decoded as written with type 0 |
| Manager.DecodesAgreeOnLowIds | udp/manager.ts:34-35 | below 0xFF00 the as-written and intended decodes agree |
| Manager.ReadString | udp/manager.ts:50-52 | a string read moves the cursor past the length field, the string and its terminator, and stays within the payload |
| Manager.ReadStringOfEncString | udp/manager.ts:50-52 | a string written by encString is read back, and the cursor ends right after it |
| Manager.ParseInit | udp/manager.ts:48-58 | the C2S_INIT payload parse: two bytes skipped, then the user name and the room name; ParseInitOfEncoded and ParseInitRefusesOverrun state what it does |
| Manager.ParseInitOfEncoded | udp/manager.ts:48-58 | two leading bytes and two encoded strings parse as the user name and the room name |
| Manager.ParseInitRefusesOverrun | udp/manager.ts:50-51 | a length field pointing past the end makes the parse fail |
| Manager.AckRoomCarriesRoom | udp/manager.ts:66-69 | the S2C_ACK_ROOM frame is a head frame whose data is the room name as encString writes it |
| Manager.HeartbeatReplyLayout | udp/manager.ts:89 | the S2C_UNK2 frame is a head frame of that type carrying one zero byte |
| Manager.HandleInit | udp/manager.ts:46-86 | the C2S_INIT case on the state values; InitReply, InitLinks and InitJoins state what it does |
| Manager.HandleHeartbeat | udp/manager.ts:87-102 | the C2S_UNK2 case on the state values; HeartbeatReplies states what it does |
| Manager.InitReply | udp/manager.ts:64-69 | a C2S_INIT whose payload parses is acknowledged first with S2C_ACK_ROOM carrying the room name, under the endpoint's next message id; the rate window is untouched |
| Manager.InitLinks | udp/manager.ts:70-85 | a C2S_INIT links the endpoint to the account both ways exactly when the store holds the account under the announced name; otherwise only the message id counter moves and only the acknowledgement is sent |
| Manager.InitJoins | udp/manager.ts:70-85 | for a known account, the directory after C2S_INIT is the join when the room exists and the account is in its community, else unchanged, and the roster of the account's room follows the acknowledgement |
| Manager.HeartbeatReplies | udp/manager.ts:87-102 | a C2S_UNK2 is answered first with S2C_UNK2; a linked, known, matching account is pinged and gets the roster exactly on message ids divisible by 3; otherwise nothing else happens but the counter |
| Manager.InitPreservesInvariants | udp/manager.ts:46-86 | the C2S_INIT case keeps the directory consistent and the session maps mirrored |
| Manager.HeartbeatPreservesInvariants | udp/manager.ts:87-102 | the C2S_UNK2 case keeps the directory consistent and the session maps mirrored |
| Manager.HandleFrom | udp/manager.ts:19-110 | the listener with the marker scan starting at a given offset: magic check, rate limit, decode, then the C2S_INIT or C2S_UNK2 case; the lemmas below hold for every scan start |
| Manager.Handle | udp/manager.ts:19-110 | the listener as written, HandleFrom with the scan from offset 12 (udp/manager.ts:34) |
| Manager.HandleIntended | udp/manager.ts:19-110 | the listener with the intended decode, HandleFrom with the scan from offset 13 |
| Manager.NoMagicIgnored | udp/manager.ts:20-23 | for any scan start, a datagram without the magic changes nothing and gets no answer |
| Manager.RefusedOnlyCounted | udp/manager.ts:25-26 | for any scan start, a rate-limited datagram is counted and otherwise ignored |
| Manager.UndecodableDropped | udp/manager.ts:28-35 | for any scan start, a datagram too short for the header reads, or ending in the marker, is counted and dropped |
| Manager.OtherTypesIgnored | udp/manager.ts:45-109 | for any scan start, a datagram whose decoded type is neither C2S_INIT nor C2S_UNK2 is counted and ignored, so no S2C_UNK1 frame is ever sent |
| Manager.HighIdDatagramIgnored | udp/manager.ts:34-45 | as written, a datagram with message id 0xFF00 or more is counted and ignored, whatever its real type, unless the byte after the message id is itself C2S_INIT or C2S_UNK2 |
| Manager.HighIdHeartbeatUnanswered | udp/manager.ts:34-35 | the admitted heartbeat with message id 0xFF00 gets no answer from the listener as written, but gets S2C_UNK2 from the intended one |
| Manager.HandlesAgreeOnLowIds | udp/manager.ts:34-35 | below 0xFF00 the listener as written and the intended one behave the same on every encoded datagram |
| Manager.EveryDatagramCounted | udp/manager.ts:25 | for any scan start, every datagram with the magic is counted once, and the rate window changes in no other way |
| Manager.InitHandled | udp/manager.ts:46-86 | for any scan start, an admitted datagram decoded as C2S_INIT is first acknowledged with the room name under the next message id; it links the endpoint exactly when the account exists under the announced name, and otherwise only the counter moves |
| Manager.InitJoinsOnlyMembers | udp/manager.ts:72-80 | for any scan start, a known account joins the room exactly when the room exists and the account belongs to its community; otherwise the directory is untouched |
| Manager.HeartbeatHandled | udp/manager.ts:87-102 | for any scan start, an admitted datagram decoded as C2S_UNK2 is answered first; a linked, matching account is pinged and gets the roster exactly on message ids divisible by 3; otherwise the directory is untouched and nothing else is sent |
| Manager.HandlePreservesInvariants | udp/manager.ts:20-109 | for any scan start, the handler keeps the directory consistent and the session maps mirrored |
| Manager.HandleMessage | udp/manager.ts:19-110 | the listener, decoding from offset 12 as the source does: its effect on the registry, the rooms and the limiter, and its frames, are those of Handle |
| Manager.HandleInitMessage | udp/manager.ts:46-86 | the C2S_INIT case computes HandleInit |
| Manager.HandleHeartbeatMessage | udp/manager.ts:87-102 | the C2S_UNK2 case computes HandleHeartbeat |

## Left out

- I/O:
  - `sendBuffer` and the socket are not modelled. Frames are returned, in
    send order, instead of being sent.
  - `makeid` is not modelled: it uses randomness and nothing in the core
    calls it.
  - The `setInterval` timers of the cull (5 s) and of the window refresh
    (60 s) are not modelled. Both operations are exposed, to be called by
    whoever drives time.
- Clock and concurrency:
  - `Date.now()` is the parameter `now`, and each operation reads it once.
    The cull therefore uses one clock reading for the whole pass.
  - The `await` points of the listener are not interleaved with other
    datagrams: each datagram is handled atomically.
- Database: `getUserByID` and `getCommunityMembership` are lookups in an
  `AccountStore` value given as input. Their failures are not modelled.
- Numbers:
  - Floating point is not modelled. The rate limiter's estimate
    `prev * (1 - elapsed / 60000) + curr <= 100` is multiplied through by
    60000 and evaluated on integers. `Rates.AdmitsIsEstimate` proves this
    equal to the real-valued test.
  - Rounding of JavaScript doubles is not modelled.
- Strings:
  - Strings are byte sequences with one byte per character. UTF-8
    encoding, decoding and multi-byte names are not modelled.
  - `localeCompare` is taken as byte-wise lexicographic order.
- Buffers:
  - The `ReadBuffer` and `WriteBuffer` helpers (module `../buffer`) are
    not part of this model.
  - Their `readUInt16` and `writeUInt16` are taken to be little-endian,
    like the `Buffer` reads and writes next to them. `ParseInit` and `Entry`
    rest on that.
  - The model assumes a strict cursor: reading past the end fails the
    parse.
  - A C2S_INIT payload whose length field is 0 is treated as a failed
    parse.
  - `getBuffer()` is taken to return exactly the bytes written. The source
    allocates each entry one byte larger than it writes, and this model
    takes the written bytes only.
- Roster:
  - Roster ties: two members with the same name are ordered by ascending
    account id. That is the stable sort's enumeration order for object
    keys that are array indices (ids 0 to 2^32 - 2). Larger ids and
    negative ids are not array indices: they enumerate in insertion order,
    which is not modelled.
  - When several members share the requester's name, the source's
    comparator is not a consistent order. The model orders them by account
    id as well.
  - `Roster.RequesterFirst` states the requester heads the roster only
    when no other member shares its name, because the comparator does not
    decide between such members.
  - `Roster.SortMembers` is an insertion sort over the member keys taken
    in any order. It does not model the engine's sort algorithm or the
    order `Object.values` yields. `Roster.SortedUnique` shows the result
    does not depend on either.
  - Nothing bounds a fragment at 1270 bytes, and no such bound is claimed.
- Inbound datagrams:
  - `Manager.DecodeOfEncode` covers datagrams whose marker comes after at
    least three bytes following the message id, and whose bytes before it
    hold no 0xFF. No source file says what a client sends: this layout is
    an assumption.
  - Where the source throws inside the async listener, the model drops the
    datagram. The datagram has already been counted. The thrown error
    becomes an unhandled promise rejection, which is not modelled. This
    covers three cases:
    - a datagram shorter than 16 bytes, where the header reads throw;
    - a marker in the last byte, where the type read throws;
    - a C2S_INIT payload that does not parse, where a `ReadBuffer` read
      throws before anything is sent.

Where the design description and the code differ, the model follows the
code:

- `joinRoom` does not remove an account from its previous room. After a
  second join the account is in both rooms (`Rooms.JoinKeepsEarlierMembership`).
- A member alone in its room loses the room in the same cull that records
  its ghost entry. The grace period therefore never brings it back
  (`Rooms.LoneGhostCannotRejoin`).
- `pop` changes only in the cull. Join, leave and ping leave it, and the
  online count, as they were (`Rooms.OnlineCountIgnoresMembership`).
- A roster of 1241 to 1244 bytes goes out as one fragment flagged multi
  (`Roster.LoneMultiFragment`).
- The listener passes a membership type to `joinRoom`, which ignores it.
  `RoomMember` has no type, so every roster entry carries rank byte 0
  ("owner").
- The listener (`Manager.Handle`, `Manager.HandleMessage`) decodes as
  written, scanning for the marker from offset 12. A datagram with message
  id 0xFF00 or more is therefore misread (`Manager.HighIdDatagramIgnored`,
  and see "## Findings"). `Manager.HandleIntended` is the same listener
  with the intended decode.
- The second `case MsgType.C2S_UNK2` of the switch (`udp/manager.ts:103-109`)
  is unreachable. S2C_UNK1 is never sent (`Manager.OtherTypesIgnored`).

## Findings

| source | as written | input that shows it | evidently intended | confidence | as-written member | corrected member |
|---|---|---|---|---|---|---|
| udp/manager.ts:34 | the scan for the 0xFF type marker starts at offset 12, the high byte of the message id | a C2S_UNK2 heartbeat with message id 0xFF00 (bytes 11-12 are 00 FF): the type is read from offset 13 as 0, and the heartbeat is ignored | the marker is searched for after the message id, from offset 13, so every message id decodes the same way | not executed | Manager.DecodeAsWrittenMisreadsHighIds, Manager.HeartbeatWithHighIdLost, Manager.HighIdHeartbeatUnanswered | Manager.DecodeOfEncode, Manager.HandlesAgreeOnLowIds |
