/** The datagram handler of udp/manager.ts: the magic check, the rate limit,
    the header decode, and the dispatch on the message type to the room
    announcement (C2S_INIT) and the once-a-second heartbeat (C2S_UNK2). */
module Manager {
  import opened Base
  import opened Frame
  import opened Sessions
  import opened Rooms
  import opened Rates
  import opened Roster

  /** The marker byte that precedes the message type of an inbound datagram. */
  const TypeMarker: Byte := 0xFF

  /** The header fields the handler reads from an inbound datagram, its
      type and the bytes after the type. */
  datatype Datagram = Datagram(uid: Int64, unk1: Byte, msgId: U16, isMulti: bool,
                               msgType: Byte, payload: Bytes)

  /** The account store the handler queries (getUserByID,
      getCommunityMembership): account names by id, and the (account,
      community) pairs that have a membership. */
  datatype AccountStore = AccountStore(names: map<AccountId, Text>, memberships: set<(AccountId, int)>)

  /** getUserByID: the account record, looked up by its id. */
  function UserById(db: AccountStore, id: AccountId): Option<User>
  {
    if id in db.names then Some(User(id, db.names[id])) else None
  }

  /** Everything the handler reads and changes: the session registry of
      udp/common.ts, the room directory of udp/roomMan.ts and the rate
      window of udp/rates.ts. */
  datatype ServerState = ServerState(sessions: SessionState, dir: Directory, window: Window)

  /** The first two bytes are the protocol magic (a shorter datagram never
      equals it). */
  predicate HasMagic(msg: Bytes)
  {
    |msg| >= 2 && msg[..2] == Magic
  }

  /** Buffer.indexOf(b, from): the first position at or after `from`
      holding `b`, or -1. */
  function IndexOfFrom(msg: Bytes, b: Byte, from: nat): (r: int)
    ensures r == -1 || from <= r < |msg|
    ensures r == -1 ==> forall i | from <= i < |msg| :: msg[i] != b
    ensures r != -1 ==> msg[r] == b && forall i | from <= i < r :: msg[i] != b
    decreases |msg| - from
  {
    if from >= |msg| then -1
    else if msg[from] == b then from
    else IndexOfFrom(msg, b, from + 1)
  }

  /** Bit 4 of byte 15 (the multi-fragment flag). */
  function MultiFlag(flags: Byte): bool
  {
    (flags as bv8 & 16) != 0
  }

  /** The decode with the marker scan starting at `scanFrom`. A datagram
      shorter than 16 bytes makes a header read throw, and so does a marker
      in the last byte; with no marker at all the type is read from offset
      0. */
  function DecodeFrom(msg: Bytes, scanFrom: nat): Option<Datagram>
  {
    if |msg| < 16 then None
    else
      var idx := IndexOfFrom(msg, TypeMarker, scanFrom);
      if idx + 1 >= |msg| then None
      else
        Some(Datagram(ReadI64LE(msg, 2), msg[10], ReadU16LE(msg, 11), MultiFlag(msg[15]),
                      msg[idx + 1], msg[idx + 2..]))
  }

  /** The decode as written: the scan for the marker starts at offset 12,
      the high byte of the message id. */
  function DecodeAsWritten(msg: Bytes): Option<Datagram>
  {
    DecodeFrom(msg, 12)
  }

  /** The decode as intended ("the first 0xFF after the message id"): the
      scan starts at offset 13. */
  function Decode(msg: Bytes): Option<Datagram>
  {
    DecodeFrom(msg, 13)
  }

  /** The first 13 bytes of an inbound datagram: magic, account id, unk1
      and message id. */
  function InboundHeader(uid: Int64, unk1: Byte, msgId: U16): (p: Bytes)
    ensures |p| == 13
  {
    Magic + I64LE(uid) + [unk1] + U16LE(msgId)
  }

  /** An inbound datagram: the header, the bytes up to and including the
      flags byte (at least three, none of them the marker), the marker, the
      type and the payload. */
  function Encode(uid: Int64, unk1: Byte, msgId: U16, mid: Bytes, msgType: Byte, payload: Bytes): (msg: Bytes)
    requires |mid| >= 3
    ensures |msg| == 15 + |mid| + |payload|
  {
    InboundHeader(uid, unk1, msgId) + mid + [TypeMarker, msgType] + payload
  }

  lemma InboundHeaderLayout(uid: Int64, unk1: Byte, msgId: U16)
    ensures var p := InboundHeader(uid, unk1, msgId);
      && p[..2] == Magic && ReadI64LE(p, 2) == uid
      && p[10] == unk1 && ReadU16LE(p, 11) == msgId && p[12] == msgId / 256
  {
    var p := InboundHeader(uid, unk1, msgId);
    var id := I64LE(uid);
    var u := U16LE(msgId);
    InboundHeaderSlots(id, unk1, u);
    ReadI64LEAt(p, 2, id);
    I64LERoundTrip(uid);
    assert ReadU16LE(p, 11) == ReadU16LE(u, 0);
  }

  lemma InboundHeaderSlots(id: Bytes, unk1: Byte, u: Bytes)
    requires |id| == 8 && |u| == 2
    ensures var p := Magic + id + [unk1] + u;
      && p[..2] == Magic && p[2..10] == id && p[10] == unk1 && p[11] == u[0] && p[12] == u[1]
  {
    var p := Magic + id + [unk1] + u;
    assert p == Magic + id + ([unk1] + u);
  }

  lemma AfterInboundHeader(p: Bytes, mid: Bytes, msgType: Byte, payload: Bytes)
    requires |p| == 13
    ensures var msg := p + mid + [TypeMarker, msgType] + payload;
      && msg[..13] == p
      && msg[13..13 + |mid|] == mid
      && msg[13 + |mid|] == TypeMarker && msg[14 + |mid|] == msgType
      && msg[15 + |mid|..] == payload
  {
    var msg := p + mid + [TypeMarker, msgType] + payload;
    assert msg == p + (mid + ([TypeMarker, msgType] + payload));
  }

  /** The positions of the fields of an encoded datagram. */
  lemma EncodeLayout(uid: Int64, unk1: Byte, msgId: U16, mid: Bytes, msgType: Byte, payload: Bytes)
    requires |mid| >= 3
    ensures var msg := Encode(uid, unk1, msgId, mid, msgType, payload);
      && msg[..2] == Magic
      && ReadI64LE(msg, 2) == uid
      && msg[10] == unk1 && ReadU16LE(msg, 11) == msgId
      && msg[12] == msgId / 256
      && msg[13..13 + |mid|] == mid
      && msg[13 + |mid|] == TypeMarker && msg[14 + |mid|] == msgType
      && msg[15 + |mid|..] == payload
  {
    var p := InboundHeader(uid, unk1, msgId);
    var msg := Encode(uid, unk1, msgId, mid, msgType, payload);
    InboundHeaderLayout(uid, unk1, msgId);
    AfterInboundHeader(p, mid, msgType, payload);
    assert msg[..2] == p[..2] && msg[2..10] == p[2..10];
    assert msg[10] == p[10] && msg[11] == p[11] && msg[12] == p[12];
    ReadI64LEAt(msg, 2, p[2..10]);
    ReadI64LEAt(p, 2, p[2..10]);
  }

  /** The intended decode reads back every field an encoded datagram
      carries, whatever its message id. */
  lemma DecodeOfEncode(uid: Int64, unk1: Byte, msgId: U16, mid: Bytes, msgType: Byte, payload: Bytes)
    requires |mid| >= 3 && TypeMarker !in mid
    ensures Decode(Encode(uid, unk1, msgId, mid, msgType, payload))
      == Some(Datagram(uid, unk1, msgId, MultiFlag(mid[2]), msgType, payload))
  {
    var msg := Encode(uid, unk1, msgId, mid, msgType, payload);
    EncodeLayout(uid, unk1, msgId, mid, msgType, payload);
    forall i | 13 <= i < 13 + |mid|
      ensures msg[i] != TypeMarker
    {
      assert msg[i] == mid[i - 13];
    }
    assert IndexOfFrom(msg, TypeMarker, 13) == 13 + |mid|;
    assert msg[15] == mid[2];
  }

  /** As written, a message id whose high byte is 0xFF (0xFF00 and up) is
      taken for the marker: the "type" read is the byte after the message
      id, and the real marker, type and payload end up in the payload. */
  lemma DecodeAsWrittenMisreadsHighIds(uid: Int64, unk1: Byte, msgId: U16, mid: Bytes, msgType: Byte, payload: Bytes)
    requires |mid| >= 3 && msgId >= 0xFF00
    ensures DecodeAsWritten(Encode(uid, unk1, msgId, mid, msgType, payload))
      == Some(Datagram(uid, unk1, msgId, MultiFlag(mid[2]), mid[0], mid[1..] + [TypeMarker, msgType] + payload))
  {
    var msg := Encode(uid, unk1, msgId, mid, msgType, payload);
    EncodeLayout(uid, unk1, msgId, mid, msgType, payload);
    assert msg[12] == TypeMarker;
    assert msg[13] == mid[0] && msg[15] == mid[2];
    assert msg[14..] == mid[1..] + [TypeMarker, msgType] + payload;
  }

  /** A concrete case: a heartbeat with message id 0xFF00 and zero bytes
      before the marker is decoded as written with type 0, where the
      intended decode sees C2S_UNK2 (HighIdHeartbeatUnanswered shows what
      the listener then does). */
  lemma HeartbeatWithHighIdLost(uid: Int64)
    ensures DecodeAsWritten(Encode(uid, 1, 0xFF00, [0, 0, 0], C2SUnk2, [])).value.msgType == 0
    ensures Decode(Encode(uid, 1, 0xFF00, [0, 0, 0], C2SUnk2, [])).value.msgType == C2SUnk2
  {
    DecodeAsWrittenMisreadsHighIds(uid, 1, 0xFF00, [0, 0, 0], C2SUnk2, []);
    DecodeOfEncode(uid, 1, 0xFF00, [0, 0, 0], C2SUnk2, []);
  }

  /** Below 0xFF00 the two decodes agree on every encoded datagram. */
  lemma DecodesAgreeOnLowIds(uid: Int64, unk1: Byte, msgId: U16, mid: Bytes, msgType: Byte, payload: Bytes)
    requires |mid| >= 3 && TypeMarker !in mid && msgId < 0xFF00
    ensures DecodeAsWritten(Encode(uid, unk1, msgId, mid, msgType, payload))
      == Decode(Encode(uid, unk1, msgId, mid, msgType, payload))
  {
    var msg := Encode(uid, unk1, msgId, mid, msgType, payload);
    EncodeLayout(uid, unk1, msgId, mid, msgType, payload);
    assert msg[12] != TypeMarker;
    assert IndexOfFrom(msg, TypeMarker, 12) == IndexOfFrom(msg, TypeMarker, 13);
  }

  // ---------------------------------------------------------------------
  // The C2S_INIT payload

  /** One string field read through the payload cursor at `at`: a u16
      length L that counts the terminator, L - 1 bytes, then the
      terminator skipped unchecked. Reading past the end fails. */
  function ReadString(data: Bytes, at: nat): (r: Option<(Text, nat)>)
    ensures r.Some? ==> at + 3 <= r.value.1 <= |data| && r.value.1 == at + 3 + |r.value.0|
  {
    if at + 2 > |data| then None
    else
      var len := ReadU16LE(data, at);
      if len < 1 || at + 2 + len > |data| then None
      else
        var s: Text := data[at + 2..at + 1 + len];
        Some((s, at + 2 + len))
  }

  /** The C2S_INIT payload: two bytes skipped, the user name, the room
      name; what follows is not read. */
  function ParseInit(data: Bytes): Option<(Text, Text)>
  {
    if |data| < 2 then None
    else match ReadString(data, 2)
      case None => None
      case Some((username, next)) =>
        match ReadString(data, next)
        case None => None
        case Some((room, _)) => Some((username, room))
  }

  /** A string written by encString is read back by the cursor, which
      then stands right after it. */
  lemma ReadStringOfEncString(pre: Bytes, s: Text, rest: Bytes)
    ensures ReadString(pre + EncString(s) + rest, |pre|) == Some((s, |pre| + |s| + 3))
  {
    var data := pre + EncString(s) + rest;
    assert data[|pre|..|pre| + 2] == EncString(s)[..2];
    assert ReadU16LE(data, |pre|) == ReadU16LE(EncString(s), 0);
    assert data[|pre| + 2..|pre| + 2 + |s|] == EncString(s)[2..|s| + 2] == s;
  }

  /** Two encString fields after two leading bytes parse back as the user
      name and the room name. */
  lemma ParseInitOfEncoded(lead: Bytes, username: Text, room: Text, rest: Bytes)
    requires |lead| == 2
    ensures ParseInit(lead + EncString(username) + EncString(room) + rest) == Some((username, room))
  {
    var data := lead + EncString(username) + EncString(room) + rest;
    ReadStringOfEncString(lead, username, EncString(room) + rest);
    assert data == lead + EncString(username) + (EncString(room) + rest);
    ReadStringOfEncString(lead + EncString(username), room, rest);
  }

  /** A payload whose first length field points past the end is refused. */
  lemma ParseInitRefusesOverrun(data: Bytes)
    requires |data| >= 4 && ReadU16LE(data, 2) + 4 > |data|
    ensures ParseInit(data) == None
  {
  }

  // ---------------------------------------------------------------------
  // The handler

  /** The S2C_ACK_ROOM frame: the room name echoed as an encString. */
  function AckRoom(uid: Int64, room: Text, id: U16): Bytes
  {
    ConstructRes(S2CAckRoom, uid, EncString(room), 1, id, false, false)
  }

  /** The S2C_UNK2 frame answering a heartbeat: one zero byte. */
  function HeartbeatReply(uid: Int64, id: U16): Bytes
  {
    ConstructRes(S2CUnk2, uid, [0], 1, id, false, false)
  }

  /** Whether the announcement puts the account in the room: the room
      exists and the account belongs to its community. */
  predicate MayJoin(d: Directory, db: AccountStore, user: User, room: RoomId)
  {
    room in d.rooms && (user.id, d.rooms[room].communityId) in db.memberships
  }

  /** C2S_INIT after the header: acknowledge the room, then, when the
      account exists under the announced name, join the room (if allowed),
      link the endpoint to the account and send the roster. */
  ghost function HandleInit(st: ServerState, dg: Datagram, e: Endpoint, now: int, db: AccountStore): (ServerState, seq<Bytes>)
  {
    match ParseInit(dg.payload)
    case None => (st, [])
    case Some((username, room)) =>
      var ack := AckRoom(dg.uid, room, NextId(st.sessions, e));
      var s1 := Bump(st.sessions, e);
      var found := UserById(db, dg.uid);
      if found.Some? && found.value.name == username then
        var user := found.value;
        var d1 := if MayJoin(st.dir, db, user, room) then Join(st.dir, user, room, now) else st.dir;
        var s2 := Link(s1, e, user.id);
        var (s3, roster) := PlayerList(s2, d1, e, user);
        (ServerState(s3, d1, st.window), [ack] + roster)
      else (st.(sessions := s1), [ack])
  }

  /** C2S_UNK2 after the header: answer it, then, when the endpoint is
      linked to the account the datagram names, refresh its presence and,
      on every third message id, send the roster. */
  ghost function HandleHeartbeat(st: ServerState, dg: Datagram, e: Endpoint, now: int, db: AccountStore): (ServerState, seq<Bytes>)
  {
    var reply := HeartbeatReply(dg.uid, NextId(st.sessions, e));
    var s1 := Bump(st.sessions, e);
    var found := match Resolve(s1, e) case Some(a) => UserById(db, a) case None => None;
    if found.Some? && found.value.id == dg.uid then
      var user := found.value;
      var d1 := Ping(st.dir, user, now);
      if dg.msgId % 3 == 0 then
        var (s2, roster) := PlayerList(s1, d1, e, user);
        (ServerState(s2, d1, st.window), [reply] + roster)
      else (ServerState(s1, d1, st.window), [reply])
    else (st.(sessions := s1), [reply])
  }

  /** The datagram handler with the marker scan starting at `scanFrom`:
      the new state and the frames sent back to `e`. */
  ghost function HandleFrom(st: ServerState, msg: Bytes, e: Endpoint, now: int, db: AccountStore,
                            scanFrom: nat): (ServerState, seq<Bytes>)
  {
    if !HasMagic(msg) then (st, [])
    else
      var (w, ok) := Allow(st.window, e, now);
      var st1 := st.(window := w);
      if !ok then (st1, [])
      else match DecodeFrom(msg, scanFrom)
        case None => (st1, [])
        case Some(dg) =>
          if dg.msgType == C2SInit then HandleInit(st1, dg, e, now, db)
          else if dg.msgType == C2SUnk2 then HandleHeartbeat(st1, dg, e, now, db)
          else (st1, [])
  }

  /** The 'message' listener as written: the marker scan starts at offset 12. */
  ghost function Handle(st: ServerState, msg: Bytes, e: Endpoint, now: int, db: AccountStore): (ServerState, seq<Bytes>)
  {
    HandleFrom(st, msg, e, now, db, 12)
  }

  /** The listener with the intended decode: the scan starts at offset 13. */
  ghost function HandleIntended(st: ServerState, msg: Bytes, e: Endpoint, now: int, db: AccountStore): (ServerState, seq<Bytes>)
  {
    HandleFrom(st, msg, e, now, db, 13)
  }

  // ---------------------------------------------------------------------
  // The frames the handler builds

  /** The S2C_ACK_ROOM frame is a head frame of its type whose data is the
      room name as encString writes it, which a client reads back. */
  lemma AckRoomCarriesRoom(uid: Int64, room: Text, id: U16)
    ensures var f := AckRoom(uid, room, id);
      && |f| >= HeaderLength && f[15] == Flags(false, false) && f[25] == S2CAckRoom
      && ReadU16LE(f, 11) == id
      && CarriedData(f) == EncString(room)
      && ReadString(CarriedData(f), 0) == Some((room, |room| + 3))
  {
    FrameLayout(S2CAckRoom, uid, EncString(room), 1, id, false, false);
    CarriedDataOfFrame(S2CAckRoom, uid, EncString(room), 1, id, false, false);
    ReadStringOfEncString([], room, []);
    assert [] + EncString(room) + [] == EncString(room);
  }

  /** The S2C_UNK2 frame is a head frame of its type carrying one zero byte. */
  lemma HeartbeatReplyLayout(uid: Int64, id: U16)
    ensures var f := HeartbeatReply(uid, id);
      && |f| == HeaderLength + 1 && f[15] == Flags(false, false) && f[25] == S2CUnk2
      && ReadU16LE(f, 11) == id && CarriedData(f) == [0]
  {
    FrameLayout(S2CUnk2, uid, [0], 1, id, false, false);
    CarriedDataOfFrame(S2CUnk2, uid, [0], 1, id, false, false);
  }

  // ---------------------------------------------------------------------
  // The two handled types, after the header

  /** A C2S_INIT whose payload parses is acknowledged first, under the
      endpoint's next message id; the rate window is not touched. */
  lemma InitReply(st: ServerState, dg: Datagram, e: Endpoint, now: int, db: AccountStore)
    requires ParseInit(dg.payload).Some?
    ensures var (st', frames) := HandleInit(st, dg, e, now, db);
      && |frames| >= 1
      && frames[0] == AckRoom(dg.uid, ParseInit(dg.payload).value.1, NextId(st.sessions, e))
      && st'.window == st.window
  {
  }

  /** A C2S_INIT links the endpoint to the datagram's account exactly when
      the store holds that account under the announced name; otherwise
      only the endpoint's message id counter moves. */
  lemma InitLinks(st: ServerState, dg: Datagram, e: Endpoint, now: int, db: AccountStore)
    requires ParseInit(dg.payload).Some?
    ensures var (st', frames) := HandleInit(st, dg, e, now, db);
      var username := ParseInit(dg.payload).value.0;
      if dg.uid in db.names && db.names[dg.uid] == username then
        Resolve(st'.sessions, e) == Some(dg.uid) && st'.sessions.userRinfos[dg.uid] == e
      else
        st' == st.(sessions := Bump(st.sessions, e)) && |frames| == 1
  {
    var (username, room) := ParseInit(dg.payload).value;
    if dg.uid in db.names && db.names[dg.uid] == username {
      var user := User(dg.uid, username);
      var d1 := if MayJoin(st.dir, db, user, room) then Join(st.dir, user, room, now) else st.dir;
      PlayerListKeepsLinks(Link(Bump(st.sessions, e), e, user.id), d1, e, user);
    }
  }

  /** Sending the roster moves only the message id counter. */
  lemma PlayerListKeepsLinks(s: SessionState, d: Directory, e: Endpoint, user: User)
    ensures PlayerList(s, d, e, user).0.rinfoUsers == s.rinfoUsers
    ensures PlayerList(s, d, e, user).0.userRinfos == s.userRinfos
  {
  }

  /** A C2S_INIT by a known account under its own name joins the room
      exactly when the room exists and the account belongs to its
      community, and is followed by the roster of the account's room. */
  lemma InitJoins(st: ServerState, dg: Datagram, e: Endpoint, now: int, db: AccountStore)
    requires ParseInit(dg.payload).Some?
    requires dg.uid in db.names && db.names[dg.uid] == ParseInit(dg.payload).value.0
    ensures var (st', frames) := HandleInit(st, dg, e, now, db);
      var (username, room) := ParseInit(dg.payload).value;
      var user := User(dg.uid, username);
      var d1 := if MayJoin(st.dir, db, user, room) then Join(st.dir, user, room, now) else st.dir;
      var s1 := Link(Bump(st.sessions, e), e, user.id);
      && st'.dir == d1
      && (st'.sessions, frames[1..]) == PlayerList(s1, d1, e, user)
  {
  }

  /** A heartbeat is answered first with S2C_UNK2 under the endpoint's next
      message id. When the endpoint is linked to an account the store knows
      and the datagram names that account, its presence is refreshed and
      the roster follows on every message id divisible by three; otherwise
      the directory is untouched and nothing else is sent. */
  lemma HeartbeatReplies(st: ServerState, dg: Datagram, e: Endpoint, now: int, db: AccountStore)
    ensures var (st', frames) := HandleHeartbeat(st, dg, e, now, db);
      var s1 := Bump(st.sessions, e);
      && |frames| >= 1
      && frames[0] == HeartbeatReply(dg.uid, NextId(st.sessions, e))
      && st'.window == st.window
      && if Resolve(st.sessions, e) == Some(dg.uid) && dg.uid in db.names then
           var user := User(dg.uid, db.names[dg.uid]);
           var d1 := Ping(st.dir, user, now);
           && st'.dir == d1
           && (dg.msgId % 3 == 0 ==> (st'.sessions, frames[1..]) == PlayerList(s1, d1, e, user))
           && (dg.msgId % 3 != 0 ==> st'.sessions == s1 && |frames| == 1)
         else
           st'.dir == st.dir && st'.sessions == s1 && |frames| == 1
  {
  }

  /** Mirroring depends on the two link maps only. */
  lemma MirroredByLinks(s: SessionState, t: SessionState)
    requires Mirrored(s) && t.rinfoUsers == s.rinfoUsers && t.userRinfos == s.userRinfos
    ensures Mirrored(t)
  {
  }

  lemma InitPreservesInvariants(st: ServerState, dg: Datagram, e: Endpoint, now: int, db: AccountStore)
    requires Consistent(st.dir) && Mirrored(st.sessions)
    ensures Consistent(HandleInit(st, dg, e, now, db).0.dir)
    ensures Mirrored(HandleInit(st, dg, e, now, db).0.sessions)
  {
    var st' := HandleInit(st, dg, e, now, db).0;
    if ParseInit(dg.payload).Some? {
      var (username, room) := ParseInit(dg.payload).value;
      var b := Bump(st.sessions, e);
      MirroredByLinks(st.sessions, b);
      if dg.uid in db.names && db.names[dg.uid] == username {
        var user := User(dg.uid, username);
        var d1 := if MayJoin(st.dir, db, user, room) then Join(st.dir, user, room, now) else st.dir;
        InitJoins(st, dg, e, now, db);
        if MayJoin(st.dir, db, user, room) {
          JoinPreservesConsistent(st.dir, user, room, now);
        }
        LinkPreservesMirrored(b, e, user.id);
        PlayerListKeepsLinks(Link(b, e, user.id), d1, e, user);
        MirroredByLinks(Link(b, e, user.id), st'.sessions);
      } else {
        InitLinks(st, dg, e, now, db);
      }
    }
  }

  lemma HeartbeatPreservesInvariants(st: ServerState, dg: Datagram, e: Endpoint, now: int, db: AccountStore)
    requires Consistent(st.dir) && Mirrored(st.sessions)
    ensures Consistent(HandleHeartbeat(st, dg, e, now, db).0.dir)
    ensures Mirrored(HandleHeartbeat(st, dg, e, now, db).0.sessions)
  {
    var st' := HandleHeartbeat(st, dg, e, now, db).0;
    var b := Bump(st.sessions, e);
    MirroredByLinks(st.sessions, b);
    HeartbeatReplies(st, dg, e, now, db);
    if Resolve(st.sessions, e) == Some(dg.uid) && dg.uid in db.names {
      var user := User(dg.uid, db.names[dg.uid]);
      PingPreservesConsistent(st.dir, user, now);
      PlayerListKeepsLinks(b, st'.dir, e, user);
      MirroredByLinks(b, st'.sessions);
    }
  }

  // ---------------------------------------------------------------------
  // The handler as a whole

  // The lemmas below hold for any start of the marker scan, so both for
  // the listener as written (Handle, from offset 12) and for the listener
  // with the intended decode (HandleIntended, from offset 13).

  /** A datagram that passes the magic check, the rate limit and the
      decode is handled by its type's case on the counted state. */
  lemma Dispatch(st: ServerState, msg: Bytes, e: Endpoint, now: int, db: AccountStore, scanFrom: nat)
    requires HasMagic(msg) && Allow(st.window, e, now).1 && DecodeFrom(msg, scanFrom).Some?
    ensures var st1 := st.(window := Allow(st.window, e, now).0);
      var dg := DecodeFrom(msg, scanFrom).value;
      && (dg.msgType == C2SInit ==> HandleFrom(st, msg, e, now, db, scanFrom) == HandleInit(st1, dg, e, now, db))
      && (dg.msgType == C2SUnk2 ==> HandleFrom(st, msg, e, now, db, scanFrom) == HandleHeartbeat(st1, dg, e, now, db))
  {
  }

  /** A datagram without the magic changes nothing and gets no answer. */
  lemma NoMagicIgnored(st: ServerState, msg: Bytes, e: Endpoint, now: int, db: AccountStore, scanFrom: nat)
    requires !HasMagic(msg)
    ensures HandleFrom(st, msg, e, now, db, scanFrom) == (st, [])
  {
  }

  /** A datagram the rate limiter refuses is counted and otherwise
      ignored. */
  lemma RefusedOnlyCounted(st: ServerState, msg: Bytes, e: Endpoint, now: int, db: AccountStore, scanFrom: nat)
    requires HasMagic(msg) && !Allow(st.window, e, now).1
    ensures HandleFrom(st, msg, e, now, db, scanFrom) == (st.(window := Allow(st.window, e, now).0), [])
  {
  }

  /** An admitted datagram too short for the header reads, or whose marker
      is its last byte, is counted and otherwise dropped. */
  lemma UndecodableDropped(st: ServerState, msg: Bytes, e: Endpoint, now: int, db: AccountStore, scanFrom: nat)
    requires HasMagic(msg) && DecodeFrom(msg, scanFrom).None?
    ensures HandleFrom(st, msg, e, now, db, scanFrom) == (st.(window := Allow(st.window, e, now).0), [])
  {
  }

  /** A type other than C2S_INIT and C2S_UNK2 (C2S_UNK1, C2S_UNK3,
      C2S_UNK4 or anything else) is counted and otherwise ignored; in
      particular no S2C_UNK1 frame is ever sent. */
  lemma OtherTypesIgnored(st: ServerState, msg: Bytes, e: Endpoint, now: int, db: AccountStore, scanFrom: nat)
    requires HasMagic(msg) && DecodeFrom(msg, scanFrom).Some?
    requires DecodeFrom(msg, scanFrom).value.msgType != C2SInit && DecodeFrom(msg, scanFrom).value.msgType != C2SUnk2
    ensures HandleFrom(st, msg, e, now, db, scanFrom) == (st.(window := Allow(st.window, e, now).0), [])
  {
  }

  /** Every datagram with the magic is counted by the rate limiter, and the
      rate window changes in no other way. */
  lemma EveryDatagramCounted(st: ServerState, msg: Bytes, e: Endpoint, now: int, db: AccountStore, scanFrom: nat)
    requires HasMagic(msg)
    ensures HandleFrom(st, msg, e, now, db, scanFrom).0.window == Allow(st.window, e, now).0
  {
    if Allow(st.window, e, now).1 && DecodeFrom(msg, scanFrom).Some? {
      var st1 := st.(window := Allow(st.window, e, now).0);
      var dg := DecodeFrom(msg, scanFrom).value;
      Dispatch(st, msg, e, now, db, scanFrom);
      if dg.msgType == C2SInit && ParseInit(dg.payload).Some? {
        InitReply(st1, dg, e, now, db);
      } else if dg.msgType == C2SUnk2 {
        HeartbeatReplies(st1, dg, e, now, db);
      }
    }
  }

  /** An admitted C2S_INIT whose payload parses is acknowledged first, under
      the endpoint's next message id, with a frame that carries the room
      name back. It links the endpoint to the datagram's account exactly
      when the store holds that account under the announced name. */
  lemma InitHandled(st: ServerState, msg: Bytes, e: Endpoint, now: int, db: AccountStore, scanFrom: nat)
    requires HasMagic(msg) && Allow(st.window, e, now).1
    requires DecodeFrom(msg, scanFrom).Some? && DecodeFrom(msg, scanFrom).value.msgType == C2SInit
    requires ParseInit(DecodeFrom(msg, scanFrom).value.payload).Some?
    ensures var (st', frames) := HandleFrom(st, msg, e, now, db, scanFrom);
      var dg := DecodeFrom(msg, scanFrom).value;
      var (username, room) := ParseInit(dg.payload).value;
      && |frames| >= 1
      && frames[0] == AckRoom(dg.uid, room, NextId(st.sessions, e))
      && CarriedData(frames[0]) == EncString(room)
      && if dg.uid in db.names && db.names[dg.uid] == username then
           Resolve(st'.sessions, e) == Some(dg.uid) && st'.sessions.userRinfos[dg.uid] == e
         else
           st' == st.(window := Allow(st.window, e, now).0, sessions := Bump(st.sessions, e)) && |frames| == 1
  {
    var st1 := st.(window := Allow(st.window, e, now).0);
    var dg := DecodeFrom(msg, scanFrom).value;
    Dispatch(st, msg, e, now, db, scanFrom);
    InitReply(st1, dg, e, now, db);
    InitLinks(st1, dg, e, now, db);
    AckRoomCarriesRoom(dg.uid, ParseInit(dg.payload).value.1, NextId(st.sessions, e));
  }

  /** An admitted announcement by a known account under its own name puts
      the account in the room (indexed to it, with no ghost entry) when the
      room exists and the account belongs to its community, and otherwise
      leaves the directory untouched. */
  lemma InitJoinsOnlyMembers(st: ServerState, msg: Bytes, e: Endpoint, now: int, db: AccountStore, scanFrom: nat)
    requires HasMagic(msg) && Allow(st.window, e, now).1
    requires DecodeFrom(msg, scanFrom).Some? && DecodeFrom(msg, scanFrom).value.msgType == C2SInit
    requires ParseInit(DecodeFrom(msg, scanFrom).value.payload).Some?
    requires var dg := DecodeFrom(msg, scanFrom).value;
      dg.uid in db.names && db.names[dg.uid] == ParseInit(dg.payload).value.0
    ensures var (st', _) := HandleFrom(st, msg, e, now, db, scanFrom);
      var dg := DecodeFrom(msg, scanFrom).value;
      var (username, room) := ParseInit(dg.payload).value;
      var user := User(dg.uid, username);
      if MayJoin(st.dir, db, user, room) then
        && st'.dir == Join(st.dir, user, room, now)
        && dg.uid in st'.dir.userMap && st'.dir.userMap[dg.uid] == room
        && st'.dir.rooms[room].members[dg.uid] == Member(dg.uid, username, now)
        && dg.uid !in st'.dir.ghosts
      else st'.dir == st.dir
  {
    var st1 := st.(window := Allow(st.window, e, now).0);
    var dg := DecodeFrom(msg, scanFrom).value;
    var (username, room) := ParseInit(dg.payload).value;
    Dispatch(st, msg, e, now, db, scanFrom);
    InitJoins(st1, dg, e, now, db);
    JoinEffect(st.dir, User(dg.uid, username), room, now);
  }

  /** An admitted heartbeat is answered first with a one-zero-byte S2C_UNK2
      frame under the endpoint's next message id. When the endpoint is
      linked to the account the datagram names, its presence is refreshed,
      and the roster follows exactly on message ids divisible by three;
      otherwise the directory is untouched and nothing else is sent. */
  lemma HeartbeatHandled(st: ServerState, msg: Bytes, e: Endpoint, now: int, db: AccountStore, scanFrom: nat)
    requires HasMagic(msg) && Allow(st.window, e, now).1
    requires DecodeFrom(msg, scanFrom).Some? && DecodeFrom(msg, scanFrom).value.msgType == C2SUnk2
    ensures var (st', frames) := HandleFrom(st, msg, e, now, db, scanFrom);
      var dg := DecodeFrom(msg, scanFrom).value;
      var s1 := Bump(st.sessions, e);
      && |frames| >= 1
      && frames[0] == HeartbeatReply(dg.uid, NextId(st.sessions, e))
      && CarriedData(frames[0]) == [0]
      && if Resolve(st.sessions, e) == Some(dg.uid) && dg.uid in db.names then
           var user := User(dg.uid, db.names[dg.uid]);
           && st'.dir == Ping(st.dir, user, now)
           && (dg.msgId % 3 == 0 ==> (st'.sessions, frames[1..]) == PlayerList(s1, st'.dir, e, user))
           && (dg.msgId % 3 != 0 ==> st'.sessions == s1 && |frames| == 1)
         else
           st'.dir == st.dir && st'.sessions == s1 && |frames| == 1
  {
    var st1 := st.(window := Allow(st.window, e, now).0);
    var dg := DecodeFrom(msg, scanFrom).value;
    Dispatch(st, msg, e, now, db, scanFrom);
    HeartbeatReplies(st1, dg, e, now, db);
    HeartbeatReplyLayout(dg.uid, NextId(st.sessions, e));
  }

  /** The handler keeps the directory's consistency and the mirroring of
      the session maps. */
  lemma HandlePreservesInvariants(st: ServerState, msg: Bytes, e: Endpoint, now: int, db: AccountStore, scanFrom: nat)
    requires Consistent(st.dir) && Mirrored(st.sessions)
    ensures Consistent(HandleFrom(st, msg, e, now, db, scanFrom).0.dir)
    ensures Mirrored(HandleFrom(st, msg, e, now, db, scanFrom).0.sessions)
  {
    if HasMagic(msg) && Allow(st.window, e, now).1 && DecodeFrom(msg, scanFrom).Some? {
      var st1 := st.(window := Allow(st.window, e, now).0);
      var dg := DecodeFrom(msg, scanFrom).value;
      Dispatch(st, msg, e, now, db, scanFrom);
      if dg.msgType == C2SInit {
        InitPreservesInvariants(st1, dg, e, now, db);
      } else if dg.msgType == C2SUnk2 {
        HeartbeatPreservesInvariants(st1, dg, e, now, db);
      }
    }
  }

  /** As written, a datagram whose message id is 0xFF00 or more has its
      type read from the byte after the message id; unless that byte
      happens to be C2S_INIT or C2S_UNK2, the datagram is counted and
      otherwise ignored, whatever its real type. */
  lemma HighIdDatagramIgnored(st: ServerState, uid: Int64, unk1: Byte, msgId: U16, mid: Bytes, msgType: Byte,
                              payload: Bytes, e: Endpoint, now: int, db: AccountStore)
    requires |mid| >= 3 && msgId >= 0xFF00 && mid[0] != C2SInit && mid[0] != C2SUnk2
    ensures Handle(st, Encode(uid, unk1, msgId, mid, msgType, payload), e, now, db)
      == (st.(window := Allow(st.window, e, now).0), [])
  {
    var msg := Encode(uid, unk1, msgId, mid, msgType, payload);
    EncodeLayout(uid, unk1, msgId, mid, msgType, payload);
    DecodeAsWrittenMisreadsHighIds(uid, unk1, msgId, mid, msgType, payload);
    if Allow(st.window, e, now).1 {
      OtherTypesIgnored(st, msg, e, now, db, 12);
    } else {
      RefusedOnlyCounted(st, msg, e, now, db, 12);
    }
  }

  /** The heartbeat of HeartbeatWithHighIdLost, admitted: the listener as
      written sends nothing and only counts it, where the intended listener
      answers it with S2C_UNK2. */
  lemma HighIdHeartbeatUnanswered(st: ServerState, uid: Int64, e: Endpoint, now: int, db: AccountStore)
    requires Allow(st.window, e, now).1
    ensures var msg := Encode(uid, 1, 0xFF00, [0, 0, 0], C2SUnk2, []);
      && Handle(st, msg, e, now, db) == (st.(window := Allow(st.window, e, now).0), [])
      && |HandleIntended(st, msg, e, now, db).1| >= 1
      && HandleIntended(st, msg, e, now, db).1[0] == HeartbeatReply(uid, NextId(st.sessions, e))
  {
    var msg := Encode(uid, 1, 0xFF00, [0, 0, 0], C2SUnk2, []);
    HighIdDatagramIgnored(st, uid, 1, 0xFF00, [0, 0, 0], C2SUnk2, [], e, now, db);
    EncodeLayout(uid, 1, 0xFF00, [0, 0, 0], C2SUnk2, []);
    DecodeOfEncode(uid, 1, 0xFF00, [0, 0, 0], C2SUnk2, []);
    HeartbeatHandled(st, msg, e, now, db, 13);
  }

  /** Below 0xFF00 the listener as written and the intended one behave the
      same on every encoded datagram. */
  lemma HandlesAgreeOnLowIds(st: ServerState, uid: Int64, unk1: Byte, msgId: U16, mid: Bytes, msgType: Byte,
                             payload: Bytes, e: Endpoint, now: int, db: AccountStore)
    requires |mid| >= 3 && TypeMarker !in mid && msgId < 0xFF00
    ensures Handle(st, Encode(uid, unk1, msgId, mid, msgType, payload), e, now, db)
      == HandleIntended(st, Encode(uid, unk1, msgId, mid, msgType, payload), e, now, db)
  {
    DecodesAgreeOnLowIds(uid, unk1, msgId, mid, msgType, payload);
  }

  // ---------------------------------------------------------------------
  // The 'message' listener over the module-level state

  /** The 'message' listener: the datagram `msg` from endpoint `e` at time
      `now`, against the registry, the room manager and the rate limiter;
      returns the frames sent back to `e`, in order. */
  method HandleMessage(reg: Registry, rm: RoomManager, rl: RateLimiter, msg: Bytes, e: Endpoint,
                       now: int, db: AccountStore) returns (frames: seq<Bytes>)
    modifies reg, rm, rl
    ensures (ServerState(reg.State(), rm.State(), rl.State()), frames)
      == Handle(ServerState(old(reg.State()), old(rm.State()), old(rl.State())), msg, e, now, db)
  {
    frames := [];
    if !HasMagic(msg) {
      return;
    }
    var ok := rl.AllowPacket(e, now);
    if !ok {
      return;
    }
    var decoded := DecodeAsWritten(msg);
    if decoded.None? {
      return;
    }
    var dg := decoded.value;
    if dg.msgType == C2SInit {
      frames := HandleInitMessage(reg, rm, rl, dg, e, now, db);
    } else if dg.msgType == C2SUnk2 {
      frames := HandleHeartbeatMessage(reg, rm, rl, dg, e, now, db);
    }
  }

  /** The C2S_INIT case of the listener. */
  method HandleInitMessage(reg: Registry, rm: RoomManager, rl: RateLimiter, dg: Datagram, e: Endpoint,
                           now: int, db: AccountStore) returns (frames: seq<Bytes>)
    modifies reg, rm
    ensures (ServerState(reg.State(), rm.State(), rl.State()), frames)
      == HandleInit(ServerState(old(reg.State()), old(rm.State()), rl.State()), dg, e, now, db)
  {
    frames := [];
    var parsed := ParseInit(dg.payload);
    if parsed.None? {
      return;
    }
    var (username, room) := parsed.value;
    var id := reg.NextMsgId(e);
    frames := [AckRoom(dg.uid, room, id)];
    var found := UserById(db, dg.uid);
    if found.None? || found.value.name != username {
      return;
    }
    var user := found.value;
    if MayJoin(rm.State(), db, user, room) {
      rm.JoinRoom(user, room, now);
    }
    reg.LinkUserToRInfo(e, user.id);
    var roster := SendPlayerList(reg, rm, e, user);
    frames := frames + roster;
  }

  /** The C2S_UNK2 case of the listener. */
  method HandleHeartbeatMessage(reg: Registry, rm: RoomManager, rl: RateLimiter, dg: Datagram, e: Endpoint,
                                now: int, db: AccountStore) returns (frames: seq<Bytes>)
    modifies reg, rm
    ensures (ServerState(reg.State(), rm.State(), rl.State()), frames)
      == HandleHeartbeat(ServerState(old(reg.State()), old(rm.State()), rl.State()), dg, e, now, db)
  {
    var id := reg.NextMsgId(e);
    frames := [HeartbeatReply(dg.uid, id)];
    var found := match Resolve(reg.State(), e) case Some(a) => UserById(db, a) case None => None;
    if found.None? || found.value.id != dg.uid {
      return;
    }
    var user := found.value;
    rm.PingRoomMember(user, now);
    if dg.msgId % 3 == 0 {
      var roster := SendPlayerList(reg, rm, e, user);
      frames := frames + roster;
    }
  }
}
