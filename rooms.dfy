/** The room and presence directory of udp/roomMan.ts: rooms keyed by name,
    each holding members with their last ping time; the account -> room
    index `userMap`; and the "ghost" entries that let an account dropped
    from a room after a short silence slip back in on its next heartbeat. */
module Rooms {
  import opened Base

  /** A room key as createRoom builds it: "c_<community>_<hex time>". */
  type RoomId = Bytes

  /** Silence after which the cull removes a member. */
  const MemberTimeout: int := 5000
  /** Silence after which a dropped member's ghost entry is discarded. */
  const GhostTimeout: int := 30000

  datatype Member = Member(id: AccountId, name: Text, lastPing: int)

  datatype Room = Room(communityId: int, pop: int, members: map<AccountId, Member>)

  /** A ghost entry: the room an account was dropped from and its last ping. */
  datatype GhostEntry = GhostEntry(room: RoomId, lastPing: int)

  /** The three module-level dictionaries. `order` is the enumeration order
      of the keys of `rooms` (insertion order), which `for...in` and
      `Object.keys(...).find` follow. */
  datatype Directory = Directory(
    rooms: map<RoomId, Room>,
    order: seq<RoomId>,
    userMap: map<AccountId, RoomId>,
    ghosts: map<AccountId, GhostEntry>)

  const NoRooms: Directory := Directory(map[], [], map[], map[])

  predicate Distinct(s: seq<RoomId>)
  {
    forall i, j | 0 <= i < j < |s| :: s[i] != s[j]
  }

  /** What every operation keeps true of the directory:
      - `order` lists each room key exactly once;
      - every room key starts "c_<its community id>_", so no key is the
        empty (falsy) string and createRoom never overwrites a room;
      - every member is stored under its own id;
      - no account is both indexed in `userMap` and a ghost;
      - an indexed account is a member of the room it is indexed to. */
  ghost predicate Consistent(d: Directory)
  {
    OrderMatches(d) && RoomsWellFormed(d) && IndexSound(d)
  }

  ghost predicate OrderMatches(d: Directory)
  {
    Distinct(d.order) && forall r :: r in d.order <==> r in d.rooms
  }

  ghost predicate RoomsWellFormed(d: Directory)
  {
    && (forall r | r in d.rooms :: KeyNames(r, d.rooms[r].communityId))
    && (forall r, k | r in d.rooms && k in d.rooms[r].members :: d.rooms[r].members[k].id == k)
  }

  ghost predicate IndexSound(d: Directory)
  {
    && (forall k | k in d.userMap :: k !in d.ghosts)
    && (forall k | k in d.userMap :: d.userMap[k] in d.rooms && k in d.rooms[d.userMap[k]].members)
  }

  /** Every room of `d2` is a room of `d1` of the same community, holding
      some of the same members. */
  ghost predicate RoomsShrink(d1: Directory, d2: Directory)
  {
    forall q | q in d2.rooms ::
      && q in d1.rooms
      && d2.rooms[q].communityId == d1.rooms[q].communityId
      && forall k | k in d2.rooms[q].members :: k in d1.rooms[q].members && d2.rooms[q].members[k] == d1.rooms[q].members[k]
  }

  lemma ShrinkKeepsWellFormed(d1: Directory, d2: Directory)
    requires RoomsWellFormed(d1) && RoomsShrink(d1, d2)
    ensures RoomsWellFormed(d2)
  {
  }

  /** `s` with every occurrence of `x` removed. */
  function Without(s: seq<RoomId>, x: RoomId): (r: seq<RoomId>)
    ensures forall y :: y in r <==> y in s && y != x
  {
    if s == [] then []
    else (if s[0] == x then [] else [s[0]]) + Without(s[1..], x)
  }

  lemma {:induction false} WithoutDistinct(s: seq<RoomId>, x: RoomId)
    requires Distinct(s)
    ensures Distinct(Without(s, x))
  {
    if s != [] {
      var w := Without(s[1..], x);
      assert Distinct(s[1..]);
      WithoutDistinct(s[1..], x);
      if s[0] != x {
        assert s[0] !in s[1..];
        assert s[0] !in w;
        var t: seq<RoomId> := [s[0]] + w;
        assert Without(s, x) == t;
        forall i: int, j: int | 0 <= i < j < |t|
          ensures t[i] != t[j]
        {
          if i > 0 {
            assert t[i] == w[i - 1] && t[j] == w[j - 1];
          }
        }
      }
    }
  }

  // ---------------------------------------------------------------------
  // joinRoom, leaveRoom, pingRoomMember

  /** joinRoom: on an existing room, (over)write the member with a fresh
      timestamp, index the account to the room and drop its ghost entry.
      The account is not taken out of any room it was in before, and `pop`
      is left as it was. */
  function Join(d: Directory, user: User, rid: RoomId, now: int): Directory
  {
    if rid !in d.rooms then d
    else
      var room := d.rooms[rid];
      d.(rooms := d.rooms[rid := room.(members := room.members[user.id := Member(user.id, user.name, now)])],
         userMap := d.userMap[user.id := rid],
         ghosts := d.ghosts - {user.id})
  }

  /** leaveRoom: remove the account from the room `userMap` names, if any. */
  function Leave(d: Directory, user: User): Directory
  {
    if user.id !in d.userMap || d.userMap[user.id] == [] then d
    else
      var rid := d.userMap[user.id];
      if rid !in d.rooms then d
      else
        var room := d.rooms[rid];
        d.(rooms := d.rooms[rid := room.(members := room.members - {user.id})],
           userMap := d.userMap - {user.id})
  }

  /** Set one member's last ping, when the room and the member exist. */
  function Touch(d: Directory, rid: RoomId, k: AccountId, now: int): Directory
  {
    if rid in d.rooms && k in d.rooms[rid].members then
      var room := d.rooms[rid];
      d.(rooms := d.rooms[rid := room.(members := room.members[k := room.members[k].(lastPing := now)])])
    else d
  }

  /** pingRoomMember: an account with no (truthy) indexed room rejoins its
      ghost room, if it has a ghost entry; then the member's last ping in
      that room is refreshed. */
  function Ping(d: Directory, user: User, now: int): Directory
  {
    if user.id in d.userMap && d.userMap[user.id] != [] then
      Touch(d, d.userMap[user.id], user.id, now)
    else if user.id in d.ghosts then
      var rid := d.ghosts[user.id].room;
      Touch(Join(d, user, rid, now), rid, user.id, now)
    else d
  }

  // ---------------------------------------------------------------------
  // cullRooms

  predicate IsStale(m: Member, now: int)
  {
    now - m.lastPing >= MemberTimeout
  }

  predicate KeepsGhost(m: Member, now: int)
  {
    now - m.lastPing < GhostTimeout
  }

  /** The members a cull keeps. */
  function Survivors(ms: map<AccountId, Member>, now: int): map<AccountId, Member>
  {
    map k | k in ms && !IsStale(ms[k], now) :: ms[k]
  }

  /** The members a cull removes. */
  function Dropped(ms: map<AccountId, Member>, now: int): set<AccountId>
  {
    set k | k in ms && IsStale(ms[k], now)
  }

  /** The ghost entries a cull of room `rid` records. */
  function NewGhosts(rid: RoomId, ms: map<AccountId, Member>, now: int): map<AccountId, GhostEntry>
  {
    map k | k in ms && IsStale(ms[k], now) && KeepsGhost(ms[k], now) :: GhostEntry(rid, ms[k].lastPing)
  }

  /** The recount that ends each visit of cullRooms' inner loop: store the
      room's members and their number, or delete the room once it is empty. */
  function Recounted(rooms: map<RoomId, Room>, rid: RoomId, c: int, members: map<AccountId, Member>): map<RoomId, Room>
  {
    if |members| == 0 then rooms - {rid} else rooms[rid := Room(c, |members|, members)]
  }

  function RecountedOrder(order: seq<RoomId>, rid: RoomId, members: map<AccountId, Member>): seq<RoomId>
  {
    if |members| == 0 then Without(order, rid) else order
  }

  /** One pass of cullRooms' inner loop over room `rid`. A room with no
      members is not touched at all, because the recount and the delete
      sit inside the loop over its members. */
  function CullRoom(d: Directory, rid: RoomId, now: int): Directory
  {
    if rid !in d.rooms || d.rooms[rid].members == map[] then d
    else
      var room := d.rooms[rid];
      var live := Survivors(room.members, now);
      var d1 := d.(userMap := d.userMap - Dropped(room.members, now),
                   ghosts := d.ghosts + NewGhosts(rid, room.members, now));
      d1.(rooms := Recounted(d.rooms, rid, room.communityId, live), order := RecountedOrder(d.order, rid, live))
  }

  /** cullRooms' outer loop over the room keys `ids`, first to last. */
  function CullAll(d: Directory, ids: seq<RoomId>, now: int): Directory
    decreases |ids|
  {
    if ids == [] then d
    else CullRoom(CullAll(d, ids[..|ids| - 1], now), ids[|ids| - 1], now)
  }

  /** The ghost entries that survive the final purge. */
  function Purged(g: map<AccountId, GhostEntry>, now: int): map<AccountId, GhostEntry>
  {
    map k | k in g && now - g[k].lastPing < GhostTimeout :: g[k]
  }

  /** cullRooms, with one clock reading `now` for the whole call. */
  function Cull(d: Directory, now: int): Directory
  {
    var d1 := CullAll(d, d.order, now);
    d1.(ghosts := Purged(d1.ghosts, now))
  }

  // ---------------------------------------------------------------------
  // createOrGetRoom and the reads

  predicate OfCommunity(rooms: map<RoomId, Room>, r: RoomId, c: int)
  {
    r in rooms && rooms[r].communityId == c
  }

  /** The index `Array.prototype.find` stops at when it scans `ids` from
      `from` for a room of community `c`; |ids| when there is none. */
  function FindFrom(rooms: map<RoomId, Room>, ids: seq<RoomId>, c: int, from: nat): (j: nat)
    requires from <= |ids|
    ensures from <= j <= |ids|
    ensures j < |ids| ==> OfCommunity(rooms, ids[j], c)
    ensures forall i | from <= i < j :: !OfCommunity(rooms, ids[i], c)
    decreases |ids| - from
  {
    if from == |ids| || OfCommunity(rooms, ids[from], c) then from
    else FindFrom(rooms, ids, c, from + 1)
  }

  /** `Object.keys(rooms).find(r => rooms[r]?.communityId == c)`. */
  function FindRoom(rooms: map<RoomId, Room>, ids: seq<RoomId>, c: int): Option<RoomId>
  {
    var j := FindFrom(rooms, ids, c, 0);
    if j < |ids| then Some(ids[j]) else None
  }

  /** createRoom's key: "c_", the community id in decimal, "_", the clock in hexadecimal. */
  function RoomKey(c: int, now: int): (key: RoomId)
    ensures |key| > 2 && key[..2] == [99, 95]
  {
    [99, 95] + IntText(c, 10) + [95] + IntText(now, 16)
  }

  /** The part of createRoom's key that names the community: "c_<c>_". */
  function KeyPrefix(c: int): Bytes
  {
    [99, 95] + IntText(c, 10) + [95]
  }

  /** Room key `r` starts with the prefix naming community `c`. */
  predicate KeyNames(r: RoomId, c: int)
  {
    |KeyPrefix(c)| <= |r| && r[..|KeyPrefix(c)|] == KeyPrefix(c)
  }

  lemma RoomKeyNames(c: int, now: int)
    ensures KeyNames(RoomKey(c, now), c)
  {
    assert RoomKey(c, now) == KeyPrefix(c) + IntText(now, 16);
  }

  /** Two texts free of `sep`, each framed as "c_" + text + sep at the start
      of `r`, are equal. */
  lemma SeparatorSplit(r: Bytes, a: Bytes, b: Bytes, sep: Byte)
    requires sep !in a && sep !in b
    requires |a| + 3 <= |r| && r[..|a| + 3] == [99, 95] + a + [sep]
    requires |b| + 3 <= |r| && r[..|b| + 3] == [99, 95] + b + [sep]
    ensures a == b
  {
    assert forall i | 0 <= i < |a| :: r[2 + i] == a[i] by {
      forall i | 0 <= i < |a| ensures r[2 + i] == a[i] {
        assert r[..|a| + 3][2 + i] == ([99, 95] + a + [sep])[2 + i];
      }
    }
    assert forall i | 0 <= i < |b| :: r[2 + i] == b[i] by {
      forall i | 0 <= i < |b| ensures r[2 + i] == b[i] {
        assert r[..|b| + 3][2 + i] == ([99, 95] + b + [sep])[2 + i];
      }
    }
    assert r[..|a| + 3][2 + |a|] == sep && r[..|b| + 3][2 + |b|] == sep;
    assert a == r[2..2 + |a|] && b == r[2..2 + |b|];
  }
  /** A room key names one community only: the decimal text is read back
      up to the first "_" after "c_". */
  lemma KeyNamesUnique(r: RoomId, c1: int, c2: int)
    requires KeyNames(r, c1) && KeyNames(r, c2)
    ensures c1 == c2
  {
    IntTextAvoids(c1, 95);
    IntTextAvoids(c2, 95);
    SeparatorSplit(r, IntText(c1, 10), IntText(c2, 10), 95);
    IntTextInjective(c1, c2);
  }

  /** In a consistent directory, a room stored under createRoom's key for
      community `c` belongs to community `c`. */
  lemma KeyCommunity(d: Directory, c: int, now: int)
    requires Consistent(d)
    ensures RoomKey(c, now) in d.rooms ==> d.rooms[RoomKey(c, now)].communityId == c
  {
    var key := RoomKey(c, now);
    RoomKeyNames(c, now);
    if key in d.rooms {
      KeyNamesUnique(key, d.rooms[key].communityId, c);
    }
  }

  /** createOrGetRoom: the first room of the community, or a new empty one. */
  function CreateOrGet(d: Directory, c: int, now: int): (Directory, RoomId)
  {
    var found := FindRoom(d.rooms, d.order, c);
    if found.Some? && found.value != [] then (d, found.value)
    else
      var key := RoomKey(c, now);
      (d.(rooms := d.rooms[key := Room(c, 0, map[])],
          order := if key in d.rooms then d.order else d.order + [key]),
       key)
  }

  /** getOnlineCount: the sum of the recorded `pop` of the community's rooms. */
  function OnlineCount(d: Directory, c: int): int
  {
    SumPop(d.rooms, d.order, c)
  }

  function SumPop(rooms: map<RoomId, Room>, ids: seq<RoomId>, c: int): int
  {
    if ids == [] then 0
    else
      var here := if ids[0] in rooms && rooms[ids[0]].communityId == c then rooms[ids[0]].pop else 0;
      here + SumPop(rooms, ids[1..], c)
  }

  /** getRoomPopulation: the recorded `pop`, 0 for an unknown room. */
  function RoomPopulation(d: Directory, rid: RoomId): int
  {
    if rid in d.rooms then d.rooms[rid].pop else 0
  }

  /** getUserRoomId. */
  function UserRoomId(d: Directory, user: User): Option<RoomId>
  {
    if user.id in d.userMap then Some(d.userMap[user.id]) else None
  }

  /** getRoom. */
  function GetRoom(d: Directory, rid: RoomId): Option<Room>
  {
    if rid in d.rooms then Some(d.rooms[rid]) else None
  }

  // ---------------------------------------------------------------------
  // cullRooms' inner loop, part way through: `pending` are the members
  // not yet visited

  function SurvivorsSoFar(ms: map<AccountId, Member>, pending: set<AccountId>, now: int): map<AccountId, Member>
  {
    map k | k in ms && (k in pending || !IsStale(ms[k], now)) :: ms[k]
  }

  function DroppedSoFar(ms: map<AccountId, Member>, pending: set<AccountId>, now: int): set<AccountId>
  {
    set k | k in ms && k !in pending && IsStale(ms[k], now)
  }

  function GhostsSoFar(rid: RoomId, ms: map<AccountId, Member>, pending: set<AccountId>, now: int): map<AccountId, GhostEntry>
  {
    map k | k in ms && k !in pending && IsStale(ms[k], now) && KeepsGhost(ms[k], now) :: GhostEntry(rid, ms[k].lastPing)
  }

  /** Visiting member `k` removes it exactly when it is stale, and records a
      ghost exactly when it is stale but heard from within 30 s. */
  lemma CullVisit(rid: RoomId, ms: map<AccountId, Member>, pending: set<AccountId>, k: AccountId, now: int)
    requires k in pending && k in ms
    ensures IsStale(ms[k], now) ==>
      && SurvivorsSoFar(ms, pending - {k}, now) == SurvivorsSoFar(ms, pending, now) - {k}
      && DroppedSoFar(ms, pending - {k}, now) == DroppedSoFar(ms, pending, now) + {k}
    ensures !IsStale(ms[k], now) ==>
      && SurvivorsSoFar(ms, pending - {k}, now) == SurvivorsSoFar(ms, pending, now)
      && DroppedSoFar(ms, pending - {k}, now) == DroppedSoFar(ms, pending, now)
    ensures IsStale(ms[k], now) && KeepsGhost(ms[k], now) ==>
      GhostsSoFar(rid, ms, pending - {k}, now) == GhostsSoFar(rid, ms, pending, now)[k := GhostEntry(rid, ms[k].lastPing)]
    ensures !(IsStale(ms[k], now) && KeepsGhost(ms[k], now)) ==>
      GhostsSoFar(rid, ms, pending - {k}, now) == GhostsSoFar(rid, ms, pending, now)
  {
  }

  lemma RemoveOneMore<K, V>(u: map<K, V>, gone: set<K>, k: K)
    ensures (u - gone) - {k} == u - (gone + {k})
  {
  }

  lemma AddOneMore<K, V>(g: map<K, V>, added: map<K, V>, k: K, v: V)
    ensures (g + added)[k := v] == g + added[k := v]
  {
  }

  /** Recounting again overrides an earlier recount that kept the room. */
  lemma RecountAgain(r0: map<RoomId, Room>, rid: RoomId, c: int, m1: map<AccountId, Member>, m2: map<AccountId, Member>)
    requires |m1| != 0
    ensures Recounted(Recounted(r0, rid, c, m1), rid, c, m2) == Recounted(r0, rid, c, m2)
  {
  }

  lemma CullVisitBounds(rid: RoomId, ms: map<AccountId, Member>, now: int)
    ensures SurvivorsSoFar(ms, ms.Keys, now) == ms
    ensures DroppedSoFar(ms, ms.Keys, now) == {}
    ensures GhostsSoFar(rid, ms, ms.Keys, now) == map[]
    ensures SurvivorsSoFar(ms, {}, now) == Survivors(ms, now)
    ensures DroppedSoFar(ms, {}, now) == Dropped(ms, now)
    ensures GhostsSoFar(rid, ms, {}, now) == NewGhosts(rid, ms, now)
  {
  }

  /** One visit of cullRooms' inner loop to member `k` of room `rid` (of
      community `c`), whose members are `members` at that point: a stale
      member leaves the room and `userMap`, with a ghost entry if it was
      heard from within 30 s; then the room is recounted. */
  function VisitStep(d: Directory, rid: RoomId, c: int, members: map<AccountId, Member>, k: AccountId, now: int): Directory
    requires k in members
  {
    var m := members[k];
    var after := if IsStale(m, now) then members - {k} else members;
    Directory(
      Recounted(d.rooms, rid, c, after),
      RecountedOrder(d.order, rid, after),
      if IsStale(m, now) then d.userMap - {k} else d.userMap,
      if IsStale(m, now) && KeepsGhost(m, now) then d.ghosts[k := GhostEntry(rid, m.lastPing)] else d.ghosts)
  }

  /** The directory part way through cullRooms' inner loop over room `rid`,
      whose members were `ms` when the loop began, with the members in
      `pending` still to visit. */
  function Midway(d0: Directory, rid: RoomId, c: int, ms: map<AccountId, Member>, pending: set<AccountId>, now: int): Directory
  {
    if pending == ms.Keys then d0
    else
      var members := SurvivorsSoFar(ms, pending, now);
      Directory(
        Recounted(d0.rooms, rid, c, members),
        RecountedOrder(d0.order, rid, members),
        d0.userMap - DroppedSoFar(ms, pending, now),
        d0.ghosts + GhostsSoFar(rid, ms, pending, now))
  }

  lemma MidwayStep(d0: Directory, rid: RoomId, c: int, ms: map<AccountId, Member>, pending: set<AccountId>,
                   k: AccountId, now: int)
    requires pending <= ms.Keys && k in pending
    ensures k in SurvivorsSoFar(ms, pending, now) && SurvivorsSoFar(ms, pending, now)[k] == ms[k]
    ensures SurvivorsSoFar(ms, pending - {k}, now) ==
      if IsStale(ms[k], now) then SurvivorsSoFar(ms, pending, now) - {k} else SurvivorsSoFar(ms, pending, now)
    ensures VisitStep(Midway(d0, rid, c, ms, pending, now), rid, c, SurvivorsSoFar(ms, pending, now), k, now)
         == Midway(d0, rid, c, ms, pending - {k}, now)
  {
    CullVisit(rid, ms, pending, k, now);
    CullVisitBounds(rid, ms, now);
    var members := SurvivorsSoFar(ms, pending, now);
    var after := SurvivorsSoFar(ms, pending - {k}, now);
    var gone := DroppedSoFar(ms, pending, now);
    var added := GhostsSoFar(rid, ms, pending, now);
    var e := GhostEntry(rid, ms[k].lastPing);
    RemoveOneMore(d0.userMap, gone, k);
    AddOneMore(d0.ghosts, added, k, e);
    assert d0.userMap - {} == d0.userMap && d0.ghosts + map[] == d0.ghosts;
    if pending != ms.Keys {
      RecountAgain(d0.rooms, rid, c, members, after);
    }
  }

  lemma MidwayEnd(d0: Directory, rid: RoomId, now: int)
    requires rid in d0.rooms
    ensures var room := d0.rooms[rid];
      Midway(d0, rid, room.communityId, room.members, {}, now) == CullRoom(d0, rid, now)
  {
    CullVisitBounds(rid, d0.rooms[rid].members, now);
  }

  // ---------------------------------------------------------------------
  // What a cull does

  /** A room after the cull: untouched if it had no members; otherwise
      holding its non-stale members with `pop` their number, or gone if
      none is left. */
  function CulledRoom(room: Room, now: int): Option<Room>
  {
    if room.members == map[] then Some(room)
    else
      var live := Survivors(room.members, now);
      if |live| == 0 then None else Some(Room(room.communityId, |live|, live))
  }

  /** The accounts the cull of rooms `ids` drops from `userMap`: those
      stale in any of those rooms. */
  function StaleAccounts(d: Directory, ids: seq<RoomId>, now: int): set<AccountId>
    decreases |ids|
  {
    if ids == [] then {}
    else
      var q := ids[|ids| - 1];
      StaleAccounts(d, ids[..|ids| - 1], now) + (if q in d.rooms then Dropped(d.rooms[q].members, now) else {})
  }

  /** The ghost entries the cull of rooms `ids` records; where an account
      is stale in several rooms, the room visited last wins. */
  function GhostsFrom(d: Directory, ids: seq<RoomId>, now: int): map<AccountId, GhostEntry>
    decreases |ids|
  {
    if ids == [] then map[]
    else
      var q := ids[|ids| - 1];
      GhostsFrom(d, ids[..|ids| - 1], now) + (if q in d.rooms then NewGhosts(q, d.rooms[q].members, now) else map[])
  }

  /** One room's cull, on the rooms. */
  lemma CullRoomEffect(d: Directory, rid: RoomId, now: int)
    ensures var r := CullRoom(d, rid, now);
      && GetRoom(r, rid) == (if rid in d.rooms then CulledRoom(d.rooms[rid], now) else None)
      && (forall q | q != rid :: GetRoom(r, q) == GetRoom(d, q))
  {
  }

  /** One room's cull, on `userMap` and the ghost entries. */
  lemma CullRoomMaps(d: Directory, rid: RoomId, now: int)
    ensures var r := CullRoom(d, rid, now);
      && r.userMap == d.userMap - (if rid in d.rooms then Dropped(d.rooms[rid].members, now) else {})
      && r.ghosts == d.ghosts + (if rid in d.rooms then NewGhosts(rid, d.rooms[rid].members, now) else map[])
  {
    if rid in d.rooms && d.rooms[rid].members == map[] {
      var ms := d.rooms[rid].members;
      assert Dropped(ms, now) == {} && NewGhosts(rid, ms, now) == map[];
      assert d.userMap - {} == d.userMap && d.ghosts + map[] == d.ghosts;
    }
  }

  /** The outer loop of the cull, room by room: each room of `ids` is
      culled as CulledRoom says and every other room is untouched. */
  lemma {:induction false} CullAllRooms(d: Directory, ids: seq<RoomId>, now: int)
    requires Distinct(ids)
    ensures forall q | q in ids :: GetRoom(CullAll(d, ids, now), q) == if q in d.rooms then CulledRoom(d.rooms[q], now) else None
    ensures forall q | q !in ids :: GetRoom(CullAll(d, ids, now), q) == GetRoom(d, q)
    decreases |ids|
  {
    if ids != [] {
      var front, q := ids[..|ids| - 1], ids[|ids| - 1];
      assert Distinct(front);
      CullAllRooms(d, front, now);
      var p := CullAll(d, front, now);
      var r := CullRoom(p, q, now);
      CullRoomEffect(p, q, now);
      assert q !in front;
      assert GetRoom(p, q) == GetRoom(d, q);
      forall x | x in ids
        ensures GetRoom(r, x) == if x in d.rooms then CulledRoom(d.rooms[x], now) else None
      {
        if x != q {
          assert x in front;
        }
      }
      forall x | x !in ids
        ensures GetRoom(r, x) == GetRoom(d, x)
      {
        assert x != q && x !in front;
      }
    }
  }

  /** The rooms of `ids` are untouched by the cull of the rooms before them. */
  lemma CullAllBefore(d: Directory, ids: seq<RoomId>, now: int)
    requires Distinct(ids) && ids != []
    ensures var q := ids[|ids| - 1];
      GetRoom(CullAll(d, ids[..|ids| - 1], now), q) == GetRoom(d, q)
  {
    var front := ids[..|ids| - 1];
    assert Distinct(front);
    CullAllRooms(d, front, now);
  }

  /** The outer loop drops from `userMap` exactly the accounts stale in one
      of the rooms `ids`. */
  lemma {:induction false} CullAllUsers(d: Directory, ids: seq<RoomId>, now: int)
    requires Distinct(ids)
    ensures CullAll(d, ids, now).userMap == d.userMap - StaleAccounts(d, ids, now)
    decreases |ids|
  {
    if ids == [] {
      assert d.userMap - {} == d.userMap;
    } else {
      var front, q := ids[..|ids| - 1], ids[|ids| - 1];
      assert Distinct(front);
      CullAllUsers(d, front, now);
      CullAllBefore(d, ids, now);
      var p := CullAll(d, front, now);
      CullRoomMaps(p, q, now);
      var gone := if q in d.rooms then Dropped(d.rooms[q].members, now) else {};
      assert CullRoom(p, q, now).userMap == p.userMap - gone;
      assert (d.userMap - StaleAccounts(d, front, now)) - gone == d.userMap - (StaleAccounts(d, front, now) + gone);
    }
  }

  /** The outer loop adds the ghost entries of the rooms `ids`, later rooms
      overriding earlier ones. */
  lemma {:induction false} CullAllGhosts(d: Directory, ids: seq<RoomId>, now: int)
    requires Distinct(ids)
    ensures CullAll(d, ids, now).ghosts == d.ghosts + GhostsFrom(d, ids, now)
    decreases |ids|
  {
    if ids == [] {
      assert d.ghosts + map[] == d.ghosts;
    } else {
      var front, q := ids[..|ids| - 1], ids[|ids| - 1];
      assert Distinct(front);
      CullAllGhosts(d, front, now);
      CullAllBefore(d, ids, now);
      var p := CullAll(d, front, now);
      CullRoomMaps(p, q, now);
      var added := if q in d.rooms then NewGhosts(q, d.rooms[q].members, now) else map[];
      assert CullRoom(p, q, now).ghosts == p.ghosts + added;
      MergeAssociates(d.ghosts, GhostsFrom(d, front, now), added);
    }
  }

  lemma MergeAssociates<K, V>(a: map<K, V>, b: map<K, V>, c: map<K, V>)
    ensures (a + b) + c == a + (b + c)
  {
  }

  /** Account `k` is a member of room `q` silent for 5 s or more. */
  ghost predicate StaleMember(d: Directory, q: RoomId, k: AccountId, now: int)
  {
    q in d.rooms && k in d.rooms[q].members && IsStale(d.rooms[q].members[k], now)
  }

  /** ... and heard from within 30 s, so the cull leaves a ghost entry. */
  ghost predicate GhostEligible(d: Directory, q: RoomId, k: AccountId, now: int)
  {
    StaleMember(d, q, k, now) && KeepsGhost(d.rooms[q].members[k], now)
  }

  lemma {:induction false} StaleAccountsAre(d: Directory, ids: seq<RoomId>, now: int)
    ensures forall k :: k in StaleAccounts(d, ids, now) <==> exists q | q in ids :: StaleMember(d, q, k, now)
    decreases |ids|
  {
    if ids != [] {
      var front, q := ids[..|ids| - 1], ids[|ids| - 1];
      StaleAccountsAre(d, front, now);
      forall k
        ensures k in StaleAccounts(d, ids, now) <==> exists x | x in ids :: StaleMember(d, x, k, now)
      {
        if k in StaleAccounts(d, front, now) {
          var x :| x in front && StaleMember(d, x, k, now);
          assert x in ids;
        } else if k in StaleAccounts(d, ids, now) {
          assert StaleMember(d, q, k, now) && q in ids;
        }
        if exists x | x in ids :: StaleMember(d, x, k, now) {
          var x :| x in ids && StaleMember(d, x, k, now);
          if x != q {
            assert x in front;
          } else {
            assert k in Dropped(d.rooms[q].members, now);
          }
        }
      }
    }
  }

  lemma {:induction false} GhostsFromAre(d: Directory, ids: seq<RoomId>, now: int)
    ensures forall k :: k in GhostsFrom(d, ids, now) <==> exists q | q in ids :: GhostEligible(d, q, k, now)
    ensures forall k | k in GhostsFrom(d, ids, now) ::
      var g := GhostsFrom(d, ids, now)[k];
      g.room in ids && GhostEligible(d, g.room, k, now) && g.lastPing == d.rooms[g.room].members[k].lastPing
    decreases |ids|
  {
    if ids != [] {
      var front, q := ids[..|ids| - 1], ids[|ids| - 1];
      GhostsFromAre(d, front, now);
      forall k
        ensures k in GhostsFrom(d, ids, now) <==> exists x | x in ids :: GhostEligible(d, x, k, now)
      {
        if k in GhostsFrom(d, front, now) {
          var x :| x in front && GhostEligible(d, x, k, now);
          assert x in ids;
        } else if k in GhostsFrom(d, ids, now) {
          assert GhostEligible(d, q, k, now) && q in ids;
        }
        if exists x | x in ids :: GhostEligible(d, x, k, now) {
          var x :| x in ids && GhostEligible(d, x, k, now);
          if x != q {
            assert x in front;
          } else {
            assert k in NewGhosts(q, d.rooms[q].members, now);
          }
        }
      }
      forall k | k in GhostsFrom(d, ids, now)
        ensures GhostsFrom(d, ids, now)[k].room in ids
      {
        if GhostsFrom(d, ids, now)[k].room != q {
          assert GhostsFrom(d, ids, now)[k].room in front;
        }
      }
    }
  }

  /** cullRooms on the rooms, room by room, as CulledRoom says. */
  lemma CullRoomByRoom(d: Directory, now: int)
    requires Consistent(d)
    ensures var r := Cull(d, now);
      && (forall q | q in d.rooms :: GetRoom(r, q) == CulledRoom(d.rooms[q], now))
      && r.rooms.Keys <= d.rooms.Keys
  {
    var r := Cull(d, now);
    CullAllRooms(d, d.order, now);
    forall q | q in d.rooms
      ensures GetRoom(r, q) == CulledRoom(d.rooms[q], now)
    {
      assert q in d.order;
    }
    forall q | q !in d.rooms
      ensures q !in r.rooms
    {
      assert q !in d.order;
      assert GetRoom(r, q) == GetRoom(d, q);
    }
  }

  /** cullRooms on the rooms:
      - a room with no members at the start is left exactly as it was;
      - every other room keeps exactly its members heard from within 5 s,
        its `pop` becomes their number, and it is deleted if none is left;
      - no room is created. */
  lemma CullRooms(d: Directory, now: int)
    requires Consistent(d)
    ensures var r := Cull(d, now);
      && (forall q | q in d.rooms && d.rooms[q].members == map[] :: q in r.rooms && r.rooms[q] == d.rooms[q])
      && (forall q | q in d.rooms && d.rooms[q].members != map[] ::
            && RoomPopulation(r, q) == |Survivors(d.rooms[q].members, now)|
            && (q in r.rooms <==> Survivors(d.rooms[q].members, now) != map[])
            && (q in r.rooms ==> r.rooms[q].members == Survivors(d.rooms[q].members, now)
                                 && r.rooms[q].communityId == d.rooms[q].communityId))
      && r.rooms.Keys <= d.rooms.Keys
  {
    CullRoomByRoom(d, now);
    var r := Cull(d, now);
    forall q | q in d.rooms && d.rooms[q].members != map[]
      ensures && RoomPopulation(r, q) == |Survivors(d.rooms[q].members, now)|
              && (q in r.rooms <==> Survivors(d.rooms[q].members, now) != map[])
              && (q in r.rooms ==> r.rooms[q].members == Survivors(d.rooms[q].members, now)
                                   && r.rooms[q].communityId == d.rooms[q].communityId)
    {
      assert GetRoom(r, q) == CulledRoom(d.rooms[q], now);
    }
  }

  /** cullRooms on `userMap`: it loses exactly the accounts stale in some
      room, and the others keep their entries. */
  lemma CullIndex(d: Directory, now: int)
    requires Consistent(d)
    ensures var r := Cull(d, now);
      && (forall k :: k in r.userMap <==> k in d.userMap && !exists q :: StaleMember(d, q, k, now))
      && (forall k | k in r.userMap :: r.userMap[k] == d.userMap[k])
  {
    CullAllUsers(d, d.order, now);
    StaleAccountsAre(d, d.order, now);
  }

  /** cullRooms on the ghost entries: afterwards an account has one exactly
      when it was stale but heard from within 30 s in some room (the entry
      then names such a room and its last ping there), or it had a ghost
      entry heard from within 30 s that this cull did not replace; every
      ghost entry left is under 30 s old. */
  lemma CullGhosts(d: Directory, now: int)
    requires Consistent(d)
    ensures var r := Cull(d, now);
      && (forall k :: k in r.ghosts <==>
            (exists q :: GhostEligible(d, q, k, now)) || (k in d.ghosts && now - d.ghosts[k].lastPing < GhostTimeout))
      && (forall k | k in r.ghosts && exists q :: GhostEligible(d, q, k, now) ::
            GhostEligible(d, r.ghosts[k].room, k, now)
            && r.ghosts[k].lastPing == d.rooms[r.ghosts[k].room].members[k].lastPing)
      && (forall k | k in r.ghosts && !exists q :: GhostEligible(d, q, k, now) :: r.ghosts[k] == d.ghosts[k])
      && (forall k | k in r.ghosts :: now - r.ghosts[k].lastPing < GhostTimeout)
  {
    var g := GhostsFrom(d, d.order, now);
    CullAllGhosts(d, d.order, now);
    GhostsFromAre(d, d.order, now);
    assert Cull(d, now).ghosts == Purged(d.ghosts + g, now);
    PurgedMerge(d.ghosts, g, now);
  }

  /** Purging the ghost entries after a cull keeps every new entry (each is
      under 30 s old) and the old entries under 30 s old that were not
      replaced. */
  lemma PurgedMerge(old_: map<AccountId, GhostEntry>, added: map<AccountId, GhostEntry>, now: int)
    requires forall k | k in added :: now - added[k].lastPing < GhostTimeout
    ensures forall k :: k in Purged(old_ + added, now) <==>
      k in added || (k in old_ && now - old_[k].lastPing < GhostTimeout)
    ensures forall k | k in Purged(old_ + added, now) ::
      Purged(old_ + added, now)[k] == if k in added then added[k] else old_[k]
  {
  }

  // ---------------------------------------------------------------------
  // What join, leave and ping do

  /** joinRoom on an existing room makes the account a member with a fresh
      timestamp, indexes it to the room and clears its ghost entry; other
      rooms, other accounts and the room's `pop` are unchanged. On a missing
      room nothing changes. */
  lemma JoinEffect(d: Directory, user: User, rid: RoomId, now: int)
    ensures rid !in d.rooms ==> Join(d, user, rid, now) == d
    ensures rid in d.rooms ==> var r := Join(d, user, rid, now);
      && r.rooms.Keys == d.rooms.Keys && r.order == d.order
      && r.rooms[rid].members == d.rooms[rid].members[user.id := Member(user.id, user.name, now)]
      && r.rooms[rid].pop == d.rooms[rid].pop && r.rooms[rid].communityId == d.rooms[rid].communityId
      && (forall q | q in d.rooms && q != rid :: r.rooms[q] == d.rooms[q])
      && UserRoomId(r, user) == Some(rid)
      && (forall k | k != user.id :: UserRoomId(r, User(k, user.name)) == UserRoomId(d, User(k, user.name)))
      && user.id !in r.ghosts && (forall k | k != user.id && k in d.ghosts :: k in r.ghosts && r.ghosts[k] == d.ghosts[k])
  {
  }

  /** joinRoom does not take the account out of the room it was in: after
      joining a second room it is a member of both. */
  lemma JoinKeepsEarlierMembership(d: Directory, user: User, a: RoomId, b: RoomId, now: int)
    requires a in d.rooms && user.id in d.rooms[a].members && b in d.rooms && a != b
    ensures var r := Join(d, user, b, now);
      user.id in r.rooms[a].members && user.id in r.rooms[b].members && UserRoomId(r, user) == Some(b)
  {
  }

  /** leaveRoom removes an indexed account from its room and from the index,
      and changes nothing else; an account not indexed changes nothing. */
  lemma LeaveEffect(d: Directory, user: User)
    requires Consistent(d)
    ensures user.id !in d.userMap ==> Leave(d, user) == d
    ensures user.id in d.userMap ==> var rid := d.userMap[user.id]; var r := Leave(d, user);
      && UserRoomId(r, user) == None
      && r.rooms == d.rooms[rid := d.rooms[rid].(members := d.rooms[rid].members - {user.id})]
      && r.order == d.order && r.ghosts == d.ghosts
      && r.userMap == d.userMap - {user.id}
  {
    if user.id in d.userMap {
      assert KeyNames(d.userMap[user.id], d.rooms[d.userMap[user.id]].communityId);
    }
  }

  /** pingRoomMember for an account indexed to a room only refreshes its
      last ping there; the member's name and everything else stay. */
  lemma PingRefreshes(d: Directory, user: User, now: int)
    requires Consistent(d) && user.id in d.userMap
    ensures var rid := d.userMap[user.id]; var room := d.rooms[rid];
      Ping(d, user, now) ==
        d.(rooms := d.rooms[rid := room.(members := room.members[user.id := room.members[user.id].(lastPing := now)])])
  {
    assert KeyNames(d.userMap[user.id], d.rooms[d.userMap[user.id]].communityId);
  }

  /** pingRoomMember for an account with no indexed room but a ghost entry
      whose room still exists rejoins that room with a fresh timestamp and
      clears the ghost entry. */
  lemma PingRejoinsGhost(d: Directory, user: User, now: int)
    requires user.id !in d.userMap && user.id in d.ghosts && d.ghosts[user.id].room in d.rooms
    ensures var rid := d.ghosts[user.id].room; var r := Ping(d, user, now);
      && rid in r.rooms && user.id in r.rooms[rid].members
      && r.rooms[rid].members[user.id] == Member(user.id, user.name, now)
      && UserRoomId(r, user) == Some(rid) && user.id !in r.ghosts
  {
  }

  /** pingRoomMember for an account with no indexed room and either no ghost
      entry or one whose room is gone changes nothing. */
  lemma PingWithoutRoom(d: Directory, user: User, now: int)
    requires user.id !in d.userMap
    requires user.id !in d.ghosts || d.ghosts[user.id].room !in d.rooms
    ensures Ping(d, user, now) == d
  {
  }

  /** Refreshing a member twice is refreshing it once, at the later time. */
  lemma TouchTwice(d: Directory, rid: RoomId, k: AccountId, t1: int, t2: int)
    ensures Touch(Touch(d, rid, k, t1), rid, k, t2) == Touch(d, rid, k, t2)
  {
    if rid in d.rooms && k in d.rooms[rid].members {
      var room := d.rooms[rid];
      assert room.members[k := room.members[k].(lastPing := t1)][k := room.members[k].(lastPing := t2)]
          == room.members[k := room.members[k].(lastPing := t2)];
    }
  }

  /** Refreshing a member just joined sets the time of the join. */
  lemma TouchAfterJoin(d: Directory, user: User, rid: RoomId, t1: int, t2: int)
    ensures Touch(Join(d, user, rid, t1), rid, user.id, t2) == Join(d, user, rid, t2)
  {
    if rid in d.rooms {
      var room := d.rooms[rid];
      assert room.members[user.id := Member(user.id, user.name, t1)][user.id := Member(user.id, user.name, t2)]
          == room.members[user.id := Member(user.id, user.name, t2)];
    }
  }

  /** Pinging twice is pinging once, at the later time. */
  lemma PingIdempotent(d: Directory, user: User, t1: int, t2: int)
    requires Consistent(d)
    ensures Ping(Ping(d, user, t1), user, t2) == Ping(d, user, t2)
  {
    if user.id in d.userMap && d.userMap[user.id] != [] {
      TouchTwice(d, d.userMap[user.id], user.id, t1, t2);
    } else if user.id in d.ghosts {
      var rid := d.ghosts[user.id].room;
      TouchAfterJoin(d, user, rid, t1, t1);
      TouchAfterJoin(d, user, rid, t1, t2);
      TouchAfterJoin(d, user, rid, t2, t2);
      if rid in d.rooms {
        assert KeyNames(rid, d.rooms[rid].communityId);
      }
    }
  }

  // ---------------------------------------------------------------------
  // createOrGetRoom and getOnlineCount

  /** When the community already has a room, createOrGetRoom returns the
      first one in key order and changes nothing. */
  lemma CreateOrGetFinds(d: Directory, c: int, now: int, j: nat)
    requires Consistent(d)
    requires j < |d.order| && d.rooms[d.order[j]].communityId == c
    ensures var (r, rid) := CreateOrGet(d, c, now);
      && r == d && rid in d.rooms && d.rooms[rid].communityId == c
      && exists i | 0 <= i <= j :: d.order[i] == rid && forall h | 0 <= h < i :: d.rooms[d.order[h]].communityId != c
  {
    var i := FindFrom(d.rooms, d.order, c, 0);
    assert i <= j;
    assert KeyNames(d.order[i], d.rooms[d.order[i]].communityId);
    forall h | 0 <= h < i
      ensures d.rooms[d.order[h]].communityId != c
    {
      assert !OfCommunity(d.rooms, d.order[h], c);
    }
  }

  /** When the community has no room, createOrGetRoom adds an empty room of
      that community with `pop` 0 under the key "c_<c>_<now in hex>", at the
      end of the key order; nothing else changes. */
  lemma CreateOrGetCreates(d: Directory, c: int, now: int)
    requires Consistent(d)
    requires forall r | r in d.rooms :: d.rooms[r].communityId != c
    ensures var (r, rid) := CreateOrGet(d, c, now);
      && rid == RoomKey(c, now) && rid !in d.rooms
      && r.rooms == d.rooms[rid := Room(c, 0, map[])]
      && r.order == d.order + [rid]
      && r.userMap == d.userMap && r.ghosts == d.ghosts
  {
    var i := FindFrom(d.rooms, d.order, c, 0);
    assert i == |d.order|;
    KeyCommunity(d, c, now);
  }

  /** createOrGetRoom always names a room of the community. */
  lemma CreateOrGetNamesCommunityRoom(d: Directory, c: int, now: int)
    requires Consistent(d)
    ensures var (r, rid) := CreateOrGet(d, c, now);
      rid in r.rooms && r.rooms[rid].communityId == c
  {
  }

  /** A second createOrGetRoom for the same community returns the room the
      first one returned and changes nothing, whatever the clock says. */
  lemma CreateOrGetIdempotent(d: Directory, c: int, t1: int, t2: int)
    requires Consistent(d)
    ensures var (r, rid) := CreateOrGet(d, c, t1);
      CreateOrGet(r, c, t2) == (r, rid)
  {
    var (r, rid) := CreateOrGet(d, c, t1);
    CreateOrGetPreservesConsistent(d, c, t1);
    var i := FindFrom(d.rooms, d.order, c, 0);
    if i < |d.order| {
      CreateOrGetFinds(d, c, t1, i);
      CreateOrGetFinds(r, c, t2, i);
    } else {
      forall q | q in d.rooms
        ensures d.rooms[q].communityId != c
      {
        var h :| 0 <= h < |d.order| && d.order[h] == q;
        assert !OfCommunity(d.rooms, d.order[h], c);
      }
      CreateOrGetCreates(d, c, t1);
      var k := |d.order|;
      assert r.order[k] == rid;
      CreateOrGetFinds(r, c, t2, k);
      forall h | 0 <= h < k
        ensures r.rooms[r.order[h]].communityId != c
      {
        assert r.order[h] == d.order[h];
      }
    }
  }

  /** getOnlineCount reads the recorded `pop` of each room, so it does not
      move while rooms keep their keys, communities and `pop`. */
  lemma {:induction false} SumPopSame(a: map<RoomId, Room>, b: map<RoomId, Room>, ids: seq<RoomId>, c: int)
    requires forall r | r in ids :: (r in a <==> r in b)
    requires forall r | r in ids && r in a :: a[r].pop == b[r].pop && a[r].communityId == b[r].communityId
    ensures SumPop(a, ids, c) == SumPop(b, ids, c)
  {
    if ids != [] {
      SumPopSame(a, b, ids[1..], c);
    }
  }

  lemma {:induction false} SumPopAppend(rooms: map<RoomId, Room>, ids: seq<RoomId>, k: RoomId, c: int)
    ensures SumPop(rooms, ids + [k], c) ==
      SumPop(rooms, ids, c) + if k in rooms && rooms[k].communityId == c then rooms[k].pop else 0
  {
    if ids == [] {
      assert ids + [k] == [k];
    } else {
      assert (ids + [k])[1..] == ids[1..] + [k];
      SumPopAppend(rooms, ids[1..], k, c);
    }
  }

  /** Joining, leaving and pinging never change getOnlineCount: only the
      cull writes `pop`. */
  lemma OnlineCountIgnoresMembership(d: Directory, user: User, rid: RoomId, now: int, c: int)
    ensures OnlineCount(Join(d, user, rid, now), c) == OnlineCount(d, c)
    ensures OnlineCount(Leave(d, user), c) == OnlineCount(d, c)
    ensures OnlineCount(Ping(d, user, now), c) == OnlineCount(d, c)
  {
    SumPopSame(Join(d, user, rid, now).rooms, d.rooms, d.order, c);
    SumPopSame(Leave(d, user).rooms, d.rooms, d.order, c);
    var p := Ping(d, user, now);
    if user.id in d.userMap && d.userMap[user.id] != [] {
      SumPopSame(p.rooms, d.rooms, d.order, c);
    } else if user.id in d.ghosts {
      var j := Join(d, user, d.ghosts[user.id].room, now);
      SumPopSame(p.rooms, j.rooms, d.order, c);
      SumPopSame(j.rooms, d.rooms, d.order, c);
    }
  }

  /** A room created by createOrGetRoom starts with `pop` 0, so the online
      count does not change either. */
  lemma OnlineCountIgnoresCreate(d: Directory, c: int, now: int, c': int)
    requires Consistent(d)
    ensures OnlineCount(CreateOrGet(d, c, now).0, c') == OnlineCount(d, c')
  {
    var found := FindRoom(d.rooms, d.order, c);
    if !(found.Some? && found.value != []) {
      var r := CreateOrGet(d, c, now).0;
      var key := RoomKey(c, now);
      KeyCommunity(d, c, now);
      if key in d.rooms {
        assert OfCommunity(d.rooms, key, c);
        SumPopSame(r.rooms, d.rooms, d.order, c');
      } else {
        SumPopAppend(r.rooms, d.order, key, c');
        SumPopSame(r.rooms, d.rooms, d.order, c');
      }
    }
  }

  // ---------------------------------------------------------------------
  // Ghost rejoin

  /** The grace period at work: a member of one room only who falls silent
      for 5 to 30 s, in a room another member keeps alive, is culled to a
      ghost entry for that room; its next heartbeat puts it back in the
      same room with a fresh timestamp. */
  lemma GhostRejoin(d: Directory, user: User, rid: RoomId, other: AccountId, t1: int, t2: int)
    requires Consistent(d)
    requires rid in d.rooms && user.id in d.rooms[rid].members
    requires forall q | q in d.rooms && q != rid :: user.id !in d.rooms[q].members
    requires var m := d.rooms[rid].members[user.id]; IsStale(m, t1) && KeepsGhost(m, t1)
    requires other in d.rooms[rid].members && !IsStale(d.rooms[rid].members[other], t1)
    ensures var d1 := Cull(d, t1);
      && UserRoomId(d1, user) == None
      && user.id in d1.ghosts && d1.ghosts[user.id] == GhostEntry(rid, d.rooms[rid].members[user.id].lastPing)
      && var d2 := Ping(d1, user, t2);
         && rid in d2.rooms && user.id in d2.rooms[rid].members
         && d2.rooms[rid].members[user.id] == Member(user.id, user.name, t2)
         && UserRoomId(d2, user) == Some(rid) && user.id !in d2.ghosts
  {
    var d1 := Cull(d, t1);
    CullRooms(d, t1);
    CullIndex(d, t1);
    CullGhosts(d, t1);
    assert GhostEligible(d, rid, user.id, t1);
    assert StaleMember(d, rid, user.id, t1);
    assert other in Survivors(d.rooms[rid].members, t1);
    assert rid in d1.rooms;
    PingRejoinsGhost(d1, user, t2);
  }

  /** ... but a member who was alone in its room loses the room with the
      cull, so the ghost entry left behind can never bring it back: its
      heartbeats change nothing. */
  lemma LoneGhostCannotRejoin(d: Directory, user: User, rid: RoomId, t1: int, t2: int)
    requires Consistent(d)
    requires rid in d.rooms && d.rooms[rid].members.Keys == {user.id}
    requires forall q | q in d.rooms && q != rid :: user.id !in d.rooms[q].members
    requires var m := d.rooms[rid].members[user.id]; IsStale(m, t1) && KeepsGhost(m, t1)
    ensures var d1 := Cull(d, t1);
      && rid !in d1.rooms
      && user.id in d1.ghosts && d1.ghosts[user.id].room == rid
      && Ping(d1, user, t2) == d1
  {
    var d1 := Cull(d, t1);
    CullRooms(d, t1);
    CullIndex(d, t1);
    CullGhosts(d, t1);
    assert GhostEligible(d, rid, user.id, t1);
    assert StaleMember(d, rid, user.id, t1);
    assert Survivors(d.rooms[rid].members, t1) == map[];
    PingWithoutRoom(d1, user, t2);
  }

  // ---------------------------------------------------------------------
  // The directory stays consistent

  lemma JoinPreservesConsistent(d: Directory, user: User, rid: RoomId, now: int)
    requires Consistent(d)
    ensures Consistent(Join(d, user, rid, now))
  {
  }

  lemma LeavePreservesConsistent(d: Directory, user: User)
    requires Consistent(d)
    ensures Consistent(Leave(d, user))
  {
  }

  lemma TouchPreservesConsistent(d: Directory, rid: RoomId, k: AccountId, now: int)
    requires Consistent(d)
    ensures Consistent(Touch(d, rid, k, now))
  {
  }

  lemma PingPreservesConsistent(d: Directory, user: User, now: int)
    requires Consistent(d)
    ensures Consistent(Ping(d, user, now))
  {
    if user.id in d.userMap && d.userMap[user.id] != [] {
      TouchPreservesConsistent(d, d.userMap[user.id], user.id, now);
    } else if user.id in d.ghosts {
      var rid := d.ghosts[user.id].room;
      JoinPreservesConsistent(d, user, rid, now);
      TouchPreservesConsistent(Join(d, user, rid, now), rid, user.id, now);
    }
  }

  lemma CullRoomPreservesConsistent(d: Directory, rid: RoomId, now: int)
    requires Consistent(d)
    ensures Consistent(CullRoom(d, rid, now))
  {
    if rid in d.rooms && d.rooms[rid].members != map[] {
      CullRoomOrder(d, rid, now);
      CullRoomShrinks(d, rid, now);
      ShrinkKeepsWellFormed(d, CullRoom(d, rid, now));
      CullRoomIndex(d, rid, now);
    }
  }

  lemma CullRoomOrder(d: Directory, rid: RoomId, now: int)
    requires OrderMatches(d) && rid in d.rooms
    ensures OrderMatches(CullRoom(d, rid, now))
  {
    WithoutDistinct(d.order, rid);
  }

  lemma CullRoomShrinks(d: Directory, rid: RoomId, now: int)
    ensures RoomsShrink(d, CullRoom(d, rid, now))
  {
  }

  lemma CullRoomIndex(d: Directory, rid: RoomId, now: int)
    requires IndexSound(d)
    ensures IndexSound(CullRoom(d, rid, now))
  {
    if rid in d.rooms && d.rooms[rid].members != map[] {
      var room := d.rooms[rid];
      var r := CullRoom(d, rid, now);
      var live := Survivors(room.members, now);
      assert NewGhosts(rid, room.members, now).Keys <= Dropped(room.members, now);
      forall k | k in r.userMap
        ensures r.userMap[k] in r.rooms && k in r.rooms[r.userMap[k]].members
      {
        if d.userMap[k] == rid {
          assert k in live;
        }
      }
    }
  }

  lemma {:induction false} CullAllPreservesConsistent(d: Directory, ids: seq<RoomId>, now: int)
    requires Consistent(d)
    ensures Consistent(CullAll(d, ids, now))
    decreases |ids|
  {
    if ids != [] {
      CullAllPreservesConsistent(d, ids[..|ids| - 1], now);
      CullRoomPreservesConsistent(CullAll(d, ids[..|ids| - 1], now), ids[|ids| - 1], now);
    }
  }

  lemma CullPreservesConsistent(d: Directory, now: int)
    requires Consistent(d)
    ensures Consistent(Cull(d, now))
  {
    CullAllPreservesConsistent(d, d.order, now);
  }

  lemma CreateOrGetPreservesConsistent(d: Directory, c: int, now: int)
    requires Consistent(d)
    ensures Consistent(CreateOrGet(d, c, now).0)
  {
    var found := FindRoom(d.rooms, d.order, c);
    if !(found.Some? && found.value != []) {
      var key := RoomKey(c, now);
      KeyCommunity(d, c, now);
      RoomKeyNames(c, now);
      var r := CreateOrGet(d, c, now).0;
      assert r.rooms == d.rooms[key := Room(c, 0, map[])];
      if key !in d.rooms {
        assert r.order == d.order + [key];
        assert key !in d.order;
      }
    }
  }

  // ---------------------------------------------------------------------
  // The dictionaries as mutable state

  class RoomManager {
    var rooms: map<RoomId, Room>
    var order: seq<RoomId>
    var userMap: map<AccountId, RoomId>
    var ghostUserMap: map<AccountId, GhostEntry>

    function State(): Directory
      reads this
    {
      Directory(rooms, order, userMap, ghostUserMap)
    }

    constructor ()
      ensures State() == NoRooms
    {
      rooms, order, userMap, ghostUserMap := map[], [], map[], map[];
    }

    method JoinRoom(user: User, rid: RoomId, now: int)
      modifies this
      ensures State() == Join(old(State()), user, rid, now)
    {
      if rid in rooms {
        var room := rooms[rid];
        rooms := rooms[rid := room.(members := room.members[user.id := Member(user.id, user.name, now)])];
        userMap := userMap[user.id := rid];
        ghostUserMap := ghostUserMap - {user.id};
      }
    }

    method LeaveRoom(user: User)
      modifies this
      ensures State() == Leave(old(State()), user)
    {
      if user.id !in userMap || userMap[user.id] == [] {
        return;
      }
      var rid := userMap[user.id];
      if rid in rooms {
        var room := rooms[rid];
        rooms := rooms[rid := room.(members := room.members - {user.id})];
        userMap := userMap - {user.id};
      }
    }

    method PingRoomMember(user: User, now: int)
      modifies this
      ensures State() == Ping(old(State()), user, now)
    {
      var rid: RoomId;
      if user.id in userMap && userMap[user.id] != [] {
        rid := userMap[user.id];
      } else {
        if user.id !in ghostUserMap {
          return;
        }
        rid := ghostUserMap[user.id].room;
        JoinRoom(user, rid, now);
      }
      if rid in rooms {
        var room := rooms[rid];
        if user.id in room.members {
          rooms := rooms[rid := room.(members := room.members[user.id := room.members[user.id].(lastPing := now)])];
        }
      }
    }

    /** The inner loop of cullRooms over the members of room `rid`. */
    method CullRoomMembers(rid: RoomId, now: int)
      modifies this
      ensures State() == CullRoom(old(State()), rid, now)
    {
      if rid !in rooms {
        return;
      }
      var room := rooms[rid];
      var ms := room.members;
      ghost var d0 := State();
      CullVisitBounds(rid, ms, now);
      var members := ms;
      var pending := ms.Keys;
      while pending != {}
        decreases |pending|
        invariant pending <= ms.Keys
        invariant members == SurvivorsSoFar(ms, pending, now)
        invariant State() == Midway(d0, rid, room.communityId, ms, pending, now)
      {
        var k :| k in pending;
        MidwayStep(d0, rid, room.communityId, ms, pending, k, now);
        members := VisitMember(rid, room.communityId, members, k, now);
        pending := pending - {k};
      }
      MidwayEnd(d0, rid, now);
    }

    /** The body of cullRooms' inner loop for member `k`. */
    method VisitMember(rid: RoomId, c: int, members: map<AccountId, Member>, k: AccountId, now: int)
      returns (after: map<AccountId, Member>)
      requires k in members
      modifies this
      ensures after == if IsStale(members[k], now) then members - {k} else members
      ensures State() == VisitStep(old(State()), rid, c, members, k, now)
    {
      after := members;
      var m := members[k];
      if now - m.lastPing >= MemberTimeout {
        if now - m.lastPing < GhostTimeout {
          ghostUserMap := ghostUserMap[k := GhostEntry(rid, m.lastPing)];
        }
        after := after - {k};
        userMap := userMap - {k};
      }
      Recount(rid, c, after);
    }

    /** `room.pop = Object.keys(room.members).length`, and the delete of a
        room left empty. */
    method Recount(rid: RoomId, c: int, members: map<AccountId, Member>)
      modifies this
      ensures rooms == Recounted(old(rooms), rid, c, members)
      ensures order == RecountedOrder(old(order), rid, members)
      ensures userMap == old(userMap) && ghostUserMap == old(ghostUserMap)
    {
      var pop := |members|;
      if pop == 0 {
        rooms := rooms - {rid};
        order := Without(order, rid);
      } else {
        rooms := rooms[rid := Room(c, pop, members)];
      }
    }

    /** The final loop of cullRooms: drop the ghosts silent for 30 s or more. */
    method PurgeGhosts(now: int)
      modifies this
      ensures State() == old(State()).(ghosts := Purged(old(ghostUserMap), now))
    {
      ghost var g0 := ghostUserMap;
      var pending := ghostUserMap.Keys;
      while pending != {}
        decreases |pending|
        invariant pending <= g0.Keys
        invariant ghostUserMap == map k | k in g0 && (k in pending || now - g0[k].lastPing < GhostTimeout) :: g0[k]
        invariant unchanged(`rooms) && unchanged(`order) && unchanged(`userMap)
      {
        var k :| k in pending;
        if now - ghostUserMap[k].lastPing >= GhostTimeout {
          ghostUserMap := ghostUserMap - {k};
        }
        pending := pending - {k};
      }
    }

    /** cullRooms: every room in key order, then the ghost purge. */
    method CullRooms(now: int)
      modifies this
      ensures State() == Cull(old(State()), now)
    {
      var ids := order;
      var i := 0;
      while i < |ids|
        invariant 0 <= i <= |ids|
        invariant State() == CullAll(old(State()), ids[..i], now)
      {
        CullRoomMembers(ids[i], now);
        assert ids[..i + 1][..i] == ids[..i];
        i := i + 1;
      }
      assert ids[..|ids|] == ids;
      PurgeGhosts(now);
    }

    /** createOrGetRoom, with createRoom inlined in its second branch. */
    method CreateOrGetRoom(c: int, now: int) returns (rid: RoomId)
      modifies this
      ensures (State(), rid) == CreateOrGet(old(State()), c, now)
    {
      var i := 0;
      while i < |order| && !(order[i] in rooms && rooms[order[i]].communityId == c)
        invariant 0 <= i <= |order|
        invariant FindFrom(rooms, order, c, 0) == FindFrom(rooms, order, c, i)
      {
        i := i + 1;
      }
      if i < |order| && order[i] != [] {
        return order[i];
      }
      rid := RoomKey(c, now);
      if rid !in rooms {
        order := order + [rid];
      }
      rooms := rooms[rid := Room(c, 0, map[])];
    }
  }
}
