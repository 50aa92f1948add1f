/** sendPlayerList of udp/common.ts: the members of the requester's room,
    ordered with the requester first and then by name, capped at 48,
    serialised one entry each, and sent either as one S2C_LIST_PLAYERS
    frame or split into fragments sharing one message id. */
module Roster {
  import opened Base
  import opened Frame
  import opened Sessions
  import opened Rooms

  /** The three bytes that close every roster. */
  const EndMarker: Bytes := [0x00, 0xFF, 0xFF]
  /** The five zero bytes every roster payload starts with. */
  const Padding: Bytes := [0, 0, 0, 0, 0]
  /** A combined roster shorter than this goes out as a single frame. */
  const SingleFrameLimit: nat := MaxMessageSize - HeaderLength - 3
  /** The rank byte: RoomMember has no membership type, so every entry
      carries the code for "owner". */
  const RankByte: Byte := 0x00

  // ---------------------------------------------------------------------
  // Order

  /** The sort comparator on member keys: a member named like the requester
      comes first, the rest by name; the sort is stable, so members with
      equal names stay in key order. */
  predicate KeyBefore(ms: map<AccountId, Member>, req: Text, j: AccountId, k: AccountId)
    requires j in ms && k in ms
  {
    var a, b := ms[j], ms[k];
    if (a.name == req) != (b.name == req) then a.name == req
    else if a.name != b.name then LexLess(a.name, b.name)
    else j < k
  }

  lemma KeyBeforeIrreflexive(ms: map<AccountId, Member>, req: Text, k: AccountId)
    requires k in ms
    ensures !KeyBefore(ms, req, k, k)
  {
  }

  lemma KeyBeforeTransitive(ms: map<AccountId, Member>, req: Text, i: AccountId, j: AccountId, k: AccountId)
    requires i in ms && j in ms && k in ms
    requires KeyBefore(ms, req, i, j) && KeyBefore(ms, req, j, k)
    ensures KeyBefore(ms, req, i, k)
  {
    var a, b, c := ms[i].name, ms[j].name, ms[k].name;
    if (a == req) == (b == req) && (b == req) == (c == req) {
      if a != b && b != c {
        LexTransitive(a, b, c);
        if a == c {
          LexAsymmetric(a, b);
        }
      }
    }
  }

  lemma KeyBeforeAsymmetric(ms: map<AccountId, Member>, req: Text, j: AccountId, k: AccountId)
    requires j in ms && k in ms
    ensures !(KeyBefore(ms, req, j, k) && KeyBefore(ms, req, k, j))
  {
    if KeyBefore(ms, req, j, k) && ms[j].name != ms[k].name && (ms[j].name == req) == (ms[k].name == req) {
      LexAsymmetric(ms[j].name, ms[k].name);
    }
  }

  lemma KeyBeforeTotal(ms: map<AccountId, Member>, req: Text, j: AccountId, k: AccountId)
    requires j in ms && k in ms && j != k
    ensures KeyBefore(ms, req, j, k) || KeyBefore(ms, req, k, j)
  {
    if ms[j].name != ms[k].name {
      LexTotal(ms[j].name, ms[k].name);
    }
  }

  /** `ks` lists keys of `ms`, each strictly before the next. */
  predicate SortedKeys(ms: map<AccountId, Member>, req: Text, ks: seq<AccountId>)
  {
    && (forall i | 0 <= i < |ks| :: ks[i] in ms)
    && (forall i, j | 0 <= i < j < |ks| :: ks[i] in ms && ks[j] in ms && KeyBefore(ms, req, ks[i], ks[j]))
  }

  /** The key of `ks` that comes before all others. */
  ghost function Least(ms: map<AccountId, Member>, req: Text, ks: set<AccountId>): (k: AccountId)
    requires ks != {} && ks <= ms.Keys
    ensures k in ks && forall j | j in ks && j != k :: KeyBefore(ms, req, k, j)
    decreases |ks|
  {
    var x :| x in ks;
    if ks == {x} then x
    else
      var k := Least(ms, req, ks - {x});
      KeyBeforeTotal(ms, req, k, x);
      if KeyBefore(ms, req, x, k) then
        LeastBefore(ms, req, ks, x, k);
        x
      else
        k
  }

  /** A key before the least of the others is the least of all. */
  lemma LeastBefore(ms: map<AccountId, Member>, req: Text, ks: set<AccountId>, x: AccountId, k: AccountId)
    requires ks <= ms.Keys && x in ks && k in ks - {x} && KeyBefore(ms, req, x, k)
    requires forall j | j in ks - {x} && j != k :: KeyBefore(ms, req, k, j)
    ensures forall j | j in ks && j != x :: KeyBefore(ms, req, x, j)
  {
    forall j | j in ks && j != x
      ensures KeyBefore(ms, req, x, j)
    {
      if j != k {
        KeyBeforeTransitive(ms, req, x, k, j);
      }
    }
  }

  /** The members' keys in roster order (the sort of the room's members). */
  ghost function Ranked(ms: map<AccountId, Member>, req: Text, ks: set<AccountId>): (r: seq<AccountId>)
    requires ks <= ms.Keys
    ensures |r| == |ks| && (forall k :: k in r <==> k in ks) && SortedKeys(ms, req, r)
    decreases |ks|
  {
    if ks == {} then []
    else
      var k := Least(ms, req, ks);
      var rest := Ranked(ms, req, ks - {k});
      RankedCons(ms, req, ks, k, rest);
      [k] + rest
  }

  lemma RankedCons(ms: map<AccountId, Member>, req: Text, ks: set<AccountId>, k: AccountId, rest: seq<AccountId>)
    requires ks <= ms.Keys && k in ks && (forall j | j in ks && j != k :: KeyBefore(ms, req, k, j))
    requires (forall x :: x in rest <==> x in ks - {k}) && SortedKeys(ms, req, rest)
    ensures (forall x :: x in [k] + rest <==> x in ks) && SortedKeys(ms, req, [k] + rest)
  {
    var r := [k] + rest;
    forall i, j | 0 <= i < j < |r|
      ensures KeyBefore(ms, req, r[i], r[j])
    {
      if i == 0 {
        assert r[j] == rest[j - 1] && r[j] in rest;
      } else {
        assert r[i] == rest[i - 1] && r[j] == rest[j - 1];
      }
    }
  }

  /** Two sorted key lists holding the same keys are the same list: the
      roster order does not depend on the order members are enumerated. */
  lemma {:induction false} SortedUnique(ms: map<AccountId, Member>, req: Text, a: seq<AccountId>, b: seq<AccountId>)
    requires SortedKeys(ms, req, a) && SortedKeys(ms, req, b)
    requires forall k :: k in a <==> k in b
    ensures a == b
    decreases |a|
  {
    if a != [] {
      assert a[0] in a;
    }
    if b != [] {
      assert b[0] in b;
    }
    if a != [] && b != [] {
      var i :| 0 <= i < |b| && b[i] == a[0];
      var j :| 0 <= j < |a| && a[j] == b[0];
      KeyBeforeAsymmetric(ms, req, a[0], b[0]);
      assert a[0] == b[0];
      forall k
        ensures k in a[1..] <==> k in b[1..]
      {
        if k in a[1..] {
          var i :| 1 <= i < |a| && a[i] == k;
          KeyBeforeIrreflexive(ms, req, k);
          assert k != a[0] && k in a;
          var h :| 0 <= h < |b| && b[h] == k;
          assert h != 0 && b[1..][h - 1] == k;
        }
        if k in b[1..] {
          var i :| 1 <= i < |b| && b[i] == k;
          KeyBeforeIrreflexive(ms, req, k);
          assert k != b[0] && k in b;
          var h :| 0 <= h < |a| && a[h] == k;
          assert h != 0 && a[1..][h - 1] == k;
        }
      }
      SortedUnique(ms, req, a[1..], b[1..]);
    }
  }

  /** Insert key `k` into the sorted list `ks`, before the first key it
      precedes. */
  function Insert(ms: map<AccountId, Member>, req: Text, ks: seq<AccountId>, k: AccountId): (r: seq<AccountId>)
    requires k in ms && SortedKeys(ms, req, ks) && k !in ks
    ensures |r| == |ks| + 1 && (forall x :: x in r <==> x in ks || x == k) && SortedKeys(ms, req, r)
    decreases |ks|
  {
    if ks == [] then [k]
    else if KeyBefore(ms, req, k, ks[0]) then
      forall i | 1 <= i < |ks| ensures KeyBefore(ms, req, k, ks[i]) {
        KeyBeforeTransitive(ms, req, k, ks[0], ks[i]);
      }
      [k] + ks
    else
      KeyBeforeTotal(ms, req, k, ks[0]);
      var rest := Insert(ms, req, ks[1..], k);
      assert forall i | 0 <= i < |rest| :: rest[i] == k || rest[i] in ks[1..];
      [ks[0]] + rest
  }

  /** In roster order a member named like the requester comes before every
      member named otherwise, and the others are in name order. */
  lemma RankedOrder(ms: map<AccountId, Member>, req: Text, i: nat, j: nat)
    requires i < j < |ms.Keys|
    ensures var r := Ranked(ms, req, ms.Keys); var a, b := ms[r[i]], ms[r[j]];
      && (b.name == req ==> a.name == req)
      && ((a.name == req) == (b.name == req) && a.name != b.name ==> LexLess(a.name, b.name))
  {
  }

  /** The room's members in roster order. */
  ghost function RosterOf(ms: map<AccountId, Member>, req: Text): seq<Member>
  {
    var r := Ranked(ms, req, ms.Keys);
    seq(|r|, i requires 0 <= i < |r| => ms[r[i]])
  }

  // ---------------------------------------------------------------------
  // Entries

  /** `id.toString()`: the decimal text of an account id. */
  function IdText(id: AccountId): (t: Text)
    ensures |t| <= 20
  {
    DecimalInt64Length(id);
    IntText(id, 10)
  }

  /** One roster entry: its index, the id's text, 0x02, the name, the rank
      byte, then the two shorts 1 and 0. */
  function Entry(i: U16, m: Member): (e: Bytes)
    ensures |e| == |IdText(m.id)| + |m.name| + 14
  {
    U16LE(i) + EncString(IdText(m.id)) + [0x02] + EncString(m.name) + [RankByte] + U16LE(1) + U16LE(0)
  }

  /** What a client reads out of an entry: its index, the id text and the
      name, each string taken by its length prefix. */
  function ParseEntry(e: Bytes): Option<(U16, Bytes, Bytes)>
  {
    if |e| < 4 then None
    else
      var n := ReadU16LE(e, 2);
      if n == 0 || |e| < 4 + n + 3 then None
      else
        var m := ReadU16LE(e, 4 + n + 1);
        if m == 0 || |e| < 4 + n + 3 + m then None
        else Some((ReadU16LE(e, 0), e[4..4 + n - 1], e[4 + n + 3..4 + n + 3 + m - 1]))
  }

  /** Reading an entry gives back its index, the id and the name; so
      distinct members give distinct entries. */
  lemma ParseEntryOfEntry(i: U16, m: Member)
    ensures ParseEntry(Entry(i, m)) == Some((i, IdText(m.id), m.name))
  {
    EntryIdFields(i, m);
    EntryNameFields(i, m);
  }

  /** An entry's index and id text, where a reader finds them. */
  lemma EntryIdFields(i: U16, m: Member)
    ensures var e, t := Entry(i, m), IdText(m.id);
      ReadU16LE(e, 0) == i && ReadU16LE(e, 2) == |t| + 1 && e[4..4 + |t|] == t
  {
    var t := IdText(m.id);
    var s1 := EncString(t);
    var rest := [0x02] + EncString(m.name) + [RankByte] + U16LE(1) + U16LE(0);
    assert Entry(i, m) == U16LE(i) + (s1 + rest);
    LeadingFields(U16LE(i), s1, rest, |t|);
  }

  /** A two-byte field followed by a length-prefixed string: where a reader
      finds the field, the length and the string's first `n` bytes. */
  lemma LeadingFields(a: Bytes, s: Bytes, rest: Bytes, n: nat)
    requires |a| == 2 && n + 2 <= |s|
    ensures var e := a + (s + rest);
      ReadU16LE(e, 0) == ReadU16LE(a, 0) && ReadU16LE(e, 2) == ReadU16LE(s, 0) && e[4..4 + n] == s[2..2 + n]
  {
    var e := a + (s + rest);
    assert e[4..4 + n] == (s + rest)[2..2 + n];
  }

  /** An entry's name, where a reader finds it after the id text. */
  lemma EntryNameFields(i: U16, m: Member)
    ensures var e, t := Entry(i, m), IdText(m.id);
      ReadU16LE(e, |t| + 6) == |m.name| + 1 && e[|t| + 8..|t| + 8 + |m.name|] == m.name
  {
    var t := IdText(m.id);
    var s2 := EncString(m.name);
    var front := U16LE(i) + EncString(t) + [0x02];
    var tail := [RankByte] + U16LE(1) + U16LE(0);
    var e := Entry(i, m);
    assert e == front + (s2 + tail);
    ReadU16Shift(front, s2 + tail, 0);
    assert e[|t| + 8..|t| + 8 + |m.name|] == s2[2..|m.name| + 2];
  }

  /** An entry's fixed bytes: 0x02 between the id text and the name, then
      after the name the rank byte (0, "owner") and the shorts 1 and 0. */
  lemma EntryFixedFields(i: U16, m: Member)
    ensures var e, t := Entry(i, m), IdText(m.id);
      && e[|t| + 5] == 0x02
      && e[|e| - 5] == RankByte && RankByte == 0
      && e[|e| - 4..] == [1, 0, 0, 0]
  {
    var t := IdText(m.id);
    var head := U16LE(i) + EncString(t);
    var tail := [RankByte] + U16LE(1) + U16LE(0);
    var e := Entry(i, m);
    assert e == head + ([0x02] + EncString(m.name)) + tail;
    assert |head| == |t| + 5;
    assert tail == [0, 1, 0, 0, 0];
  }

  lemma ReadU16Shift(x: Bytes, y: Bytes, at: nat)
    requires at + 2 <= |y|
    ensures ReadU16LE(x + y, |x| + at) == ReadU16LE(y, at)
  {
  }

  lemma EntryIdentifies(i: U16, m1: Member, m2: Member)
    requires Entry(i, m1) == Entry(i, m2)
    ensures m1.id == m2.id && m1.name == m2.name
  {
    ParseEntryOfEntry(i, m1);
    ParseEntryOfEntry(i, m2);
    IntTextInjective(m1.id, m2.id);
  }

  /** Math.min(users.length, MAX_USERS_BROADCAST). */
  function Capped(n: nat): (r: nat)
    ensures r <= n && r <= MaxUsersBroadcast && (r == n || r == MaxUsersBroadcast)
  {
    if n < MaxUsersBroadcast then n else MaxUsersBroadcast
  }

  /** The entries of the first 48 users in order, each with its index. */
  function Entries(users: seq<Member>): (es: seq<Bytes>)
    ensures |es| == Capped(|users|)
  {
    seq(Capped(|users|), i requires 0 <= i < Capped(|users|) => Entry(i, users[i]))
  }

  /** The roster as one byte string. */
  function Combined(users: seq<Member>): Bytes
  {
    Concat(Entries(users))
  }

  // ---------------------------------------------------------------------
  // Fragments

  /** The number of roster bytes fragment `k` carries: 1244 for the head
      fragment, 1246 for each continuation. */
  function ChunkSize(k: nat): nat
  {
    MaxMessageSize - (if k != 0 then HeaderLengthMulti else HeaderLength)
  }

  /** Where fragment `k`'s slice starts in the combined roster. */
  function ChunkStart(k: nat): nat
  {
    if k == 0 then 0 else 1244 + 1246 * (k - 1)
  }

  /** Each fragment starts where the previous one's slice ends. */
  lemma ChunkStartStep(k: nat)
    ensures ChunkStart(k + 1) == ChunkStart(k) + ChunkSize(k)
  {
  }

  /** Fragment `j`'s slice of the roster `c`: from its start to the next
      fragment's start, or to the end of `c`. */
  function Slice(c: Bytes, j: nat): Bytes
    requires ChunkStart(j) < |c|
  {
    c[ChunkStart(j)..if ChunkStart(j + 1) < |c| then ChunkStart(j + 1) else |c|]
  }

  /** The slices the fragmenting loop cuts from `c`, from fragment `k` on;
      the last one gets the end marker. */
  function Chunks(c: Bytes, k: nat): seq<Bytes>
    requires ChunkStart(k) < |c|
    decreases |c| - ChunkStart(k)
  {
    if ChunkStart(k + 1) >= |c| then [Slice(c, k) + EndMarker]
    else [Slice(c, k)] + Chunks(c, k + 1)
  }

  /** The slices put back together are the roster plus the end marker. */
  lemma {:induction false} ChunksCover(c: Bytes, k: nat)
    requires ChunkStart(k) < |c|
    ensures Concat(Chunks(c, k)) == c[ChunkStart(k)..] + EndMarker
    decreases |c| - ChunkStart(k)
  {
    if ChunkStart(k + 1) >= |c| {
      assert Concat(Chunks(c, k)) == (Slice(c, k) + EndMarker) + Concat([]);
    } else {
      ChunksCover(c, k + 1);
      assert Chunks(c, k)[1..] == Chunks(c, k + 1);
      assert c[ChunkStart(k)..] == Slice(c, k) + c[ChunkStart(k + 1)..];
    }
  }

  /** The loop from fragment `k` cuts `n` slices, where fragment
      `k + n - 1` is the one that reaches the end of the roster. */
  lemma {:induction false} ChunkCount(c: Bytes, k: nat)
    requires ChunkStart(k) < |c|
    ensures var n := |Chunks(c, k)|;
      n >= 1 && ChunkStart(k + n - 1) < |c| <= ChunkStart(k + n)
    decreases |c| - ChunkStart(k)
  {
    var n := |Chunks(c, k)|;
    if ChunkStart(k + 1) < |c| {
      ChunkCount(c, k + 1);
      var m := |Chunks(c, k + 1)|;
      assert Chunks(c, k) == [Slice(c, k)] + Chunks(c, k + 1);
      assert n == m + 1;
      assert k + n - 1 == (k + 1) + m - 1 && k + n == (k + 1) + m;
    } else {
      assert n == 1;
    }
  }

  /** When another fragment follows fragment `k`, the chunks from `k` are
      its slice and then the chunks from `k + 1`. */
  lemma ChunksUnfold(c: Bytes, k: nat)
    requires ChunkStart(k + 1) < |c|
    ensures ChunkStart(k) < |c|
    ensures Chunks(c, k) == [Slice(c, k)] + Chunks(c, k + 1)
  {
  }

  /** Chunk `i` from fragment `k` is fragment `k + i`'s slice, with the end
      marker on the last chunk only. */
  lemma {:induction false} ChunkAt(c: Bytes, k: nat, i: nat)
    requires ChunkStart(k) < |c| && i < |Chunks(c, k)|
    ensures ChunkStart(k + i) < |c|
    ensures i < |Chunks(c, k)| - 1 ==> Chunks(c, k)[i] == Slice(c, k + i)
    ensures i == |Chunks(c, k)| - 1 ==> Chunks(c, k)[i] == Slice(c, k + i) + EndMarker
    decreases i
  {
    if i > 0 {
      assert ChunkStart(k + 1) < |c|;
      ChunksUnfold(c, k);
      var tail := Chunks(c, k + 1);
      assert |tail| == |Chunks(c, k)| - 1 && Chunks(c, k)[i] == tail[i - 1];
      ChunkAt(c, k + 1, i - 1);
      assert k + 1 + (i - 1) == k + i;
    } else if ChunkStart(k + 1) < |c| {
      ChunksUnfold(c, k);
    }
  }

  /** A roster of `len` bytes, too long for one frame, needs 1 fragment up
      to 1244 bytes and one more per started 1246 bytes beyond. */
  lemma FragmentCount(c: Bytes)
    requires |c| >= 1
    ensures |Chunks(c, 0)| ==
      if |c| <= 1244 then 1 else 1 + (|c| - 1244 + 1245) / 1246
  {
    ChunkCount(c, 0);
  }

  /** Fragment `k` of a roster: a multi frame, a continuation unless it is
      the first, its slice after the five zero bytes. */
  function Fragment(uid: Int64, msgId: U16, chunk: Bytes, k: nat): Bytes
  {
    ConstructRes(S2CListPlayers, uid, Padding + chunk, 1, msgId, true, k != 0)
  }

  /** The fragments for `chunks`, numbered from `k`. */
  function Fragments(uid: Int64, msgId: U16, chunks: seq<Bytes>, k: nat): (fs: seq<Bytes>)
    ensures |fs| == |chunks|
  {
    seq(|chunks|, i requires 0 <= i < |chunks| => Fragment(uid, msgId, chunks[i], k + i))
  }

  /** The frames the roster `c` goes out as. */
  function RosterFrames(uid: Int64, c: Bytes, msgId: U16): seq<Bytes>
  {
    if |c| < SingleFrameLimit then
      [ConstructRes(S2CListPlayers, uid, Padding + c + EndMarker, 1, msgId, false, false)]
    else Fragments(uid, msgId, Chunks(c, 0), 0)
  }

  /** A roster shorter than 1241 bytes goes out as one plain (not multi)
      S2C_LIST_PLAYERS frame carrying the five zero bytes, the roster and
      the end marker. */
  lemma SingleFrame(uid: Int64, c: Bytes, msgId: U16)
    requires |c| < SingleFrameLimit
    ensures var fs := RosterFrames(uid, c, msgId);
      && |fs| == 1 && |fs[0]| >= HeaderLength
      && fs[0][15] == Flags(false, false) && fs[0][25] == S2CListPlayers
      && ReadU16LE(fs[0], 11) == msgId
      && CarriedData(fs[0]) == Padding + c + EndMarker
  {
    FrameLayout(S2CListPlayers, uid, Padding + c + EndMarker, 1, msgId, false, false);
    CarriedDataOfFrame(S2CListPlayers, uid, Padding + c + EndMarker, 1, msgId, false, false);
  }

  /** A longer roster goes out as fragments that all share one message id
      and are all flagged multi; only the first is a head fragment (with
      the separator and the type), and what each carries after the five
      zero bytes, put back together, is the roster plus the end marker. */
  lemma Fragmented(uid: Int64, c: Bytes, msgId: U16)
    requires |c| >= SingleFrameLimit
    ensures var fs := RosterFrames(uid, c, msgId); var ch := Chunks(c, 0);
      && |fs| == |ch| >= 1
      && (forall i | 0 <= i < |fs| ::
            && |fs[i]| >= HeaderLength
            && fs[i][15] == Flags(true, i != 0)
            && ReadU16LE(fs[i], 11) == msgId
            && CarriedData(fs[i]) == Padding + ch[i])
      && fs[0][24] == TypeSeparator && fs[0][25] == S2CListPlayers
      && Concat(ch) == c + EndMarker
  {
    var fs := RosterFrames(uid, c, msgId);
    var ch := Chunks(c, 0);
    ChunksCover(c, 0);
    assert c[0..] == c;
    forall i | 0 <= i < |fs|
      ensures && |fs[i]| >= HeaderLength
              && fs[i][15] == Flags(true, i != 0)
              && ReadU16LE(fs[i], 11) == msgId
              && CarriedData(fs[i]) == Padding + ch[i]
    {
      FrameLayout(S2CListPlayers, uid, Padding + ch[i], 1, msgId, true, i != 0);
      CarriedDataOfFrame(S2CListPlayers, uid, Padding + ch[i], 1, msgId, true, i != 0);
    }
    FrameLayout(S2CListPlayers, uid, Padding + ch[0], 1, msgId, true, false);
  }

  /** A roster of 1241 to 1244 bytes is too long for the single-frame path
      but fits in the head fragment: it goes out as one frame flagged
      multi, the only fragment of its message. */
  lemma LoneMultiFragment(uid: Int64, c: Bytes, msgId: U16)
    requires SingleFrameLimit <= |c| <= ChunkSize(0)
    ensures var fs := RosterFrames(uid, c, msgId);
      |fs| == 1 && fs[0][15] == Flags(true, false)
  {
    FrameLayout(S2CListPlayers, uid, Padding + c + EndMarker, 1, msgId, true, false);
  }

  // ---------------------------------------------------------------------
  // sendPlayerList

  /** sendPlayerList for `user` answering at endpoint `e`: nothing when the
      account is not indexed to a room (or the room is gone); otherwise the
      roster frames under a fresh message id, the endpoint's counter
      advanced once. */
  ghost function PlayerList(s: SessionState, d: Directory, e: Endpoint, user: User): (SessionState, seq<Bytes>)
  {
    if user.id !in d.userMap || d.userMap[user.id] == [] || d.userMap[user.id] !in d.rooms then (s, [])
    else
      var ms := d.rooms[d.userMap[user.id]].members;
      (Bump(s, e), RosterFrames(user.id, Combined(RosterOf(ms, user.name)), NextId(s, e)))
  }

  /** The roster lists every member of the room exactly once, in roster
      order, and its entries are the first min(|members|, 48). */
  lemma RosterListsMembers(ms: map<AccountId, Member>, req: Text)
    ensures var r := RosterOf(ms, req);
      && |r| == |ms| && |Entries(r)| == Capped(|ms|)
      && (forall i | 0 <= i < |r| :: r[i] in ms.Values)
      && (forall k | k in ms :: ms[k] in r)
  {
    var ks := Ranked(ms, req, ms.Keys);
    var r := RosterOf(ms, req);
    forall i | 0 <= i < |r|
      ensures r[i] in ms.Values
    {
      assert r[i] == ms[ks[i]];
    }
    forall k | k in ms
      ensures ms[k] in r
    {
      assert k in ks;
      var i :| 0 <= i < |ks| && ks[i] == k;
      assert r[i] == ms[k];
    }
  }

  /** The requester, when it is a member under its current name and no
      other member shares that name, heads the roster. */
  lemma RequesterFirst(ms: map<AccountId, Member>, user: User)
    requires user.id in ms && ms[user.id].name == user.name
    requires forall k | k in ms && k != user.id :: ms[k].name != user.name
    ensures RosterOf(ms, user.name)[0] == ms[user.id]
  {
    var ks := Ranked(ms, user.name, ms.Keys);
    assert user.id in ks;
    var i :| 0 <= i < |ks| && ks[i] == user.id;
    KeyBeforeAsymmetric(ms, user.name, ks[0], user.id);
    assert i == 0;
  }
  /** The fragments from fragment `k` on: the first one, then the rest. */
  lemma FragmentsStep(uid: Int64, msgId: U16, c: Bytes, k: nat)
    requires ChunkStart(k) < |c|
    ensures var last := ChunkStart(k + 1) >= |c|;
      Fragments(uid, msgId, Chunks(c, k), k) ==
        [Fragment(uid, msgId, if last then Slice(c, k) + EndMarker else Slice(c, k), k)]
        + if last then [] else Fragments(uid, msgId, Chunks(c, k + 1), k + 1)
  {
    var fs := Fragments(uid, msgId, Chunks(c, k), k);
    if ChunkStart(k + 1) < |c| {
      var rest := Fragments(uid, msgId, Chunks(c, k + 1), k + 1);
      assert Chunks(c, k) == [Slice(c, k)] + Chunks(c, k + 1);
      assert fs == [fs[0]] + rest;
    }
  }

  /** `Object.values(room.members).sort(...)`: the members in roster
      order, whatever order the keys are visited in. */
  method SortMembers(ms: map<AccountId, Member>, req: Text) returns (users: seq<Member>)
    ensures users == RosterOf(ms, req)
  {
    var keys: seq<AccountId> := [];
    var rest := ms.Keys;
    while rest != {}
      invariant rest <= ms.Keys
      invariant SortedKeys(ms, req, keys)
      invariant forall k :: k in keys <==> k in ms.Keys - rest
      decreases |rest|
    {
      var k :| k in rest;
      keys := Insert(ms, req, keys, k);
      rest := rest - {k};
    }
    SortedUnique(ms, req, keys, Ranked(ms, req, ms.Keys));
    users := seq(|keys|, i requires 0 <= i < |keys| => ms[keys[i]]);
  }

  /** The entry loop: the first min(|users|, 48) entries, concatenated. */
  method SerialiseRoster(users: seq<Member>) returns (c: Bytes)
    ensures c == Combined(users)
  {
    var n := if |users| < MaxUsersBroadcast then |users| else MaxUsersBroadcast;
    var bufs: seq<Bytes> := [];
    for i := 0 to n
      invariant bufs == Entries(users)[..i]
    {
      bufs := bufs + [Entry(i, users[i])];
    }
    assert bufs == Entries(users);
    c := Concat(bufs);
  }

  /** The send step: one frame for a short roster, otherwise the fragment
      loop advancing through the roster 1244 and then 1246 bytes at a
      time. */
  method FrameRoster(uid: Int64, c: Bytes, id: U16) returns (frames: seq<Bytes>)
    ensures frames == RosterFrames(uid, c, id)
  {
    if |c| < MaxMessageSize - HeaderLength - |EndMarker| {
      frames := [ConstructRes(S2CListPlayers, uid, Padding + c + EndMarker, 1, id, false, false)];
      return;
    }
    frames := [];
    var idx, k := 0, 0;
    while idx < |c|
      invariant idx == ChunkStart(k)
      invariant idx < |c| ==> frames + Fragments(uid, id, Chunks(c, k), k) == RosterFrames(uid, c, id)
      invariant idx >= |c| ==> frames == RosterFrames(uid, c, id)
      decreases |c| - idx
    {
      var size := MaxMessageSize - if k != 0 then HeaderLengthMulti else HeaderLength;
      var chunk := c[idx..if idx + size < |c| then idx + size else |c|];
      ChunkHead(c, k);
      idx := idx + size;
      if idx >= |c| {
        chunk := chunk + EndMarker;
      }
      assert chunk == Chunks(c, k)[0];
      FrameStep(uid, id, c, k, frames);
      frames := frames + [Fragment(uid, id, chunk, k)];
      k := k + 1;
    }
  }

  /** The first chunk from fragment `k`: its slice, with the end marker
      when no fragment follows. */
  lemma ChunkHead(c: Bytes, k: nat)
    requires ChunkStart(k) < |c|
    ensures ChunkStart(k + 1) == ChunkStart(k) + ChunkSize(k)
    ensures var end := ChunkStart(k) + ChunkSize(k);
      Chunks(c, k)[0] == if end < |c| then c[ChunkStart(k)..end] else c[ChunkStart(k)..] + EndMarker
  {
    ChunkStartStep(k);
  }

  /** One turn of the fragment loop: the frames so far plus the fragment for
      the first chunk from `k` are followed by the fragments from `k + 1`. */
  lemma FrameStep(uid: Int64, id: U16, c: Bytes, k: nat, frames: seq<Bytes>)
    requires ChunkStart(k) < |c|
    requires frames + Fragments(uid, id, Chunks(c, k), k) == RosterFrames(uid, c, id)
    ensures var frames' := frames + [Fragment(uid, id, Chunks(c, k)[0], k)];
      && (ChunkStart(k + 1) < |c| ==> frames' + Fragments(uid, id, Chunks(c, k + 1), k + 1) == RosterFrames(uid, c, id))
      && (ChunkStart(k + 1) >= |c| ==> frames' == RosterFrames(uid, c, id))
  {
    FragmentsStep(uid, id, c, k);
    var chunk := Chunks(c, k)[0];
    assert chunk == if ChunkStart(k + 1) >= |c| then Slice(c, k) + EndMarker else Slice(c, k);
    var f0 := Fragment(uid, id, chunk, k);
    if ChunkStart(k + 1) < |c| {
      var rest := Fragments(uid, id, Chunks(c, k + 1), k + 1);
      assert frames + ([f0] + rest) == RosterFrames(uid, c, id);
      assert (frames + [f0]) + rest == frames + ([f0] + rest);
    }
  }

  /** sendPlayerList: nothing for an account without a room; otherwise
      sort, serialise, take a fresh message id and frame the roster. */
  method SendPlayerList(reg: Registry, rm: RoomManager, e: Endpoint, user: User) returns (frames: seq<Bytes>)
    modifies reg
    ensures (reg.State(), frames) == PlayerList(old(reg.State()), rm.State(), e, user)
  {
    frames := [];
    if user.id !in rm.userMap || rm.userMap[user.id] == [] || rm.userMap[user.id] !in rm.rooms {
      return;
    }
    var users := SortMembers(rm.rooms[rm.userMap[user.id]].members, user.name);
    var c := SerialiseRoster(users);
    var id := reg.NextMsgId(e);
    frames := FrameRoster(user.id, c, id);
  }
}
