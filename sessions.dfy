/** The peer session registry of udp/common.ts: the two-way map between
    endpoints ("address:port") and account ids kept by linkUserToRInfo, and
    the per-endpoint outgoing message id counter of nextMsgId. */
module Sessions {
  import opened Base

  /** A message id as nextMsgId hands it out: never 0, never 0xFFFF. */
  type MsgId = n: int | 1 <= n < MsgIdRollover witness 1

  const MsgIdRollover: int := 0xFFFF

  datatype SessionState = SessionState(
    rinfoUsers: map<Endpoint, AccountId>,   // RINFO_USERS
    userRinfos: map<AccountId, Endpoint>,   // USER_RINFOS
    msgIds: map<Endpoint, MsgId>)           // MSG_ID_TRACKER

  const NoSessions: SessionState := SessionState(map[], map[], map[])

  /** Every endpoint -> account entry is mirrored by account -> endpoint. */
  ghost predicate Mirrored(s: SessionState)
  {
    forall e | e in s.rinfoUsers ::
      s.rinfoUsers[e] in s.userRinfos && s.userRinfos[s.rinfoUsers[e]] == e
  }

  /** RINFO_USERS.get: the account an endpoint resolves to. */
  function Resolve(s: SessionState, e: Endpoint): Option<AccountId>
  {
    if e in s.rinfoUsers then Some(s.rinfoUsers[e]) else None
  }

  /** linkUserToRInfo: forget the account's previous endpoint, then install
      the endpoint -> account and account -> endpoint entries. */
  function Link(s: SessionState, e: Endpoint, u: AccountId): (r: SessionState)
    ensures Resolve(r, e) == Some(u) && u in r.userRinfos && r.userRinfos[u] == e
    ensures r.msgIds == s.msgIds
  {
    var users := if u in s.userRinfos then s.rinfoUsers - {s.userRinfos[u]} else s.rinfoUsers;
    SessionState(users[e := u], s.userRinfos[u := e], s.msgIds)
  }

  /** After a link, the account's previous endpoint (if another one) no
      longer resolves, every other endpoint resolves as before, and every
      other account keeps its reverse entry. */
  lemma LinkEffect(s: SessionState, e: Endpoint, u: AccountId)
    ensures u in s.userRinfos && s.userRinfos[u] != e ==> Resolve(Link(s, e, u), s.userRinfos[u]) == None
    ensures forall e' | e' != e && !(u in s.userRinfos && s.userRinfos[u] == e') ::
      Resolve(Link(s, e, u), e') == Resolve(s, e')
    ensures forall v | v != u :: (v in Link(s, e, u).userRinfos) == (v in s.userRinfos)
    ensures forall v | v != u && v in s.userRinfos :: Link(s, e, u).userRinfos[v] == s.userRinfos[v]
  {
  }

  /** Linking keeps every endpoint -> account entry mirrored. */
  lemma LinkPreservesMirrored(s: SessionState, e: Endpoint, u: AccountId)
    requires Mirrored(s)
    ensures Mirrored(Link(s, e, u))
  {
    var r := Link(s, e, u);
    forall e' | e' in r.rinfoUsers
      ensures r.rinfoUsers[e'] in r.userRinfos && r.userRinfos[r.rinfoUsers[e']] == e'
    {
      if e' != e {
        var w := s.rinfoUsers[e'];
        assert w != u;
      }
    }
  }

  /** Under the mirror invariant, no two endpoints resolve to one account. */
  lemma MirroredIsInjective(s: SessionState, e1: Endpoint, e2: Endpoint)
    requires Mirrored(s)
    requires e1 in s.rinfoUsers && e2 in s.rinfoUsers && s.rinfoUsers[e1] == s.rinfoUsers[e2]
    ensures e1 == e2
  {
  }

  /** The reverse map is not kept exact: an account displaced from a reused
      endpoint keeps its now stale account -> endpoint entry. */
  lemma LinkLeavesStaleReverseEntry(e: Endpoint, u: AccountId, v: AccountId)
    requires u != v
    ensures var r := Link(Link(NoSessions, e, v), e, u);
      v in r.userRinfos && r.userRinfos[v] == e && Resolve(r, e) == Some(u)
  {
  }

  // ---------------------------------------------------------------------
  // nextMsgId

  /** The id nextMsgId hands out next: the stored one (0 when unset) plus
      one, or 1 where that would reach the rollover value 0xFFFF. */
  function NextId(s: SessionState, e: Endpoint): (r: MsgId)
    ensures e !in s.msgIds ==> r == 1
    ensures e in s.msgIds && s.msgIds[e] < MsgIdRollover - 1 ==> r == s.msgIds[e] + 1
    ensures e in s.msgIds && s.msgIds[e] == MsgIdRollover - 1 ==> r == 1
  {
    var n: int := (if e in s.msgIds then s.msgIds[e] as int else 0) + 1;
    if n >= MsgIdRollover then 1 else n
  }

  /** nextMsgId's store: only the endpoint's own counter changes. */
  function Bump(s: SessionState, e: Endpoint): (r: SessionState)
    ensures r.rinfoUsers == s.rinfoUsers && r.userRinfos == s.userRinfos
    ensures r.msgIds.Keys == s.msgIds.Keys + {e}
    ensures r.msgIds[e] == NextId(s, e)
    ensures forall e' | e' != e && e' in s.msgIds :: r.msgIds[e'] == s.msgIds[e']
  {
    s.(msgIds := s.msgIds[e := NextId(s, e)])
  }

  /** The state after n calls of nextMsgId on one endpoint. */
  function BumpTimes(s: SessionState, e: Endpoint, n: nat): SessionState
  {
    if n == 0 then s else Bump(BumpTimes(s, e, n - 1), e)
  }

  /** From an endpoint never seen before, the n-th id is ((n - 1) mod 65534) + 1:
      the ids count up from 1 to 65534 and then start again at 1. */
  lemma {:induction false} BumpTimesCycle(s: SessionState, e: Endpoint, n: nat)
    requires e !in s.msgIds && n >= 1
    ensures e in BumpTimes(s, e, n).msgIds
    ensures BumpTimes(s, e, n).msgIds[e] == (n - 1) % (MsgIdRollover - 1) + 1
  {
    if n > 1 {
      BumpTimesCycle(s, e, n - 1);
      ModStep(n - 2);
    }
  }

  lemma ModStep(m: nat)
    ensures (m + 1) % 65534 == if m % 65534 == 65533 then 0 else m % 65534 + 1
  {
    var q := m / 65534;
    assert m == q * 65534 + m % 65534;
  }

  /** The registry as the module-level maps of udp/common.ts. */
  class Registry {
    var rinfoUsers: map<Endpoint, AccountId>
    var userRinfos: map<AccountId, Endpoint>
    var msgIds: map<Endpoint, MsgId>

    function State(): SessionState
      reads this
    {
      SessionState(rinfoUsers, userRinfos, msgIds)
    }

    ghost predicate Valid()
      reads this
    {
      Mirrored(State())
    }

    constructor ()
      ensures Valid() && State() == NoSessions
    {
      rinfoUsers, userRinfos, msgIds := map[], map[], map[];
    }

    method LinkUserToRInfo(e: Endpoint, u: AccountId)
      modifies this
      ensures State() == Link(old(State()), e, u)
      ensures Mirrored(old(State())) ==> Valid()
    {
      if Mirrored(State()) {
        LinkPreservesMirrored(State(), e, u);
      }
      if u in userRinfos {
        rinfoUsers := rinfoUsers - {userRinfos[u]};
      }
      rinfoUsers := rinfoUsers[e := u];
      userRinfos := userRinfos[u := e];
    }

    method NextMsgId(e: Endpoint) returns (id: MsgId)
      modifies this
      ensures id == NextId(old(State()), e)
      ensures State() == Bump(old(State()), e)
      ensures Mirrored(old(State())) ==> Valid()
    {
      var n: int := (if e in msgIds then msgIds[e] as int else 0) + 1;
      if n >= MsgIdRollover {
        n := 1;
      }
      msgIds := msgIds[e := n];
      id := n;
    }
  }
}
