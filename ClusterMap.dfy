/** The cluster membership view every broker node keeps: the joiners, the members,
    the ids currently reachable and the frame sequence counter. */
module Cluster {
  import opened ClusterTypes
  import opened JoinState
  import opened FrameSeq
  import opened MemberOrder

  /** The url recorded for id in m, or the empty url when m has no entry for id. */
  function UrlOf(m: map<MemberId, Url>, id: MemberId): (u: Url)
    ensures id in m ==> u == m[id]
    ensures id !in m ==> u == EmptyUrl
  {
    if id in m then m[id] else EmptyUrl
  }

  /** The ids present in both sets. */
  function Intersection(a: set<MemberId>, b: set<MemberId>): (r: set<MemberId>)
    ensures r <= a && r <= b
    ensures forall x :: x in a && x in b ==> x in r
  {
    set x | x in a && x in b
  }

  lemma IntersectionCommutes(a: set<MemberId>, b: set<MemberId>)
    ensures Intersection(a, b) == Intersection(b, a)
  {
  }

  lemma IntersectionIdempotent(a: set<MemberId>)
    ensures Intersection(a, a) == a
  {
  }

  lemma IntersectionWithEmpty(a: set<MemberId>)
    ensures Intersection(a, {}) == {}
  {
  }

  class ClusterMap {
    var joiners: map<MemberId, Url>
    var members: map<MemberId, Url>
    var alive: set<MemberId>
    var frameSeq: uint64

    /** No id is both a joiner and a member. */
    ghost predicate Valid()
      reads this
    {
      joiners.Keys !! members.Keys
    }

    /** The join status of id in this view. */
    function Status(id: MemberId): (s: JoinStatus)
      reads this
    {
      StatusOf(joiners, members, id)
    }

    /** An empty view: no joiners, no members, nobody alive, frame sequence 0. */
    constructor ()
      ensures Valid()
      ensures joiners == map[] && members == map[] && alive == {} && frameSeq == 0
    {
      joiners, members, alive, frameSeq := map[], map[], {}, 0;
    }

    /** Replaces the alive set with the ids of a configuration change and reports
        whether it differs from the one before. Joiners, members and the frame
        sequence are left alone. */
    method ConfigChange(addresses: set<MemberId>) returns (changed: bool)
      requires Valid()
      modifies this
      ensures Valid()
      ensures alive == addresses
      ensures changed <==> alive != old(alive)
      ensures joiners == old(joiners) && members == old(members) && frameSeq == old(frameSeq)
    {
      changed := alive != addresses;
      alive := addresses;
    }

    function IsJoiner(id: MemberId): (r: bool)
      reads this
      ensures r <==> id in joiners
      ensures Valid() ==> (r <==> Status(id) == Joiner)
    {
      id in joiners
    }

    function IsMember(id: MemberId): (r: bool)
      reads this
      ensures r <==> id in members
      ensures r <==> Status(id) == Member
      ensures Valid() && r ==> !IsJoiner(id)
    {
      id in members
    }

    function IsAlive(id: MemberId): (r: bool)
      reads this
      ensures r <==> id in alive
    {
      id in alive
    }

    /** The url of a joiner; the empty url when id is not a joiner. */
    function GetJoinerUrl(id: MemberId): (u: Url)
      reads this
      ensures IsJoiner(id) ==> u == joiners[id]
      ensures !IsJoiner(id) ==> u == EmptyUrl
    {
      UrlOf(joiners, id)
    }

    /** The url of a member; the empty url when id is not a member. */
    function GetMemberUrl(id: MemberId): (u: Url)
      reads this
      ensures IsMember(id) ==> u == members[id]
      ensures !IsMember(id) ==> u == EmptyUrl
    {
      UrlOf(members, id)
    }

    /** The joiner with the least id, the one offers are made to; None when nobody
        is joining. */
    function FirstJoiner(): (r: Option<MemberId>)
      reads this
      ensures r.None? <==> joiners.Keys == {}
      ensures r.Some? ==> IsJoiner(r.value)
      ensures r.Some? ==> forall k :: k in joiners ==> r.value <= k
    {
      if joiners.Keys == {} then None else Some(Least(joiners.Keys))
    }

    function AliveCount(): (n: nat)
      reads this
      ensures n == |alive|
    {
      |alive|
    }

    function MemberCount(): (n: nat)
      reads this
      ensures n == |members|
    {
      |members|
    }

    /** The member ids in ascending order, each once. */
    function MemberIds(): (r: seq<MemberId>)
      reads this
      ensures |r| == MemberCount()
      ensures forall id :: IsMember(id) <==> id in r
      ensures forall i, j :: 0 <= i < j < |r| ==> r[i] < r[j]
    {
      SortedIds(members.Keys)
    }

    /** The member urls, one per member, listed in the order of the member ids. */
    function MemberUrls(): (r: seq<Url>)
      reads this
      ensures |r| == MemberCount()
      ensures forall i :: 0 <= i < |r| ==> r[i] == GetMemberUrl(MemberIds()[i])
    {
      var ids, ms := MemberIds(), members;
      assert forall i :: 0 <= i < |ids| ==> ids[i] in ms;
      seq(|ids|, i requires 0 <= i < |ids| => ms[ids[i]])
    }

    function GetAlive(): (r: set<MemberId>)
      reads this
      ensures forall id :: id in r <==> IsAlive(id)
    {
      alive
    }

    function GetMembers(): (r: set<MemberId>)
      reads this
      ensures forall id :: id in r <==> IsMember(id)
    {
      members.Keys
    }

    /** A join request from id. An id that is already a member is left alone; any
        other id becomes (or stays) a joiner with the requested url. The result is
        true only when id was previously unknown, i.e. a new joiner was added. */
    method UpdateRequest(id: MemberId, url: string) returns (added: bool)
      requires Valid()
      modifies this
      ensures Valid()
      ensures added <==> old(Status(id)) == Unknown
      ensures Status(id) == Step(old(Status(id)), Request)
      ensures old(Status(id)) != Member ==> joiners == old(joiners)[id := Url(url)]
      ensures old(Status(id)) == Member ==> joiners == old(joiners)
      ensures members == old(members) && alive == old(alive) && frameSeq == old(frameSeq)
    {
      if id in members {
        added := false;
      } else {
        added := id !in joiners;
        joiners := joiners[id := Url(url)];
      }
    }

    /** An offer from member `from` to update joiner `to`: accepted, with the
        joiner's url, exactly when `to` is currently a joiner. Nothing changes. */
    method UpdateOffer(from: MemberId, to: MemberId) returns (r: Option<Url>)
      ensures r.Some? <==> IsJoiner(to)
      ensures r.Some? ==> r.value == GetJoinerUrl(to)
    {
      if to in joiners {
        r := Some(joiners[to]);
      } else {
        r := None;
      }
    }

    /** id is ready: it stops being a joiner and becomes a member with url. The
        result is true exactly when id was not a member before; a member's entry is
        left as it was. */
    method Ready(id: MemberId, url: Url) returns (isNew: bool)
      requires Valid()
      modifies this
      ensures Valid()
      ensures isNew <==> !old(IsMember(id))
      ensures Status(id) == Step(old(Status(id)), JoinEvent.Ready)
      ensures isNew ==> GetMemberUrl(id) == url
      ensures joiners == old(joiners) - {id}
      ensures members == if isNew then old(members)[id := url] else old(members)
      ensures alive == old(alive) && frameSeq == old(frameSeq)
    {
      joiners := joiners - {id};
      isNew := id !in members;
      if isNew {
        members := members[id := url];
      }
    }

    /** The current frame sequence; nothing changes. */
    method GetFrameSeq() returns (r: uint64)
      ensures r == frameSeq
    {
      r := frameSeq;
    }

    /** Advances the frame sequence by one, wrapping at 2^64, and returns the new
        value. */
    method IncrementFrameSeq() returns (r: uint64)
      requires Valid()
      modifies this
      ensures Valid()
      ensures r == frameSeq
      ensures frameSeq as int == (old(frameSeq) as int + 1) % TWO64
      ensures old(frameSeq) < MaxFrameSeq ==> frameSeq as int == old(frameSeq) as int + 1
      ensures joiners == old(joiners) && members == old(members) && alive == old(alive)
    {
      frameSeq := Next(frameSeq);
      r := frameSeq;
    }

    /** Forgets every joiner and member, keeping the alive set and the frame
        sequence. */
    method ClearStatus()
      requires Valid()
      modifies this
      ensures Valid()
      ensures joiners == map[] && members == map[]
      ensures forall id :: Status(id) == Step(old(Status(id)), Clear)
      ensures alive == old(alive) && frameSeq == old(frameSeq)
    {
      joiners := map[];
      members := map[];
    }
  }

  /** Any two views with the same joiner ids offer to the same joiner: the tie-break
      needs no election. */
  lemma FirstJoinerAgreement(a: ClusterMap, b: ClusterMap)
    requires a.joiners.Keys == b.joiners.Keys
    ensures a.FirstJoiner() == b.FirstJoiner()
  {
  }

  /** Two configuration changes with the same address list in a row: the second
      reports no change and the alive set is that list. */
  method ConfigChangeTwice(m: ClusterMap, addresses: set<MemberId>) returns (first: bool, second: bool)
    requires m.Valid()
    modifies m
    ensures m.Valid()
    ensures first <==> addresses != old(m.alive)
    ensures !second
    ensures m.alive == addresses
  {
    first := m.ConfigChange(addresses);
    second := m.ConfigChange(addresses);
  }

  /** Two offers to the same id in a row: the answer depends only on whether the id
      is currently a joiner, so a repeated offer to a joiner is accepted again with
      the same url. */
  method OfferTwice(m: ClusterMap, from: MemberId, to: MemberId) returns (first: Option<Url>, second: Option<Url>)
    ensures first == second
    ensures first.Some? <==> m.IsJoiner(to)
    ensures m.IsJoiner(to) ==> second == Some(m.GetJoinerUrl(to))
  {
    first := m.UpdateOffer(from, to);
    second := m.UpdateOffer(from, to);
  }

  /** A join handshake from an empty view: two nodes become reachable and are
      admitted, a third requests to join, receives an offer and becomes ready, one
      node drops out of the configuration and stays a member, and an offer to a
      node that never asked is refused. */
  method JoinScenario() returns (offered: Option<Url>, stale: Option<Url>, staysMember: bool)
    ensures offered == Some(Url("addr://C"))
    ensures stale == None
    ensures staysMember
  {
    var nodeA, nodeB, nodeC, nodeX := 1, 2, 3, 9;
    var m := new ClusterMap();
    var changed := m.ConfigChange({nodeA, nodeB});
    assert changed && m.alive == {nodeA, nodeB};
    var isNew := m.Ready(nodeA, Url("addr://A"));
    isNew := m.Ready(nodeB, Url("addr://B"));
    var added := m.UpdateRequest(nodeC, "addr://C");
    assert added && m.IsJoiner(nodeC);
    assert m.joiners.Keys == {nodeC};
    assert m.FirstJoiner() == Some(nodeC);
    offered := m.UpdateOffer(nodeA, nodeC);
    assert m.IsJoiner(nodeC);
    isNew := m.Ready(nodeC, Url("addr://C"));
    assert isNew && m.IsMember(nodeC) && !m.IsJoiner(nodeC);
    changed := m.ConfigChange({nodeA});
    assert changed && !m.IsAlive(nodeB);
    staysMember := m.IsMember(nodeB);
    stale := m.UpdateOffer(nodeA, nodeX);
  }

  /** Applies the events of es to id, one call per event: a request or a ready with
      url, or a status clear. The id's status ends where the transition table's replay
      of es ends, so the replay lemmas about the table hold of the view. */
  method ReplayJoin(m: ClusterMap, id: MemberId, url: string, es: seq<JoinEvent>)
    requires m.Valid()
    modifies m
    ensures m.Valid()
    ensures m.Status(id) == Run(old(m.Status(id)), es)
    ensures old(m.IsMember(id)) && Clear !in es ==> m.IsMember(id)
    ensures m.IsJoiner(id) ==> old(m.IsJoiner(id)) || Request in es
    ensures m.alive == old(m.alive) && m.frameSeq == old(m.frameSeq)
  {
    ghost var s0 := m.Status(id);
    var i := 0;
    while i < |es|
      invariant 0 <= i <= |es|
      invariant m.Valid()
      invariant m.Status(id) == Run(s0, es[..i])
      invariant m.alive == old(m.alive) && m.frameSeq == old(m.frameSeq)
    {
      RunSnoc(s0, es[..i], es[i]);
      assert es[..i + 1] == es[..i] + [es[i]];
      match es[i] {
        case Request =>
          var _ := m.UpdateRequest(id, url);
        case Ready =>
          var _ := m.Ready(id, Url(url));
        case Clear =>
          m.ClearStatus();
      }
      i := i + 1;
    }
    assert es[..i] == es;
    if old(m.IsMember(id)) && Clear !in es {
      MemberStaysMember(es);
    }
    if m.IsJoiner(id) {
      JoinerNeedsRequest(s0, es);
    }
  }

  /** Emits k snapshots' worth of frame sequence numbers: k increments move the
      counter by k modulo 2^64, and by exactly k while it does not wrap. */
  method IncrementFrameSeqTimes(m: ClusterMap, k: nat) returns (last: uint64)
    requires m.Valid()
    modifies m
    ensures m.Valid()
    ensures m.frameSeq == Advance(old(m.frameSeq), k)
    ensures m.frameSeq as int == (old(m.frameSeq) as int + k) % TWO64
    ensures old(m.frameSeq) as int + k < TWO64 ==> m.frameSeq as int == old(m.frameSeq) as int + k
    ensures k > 0 ==> last == m.frameSeq
    ensures m.joiners == old(m.joiners) && m.members == old(m.members) && m.alive == old(m.alive)
  {
    var i := 0;
    last := m.frameSeq;
    while i < k
      invariant 0 <= i <= k
      invariant m.Valid()
      invariant m.frameSeq == Advance(old(m.frameSeq), i)
      invariant i > 0 ==> last == m.frameSeq
      invariant m.joiners == old(m.joiners) && m.members == old(m.members) && m.alive == old(m.alive)
    {
      last := m.IncrementFrameSeq();
      i := i + 1;
    }
    AdvanceModular(old(m.frameSeq), k);
    if old(m.frameSeq) as int + k < TWO64 {
      AdvanceWithoutWrap(old(m.frameSeq), k);
    }
  }
}
