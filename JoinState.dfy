/** The join handshake seen from one id: the three states an id can be in and the
    transition each protocol event makes. This is the reference the mutators of the
    membership view are proved against. */
module JoinState {
  import opened ClusterTypes

  datatype JoinStatus = Unknown | Joiner | Member

  /** The events that can change an id's status. A configuration change, an offer and a
      frame-sequence increment change no id's status and are not listed. */
  datatype JoinEvent = Request | Ready | Clear

  /** The transition table. A request makes an unknown id or a joiner a joiner and leaves
      a member alone; ready admits; clearing the status forgets everything. */
  function Step(s: JoinStatus, e: JoinEvent): (r: JoinStatus)
  {
    match e
    case Request => if s == Member then Member else Joiner
    case Ready => Member
    case Clear => Unknown
  }

  /** The status of id in a view holding these joiner and member maps. */
  function StatusOf(joiners: map<MemberId, Url>, members: map<MemberId, Url>, id: MemberId): (s: JoinStatus)
    ensures s == Member <==> id in members
    ensures s == Joiner <==> id in joiners && id !in members
    ensures s == Unknown <==> id !in joiners && id !in members
  {
    if id in members then Member
    else if id in joiners then Joiner
    else Unknown
  }

  /** The status reached from s by applying the events of es in order. */
  function Run(s: JoinStatus, es: seq<JoinEvent>): (r: JoinStatus)
    decreases |es|
  {
    if es == [] then s else Run(Step(s, es[0]), es[1..])
  }

  /** Replaying one more event after es is one more step of the table. */
  lemma {:induction false} RunSnoc(s: JoinStatus, es: seq<JoinEvent>, e: JoinEvent)
    ensures Run(s, es + [e]) == Step(Run(s, es), e)
    decreases |es|
  {
    if es != [] {
      assert (es + [e])[1..] == es[1..] + [e];
      RunSnoc(Step(s, es[0]), es[1..], e);
    }
  }

  /** Once admitted, an id stays a member until its status is cleared: replayed
      requests and ready messages never demote it. */
  lemma {:induction false} MemberStaysMember(es: seq<JoinEvent>)
    requires Clear !in es
    ensures Run(Member, es) == Member
    decreases |es|
  {
    if es != [] {
      assert es[0] != Clear;
      assert Clear !in es[1..];
      MemberStaysMember(es[1..]);
    }
  }

  /** An id becomes a joiner only through a request: if a run ends in Joiner then it
      started there or some event of the run was a request. */
  lemma {:induction false} JoinerNeedsRequest(s: JoinStatus, es: seq<JoinEvent>)
    requires Run(s, es) == Joiner
    ensures s == Joiner || Request in es
    decreases |es|
  {
    if es != [] {
      JoinerNeedsRequest(Step(s, es[0]), es[1..]);
      if Request in es[1..] {
        var i :| 0 <= i < |es[1..]| && es[1..][i] == Request;
        assert es[i + 1] == Request;
      } else {
        assert es[0] == Request;
      }
    }
  }

  /** A ready with no later clear leaves the id a member, whatever else was replayed
      after it. */
  lemma {:induction false} ReadyAdmits(s: JoinStatus, es: seq<JoinEvent>, i: nat)
    requires i < |es| && es[i] == Ready
    requires Clear !in es[i + 1..]
    ensures Run(s, es) == Member
    decreases |es|
  {
    if i == 0 {
      MemberStaysMember(es[1..]);
    } else {
      assert es[1..][i - 1] == Ready;
      assert es[1..][i..] == es[i + 1..];
      ReadyAdmits(Step(s, es[0]), es[1..], i - 1);
    }
  }
}
