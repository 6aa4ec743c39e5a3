/**
 Signalling of an RTC peer connection: barertc/src/peerconn.c.

 The session description library and the media NAT module appear as the success or failure of a call.  The theorems
 are told by the events of a run and by what each call returned, not by the fields of the connection.
 */
module PeerConnection {

  datatype Signaling = Stable | HaveLocalOffer | HaveRemoteOffer

  datatype Err = Ok | EPROTO | Failed

  const MAX_RETRIES: nat := 10

  /** struct peer_connection; mnat says whether there is a NAT session that can be updated. */
  datatype State = State(signaling: Signaling, decOk: bool, encOk: bool, retries: nat, timer: bool, mnat: bool)

  /** What a caller sees of a call: its result, and whether it updated the NAT session. */
  datatype Outcome = Outcome(err: Err, update: bool)

  datatype Event =
    | SetRemote(offer: bool, decodes: bool)
    | CreateOffer(encodes: bool)
    | CreateAnswer(encodes: bool)
    | StartIce(updates: bool)   // called by the application
    | IceTimer(updates: bool)   // the retry timer expires
    | Close

  function SetRemoteStep(s: State, offer: bool, decodes: bool): (State, Err) {
    if s.signaling == HaveRemoteOffer then (s, EPROTO)
    else
      var t := s.(signaling := if offer then HaveRemoteOffer else Stable);
      if !decodes then (t, Failed) else (t.(decOk := true), Ok)
  }

  function CreateOfferStep(s: State, encodes: bool): (State, Err) {
    if s.signaling != Stable then (s, EPROTO)
    else if !encodes then (s, Failed)
    else (s.(signaling := HaveLocalOffer, encOk := true), Ok)
  }

  function CreateAnswerStep(s: State, encodes: bool): (State, Err) {
    if s.signaling != HaveRemoteOffer then (s, EPROTO)
    else if !encodes then (s, Failed)
    else (s.(signaling := Stable, encOk := true), Ok)
  }

  function StartIceStep(s: State, updates: bool): (State, Outcome) {
    if !s.decOk then
      if s.retries < MAX_RETRIES
      then (s.(retries := s.retries + 1, timer := true), Outcome(Ok, false))
      else (s, Outcome(EPROTO, false))
    else if s.mnat then (s, Outcome(if updates then Ok else Failed, true))
    else (s, Outcome(Ok, false))
  }

  function Quiet(r: (State, Err)): (State, Outcome) { (r.0, Outcome(r.1, false)) }

  function Step(s: State, e: Event): (State, Outcome) {
    match e
    case SetRemote(offer, decodes) => Quiet(SetRemoteStep(s, offer, decodes))
    case CreateOffer(encodes) => Quiet(CreateOfferStep(s, encodes))
    case CreateAnswer(encodes) => Quiet(CreateAnswerStep(s, encodes))
    case StartIce(updates) => StartIceStep(s, updates)
    case IceTimer(updates) => StartIceStep(s.(timer := false), updates)
    case Close => (s.(mnat := false), Outcome(Ok, false))
  }

  /** peerconnection_new */
  function Init(mnat: bool): State { State(Stable, false, false, 0, false, mnat) }

  class Connection {
    var signaling: Signaling
    var decOk: bool
    var encOk: bool
    var retries: nat
    var timer: bool
    var mnat: bool

    function Abs(): State
      reads this
    {
      State(signaling, decOk, encOk, retries, timer, mnat)
    }

    constructor (hasMnat: bool)
      ensures Abs() == Init(hasMnat)
    {
      signaling, decOk, encOk, retries, timer, mnat := Stable, false, false, 0, false, hasMnat;
    }

    method SetRemoteDescr(offer: bool, decodes: bool) returns (err: Err)
      modifies this
      ensures (Abs(), err) == SetRemoteStep(old(Abs()), offer, decodes)
    {
      if signaling == HaveRemoteOffer {
        return EPROTO;
      }
      if offer {
        signaling := HaveRemoteOffer;
      } else {
        signaling := Stable;
      }
      if !decodes {
        return Failed;
      }
      decOk := true;
      return Ok;
    }

    method CreateOfferSdp(encodes: bool) returns (err: Err)
      modifies this
      ensures (Abs(), err) == CreateOfferStep(old(Abs()), encodes)
    {
      if signaling != Stable {
        return EPROTO;
      }
      if !encodes {
        return Failed;
      }
      signaling, encOk := HaveLocalOffer, true;
      return Ok;
    }

    method CreateAnswerSdp(encodes: bool) returns (err: Err)
      modifies this
      ensures (Abs(), err) == CreateAnswerStep(old(Abs()), encodes)
    {
      if signaling != HaveRemoteOffer {
        return EPROTO;
      }
      if !encodes {
        return Failed;
      }
      signaling, encOk := Stable, true;
      return Ok;
    }

    /** peerconnection_start_ice; updateOk is the result of the NAT module, if it is called. */
    method StartIceNow(updateOk: bool) returns (err: Err, update: bool)
      modifies this
      ensures (Abs(), Outcome(err, update)) == StartIceStep(old(Abs()), updateOk)
    {
      update := false;
      if !decOk {
        if retries < MAX_RETRIES {
          retries, timer := retries + 1, true;
          return Ok, false;
        }
        return EPROTO, false;
      }
      if mnat {
        update := true;
        if !updateOk {
          return Failed, true;
        }
      }
      return Ok, update;
    }
  }

  // ---------------------------------------------------------------- runs

  /** The connection after the events. */
  function After(mnat: bool, es: seq<Event>): State {
    if es == [] then Init(mnat) else Step(After(mnat, es[..|es| - 1]), es[|es| - 1]).0
  }

  /** What event k did. */
  function At(mnat: bool, es: seq<Event>, k: nat): Outcome
    requires k < |es|
  {
    Step(After(mnat, es[..k]), es[k]).1
  }

  lemma {:induction false} AfterGrows(mnat: bool, es: seq<Event>, e: Event)
    ensures After(mnat, es + [e]) == Step(After(mnat, es), e).0
    ensures At(mnat, es + [e], |es|) == Step(After(mnat, es), e).1
    ensures forall k :: 0 <= k < |es| ==> At(mnat, es + [e], k) == At(mnat, es, k)
  {
    assert (es + [e])[..|es|] == es;
    forall k | 0 <= k < |es| ensures At(mnat, es + [e], k) == At(mnat, es, k) {
      assert (es + [e])[..k] == es[..k];
    }
  }

  // ---------------------------------------------------------------- the exchange of offers and answers

  datatype Message = LocalOffer | LocalAnswer | RemoteOffer | RemoteAnswer

  /** The message a call sends or takes, unless it is refused or, when sending, fails. */
  function Passed(e: Event, err: Err): seq<Message> {
    match e
    case SetRemote(offer, _) => if err == EPROTO then [] else [if offer then RemoteOffer else RemoteAnswer]
    case CreateOffer(_) => if err == Ok then [LocalOffer] else []
    case CreateAnswer(_) => if err == Ok then [LocalAnswer] else []
    case _ => []
  }

  /** The messages of a run, told by its events and their results. */
  function Exchange(mnat: bool, es: seq<Event>): seq<Message> {
    if es == [] then []
    else
      var n := |es| - 1;
      Exchange(mnat, es[..n]) + Passed(es[n], At(mnat, es, n).err)
  }

  /** The signalling state is a function of the exchange so far. */
  function StateAfter(log: seq<Message>): Signaling {
    if log == [] then Stable
    else
      match log[|log| - 1]
      case LocalOffer => HaveLocalOffer
      case RemoteOffer => HaveRemoteOffer
      case LocalAnswer => Stable
      case RemoteAnswer => Stable
  }

  /** Which message can follow. */
  predicate Allowed(st: Signaling, m: Message) {
    match m
    case LocalOffer => st == Stable
    case LocalAnswer => st == HaveRemoteOffer
    case RemoteOffer => st != HaveRemoteOffer
    case RemoteAnswer => st != HaveRemoteOffer
  }

  predicate WellFormed(log: seq<Message>) {
    forall i :: 0 <= i < |log| ==> Allowed(StateAfter(log[..i]), log[i])
  }

  function Count(log: seq<Message>, m: Message): nat {
    if log == [] then 0
    else Count(log[..|log| - 1], m) + (if log[|log| - 1] == m then 1 else 0)
  }

  /** Remote descriptions taken while a local offer is open. */
  function Resolved(log: seq<Message>): nat {
    if log == [] then 0
    else
      var n := |log| - 1;
      Resolved(log[..n]) + (if StateAfter(log[..n]) == HaveLocalOffer && log[n] in {RemoteOffer, RemoteAnswer} then 1 else 0)
  }

  predicate Balanced(log: seq<Message>) {
    && Count(log, RemoteOffer) == Count(log, LocalAnswer) + (if StateAfter(log) == HaveRemoteOffer then 1 else 0)
    && Count(log, LocalOffer) == Resolved(log) + (if StateAfter(log) == HaveLocalOffer then 1 else 0)
  }

  lemma {:induction false} LogAppend(log: seq<Message>, m: Message)
    ensures WellFormed(log + [m]) <==> WellFormed(log) && Allowed(StateAfter(log), m)
  {
    var l := log + [m];
    assert l[..|log|] == log;
    forall i | 0 <= i < |log| ensures l[..i] == log[..i] && l[i] == log[i] {}
    if WellFormed(l) {
      forall i | 0 <= i < |log| ensures Allowed(StateAfter(log[..i]), log[i]) {
        assert Allowed(StateAfter(l[..i]), l[i]);
      }
      assert Allowed(StateAfter(l[..|log|]), l[|log|]);
    }
  }

  lemma {:induction false} WellFormedIsBalanced(log: seq<Message>)
    requires WellFormed(log)
    ensures Balanced(log)
    decreases |log|
  {
    if log == [] {
    } else {
      var n := |log| - 1;
      assert log == log[..n] + [log[n]];
      LogAppend(log[..n], log[n]);
      WellFormedIsBalanced(log[..n]);
      assert Allowed(StateAfter(log[..n]), log[n]);
    }
  }

  /** The message a signalling call is about. */
  function Topic(e: Event): seq<Message> { Passed(e, Ok) }

  predicate Codes(e: Event) {
    match e
    case SetRemote(_, decodes) => decodes
    case CreateOffer(encodes) => encodes
    case CreateAnswer(encodes) => encodes
    case _ => true
  }

  /** The signalling state follows the exchange, and the exchange is well formed. */
  predicate Follows(st: Signaling, log: seq<Message>) { st == StateAfter(log) && WellFormed(log) }

  /** One event, on the state and the exchange. */
  lemma SignalingStep(s: State, log: seq<Message>, e: Event)
    requires Follows(s.signaling, log)
    ensures var (t, o) := Step(s, e); Follows(t.signaling, log + Passed(e, o.err))
  {
    var m := Passed(e, Step(s, e).1.err);
    if m == [] {
      assert log + m == log;
    } else {
      LogAppend(log, m[0]);
    }
  }

  lemma ExchangeGrows(mnat: bool, es: seq<Event>, e: Event)
    ensures Exchange(mnat, es + [e]) == Exchange(mnat, es) + Passed(e, Step(After(mnat, es), e).1.err)
  {
    assert (es + [e])[..|es|] == es;
  }

  lemma {:induction false} ExchangeHolds(mnat: bool, es: seq<Event>)
    ensures Follows(After(mnat, es).signaling, Exchange(mnat, es))
    decreases |es|
  {
    if es == [] {
    } else {
      var n := |es| - 1;
      ExchangeHolds(mnat, es[..n]);
      SignalingStep(After(mnat, es[..n]), Exchange(mnat, es[..n]), es[n]);
    }
  }

  /**
   Over every run: each remote offer let past the check is answered before anything else happens, but for
   the last one; each local offer is resolved by the next remote description, but for the last one.
   */
  lemma OffersAreAnswered(mnat: bool, es: seq<Event>)
    ensures var log, st := Exchange(mnat, es), After(mnat, es).signaling;
            && st == StateAfter(log)
            && Count(log, RemoteOffer) == Count(log, LocalAnswer) + (if st == HaveRemoteOffer then 1 else 0)
            && Count(log, LocalOffer) == Resolved(log) + (if st == HaveLocalOffer then 1 else 0)
  {
    ExchangeHolds(mnat, es);
    WellFormedIsBalanced(Exchange(mnat, es));
  }

  lemma RefusedIn(s: State, e: Event)
    requires Topic(e) != []
    ensures Step(s, e).1.err == EPROTO <==> !Allowed(s.signaling, Topic(e)[0])
    ensures Step(s, e).1.err == Ok <==> Allowed(s.signaling, Topic(e)[0]) && Codes(e)
  {
  }

  /**
   A signalling call is refused if and only if its message cannot follow the exchange so far; otherwise it succeeds
   if and only if the description can be decoded or encoded.
   */
  lemma RefusedExactly(mnat: bool, es: seq<Event>, k: nat)
    requires k < |es| && Topic(es[k]) != []
    ensures At(mnat, es, k).err == EPROTO <==> !Allowed(StateAfter(Exchange(mnat, es[..k])), Topic(es[k])[0])
    ensures At(mnat, es, k).err == Ok <==> Allowed(StateAfter(Exchange(mnat, es[..k])), Topic(es[k])[0]) && Codes(es[k])
  {
    ExchangeHolds(mnat, es[..k]);
    RefusedIn(After(mnat, es[..k]), es[k]);
  }

  /** The event that sends or takes a message, with everything succeeding. */
  function EventOf(m: Message): Event {
    match m
    case LocalOffer => CreateOffer(true)
    case LocalAnswer => CreateAnswer(true)
    case RemoteOffer => SetRemote(true, true)
    case RemoteAnswer => SetRemote(false, true)
  }

  /** Some run has this exchange. */
  ghost predicate Reachable(mnat: bool, log: seq<Message>) { exists es :: Exchange(mnat, es) == log }

  lemma {:induction false} ReachableStep(mnat: bool, log: seq<Message>, m: Message)
    requires Reachable(mnat, log) && Allowed(StateAfter(log), m)
    ensures Reachable(mnat, log + [m])
  {
    var es :| Exchange(mnat, es) == log;
    var e := EventOf(m);
    ExchangeHolds(mnat, es);
    ExchangeGrows(mnat, es, e);
  }

  lemma {:induction false} WellFormedIsReachable(mnat: bool, log: seq<Message>)
    requires WellFormed(log)
    ensures Reachable(mnat, log)
    decreases |log|
  {
    if log == [] {
      assert Exchange(mnat, []) == [];
    } else {
      var n := |log| - 1;
      assert log == log[..n] + [log[n]];
      LogAppend(log[..n], log[n]);
      WellFormedIsReachable(mnat, log[..n]);
      ReachableStep(mnat, log[..n], log[n]);
    }
  }

  /** The exchanges that can happen are exactly the well-formed ones. */
  lemma {:induction false} ReachableExchanges(mnat: bool, log: seq<Message>)
    ensures Reachable(mnat, log) <==> WellFormed(log)
  {
    if Reachable(mnat, log) {
      var es :| Exchange(mnat, es) == log;
      ExchangeHolds(mnat, es);
    } else if WellFormed(log) {
      WellFormedIsReachable(mnat, log);
    }
  }

  // ---------------------------------------------------------------- ICE

  predicate Attempt(e: Event) { e.StartIce? || e.IceTimer? }

  /** Event k is a remote description that was let past the check and decoded. */
  predicate DecodedAt(mnat: bool, es: seq<Event>, k: nat)
    requires k < |es|
  {
    es[k].SetRemote? && es[k].decodes && At(mnat, es, k).err != EPROTO
  }

  predicate Decoded(mnat: bool, es: seq<Event>) { exists k :: 0 <= k < |es| && DecodedAt(mnat, es, k) }

  /** An offer or an answer was created. */
  predicate Encoded(mnat: bool, es: seq<Event>) {
    exists k :: 0 <= k < |es| && (es[k].CreateOffer? || es[k].CreateAnswer?) && At(mnat, es, k).err == Ok
  }

  /** How many attempts came before any description was decoded. */
  function Early(mnat: bool, es: seq<Event>): nat {
    if es == [] then 0
    else
      var n := |es| - 1;
      Early(mnat, es[..n]) + (if Attempt(es[n]) && !Decoded(mnat, es[..n]) then 1 else 0)
  }

  /** Event k is an attempt after which the timer is to try again. */
  predicate Schedules(mnat: bool, es: seq<Event>, k: nat)
    requires k < |es|
  {
    Attempt(es[k]) && !Decoded(mnat, es[..k]) && Early(mnat, es[..k]) < 10
  }

  /** A retry is scheduled, and the timer has not expired since. */
  predicate Scheduled(mnat: bool, es: seq<Event>) {
    exists k :: 0 <= k < |es| && Schedules(mnat, es, k) && forall i :: k < i < |es| ==> !es[i].IceTimer?
  }

  lemma DecodedGrows(mnat: bool, es: seq<Event>, e: Event)
    ensures Decoded(mnat, es + [e])
            <==> Decoded(mnat, es) || (e.SetRemote? && e.decodes && Step(After(mnat, es), e).1.err != EPROTO)
  {
    var fs := es + [e];
    AfterGrows(mnat, es, e);
    if Decoded(mnat, es) {
      var k :| 0 <= k < |es| && DecodedAt(mnat, es, k);
      assert DecodedAt(mnat, fs, k);
    }
    if e.SetRemote? && e.decodes && Step(After(mnat, es), e).1.err != EPROTO {
      assert DecodedAt(mnat, fs, |es|);
    }
    if Decoded(mnat, fs) {
      var k :| 0 <= k < |fs| && DecodedAt(mnat, fs, k);
      assert k < |es| ==> DecodedAt(mnat, es, k);
    }
  }

  lemma EncodedGrows(mnat: bool, es: seq<Event>, e: Event)
    ensures Encoded(mnat, es + [e])
            <==> Encoded(mnat, es) || ((e.CreateOffer? || e.CreateAnswer?) && Step(After(mnat, es), e).1.err == Ok)
  {
    var fs := es + [e];
    AfterGrows(mnat, es, e);
    assert fs[|es|] == e;
    if Encoded(mnat, es) {
      var k :| 0 <= k < |es| && (es[k].CreateOffer? || es[k].CreateAnswer?) && At(mnat, es, k).err == Ok;
      assert fs[k] == es[k];
    }
  }

  lemma ScheduledGrows(mnat: bool, es: seq<Event>, e: Event)
    ensures Scheduled(mnat, es + [e])
            <==> || (Attempt(e) && !Decoded(mnat, es) && Early(mnat, es) < 10)
                 || (Scheduled(mnat, es) && !e.IceTimer?)
  {
    var fs := es + [e];
    assert fs[..|es|] == es && fs[|es|] == e;
    forall k | 0 <= k < |es| ensures fs[..k] == es[..k] && fs[k] == es[k] {}
    if Attempt(e) && !Decoded(mnat, es) && Early(mnat, es) < 10 {
      assert Schedules(mnat, fs, |es|);
    }
    if Scheduled(mnat, es) && !e.IceTimer? {
      var k :| 0 <= k < |es| && Schedules(mnat, es, k) && forall i :: k < i < |es| ==> !es[i].IceTimer?;
      assert Schedules(mnat, fs, k);
    }
    if Scheduled(mnat, fs) {
      var k :| 0 <= k < |fs| && Schedules(mnat, fs, k) && forall i :: k < i < |fs| ==> !fs[i].IceTimer?;
      if k < |es| {
        assert Schedules(mnat, es, k);
        assert forall i :: k < i < |es| ==> fs[i] == es[i];
      }
    }
  }

  /** The fields of the connection, told by what has happened. */
  predicate Fields(s: State, decoded: bool, encoded: bool, open: bool, scheduled: bool, early: nat) {
    && (s.decOk <==> decoded) && (s.encOk <==> encoded) && (s.mnat <==> open) && (s.timer <==> scheduled)
    && s.retries == (if early < 10 then early else 10)
  }

  /** One event, on these values. */
  lemma FieldsStep(s: State, e: Event, decoded: bool, encoded: bool, open: bool, scheduled: bool, early: nat)
    requires Fields(s, decoded, encoded, open, scheduled, early)
    ensures var (t, o) := Step(s, e);
            Fields(t, decoded || (e.SetRemote? && e.decodes && o.err != EPROTO),
                   encoded || ((e.CreateOffer? || e.CreateAnswer?) && o.err == Ok),
                   open && e != Close,
                   (Attempt(e) && !decoded && early < 10) || (scheduled && !e.IceTimer?),
                   early + if Attempt(e) && !decoded then 1 else 0)
  {
  }

  ghost predicate FieldsInv(mnat: bool, es: seq<Event>) {
    Fields(After(mnat, es), Decoded(mnat, es), Encoded(mnat, es), mnat && Close !in es, Scheduled(mnat, es), Early(mnat, es))
  }

  lemma EarlyGrows(mnat: bool, es: seq<Event>, e: Event)
    ensures Early(mnat, es + [e]) == Early(mnat, es) + if Attempt(e) && !Decoded(mnat, es) then 1 else 0
  {
    assert (es + [e])[..|es|] == es;
  }

  /**
   In every run: a description counts as decoded, or as encoded, exactly when a call has decoded or encoded one; the
   timer runs exactly when an attempt scheduled a retry after it last expired.
   */
  lemma {:induction false} FieldsExactly(mnat: bool, es: seq<Event>)
    ensures FieldsInv(mnat, es)
    decreases |es|
  {
    if es == [] {
    } else {
      var n := |es| - 1;
      var before, e := es[..n], es[n];
      FieldsExactly(mnat, before);
      FieldsStep(After(mnat, before), e, Decoded(mnat, before), Encoded(mnat, before), mnat && Close !in before,
                 Scheduled(mnat, before), Early(mnat, before));
      DecodedGrows(mnat, before, e);
      EncodedGrows(mnat, before, e);
      ScheduledGrows(mnat, before, e);
      EarlyGrows(mnat, before, e);
      assert es == before + [e];
    }
  }

  /**
   In every run, for every event: the NAT session is updated exactly by the attempts that come after a decoded
   description and before the close.  Attempts that come too early are answered with a retry, ten times in all, and
   with an error from then on.
   */
  lemma IceWaitsForDescription(mnat: bool, es: seq<Event>, k: nat)
    requires k < |es|
    ensures var o := At(mnat, es, k);
            && (o.update <==> Attempt(es[k]) && Decoded(mnat, es[..k]) && mnat && Close !in es[..k])
            && (Attempt(es[k]) && !Decoded(mnat, es[..k]) ==> o.err == if Early(mnat, es[..k]) < 10 then Ok else EPROTO)
            && (Attempt(es[k]) && Decoded(mnat, es[..k]) ==> (o.err == Ok <==> !o.update || es[k].updates))
  {
    FieldsExactly(mnat, es[..k]);
  }

  /** How many retries are scheduled in a run. */
  function Retries(mnat: bool, es: seq<Event>): nat {
    if es == [] then 0
    else Retries(mnat, es[..|es| - 1]) + (if Schedules(mnat, es, |es| - 1) then 1 else 0)
  }

  lemma {:induction false} AtMostTenRetries(mnat: bool, es: seq<Event>)
    ensures Retries(mnat, es) == if Early(mnat, es) < 10 then Early(mnat, es) else 10
    decreases |es|
  {
    if es == [] {
    } else {
      AtMostTenRetries(mnat, es[..|es| - 1]);
    }
  }
}
