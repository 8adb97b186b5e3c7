/** How one Connect ends when anything may happen between its three steps. */
module ConnectOutcomes {
  import opened Options
  import opened ConnectFallback

  predicate StepOf(e: Event, id: nat) {
    e in {Initiates(id), CallsBack(id), Replies(id)}
  }

  /** Steps of other Connects, and evictions. */
  predicate OnlyOthers(es: seq<Event>, id: nat) {
    forall i :: 0 <= i < |es| ==> !StepOf(es[i], id)
  }

  lemma {:induction false} FlowStays(s: State, es: seq<Event>, id: nat)
    requires id in s.flows && OnlyOthers(es, id)
    ensures id in Run(s, es).flows && Run(s, es).flows[id] == s.flows[id]
    decreases |es|
  {
    if es != [] {
      StepKeepsFlow(s, es[0], id);
      FlowStays(Step(s, es[0]), es[1..], id);
    }
  }

  lemma StepKeepsFlow(s: State, e: Event, id: nat)
    requires id in s.flows && !StepOf(e, id)
    ensures id in Step(s, e).flows && Step(s, e).flows[id] == s.flows[id]
  {
  }

  /** The states that a Connect goes through: after its initiate call, before and after its callback, and before the
      reply is handled. */
  function Sending(s: State, id: nat): State {
    Step(s, Initiates(id))
  }

  function Returning(s: State, id: nat, before: seq<Event>): State {
    Run(Sending(s, id), before)
  }

  function Replying(s: State, id: nat, before: seq<Event>, between: seq<Event>): State {
    Run(Step(Returning(s, id, before), CallsBack(id)), between)
  }

  function Ending(s: State, id: nat, before: seq<Event>, between: seq<Event>): State {
    Step(Replying(s, id, before, between), Replies(id))
  }

  /** Whatever other Connects and the server do in between: a Connect that was sent to the authorization server with a
      client succeeds if and only if the row names that very client when the browser comes back and the server knows it
      when it replies. Each of the other endings has its own exact condition. */
  lemma ConnectEndsExactly(s: State, id: nat, before: seq<Event>, between: seq<Event>)
    requires OnlyOthers(before, id) && OnlyOthers(between, id) && Sending(s, id).flows[id].Sent?
    ensures var client := Sending(s, id).flows[id].client;
            var (row, server) := (Returning(s, id, before).row, Replying(s, id, before, between).server);
            var t := Ending(s, id, before, between);
            && Sending(s, id).row.Some? && Sending(s, id).row.value.client == client
            && id in t.flows
            && (t.flows[id] == Done(NotRegistered) <==> row.None?)
            && (t.flows[id] == Done(Connected) <==>
                  row.Some? && row.value.client == client && Knows(server, client))
            && (t.flows[id] == Done(ExchangeFailed) <==>
                  row.Some? && row.value.client != client && Knows(server, row.value.client))
            && (t.flows[id] == Done(CimdRefused) <==>
                  row.Some? && row.value.mechanism.Cimd? && !Knows(server, row.value.client))
            && (t.flows[id] == Done(ClientEvicted) <==>
                  row.Some? && !row.value.mechanism.Cimd? && !Knows(server, row.value.client))
  {
    hide Resolve;
    FlowStays(Sending(s, id), before, id);
    var posted := Step(Returning(s, id, before), CallsBack(id));
    FlowStays(posted, between, id);
  }

  /** What the handling of a reply does to the row: a refused CIMD client is marked, an evicted registration is dropped,
      and any other ending leaves the row alone. */
  lemma ReplyChangesRow(s: State, id: nat)
    requires id in s.flows && s.flows[id].Posted?
    ensures var t := Step(s, Replies(id));
            && t.server == s.server && t.offers == s.offers
            && (t.flows[id] == Done(ClientEvicted) ==> t.row.None?)
            && (t.flows[id] == Done(CimdRefused) ==>
                  && (t.row.None? <==> s.row.None?)
                  && (s.row.Some? ==> t.row == Some(ClientRow(s.row.value.client, CimdRejected))))
            && (t.flows[id] in {Done(Connected), Done(ExchangeFailed)} ==> t.row == s.row)
            && t.flows[id] in {Done(Connected), Done(ExchangeFailed), Done(CimdRefused), Done(ClientEvicted)}
  {
  }

  /** A Connect can be sent away with one client and post its code as another: it is refused although the server knows
      both, when the first registration was replaced in between. */
  lemma ReplacedClientFails(s: State, id: nat, other: nat)
    requires s.row.None? && !s.offers && s.server.registers && id != other && Sound(s)
    ensures var n := s.server.next;
            var before := [Evicts(n), Initiates(other), CallsBack(other), Replies(other), Initiates(other)];
            && OnlyOthers(before, id) && id in Ending(s, id, before, []).flows
            && Ending(s, id, before, []).flows[id] == Done(ExchangeFailed)
  {
    var n := s.server.next;
    var before := [Evicts(n), Initiates(other), CallsBack(other), Replies(other), Initiates(other)];
    var s1 := Sending(s, id);
    assert s1.row == Some(ClientRow(Registered(n), Dcr));
    var s2 := Step(s1, Evicts(n));
    var s3 := Step(s2, Initiates(other));
    var s4 := Step(s3, CallsBack(other));
    var s5 := Step(s4, Replies(other));
    var s6 := Step(s5, Initiates(other));
    assert s5.row.None? && s6.row == Some(ClientRow(Registered(n + 1), Dcr)) && n + 1 in s6.server.live;
    RunOfFive(s1, before);
    assert Returning(s, id, before) == s6;
    ConnectEndsExactly(s, id, before, []);
  }

  lemma RunOfFive(s: State, es: seq<Event>)
    requires |es| == 5
    ensures Run(s, es) == Step(Step(Step(Step(Step(s, es[0]), es[1]), es[2]), es[3]), es[4])
  {
    hide Step;
    assert es[1..][0] == es[1] && es[1..][1..] == es[2..] && es[2..][1..] == es[3..] && es[3..][1..] == es[4..];
    assert es[4..][1..] == [];
    var s1 := Step(s, es[0]);
    var s2 := Step(s1, es[1]);
    var s3 := Step(s2, es[2]);
    var s4 := Step(s3, es[3]);
    assert Run(s4, es[4..]) == Step(s4, es[4]);
    assert Run(s3, es[3..]) == Run(s4, es[4..]);
    assert Run(s2, es[2..]) == Run(s3, es[3..]);
  }
}
