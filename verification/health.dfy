/** `check_health_for_all_nodes`: for every graph node, in node order, find
    its component, schedule the echoing health check for it, gather the
    answers in scheduling order, and copy `health` onto every component
    carrying the answered id. The thread pool and `asyncio.gather` are an
    order-preserving map here, and the in-place write of `health` is an
    enriched copy of the component. */
module Health {
  import opened Results
  import opened Seqs
  import opened Input
  import opened Dag

  /** The ids of a component list, in order. */
  function ComponentIds(comps: seq<Component>): seq<string>
  {
    seq(|comps|, i requires 0 <= i < |comps| => comps[i].id)
  }

  /** The first component with the given id: the inner loop up to its `break`. */
  function FirstMatch(comps: seq<Component>, id: string): (r: Option<Component>)
    ensures r.None? <==> id !in ComponentIds(comps)
    ensures r.Some? ==> r.value in comps && r.value.id == id
  {
    if |comps| == 0 then None
    else
      assert ComponentIds(comps) == [comps[0].id] + ComponentIds(comps[1..]);
      if comps[0].id == id then Some(comps[0])
      else FirstMatch(comps[1..], id)
  }

  /** What the inner loop keeps is the earliest component with the id. */
  lemma {:induction false} FirstMatchIsEarliest(comps: seq<Component>, id: string)
    requires FirstMatch(comps, id).Some?
    ensures exists i :: && 0 <= i < |comps| && comps[i] == FirstMatch(comps, id).value
                        && forall j :: 0 <= j < i ==> comps[j].id != id
  {
    if comps[0].id != id {
      FirstMatchIsEarliest(comps[1..], id);
      var i :| && 0 <= i < |comps[1..]| && comps[1..][i] == FirstMatch(comps, id).value
                && forall j :: 0 <= j < i ==> comps[1..][j].id != id;
      assert comps[i + 1] == comps[1..][i];
      assert forall j :: 1 <= j < i + 1 ==> comps[j] == comps[1..][j - 1];
    } else {
      assert comps[0] == FirstMatch(comps, id).value;
    }
  }

  /** The component the node lookup settles on. The `break` leaves only the
      inner loop, so each later subsystem holding the id overwrites the
      choice. */
  function Lookup(sys: System, id: string): (r: Option<Component>)
    ensures r.Some? ==> r.value.id == id
  {
    if |sys| == 0 then None
    else
      var m := FirstMatch(sys[|sys| - 1], id);
      if m.Some? then m else Lookup(sys[..|sys| - 1], id)
  }

  /** The lookup's choice is the first match in the LAST subsystem that holds
      the id, and it finds nothing only when no subsystem holds it. */
  lemma {:induction false} LookupIsLastSubsystemMatch(sys: System, id: string)
    ensures Lookup(sys, id).None? <==> forall k :: 0 <= k < |sys| ==> FirstMatch(sys[k], id).None?
    ensures Lookup(sys, id).Some? ==>
              exists k :: && 0 <= k < |sys| && FirstMatch(sys[k], id) == Lookup(sys, id)
                          && forall k' :: k < k' < |sys| ==> FirstMatch(sys[k'], id).None?
  {
    if |sys| > 0 {
      var n := |sys| - 1;
      var init := sys[..n];
      var m := FirstMatch(sys[n], id);
      LookupIsLastSubsystemMatch(init, id);
      forall k | 0 <= k < n ensures init[k] == sys[k] {
      }
      if m.Some? {
        assert Lookup(sys, id) == m;
        assert FirstMatch(sys[n], id) == Lookup(sys, id);
      } else {
        assert Lookup(sys, id) == Lookup(init, id);
        if Lookup(init, id).Some? {
          var k :| && 0 <= k < n && FirstMatch(init[k], id) == Lookup(init, id)
                   && forall k' :: k < k' < n ==> FirstMatch(init[k'], id).None?;
          assert FirstMatch(sys[k], id) == Lookup(sys, id);
          assert forall k' :: k < k' < |sys| ==> FirstMatch(sys[k'], id).None?;
        }
      }
    }
  }

  /** The lookup finds a component exactly when some component has the id,
      and what it finds is such a component. */
  lemma {:induction false} LookupFindsComponent(sys: System, id: string)
    ensures Lookup(sys, id).Some? <==> id in ComponentIds(Flatten(sys))
    ensures Lookup(sys, id).Some? ==> Lookup(sys, id).value in Flatten(sys)
  {
    if |sys| > 0 {
      var init := sys[..|sys| - 1];
      var last := sys[|sys| - 1];
      LookupFindsComponent(init, id);
      assert sys == init + [last];
      assert Flatten(sys) == Flatten(init) + last by {
        FlattenSnoc(init, last);
      }
      assert ComponentIds(Flatten(sys)) == ComponentIds(Flatten(init)) + ComponentIds(last);
    }
  }

  /** The nodes that have a component, in node order. */
  function BackedNodes(sys: System, nodes: seq<string>): seq<string> {
    if |nodes| == 0 then []
    else (if Lookup(sys, nodes[0]).Some? then [nodes[0]] else []) + BackedNodes(sys, nodes[1..])
  }

  /** The checked nodes are exactly the nodes for which a component is found. */
  lemma {:induction false} BackedNodesMembers(sys: System, nodes: seq<string>)
    ensures forall x :: x in BackedNodes(sys, nodes) <==> x in nodes && Lookup(sys, x).Some?
  {
    if |nodes| > 0 {
      BackedNodesMembers(sys, nodes[1..]);
      assert nodes == [nodes[0]] + nodes[1..];
    }
  }

  /** Skipping nodes keeps the others in node order, each once. */
  lemma {:induction false} BackedNodesInNodeOrder(sys: System, nodes: seq<string>)
    requires NoDup(nodes)
    ensures NoDup(BackedNodes(sys, nodes))
    ensures InFirstSeenOrder(BackedNodes(sys, nodes), nodes)
  {
    if |nodes| > 0 {
      var rest := BackedNodes(sys, nodes[1..]);
      NoDupCons(nodes);
      BackedNodesMembers(sys, nodes[1..]);
      BackedNodesInNodeOrder(sys, nodes[1..]);
      FirstSeenOrderCons(rest, nodes);
      FirstSeenOrderNoDup(BackedNodes(sys, nodes), nodes);
    }
  }

  /** A scheduled health check: the node and the looked-up component's `status`. */
  datatype Task = Task(id: string, status: string)

  /** The checks handed to the thread pool, and the error that stopped the
      scheduling loop, if one did. */
  datatype Scheduling = Scheduling(submitted: seq<Task>, failure: Option<Error>)

  function TaskIds(ts: seq<Task>): seq<string>
  {
    seq(|ts|, i requires 0 <= i < |ts| => ts[i].id)
  }

  /** Every node that has a component has one with a `status`. */
  predicate StatusesPresent(sys: System, nodes: seq<string>) {
    forall x :: x in nodes && Lookup(sys, x).Some? ==> Lookup(sys, x).value.status.Some?
  }

  /** The scheduling loop: one check per node that has a component, in node
      order, carrying that component's `status`. Reading `status` off a
      component that lacks it raises, and the loop stops there. */
  function Schedule(sys: System, nodes: seq<string>): (s: Scheduling)
    ensures s.failure.Some? ==> s.failure.value == KeyError("status")
    ensures forall t :: t in s.submitted ==>
              Lookup(sys, t.id).Some? && Lookup(sys, t.id).value.status == Some(t.status)
  {
    if |nodes| == 0 then Scheduling([], None)
    else
      var rest := Schedule(sys, nodes[1..]);
      match Lookup(sys, nodes[0])
      case None => rest
      case Some(c) =>
        if c.status.None? then Scheduling([], Some(KeyError("status")))
        else Scheduling([Task(nodes[0], c.status.value)] + rest.submitted, rest.failure)
  }

  /** Unfolds the node list by its first node. */
  lemma ScheduleStep(sys: System, nodes: seq<string>)
    requires |nodes| > 0
    ensures BackedNodes(sys, nodes) ==
            (if Lookup(sys, nodes[0]).Some? then [nodes[0]] else []) + BackedNodes(sys, nodes[1..])
    ensures StatusesPresent(sys, nodes) <==>
            && (Lookup(sys, nodes[0]).Some? ==> Lookup(sys, nodes[0]).value.status.Some?)
            && StatusesPresent(sys, nodes[1..])
  {
    assert nodes == [nodes[0]] + nodes[1..];
  }

  /** Scheduling succeeds exactly when every node's component has a `status`. */
  lemma {:induction false} ScheduleSucceedsIffStatuses(sys: System, nodes: seq<string>)
    ensures Schedule(sys, nodes).failure.None? <==> StatusesPresent(sys, nodes)
  {
    if |nodes| > 0 {
      ScheduleStep(sys, nodes);
      ScheduleSucceedsIffStatuses(sys, nodes[1..]);
    }
  }

  /** The checks submitted are those of the nodes with a component, in node
      order: a prefix of them, and all of them when scheduling succeeds. */
  lemma {:induction false} ScheduleSubmitsBackedNodes(sys: System, nodes: seq<string>)
    ensures TaskIds(Schedule(sys, nodes).submitted) <= BackedNodes(sys, nodes)
    ensures Schedule(sys, nodes).failure.None? ==> TaskIds(Schedule(sys, nodes).submitted) == BackedNodes(sys, nodes)
  {
    if |nodes| > 0 {
      ScheduleStep(sys, nodes);
      ScheduleSubmitsBackedNodes(sys, nodes[1..]);
      var rest := Schedule(sys, nodes[1..]);
      var restIds := TaskIds(rest.submitted);
      var b := BackedNodes(sys, nodes[1..]);
      var c := Lookup(sys, nodes[0]);
      if c.None? {
        assert Schedule(sys, nodes) == rest;
        assert BackedNodes(sys, nodes) == b;
      } else if c.value.status.None? {
        assert Schedule(sys, nodes).submitted == [];
      } else {
        var s := Schedule(sys, nodes);
        assert s.submitted == [Task(nodes[0], c.value.status.value)] + rest.submitted;
        assert s.failure == rest.failure;
        assert TaskIds(s.submitted) == [nodes[0]] + restIds;
        assert BackedNodes(sys, nodes) == [nodes[0]] + b;
      }
    }
  }

  /** Both facts about scheduling together. */
  lemma ScheduleFollowsBackedNodes(sys: System, nodes: seq<string>)
    ensures Schedule(sys, nodes).failure.None? <==> StatusesPresent(sys, nodes)
    ensures TaskIds(Schedule(sys, nodes).submitted) <= BackedNodes(sys, nodes)
    ensures Schedule(sys, nodes).failure.None? ==> TaskIds(Schedule(sys, nodes).submitted) == BackedNodes(sys, nodes)
  {
    ScheduleSucceedsIffStatuses(sys, nodes);
    ScheduleSubmitsBackedNodes(sys, nodes);
  }

  /** When scheduling stops, it stops at the first node whose component lacks `status`. */
  lemma {:induction false} ScheduleStopsAtMissingStatus(sys: System, nodes: seq<string>)
    requires Schedule(sys, nodes).failure.Some?
    ensures TaskIds(Schedule(sys, nodes).submitted) <= BackedNodes(sys, nodes)
    ensures |Schedule(sys, nodes).submitted| < |BackedNodes(sys, nodes)|
    ensures Lookup(sys, BackedNodes(sys, nodes)[|Schedule(sys, nodes).submitted|]).Some?
    ensures Lookup(sys, BackedNodes(sys, nodes)[|Schedule(sys, nodes).submitted|]).value.status.None?
  {
    ScheduleStep(sys, nodes);
    ScheduleFollowsBackedNodes(sys, nodes);
    var c := Lookup(sys, nodes[0]);
    if c.None? || c.value.status.Some? {
      ScheduleStopsAtMissingStatus(sys, nodes[1..]);
      if c.Some? {
        assert TaskIds(Schedule(sys, nodes).submitted) == [nodes[0]] + TaskIds(Schedule(sys, nodes[1..]).submitted);
      }
    }
  }

  /** The answer of one health check. */
  datatype Response = Response(id: string, health: string)

  /** `check_health`: after a simulated delay, echoes the declared status as the health. */
  function CheckHealth(id: string, status: string): Response {
    Response(id, status)
  }

  /** `asyncio.gather` over the submitted checks: every answer, in submission
      order regardless of completion order. */
  function Gather(tasks: seq<Task>): (rs: seq<Response>)
    ensures |rs| == |tasks|
    ensures forall i :: 0 <= i < |tasks| ==> rs[i].id == tasks[i].id && rs[i].health == tasks[i].status
  {
    seq(|tasks|, i requires 0 <= i < |tasks| => CheckHealth(tasks[i].id, tasks[i].status))
  }

  function ResponseIds(rs: seq<Response>): seq<string>
  {
    seq(|rs|, i requires 0 <= i < |rs| => rs[i].id)
  }

  /** A component of the output, with the `health` written onto it. */
  datatype Record = Record(component: Component, health: string)

  function RecordIds(rs: seq<Record>): seq<string>
  {
    seq(|rs|, i requires 0 <= i < |rs| => rs[i].component.id)
  }

  lemma RecordIdsAppend(a: seq<Record>, b: seq<Record>)
    ensures RecordIds(a + b) == RecordIds(a) + RecordIds(b)
  {
  }

  /** The inner loops for one answer: every component with the answered id,
      in document order, with `health` set. */
  function Annotate(comps: seq<Component>, resp: Response): (r: seq<Record>)
    ensures forall rec :: rec in r ==>
              rec.component in comps && rec.component.id == resp.id && rec.health == resp.health
  {
    if |comps| == 0 then []
    else
      var rest := Annotate(comps[1..], resp);
      if comps[0].id == resp.id then [Record(comps[0], resp.health)] + rest else rest
  }

  /** The components of a record list, in order. */
  function RecordComponents(rs: seq<Record>): seq<Component>
  {
    seq(|rs|, i requires 0 <= i < |rs| => rs[i].component)
  }

  lemma RecordComponentsAppend(a: seq<Record>, b: seq<Record>)
    ensures RecordComponents(a + b) == RecordComponents(a) + RecordComponents(b)
  {
  }

  /** One answer yields every component carrying its id, as often as that
      component occurs in the document, and no other component. */
  lemma {:induction false} AnnotateComponents(comps: seq<Component>, resp: Response, c: Component)
    ensures multiset(RecordComponents(Annotate(comps, resp)))[c] ==
            if c.id == resp.id then multiset(comps)[c] else 0
  {
    if |comps| > 0 {
      AnnotateComponents(comps[1..], resp, c);
      var rest := RecordComponents(Annotate(comps[1..], resp));
      MultisetCons(comps, c);
      if comps[0].id == resp.id {
        var out := RecordComponents(Annotate(comps, resp));
        assert out[0] == comps[0] && out[1..] == rest;
        MultisetCons(out, c);
      } else {
        assert Annotate(comps, resp) == Annotate(comps[1..], resp);
      }
    }
  }

  /** The components one answer yields keep their document order. */
  lemma {:induction false} AnnotateInDocumentOrder(comps: seq<Component>, resp: Response)
    ensures IsSubsequence(RecordComponents(Annotate(comps, resp)), comps)
  {
    if |comps| == 0 {
      assert RecordComponents(Annotate(comps, resp)) == [];
    } else {
      AnnotateInDocumentOrder(comps[1..], resp);
      var rest := Annotate(comps[1..], resp);
      var r := RecordComponents(Annotate(comps, resp));
      if comps[0].id == resp.id {
        var head := [Record(comps[0], resp.health)];
        assert Annotate(comps, resp) == head + rest;
        RecordComponentsAppend(head, rest);
        assert RecordComponents(head) == [comps[0]];
        assert r[0] == comps[0] && r[1..] == RecordComponents(rest);
      } else {
        assert Annotate(comps, resp) == rest;
        assert r == RecordComponents(rest);
      }
    }
  }

  /** The output list: the annotated components of each answer, answers in order. */
  function Assemble(comps: seq<Component>, resps: seq<Response>): seq<Record> {
    if |resps| == 0 then []
    else Annotate(comps, resps[0]) + Assemble(comps, resps[1..])
  }

  /** Every output record is a component whose id was answered, carrying that answer's `health`. */
  lemma {:induction false} AssembleRecordsAnswered(comps: seq<Component>, resps: seq<Response>)
    ensures forall rec :: rec in Assemble(comps, resps) ==>
              && rec.component in comps
              && exists k :: 0 <= k < |resps| && resps[k].id == rec.component.id && resps[k].health == rec.health
  {
    if |resps| > 0 {
      AssembleRecordsAnswered(comps, resps[1..]);
      forall rec | rec in Assemble(comps, resps)
        ensures exists k :: 0 <= k < |resps| && resps[k].id == rec.component.id && resps[k].health == rec.health
      {
        if rec !in Annotate(comps, resps[0]) {
          var k :| 0 <= k < |resps[1..]| && resps[1..][k].id == rec.component.id && resps[1..][k].health == rec.health;
          assert resps[k + 1] == resps[1..][k];
        }
      }
    }
  }

  /** One answer yields as many records as there are components with its id. */
  lemma {:induction false} AnnotateMultiplicity(comps: seq<Component>, resp: Response, x: string)
    ensures multiset(RecordIds(Annotate(comps, resp)))[x] ==
            if x == resp.id then multiset(ComponentIds(comps))[x] else 0
  {
    if |comps| > 0 {
      AnnotateMultiplicity(comps[1..], resp, x);
      var rest := RecordIds(Annotate(comps[1..], resp));
      var ids := ComponentIds(comps);
      assert ids[0] == comps[0].id && ids[1..] == ComponentIds(comps[1..]);
      MultisetCons(ids, x);
      if comps[0].id == resp.id {
        var out := RecordIds(Annotate(comps, resp));
        assert out[0] == resp.id && out[1..] == rest;
        MultisetCons(out, x);
      } else {
        assert Annotate(comps, resp) == Annotate(comps[1..], resp);
      }
    }
  }

  /** Occurrences multiply: an id answered `a` times and carried by `b`
      components produces `a * b` records. */
  lemma {:induction false} AssembleMultiplicity(comps: seq<Component>, resps: seq<Response>, x: string)
    ensures multiset(RecordIds(Assemble(comps, resps)))[x] ==
            multiset(ResponseIds(resps))[x] * multiset(ComponentIds(comps))[x]
  {
    if |resps| > 0 {
      var a := Annotate(comps, resps[0]);
      var b := Assemble(comps, resps[1..]);
      var n := multiset(ComponentIds(comps))[x];
      AssembleMultiplicity(comps, resps[1..], x);
      AnnotateMultiplicity(comps, resps[0], x);
      RecordIdsAppend(a, b);
      assert multiset(RecordIds(a + b))[x] == multiset(RecordIds(a))[x] + multiset(RecordIds(b))[x];
      assert ResponseIds(resps) == [resps[0].id] + ResponseIds(resps[1..]);
      var m := multiset(ResponseIds(resps[1..]))[x];
      if resps[0].id == x {
        assert multiset(ResponseIds(resps))[x] == 1 + m;
        OneMoreTimes(m, n);
      } else {
        assert multiset(ResponseIds(resps))[x] == m;
      }
    }
  }

  /** Per component: a component whose id is answered `a` times, and which
      occurs `b` times in the document, appears in `a * b` records. */
  lemma {:induction false} AssembleComponents(comps: seq<Component>, resps: seq<Response>, c: Component)
    ensures multiset(RecordComponents(Assemble(comps, resps)))[c] ==
            multiset(ResponseIds(resps))[c.id] * multiset(comps)[c]
  {
    if |resps| > 0 {
      var a := Annotate(comps, resps[0]);
      var b := Assemble(comps, resps[1..]);
      var n := multiset(comps)[c];
      AssembleComponents(comps, resps[1..], c);
      AnnotateComponents(comps, resps[0], c);
      RecordComponentsAppend(a, b);
      assert multiset(RecordComponents(a + b))[c] ==
             multiset(RecordComponents(a))[c] + multiset(RecordComponents(b))[c];
      assert ResponseIds(resps) == [resps[0].id] + ResponseIds(resps[1..]);
      var m := multiset(ResponseIds(resps[1..]))[c.id];
      if resps[0].id == c.id {
        assert multiset(ResponseIds(resps))[c.id] == 1 + m;
        OneMoreTimes(m, n);
      } else {
        assert multiset(ResponseIds(resps))[c.id] == m;
      }
    }
  }

  lemma OneMoreTimes(m: int, n: int)
    ensures (1 + m) * n == n + m * n
  {
  }

  /** Records grouped by answer: the answer of an earlier record never comes
      after the answer of a later one in `ids`. */
  predicate GroupedBy(recs: seq<Record>, ids: seq<string>) {
    forall i, j :: 0 <= i < j < |recs| ==>
      FirstIndex(ids, recs[i].component.id) <= FirstIndex(ids, recs[j].component.id)
  }

  /** Concatenating a group of first-answer records and records grouped by
      the remaining answers gives records grouped by all answers. */
  lemma GroupedConcat(a: seq<Record>, b: seq<Record>, ids: seq<string>, tl: seq<string>)
    requires forall k :: 0 <= k < |a| ==> FirstIndex(ids, a[k].component.id) == 0
    requires forall k :: 0 <= k < |b| ==> FirstIndex(ids, b[k].component.id) == 1 + FirstIndex(tl, b[k].component.id)
    requires GroupedBy(b, tl)
    ensures GroupedBy(a + b, ids)
  {
    var all := a + b;
    forall i, j | 0 <= i < j < |all|
      ensures FirstIndex(ids, all[i].component.id) <= FirstIndex(ids, all[j].component.id)
    {
      if j >= |a| {
        assert all[j] == b[j - |a|];
        if i >= |a| {
          assert all[i] == b[i - |a|];
        } else {
          assert all[i] == a[i];
        }
      } else {
        assert all[i] == a[i] && all[j] == a[j];
      }
    }
  }

  /** With distinct answers, the first answer's records rank first, and the
      later records rank one behind their rank among the remaining answers. */
  lemma AnswerRanks(comps: seq<Component>, resps: seq<Response>)
    requires |resps| > 0 && NoDup(ResponseIds(resps))
    ensures forall k :: 0 <= k < |Annotate(comps, resps[0])| ==>
              FirstIndex(ResponseIds(resps), Annotate(comps, resps[0])[k].component.id) == 0
    ensures forall k :: 0 <= k < |Assemble(comps, resps[1..])| ==>
              FirstIndex(ResponseIds(resps), Assemble(comps, resps[1..])[k].component.id) ==
              1 + FirstIndex(ResponseIds(resps[1..]), Assemble(comps, resps[1..])[k].component.id)
  {
    var ids := ResponseIds(resps);
    var tl := ResponseIds(resps[1..]);
    assert ids == [resps[0].id] + tl;
    assert ids[1..] == tl;
    NoDupCons(ids);
    var a := Annotate(comps, resps[0]);
    var b := Assemble(comps, resps[1..]);
    AssembleRecordsAnswered(comps, resps[1..]);
    forall k | 0 <= k < |b| ensures FirstIndex(ids, b[k].component.id) == 1 + FirstIndex(tl, b[k].component.id) {
      assert b[k] in b;
      var m :| 0 <= m < |resps[1..]| && resps[1..][m].id == b[k].component.id && resps[1..][m].health == b[k].health;
      assert tl[m] == b[k].component.id;
    }
    forall k | 0 <= k < |a| ensures FirstIndex(ids, a[k].component.id) == 0 {
      assert a[k] in a;
    }
  }

  /** With distinct answers, the records come grouped by answer, in answer order. */
  lemma {:induction false} AssembleGroupedByAnswer(comps: seq<Component>, resps: seq<Response>)
    requires NoDup(ResponseIds(resps))
    ensures GroupedBy(Assemble(comps, resps), ResponseIds(resps))
  {
    if |resps| > 0 {
      var ids := ResponseIds(resps);
      NoDupCons(ids);
      assert ids[1..] == ResponseIds(resps[1..]);
      AssembleGroupedByAnswer(comps, resps[1..]);
      AnswerRanks(comps, resps);
      GroupedConcat(Annotate(comps, resps[0]), Assemble(comps, resps[1..]), ids, ResponseIds(resps[1..]));
    }
  }

  /** The components of the records carrying id `x`, in record order. */
  function ComponentsWithId(recs: seq<Record>, x: string): seq<Component> {
    if |recs| == 0 then []
    else (if recs[0].component.id == x then [recs[0].component] else []) + ComponentsWithId(recs[1..], x)
  }

  lemma {:induction false} ComponentsWithIdAppend(a: seq<Record>, b: seq<Record>, x: string)
    ensures ComponentsWithId(a + b, x) == ComponentsWithId(a, x) + ComponentsWithId(b, x)
  {
    if |a| > 0 {
      assert (a + b)[1..] == a[1..] + b;
      ComponentsWithIdAppend(a[1..], b, x);
    } else {
      assert a + b == b;
    }
  }

  /** Records that all carry `x` give all their components. */
  lemma {:induction false} ComponentsWithIdAll(recs: seq<Record>, x: string)
    requires forall rec :: rec in recs ==> rec.component.id == x
    ensures ComponentsWithId(recs, x) == RecordComponents(recs)
  {
    if |recs| > 0 {
      assert recs[0] in recs;
      assert forall rec :: rec in recs[1..] ==> rec in recs;
      ComponentsWithIdAll(recs[1..], x);
      assert RecordComponents(recs) == [recs[0].component] + RecordComponents(recs[1..]);
    }
  }

  /** Records none of which carries `x` give nothing. */
  lemma {:induction false} ComponentsWithIdNone(recs: seq<Record>, x: string)
    requires forall rec :: rec in recs ==> rec.component.id != x
    ensures ComponentsWithId(recs, x) == []
  {
    if |recs| > 0 {
      assert recs[0] in recs;
      assert forall rec :: rec in recs[1..] ==> rec in recs;
      ComponentsWithIdNone(recs[1..], x);
    }
  }

  /** With distinct answers, the records of any one id keep the document
      order of their components. */
  lemma {:induction false} AssembleOneIdInDocumentOrder(comps: seq<Component>, resps: seq<Response>, x: string)
    requires NoDup(ResponseIds(resps))
    ensures IsSubsequence(ComponentsWithId(Assemble(comps, resps), x), comps)
  {
    if |resps| == 0 {
      assert ComponentsWithId(Assemble(comps, resps), x) == [];
    } else {
      var ids := ResponseIds(resps);
      var tl := ResponseIds(resps[1..]);
      assert ids == [resps[0].id] + tl;
      assert ids[1..] == tl;
      NoDupCons(ids);
      var a := Annotate(comps, resps[0]);
      var b := Assemble(comps, resps[1..]);
      assert Assemble(comps, resps) == a + b;
      ComponentsWithIdAppend(a, b, x);
      if resps[0].id == x {
        ComponentsWithIdAll(a, x);
        AnnotateInDocumentOrder(comps, resps[0]);
        AssembleRecordsAnswered(comps, resps[1..]);
        forall rec | rec in b ensures rec.component.id != x {
          var m :| 0 <= m < |resps[1..]| && resps[1..][m].id == rec.component.id && resps[1..][m].health == rec.health;
          assert tl[m] == rec.component.id;
        }
        ComponentsWithIdNone(b, x);
        assert ComponentsWithId(a + b, x) == RecordComponents(a);
      } else {
        ComponentsWithIdNone(a, x);
        AssembleOneIdInDocumentOrder(comps, resps[1..], x);
        assert ComponentsWithId(a + b, x) == ComponentsWithId(b, x);
      }
    }
  }

  /** An answer whose id no component carries yields nothing. */
  lemma {:induction false} AnnotateAbsent(comps: seq<Component>, resp: Response)
    requires resp.id !in ComponentIds(comps)
    ensures Annotate(comps, resp) == []
  {
    if |comps| > 0 {
      assert ComponentIds(comps) == [comps[0].id] + ComponentIds(comps[1..]);
      AnnotateAbsent(comps[1..], resp);
    }
  }

  /** With unique ids, an answer whose id some component carries yields exactly one record. */
  lemma {:induction false} AnnotateUnique(comps: seq<Component>, resp: Response)
    requires NoDup(ComponentIds(comps))
    requires resp.id in ComponentIds(comps)
    ensures |Annotate(comps, resp)| == 1
  {
    var ids := ComponentIds(comps);
    assert ids == [comps[0].id] + ComponentIds(comps[1..]);
    assert ComponentIds(comps[1..]) == ids[1..];
    NoDupCons(ids);
    if comps[0].id == resp.id {
      AnnotateAbsent(comps[1..], resp);
    } else {
      AnnotateUnique(comps[1..], resp);
    }
  }

  /** With unique ids and every answer carried by a component, the output has
      one record per answer, in answer order. */
  lemma {:induction false} AssembleUnique(comps: seq<Component>, resps: seq<Response>)
    requires NoDup(ComponentIds(comps))
    requires forall k :: 0 <= k < |resps| ==> resps[k].id in ComponentIds(comps)
    ensures RecordIds(Assemble(comps, resps)) == ResponseIds(resps)
    ensures forall i :: 0 <= i < |resps| ==> Assemble(comps, resps)[i].health == resps[i].health
  {
    if |resps| > 0 {
      var head := Annotate(comps, resps[0]);
      var tail := Assemble(comps, resps[1..]);
      AnnotateUnique(comps, resps[0]);
      assert head[0] in head;
      forall k | 0 <= k < |resps[1..]| ensures resps[1..][k].id in ComponentIds(comps) {
        assert resps[1..][k] == resps[k + 1];
      }
      AssembleUnique(comps, resps[1..]);
      var all := Assemble(comps, resps);
      assert all == head + tail;
      RecordIdsAppend(head, tail);
      assert RecordIds(head) == [resps[0].id];
      assert ResponseIds(resps) == [resps[0].id] + ResponseIds(resps[1..]);
      assert RecordIds(all) == ResponseIds(resps);
      forall i | 0 <= i < |resps| ensures all[i].health == resps[i].health {
        if i > 0 {
          assert all[i] == tail[i - 1];
          assert resps[i] == resps[1..][i - 1];
        }
      }
    }
  }

  /** `check_health_for_all_nodes(G, data)`: fails while scheduling exactly
      when a node's component lacks `status`; otherwise every record is a
      component of the document whose id is a node, and carries as `health`
      the `status` of the component the lookup chose for that id. */
  function CheckHealthForAllNodes(sys: System, g: Graph): (r: Result<seq<Record>, Error>)
    ensures r.Success? <==> StatusesPresent(sys, g.nodes)
    ensures r.Failure? ==> r.error == KeyError("status")
    ensures r.Success? ==> forall rec :: rec in r.value ==>
              && rec.component in Flatten(sys)
              && rec.component.id in g.nodes
              && Lookup(sys, rec.component.id).Some?
              && Lookup(sys, rec.component.id).value.status == Some(rec.health)
  {
    ScheduleFollowsBackedNodes(sys, g.nodes);
    var s := Schedule(sys, g.nodes);
    if s.failure.Some? then Failure(s.failure.value)
    else
      var resps := Gather(s.submitted);
      var recs := Assemble(Flatten(sys), resps);
      AssembleRecordsAnswered(Flatten(sys), resps);
      assert forall rec :: rec in recs ==> rec.component.id in g.nodes by {
        forall rec | rec in recs ensures rec.component.id in g.nodes {
          var k :| 0 <= k < |resps| && resps[k].id == rec.component.id && resps[k].health == rec.health;
          BackedNodesMembers(sys, g.nodes);
          assert TaskIds(s.submitted)[k] in BackedNodes(sys, g.nodes);
          assert s.submitted[k] in s.submitted;
        }
      }
      Success(recs)
  }

  /** Over a duplicate-free node list, an id yields as many records as there
      are components carrying it when it is a node, and none otherwise. */
  lemma RecordMultiplicity(sys: System, g: Graph, x: string)
    requires NoDup(g.nodes)
    requires CheckHealthForAllNodes(sys, g).Success?
    ensures multiset(RecordIds(CheckHealthForAllNodes(sys, g).value))[x] ==
            if x in g.nodes then multiset(ComponentIds(Flatten(sys)))[x] else 0
  {
    var comps := Flatten(sys);
    var s := Schedule(sys, g.nodes);
    var resps := Gather(s.submitted);
    var b := BackedNodes(sys, g.nodes);
    ScheduleFollowsBackedNodes(sys, g.nodes);
    BackedNodesInNodeOrder(sys, g.nodes);
    BackedNodesMembers(sys, g.nodes);
    assert ResponseIds(resps) == b;
    var recs := Assemble(comps, resps);
    assert CheckHealthForAllNodes(sys, g).value == recs;
    var n := multiset(ComponentIds(comps))[x];
    AssembleMultiplicity(comps, resps, x);
    assert multiset(RecordIds(recs))[x] == multiset(b)[x] * n;
    NoDupMultiplicity(b, x);
    LookupFindsComponent(sys, x);
    if x in b {
      assert multiset(RecordIds(recs))[x] == 1 * n;
    } else {
      assert multiset(RecordIds(recs))[x] == 0 * n;
      if x in g.nodes {
        assert x !in ComponentIds(comps);
      }
    }
  }

  /** Over a duplicate-free node list, every component whose id is a node
      appears in the output exactly as often as in the document (once, for a
      component that occurs once), and no other component appears. */
  lemma RecordComponentMultiplicity(sys: System, g: Graph, c: Component)
    requires NoDup(g.nodes)
    requires CheckHealthForAllNodes(sys, g).Success?
    ensures multiset(RecordComponents(CheckHealthForAllNodes(sys, g).value))[c] ==
            if c.id in g.nodes then multiset(Flatten(sys))[c] else 0
  {
    var comps := Flatten(sys);
    var s := Schedule(sys, g.nodes);
    var resps := Gather(s.submitted);
    var b := BackedNodes(sys, g.nodes);
    ScheduleFollowsBackedNodes(sys, g.nodes);
    BackedNodesInNodeOrder(sys, g.nodes);
    BackedNodesMembers(sys, g.nodes);
    assert ResponseIds(resps) == b;
    var recs := Assemble(comps, resps);
    assert CheckHealthForAllNodes(sys, g).value == recs;
    var n := multiset(comps)[c];
    AssembleComponents(comps, resps, c);
    assert multiset(RecordComponents(recs))[c] == multiset(b)[c.id] * n;
    NoDupMultiplicity(b, c.id);
    LookupFindsComponent(sys, c.id);
    if c.id in b {
      assert multiset(RecordComponents(recs))[c] == 1 * n;
    } else {
      assert multiset(RecordComponents(recs))[c] == 0 * n;
      if c.id in g.nodes {
        UnknownIdNoComponent(comps, c);
      }
    }
  }

  /** Every record's id is among the answered ids. */
  lemma AssembleIdsAnswered(comps: seq<Component>, resps: seq<Response>)
    ensures forall rec :: rec in Assemble(comps, resps) ==> rec.component.id in ResponseIds(resps)
  {
    AssembleRecordsAnswered(comps, resps);
    forall rec | rec in Assemble(comps, resps) ensures rec.component.id in ResponseIds(resps) {
      var p :| 0 <= p < |resps| && resps[p].id == rec.component.id && resps[p].health == rec.health;
      assert ResponseIds(resps)[p] == rec.component.id;
    }
  }

  /** Grouping by `ids` carries over to `nodes` when `ids` lists its
      elements in first-seen order of `nodes`. */
  lemma RegroupInFirstSeenOrder(recs: seq<Record>, ids: seq<string>, nodes: seq<string>)
    requires GroupedBy(recs, ids) && InFirstSeenOrder(ids, nodes)
    requires forall rec :: rec in recs ==> rec.component.id in ids
    ensures GroupedBy(recs, nodes)
  {
    forall i, j | 0 <= i < j < |recs|
      ensures FirstIndex(nodes, recs[i].component.id) <= FirstIndex(nodes, recs[j].component.id)
    {
      assert recs[i] in recs && recs[j] in recs;
      var fp := FirstIndex(ids, recs[i].component.id);
      var fq := FirstIndex(ids, recs[j].component.id);
      assert ids[fp] == recs[i].component.id && ids[fq] == recs[j].component.id;
    }
  }

  /** The output is grouped by node: records of an earlier node come before
      records of a later one. */
  lemma RecordsFollowNodeOrder(sys: System, g: Graph)
    requires NoDup(g.nodes)
    requires CheckHealthForAllNodes(sys, g).Success?
    ensures GroupedBy(CheckHealthForAllNodes(sys, g).value, g.nodes)
  {
    var comps := Flatten(sys);
    var s := Schedule(sys, g.nodes);
    var resps := Gather(s.submitted);
    var b := BackedNodes(sys, g.nodes);
    ScheduleFollowsBackedNodes(sys, g.nodes);
    BackedNodesInNodeOrder(sys, g.nodes);
    assert ResponseIds(resps) == b;
    var recs := Assemble(comps, resps);
    assert CheckHealthForAllNodes(sys, g).value == recs;
    AssembleGroupedByAnswer(comps, resps);
    AssembleIdsAnswered(comps, resps);
    RegroupInFirstSeenOrder(recs, b, g.nodes);
  }

  /** The records of any one id keep the document order of their components. */
  lemma RecordsOfOneIdInDocumentOrder(sys: System, g: Graph, x: string)
    requires NoDup(g.nodes)
    requires CheckHealthForAllNodes(sys, g).Success?
    ensures IsSubsequence(ComponentsWithId(CheckHealthForAllNodes(sys, g).value, x), Flatten(sys))
  {
    var s := Schedule(sys, g.nodes);
    var resps := Gather(s.submitted);
    ScheduleFollowsBackedNodes(sys, g.nodes);
    BackedNodesInNodeOrder(sys, g.nodes);
    assert ResponseIds(resps) == BackedNodes(sys, g.nodes);
    assert CheckHealthForAllNodes(sys, g).value == Assemble(Flatten(sys), resps);
    AssembleOneIdInDocumentOrder(Flatten(sys), resps, x);
  }

  /** A component whose id the list does not carry is not in the list. */
  lemma UnknownIdNoComponent(comps: seq<Component>, c: Component)
    requires c.id !in ComponentIds(comps)
    ensures multiset(comps)[c] == 0
  {
    forall i | 0 <= i < |comps| ensures comps[i] != c {
      assert ComponentIds(comps)[i] == comps[i].id;
    }
  }

  /** Components sharing an id all get the same `health`: the status of the
      component the lookup chose. */
  lemma DuplicatesShareHealth(sys: System, g: Graph, a: Record, b: Record)
    requires CheckHealthForAllNodes(sys, g).Success?
    requires a in CheckHealthForAllNodes(sys, g).value && b in CheckHealthForAllNodes(sys, g).value
    requires a.component.id == b.component.id
    ensures a.health == b.health
  {
  }

  /** With unique component ids, the output holds one record per node that
      has a component, in node order, each carrying its own `status` as `health`. */
  lemma UniqueIdsOneRecordPerNode(sys: System, g: Graph)
    requires NoDup(ComponentIds(Flatten(sys)))
    requires CheckHealthForAllNodes(sys, g).Success?
    ensures RecordIds(CheckHealthForAllNodes(sys, g).value) == BackedNodes(sys, g.nodes)
    ensures forall rec :: rec in CheckHealthForAllNodes(sys, g).value ==> rec.component.status == Some(rec.health)
  {
    var comps := Flatten(sys);
    var s := Schedule(sys, g.nodes);
    var resps := Gather(s.submitted);
    ScheduleFollowsBackedNodes(sys, g.nodes);
    assert CheckHealthForAllNodes(sys, g).value == Assemble(comps, resps);
    assert ResponseIds(resps) == BackedNodes(sys, g.nodes);
    SubmittedIdsCarried(sys, g.nodes);
    assert forall k :: 0 <= k < |resps| ==> s.submitted[k] in s.submitted;
    AssembleUnique(comps, resps);
    forall rec | rec in CheckHealthForAllNodes(sys, g).value ensures rec.component.status == Some(rec.health) {
      LookupFindsComponent(sys, rec.component.id);
      UniqueIdSameComponent(comps, rec.component, Lookup(sys, rec.component.id).value);
    }
  }

  /** Every submitted check is for an id some component carries. */
  lemma SubmittedIdsCarried(sys: System, nodes: seq<string>)
    ensures forall t :: t in Schedule(sys, nodes).submitted ==> t.id in ComponentIds(Flatten(sys))
  {
    forall t | t in Schedule(sys, nodes).submitted ensures t.id in ComponentIds(Flatten(sys)) {
      LookupFindsComponent(sys, t.id);
    }
  }

  /** With unique ids, two components of the list with the same id are the same. */
  lemma UniqueIdSameComponent(comps: seq<Component>, a: Component, b: Component)
    requires NoDup(ComponentIds(comps))
    requires a in comps && b in comps && a.id == b.id
    ensures a == b
  {
    var i :| 0 <= i < |comps| && comps[i] == a;
    var j :| 0 <= j < |comps| && comps[j] == b;
    assert ComponentIds(comps)[i] == ComponentIds(comps)[j];
  }

  /** Every record's id was submitted for a health check. */
  lemma RecordIdsSubmitted(sys: System, g: Graph)
    requires CheckHealthForAllNodes(sys, g).Success?
    ensures forall rec :: rec in CheckHealthForAllNodes(sys, g).value ==>
              rec.component.id in TaskIds(Schedule(sys, g.nodes).submitted)
  {
    var s := Schedule(sys, g.nodes);
    var resps := Gather(s.submitted);
    assert ResponseIds(resps) == TaskIds(s.submitted);
    assert CheckHealthForAllNodes(sys, g).value == Assemble(Flatten(sys), resps);
    AssembleIdsAnswered(Flatten(sys), resps);
  }

  /** A component with no dependencies that nobody names, and whose id no
      component declaring dependencies shares, gets no health check and no record. */
  lemma IsolatedComponentDropped(sys: System, c: Component)
    requires c in Flatten(sys)
    requires forall d :: d in Flatten(sys) ==> c.id !in d.dependencies
    requires forall d :: d in Flatten(sys) && d.id == c.id ==> d.dependencies == []
    ensures c.id !in TaskIds(Schedule(sys, DagOf(sys).nodes).submitted)
    ensures CheckHealthForAllNodes(sys, DagOf(sys)).Success? ==>
              c.id !in RecordIds(CheckHealthForAllNodes(sys, DagOf(sys)).value)
  {
    var g := DagOf(sys);
    IsolatedComponentIsNoNode(sys, c);
    BackedNodesMembers(sys, g.nodes);
    ScheduleSubmitsBackedNodes(sys, g.nodes);
    PrefixMembers(TaskIds(Schedule(sys, g.nodes).submitted), BackedNodes(sys, g.nodes));
    var r := CheckHealthForAllNodes(sys, g);
    if r.Success? {
      RecordIdsSubmitted(sys, g);
      forall i | 0 <= i < |r.value| ensures RecordIds(r.value)[i] != c.id {
        assert r.value[i] in r.value;
      }
    }
  }
}
