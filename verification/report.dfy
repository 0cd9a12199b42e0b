/** The table rows `upload_json` builds from the health results, and the
    upload pipeline up to them: `create_dag`, then
    `check_health_for_all_nodes`, then one row per record. */
module Report {
  import opened Results
  import opened Seqs
  import opened Input
  import opened Dag
  import opened Health

  /** One row of the health table. The written `health` is not a column. */
  datatype Row = Row(id: string, kind: string, status: string, cpu: Value, memory: Value, disk: Value)

  /** What `get` supplies for a missing telemetry key. */
  const NotAvailable: Value := Str("N/A")

  /** `result.get(key, 'N/A')`. */
  function Cell(v: Option<Value>): Value {
    v.GetOr(NotAvailable)
  }

  /** Reads a table cell back as an optional telemetry value. */
  function ReadCell(c: Value): Option<Value> {
    if c == NotAvailable then None else Some(c)
  }

  /** A cell shows the sentinel exactly when the field is absent, and reads
      back as the field, unless the field itself holds the sentinel string. */
  lemma CellRoundTrip(v: Option<Value>)
    requires v != Some(NotAvailable)
    ensures Cell(v) == NotAvailable <==> v.None?
    ensures ReadCell(Cell(v)) == v
  {
  }

  /** The dictionary literal of one row: `id`, `type` and `status` are
      subscripted in that order, and each may raise; the telemetry keys
      default to the sentinel. */
  function TableRow(rec: Record): (r: Result<Row, Error>)
    ensures r.Success? <==> rec.component.kind.Some? && rec.component.status.Some?
    ensures rec.component.kind.None? ==> r == Failure(KeyError("type"))
    ensures rec.component.kind.Some? && rec.component.status.None? ==> r == Failure(KeyError("status"))
    ensures r.Success? ==>
              && r.value.id == rec.component.id
              && Some(r.value.kind) == rec.component.kind
              && Some(r.value.status) == rec.component.status
    ensures r.Success? ==>
              && (rec.component.cpuUsage.Some? ==> r.value.cpu == rec.component.cpuUsage.value)
              && (rec.component.cpuUsage.None? ==> r.value.cpu == NotAvailable)
              && (rec.component.memoryUsage.Some? ==> r.value.memory == rec.component.memoryUsage.value)
              && (rec.component.memoryUsage.None? ==> r.value.memory == NotAvailable)
              && (rec.component.diskUsage.Some? ==> r.value.disk == rec.component.diskUsage.value)
              && (rec.component.diskUsage.None? ==> r.value.disk == NotAvailable)
    ensures r.Success? && rec.component.cpuUsage != Some(NotAvailable) ==>
              ReadCell(r.value.cpu) == rec.component.cpuUsage
    ensures r.Success? && rec.component.memoryUsage != Some(NotAvailable) ==>
              ReadCell(r.value.memory) == rec.component.memoryUsage
    ensures r.Success? && rec.component.diskUsage != Some(NotAvailable) ==>
              ReadCell(r.value.disk) == rec.component.diskUsage
  {
    var c := rec.component;
    if c.kind.None? then Failure(KeyError("type"))
    else if c.status.None? then Failure(KeyError("status"))
    else
      Success(Row(c.id, c.kind.value, c.status.value,
                  Cell(c.cpuUsage), Cell(c.memoryUsage), Cell(c.diskUsage)))
  }

  /** The record holds the two subscripted columns `type` and `status`. */
  predicate HasColumns(rec: Record) {
    rec.component.kind.Some? && rec.component.status.Some?
  }

  /** The row loop: one row per record, in record order; it stops at the
      first record lacking `type` or `status`, with the error of that record. */
  function TableRows(recs: seq<Record>): (r: Result<seq<Row>, Error>)
    ensures r.Success? <==> forall i :: 0 <= i < |recs| ==> HasColumns(recs[i])
    ensures r.Success? ==> |r.value| == |recs|
    ensures r.Success? ==> forall i :: 0 <= i < |recs| ==> TableRow(recs[i]) == Success(r.value[i])
    ensures r.Success? ==> forall i :: 0 <= i < |recs| ==>
              && r.value[i].id == recs[i].component.id
              && Some(r.value[i].status) == recs[i].component.status
    ensures r.Failure? ==>
              exists i :: && 0 <= i < |recs|
                          && !HasColumns(recs[i])
                          && (forall j :: 0 <= j < i ==> HasColumns(recs[j]))
                          && r.error == (if recs[i].component.kind.None? then KeyError("type") else KeyError("status"))
  {
    MapAll(recs, TableRow)
  }

  function RowIds(rows: seq<Row>): seq<string>
  {
    seq(|rows|, i requires 0 <= i < |rows| => rows[i].id)
  }

  /** The `upload_json` pipeline from the decoded document to the table rows.
      An ill-formed document fails with a missing structural key (`system`
      and `subsystems` checked first); a well-formed one fails with
      `KeyError('status')` when a node's component
      lacks `status`, and otherwise yields the table rows of the health
      records, which succeed exactly when every record has `type` and `status`. */
  function UploadJson(doc: Document): (r: Result<seq<Row>, Error>)
    ensures !WellFormed(doc) ==> r.Failure? && r.error == Validate(doc).error && r.error.key in StructuralKeys
    ensures WellFormed(doc) && !StatusesPresent(Validate(doc).value, CreateDag(doc).value.nodes) ==>
              r == Failure(KeyError("status"))
    ensures WellFormed(doc) && StatusesPresent(Validate(doc).value, CreateDag(doc).value.nodes) ==>
              var recs := CheckHealthForAllNodes(Validate(doc).value, CreateDag(doc).value).value;
              && (r.Success? <==> forall rec :: rec in recs ==> HasColumns(rec))
              && (r.Success? ==> |r.value| == |recs| &&
                                 forall i :: 0 <= i < |recs| ==> TableRow(recs[i]) == Success(r.value[i]))
    ensures r.Failure? ==> r.error.key in StructuralKeys + {"status", "type"}
  {
    var g :- CreateDag(doc);
    var sys := Validate(doc).value;
    var recs :- CheckHealthForAllNodes(sys, g);
    TableRows(recs)
  }

  /** The health checks handed to the thread pool for a document. */
  function SubmittedChecks(doc: Document): (ts: seq<Task>)
    ensures !WellFormed(doc) ==> ts == []
    ensures forall t :: t in ts ==> t.id in CreateDag(doc).value.nodes
  {
    match CreateDag(doc)
    case Failure(_) => []
    case Success(g) =>
      var sys := Validate(doc).value;
      ScheduleFollowsBackedNodes(sys, g.nodes);
      BackedNodesMembers(sys, g.nodes);
      var ts := Schedule(sys, g.nodes).submitted;
      assert forall i :: 0 <= i < |ts| ==> ts[i].id == BackedNodes(sys, g.nodes)[i];
      ts
  }

  /** For a well-formed document whose component ids are unique and whose
      components that are graph nodes carry `type` and `status`, the report
      has one row per node that has a component, in node order. Components
      that are not nodes are never read. */
  lemma UploadJsonUniqueIds(doc: Document)
    requires WellFormed(doc)
    requires NoDup(ComponentIds(Flatten(Validate(doc).value)))
    requires forall c :: c in Flatten(Validate(doc).value) && c.id in CreateDag(doc).value.nodes ==>
               c.kind.Some? && c.status.Some?
    ensures UploadJson(doc).Success?
    ensures RowIds(UploadJson(doc).value) ==
            BackedNodes(Validate(doc).value, CreateDag(doc).value.nodes)
    ensures InFirstSeenOrder(RowIds(UploadJson(doc).value), CreateDag(doc).value.nodes)
  {
    var sys := Validate(doc).value;
    var g := CreateDag(doc).value;
    ScheduleFollowsBackedNodes(sys, g.nodes);
    assert StatusesPresent(sys, g.nodes) by {
      forall x | x in g.nodes && Lookup(sys, x).Some? ensures Lookup(sys, x).value.status.Some? {
        LookupFindsComponent(sys, x);
      }
    }
    var recs := CheckHealthForAllNodes(sys, g).value;
    UniqueIdsOneRecordPerNode(sys, g);
    forall i | 0 <= i < |recs| ensures recs[i].component.kind.Some? && recs[i].component.status.Some? {
      assert recs[i] in recs;
    }
    BackedNodesInNodeOrder(sys, g.nodes);
    assert UploadJson(doc) == TableRows(recs);
  }
}
