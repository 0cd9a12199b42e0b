# System health pipeline: a Dafny model

This project models the data pipeline behind the `/upload-json/` endpoint of
a small FastAPI service (`FastApi.py`). The service receives a
description of a distributed system, shaped `system -> subsystems ->
components`. Each component has an `id`, a `type`, a declared `status`, a list of
`dependencies` and optional `cpu_usage` / `memory_usage` / `disk_usage`
telemetry. The pipeline:

1. `create_dag` builds a directed graph with one `add_edge(id, dependency)`
   per declared dependency (networkx `DiGraph`: nodes in insertion order,
   each node once);
2. `check_health_for_all_nodes` walks the graph nodes in that order, finds
   each node's component, schedules the echoing `check_health` for nodes
   that have one, gathers the answers in scheduling order and writes
   `health` onto every component that carries an answered id;
3. `upload_json` turns each resulting record into a table row with
   `ID`/`Type`/`Status` and the telemetry columns, where a missing telemetry
   field becomes `'N/A'`.

Modules, one per stage:

- `Results` (`results.dfy`): `Option`, `Result`, and `MapAll`, an in-order
  loop that stops at the first raising iteration.
- `Seqs` (`seqs.dfy`): duplicate-freedom, first occurrence, first-seen
  order, flattening.
- `Input` (`input.dfy`): the decoded JSON document with every key possibly
  absent. A missing key is `KeyError(key)`. `Validate` performs the
  subscripts of `create_dag` in its loop order.
- `Dag` (`dag.dfy`): the graph as a duplicate-free node sequence plus an
  edge set. `CreateDag` builds it.
- `Health` (`health.dfy`): the node-to-component lookup, task scheduling,
  the gather, and record assembly.
- `Report` (`report.dfy`): table rows and the whole `upload_json`
  pipeline up to them.

Behaviours of the code that the model keeps, and proves:

- Graph nodes come only from edges. A component with no dependencies, whose
  id no other component names as a dependency and no component sharing its
  id declares a dependency, never becomes a node, so it gets no health check
  and no output record. (With duplicated ids, `{id: a, dependencies: []}`
  next to `{id: a, dependencies: [b]}` makes `a` a node, and then both
  components get a record.)
- The `break` in the lookup leaves only the inner loop. The component used
  for a node is therefore the first match in the last subsystem that
  contains the id.
- The output is grouped by answer, and the answers follow node order:
  every record of an earlier node comes before every record of a later
  one. Within one answered id, every component carrying it is appended in
  document order. Counted per component: over the duplicate-free node list, a component
  whose id is a node appears in the output exactly as often as in the
  document, and every record of an id carries the status of the looked-up
  component as `health`.
- `status` is read off the looked-up component when the check is
  scheduled. If it is missing, scheduling raises `KeyError('status')` and
  stops; the checks already handed to the pool stay handed.
- The row literal subscripts `type` before `status`. A record lacking
  either raises the matching `KeyError`.

Consequences of the code that a reader might not expect:

- Nodes are visited once each, in `G.nodes()` insertion order. With
  components A (depends on B), B (depends on C), C and D, the nodes are A,
  B, C and the records are those of A, B and C; D gets none.
- With several components sharing an id, the status used is that of the
  first match in the last subsystem holding the id, and every copy gets
  that status as `health`.
- Nothing catches an error: the echo check cannot fail, there is no
  timeout, and a missing key raises Python's `KeyError`, modelled as
  `KeyError(key)`.

## Model

| member | source | states |
|---|---|---|
| Results.MapAll | FastApi.py:29-33 | A loop over a list either handles every element, keeping each result in position, or stops with the error of the first element whose iteration raises, all earlier elements having succeeded |
| Input.ReadComponent | FastApi.py:31-32 | Reading a component fails with `KeyError('id')` when `id` is missing, else with `KeyError('dependencies')` when that is missing; otherwise it keeps every field, so the original object is recovered |
| Input.ReadRawRoundTrip | FastApi.py:31-32 | Reading back the object of a read component gives that component |
| Input.Validate | FastApi.py:29-32 | The subscripts of `create_dag` succeed exactly on well-formed documents (`system`, `subsystems`, every `components`, every `id` and `dependencies` present); a failure names one of those keys, `system` first, then `subsystems`; success keeps every subsystem and component in place |
| Dag.AddNode | FastApi.py:33 | Adding a node keeps the node list duplicate-free, adds exactly that node, and appends it at the end only when it was not yet a node |
| Dag.AddEdges | FastApi.py:29-34 | After the `add_edge` calls the node list has no duplicates and holds exactly the endpoints of the added pairs; the edge set is exactly the set of added pairs, so repeated pairs collapse |
| Dag.AddEdgesFirstSeenOrder | FastApi.py:31-33 | Nodes are listed in the order of their first appearance among the endpoints, with each source met before its target |
| Dag.DependencyPairs | FastApi.py:29-33 | The pairs fed to `add_edge` are exactly `(c.id, d)` for a component `c` and a dependency `d` it declares |
| Dag.CreateDag | FastApi.py:27-34 | Graph construction succeeds exactly on well-formed documents; otherwise it fails with the reading error, naming a structural key; its node list has no duplicates |
| Dag.EdgesAreDeclaredDependencies | FastApi.py:29-33 | An edge `(u, v)` exists exactly when some component with id `u` declares `v` as a dependency |
| Dag.NodesAreEndpoints | FastApi.py:29-33 | A string is a node exactly when a component with that id declares some dependency or some component depends on it |
| Dag.IsolatedComponentIsNoNode | FastApi.py:32-33 | A component without dependencies that nobody names, and whose id no dependency-declaring component shares, is not a node |
| Health.FirstMatch | FastApi.py:45-48 | The inner lookup loop finds nothing exactly when no component of the subsystem has the id, and otherwise finds one of its components with that id |
| Health.FirstMatchIsEarliest | FastApi.py:45-48 | The component kept by the inner loop's `break` is the earliest one with the id |
| Health.Lookup | FastApi.py:43-48 | A component found for a node carries the node's id |
| Health.LookupIsLastSubsystemMatch | FastApi.py:43-48 | The component used for a node is the first match in the last subsystem that has one, and none is found only when no subsystem has the id |
| Health.LookupFindsComponent | FastApi.py:43-50 | A node has a component exactly when some component carries its id, and the one found is a component of the document |
| Health.BackedNodesMembers | FastApi.py:42-50 | The nodes that get a health check are exactly the nodes for which a component was found |
| Health.BackedNodesInNodeOrder | FastApi.py:42-50 | Over a duplicate-free node list, the checked nodes are each listed once, in node order |
| Health.Schedule | FastApi.py:41-52 | Scheduling can only fail with `KeyError('status')`, and every submitted check carries the `status` of the component found for its node |
| Health.ScheduleSucceedsIffStatuses | FastApi.py:41-52 | Scheduling succeeds exactly when the component found for every node has a `status` |
| Health.ScheduleSubmitsBackedNodes | FastApi.py:41-52 | The submitted checks are a prefix of the component-backed nodes in node order, and all of them when scheduling succeeds |
| Health.ScheduleStopsAtMissingStatus | FastApi.py:50-52 | When scheduling fails, it stopped at the first component-backed node whose component lacks `status`, after submitting the checks of the nodes before it |
| Health.Gather | FastApi.py:21-55 | The gathered answers are one per submitted check, in submission order, each echoing the check's id and its status as `health` |
| Health.Annotate | FastApi.py:59-63 | The inner result loops append only components of the document carrying the answered id, each with the answered `health` |
| Health.AnnotateComponents | FastApi.py:59-63 | One answer appends every component carrying its id exactly as often as it occurs in the document, and no other component |
| Health.AnnotateInDocumentOrder | FastApi.py:59-63 | The components one answer appends keep their document order |
| Health.AssembleGroupedByAnswer | FastApi.py:58-63 | With distinct answers, the records come grouped by answer, in answer order |
| Health.AssembleOneIdInDocumentOrder | FastApi.py:58-63 | With distinct answers, the records of any one id keep the document order of their components |
| Health.AssembleRecordsAnswered | FastApi.py:58-63 | Every output record is a document component whose id was answered, carrying the `health` of that answer |
| Health.AnnotateMultiplicity | FastApi.py:59-63 | One answer yields as many records as there are components with its id, and none for other ids |
| Health.AssembleMultiplicity | FastApi.py:58-63 | An id answered a times and carried by b components yields a*b records |
| Health.AssembleComponents | FastApi.py:58-63 | Per component: a component whose id is answered a times and which occurs b times in the document appears in a*b records |
| Health.AnnotateAbsent | FastApi.py:59-63 | An answer whose id no component carries appends nothing |
| Health.AnnotateUnique | FastApi.py:59-63 | With unique ids, an answer whose id some component carries appends exactly one record |
| Health.AssembleUnique | FastApi.py:58-63 | With unique ids and every answer carried by a component, the records follow the answers one to one, in answer order, with the answered `health` |
| Health.CheckHealthForAllNodes | FastApi.py:37-65 | The health pass succeeds exactly when every node's found component has a `status`, else fails with `KeyError('status')`; each record is a document component whose id is a graph node, with `health` equal to the `status` of the component the lookup chose for that id |
| Health.RecordMultiplicity | FastApi.py:42-63 | Over a duplicate-free node list, an id that is a node yields one record per component carrying it, and an id that is not a node yields none |
| Health.RecordsFollowNodeOrder | FastApi.py:41-63 | Over a duplicate-free node list, the records are grouped by node in node order: a record of an earlier node never follows a record of a later node |
| Health.RecordsOfOneIdInDocumentOrder | FastApi.py:41-63 | Over a duplicate-free node list, the records of any one id keep the document order of their components |
| Health.RecordComponentMultiplicity | FastApi.py:42-63 | Over a duplicate-free node list, a component whose id is a node appears in the records exactly as often as in the document (once for a component occurring once), and any other component appears in none |
| Health.DuplicatesShareHealth | FastApi.py:44-63 | Records of components sharing an id all carry the same `health` |
| Health.UniqueIdsOneRecordPerNode | FastApi.py:42-63 | With unique component ids, the records are one per component-backed node, in node order, each carrying its own `status` as `health` |
| Health.IsolatedComponentDropped | FastApi.py:42-63 | A component without dependencies that nobody names, and whose id no dependency-declaring component shares, gets no health check and no record |
| Report.CellRoundTrip | FastApi.py:100-102 | A telemetry cell is `'N/A'` exactly when the field is absent and reads back as the field, provided the field does not itself hold the string `'N/A'` |
| Report.TableRow | FastApi.py:96-103 | A row is built exactly when the record has `type` and `status`, failing on `type` first; it copies id, type and status; each telemetry cell is the record's field when present and `'N/A'` when absent, and so reads back as the field unless the field itself holds the string `'N/A'` |
| Report.TableRows | FastApi.py:94-104 | The rows are one per record, in record order, each the row of its record (so every column, `Type` and the telemetry cells included, is as the row literal states); building fails exactly when some record lacks `type` or `status`, with the error of the first such record, `type` before `status` |
| Report.UploadJson | FastApi.py:89-104 | An ill-formed document fails with its structural key error; a well-formed one fails with `KeyError('status')` when a node's found component lacks `status`, and otherwise yields the rows of the health records, succeeding exactly when every record has `type` and `status` |
| Report.SubmittedChecks | FastApi.py:89-92 | An ill-formed document gets no health check submitted, and every submitted check is for a graph node |
| Report.UploadJsonUniqueIds | FastApi.py:89-104 | A well-formed document with unique ids whose node components have `type` and `status` yields one row per component-backed node, in node order; components that are not nodes need neither key |

## Left out

- HTTP plumbing: FastAPI routing, reading the uploaded file, `json.loads`
  and its 400 response, and the plain-text responses (FastApi.py:80-88,
  113-120). The model starts from the decoded document.
- Document values of the wrong JSON type are not modelled: a
  `subsystems` that is not a list, an id that is not a string. Nested
  objects in telemetry fields are not modelled either. Ids, `type` and
  `status` are strings; telemetry values are JSON scalars.
- The thread pool, `run_in_executor`, `asyncio.gather` and the one-second
  `time.sleep` in `check_health` (FastApi.py:18, 22-23, 38, 52, 55). Only
  the order of the results is observable, so the gather is a sequential
  map of the echo.
- `generate_graph_image` and the `/graph-image/` endpoint (FastApi.py:68-77,
  111, 123-130): drawing, layout and the image file are outside the model.
- `pandas.DataFrame`, `tabulate` and the report string (FastApi.py:106-120).
  The model stops at the list of row records.
- The in-place write `component['health'] = ...` (FastApi.py:62) is
  modelled as an enriched copy of the component. Nothing reads the mutated
  input afterwards, apart from the rows built from the same records.
- Health.Lookup: its own contract only says the found component has the
  node's id. Which component is chosen is stated by
  Health.LookupIsLastSubsystemMatch and Health.LookupFindsComponent.
- Health.Annotate: its own contract only says which components may be
  appended. That each is appended as often as it occurs, in document order,
  is stated by Health.AnnotateComponents and Health.AnnotateInDocumentOrder.
- Health.RecordMultiplicity: counts records per id; the per-component count
  is Health.RecordComponentMultiplicity.
- `if component:` (FastApi.py:50) tests the truthiness of the dictionary.
  A found component always holds the key `id`, so it is never empty, and
  the test is modelled as "a component was found".
