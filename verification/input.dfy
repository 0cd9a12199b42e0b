/** The uploaded document, as the pipeline sees it once decoded from JSON:
    `system -> subsystems -> components`, every key possibly absent. Reading
    it the way `create_dag` does either yields the nested component lists or
    the first missing key. */
module Input {
  import opened Results

  /** A JSON scalar, as a telemetry field may hold it. */
  datatype Value = Null | Bool(b: bool) | Number(x: real) | Str(s: string)

  /** The pipeline's only failure: subscripting a dictionary with a key it lacks. */
  datatype Error = KeyError(key: string)

  /** A component object; `kind` is the JSON key `type`. */
  datatype RawComponent = RawComponent(
    id: Option<string>,
    kind: Option<string>,
    status: Option<string>,
    dependencies: Option<seq<string>>,
    cpuUsage: Option<Value>,
    memoryUsage: Option<Value>,
    diskUsage: Option<Value>)

  datatype RawSubsystem = RawSubsystem(components: Option<seq<RawComponent>>)

  datatype RawSystem = RawSystem(subsystems: Option<seq<RawSubsystem>>)

  /** The top-level object, whose key `system` holds everything else. */
  datatype Document = Document(system: Option<RawSystem>)

  /** A component whose `id` and `dependencies` were read successfully; the
      other keys are only read later, and may still be missing. */
  datatype Component = Component(
    id: string,
    kind: Option<string>,
    status: Option<string>,
    dependencies: seq<string>,
    cpuUsage: Option<Value>,
    memoryUsage: Option<Value>,
    diskUsage: Option<Value>)

  /** The components of each subsystem, subsystems in document order. */
  type System = seq<seq<Component>>

  /** The keys whose absence stops graph construction. */
  const StructuralKeys: set<string> := {"system", "subsystems", "components", "id", "dependencies"}

  /** The JSON object a component came from. */
  function Raw(c: Component): RawComponent {
    RawComponent(Some(c.id), c.kind, c.status, Some(c.dependencies),
                 c.cpuUsage, c.memoryUsage, c.diskUsage)
  }

  /** Reads `id`, then `dependencies`, failing on the first one missing. */
  function ReadComponent(rc: RawComponent): (r: Result<Component, Error>)
    ensures r.Success? <==> rc.id.Some? && rc.dependencies.Some?
    ensures rc.id.None? ==> r == Failure(KeyError("id"))
    ensures rc.id.Some? && rc.dependencies.None? ==> r == Failure(KeyError("dependencies"))
    ensures r.Success? ==> Raw(r.value) == rc
  {
    if rc.id.None? then Failure(KeyError("id"))
    else if rc.dependencies.None? then Failure(KeyError("dependencies"))
    else Success(Component(rc.id.value, rc.kind, rc.status, rc.dependencies.value,
                           rc.cpuUsage, rc.memoryUsage, rc.diskUsage))
  }

  /** Reading back the object of a component gives the component. */
  lemma ReadRawRoundTrip(c: Component)
    ensures ReadComponent(Raw(c)) == Success(c)
  {
  }

  function ReadSubsystem(rs: RawSubsystem): (r: Result<seq<Component>, Error>) {
    if rs.components.None? then Failure(KeyError("components"))
    else MapAll(rs.components.value, ReadComponent)
  }

  /** Every key that graph construction subscripts is present. */
  predicate WellFormed(doc: Document) {
    && doc.system.Some?
    && doc.system.value.subsystems.Some?
    && forall s :: s in doc.system.value.subsystems.value ==>
         && s.components.Some?
         && forall c :: c in s.components.value ==> c.id.Some? && c.dependencies.Some?
  }

  /** The subscripts of `create_dag`, in its loop order: `system`,
      `subsystems`, and per subsystem `components`, then per component `id`
      and `dependencies`. Fails exactly on ill-formed documents, with one of
      the structural keys, `system` before `subsystems` before the rest;
      otherwise keeps every subsystem and component in place. */
  function Validate(doc: Document): (r: Result<System, Error>)
    ensures r.Success? <==> WellFormed(doc)
    ensures r.Failure? ==> r.error.key in StructuralKeys
    ensures doc.system.None? ==> r == Failure(KeyError("system"))
    ensures doc.system.Some? && doc.system.value.subsystems.None? ==> r == Failure(KeyError("subsystems"))
    ensures r.Success? ==>
              var subs := doc.system.value.subsystems.value;
              && |r.value| == |subs|
              && forall k :: 0 <= k < |subs| ==>
                   && |r.value[k]| == |subs[k].components.value|
                   && forall j :: 0 <= j < |r.value[k]| ==> Raw(r.value[k][j]) == subs[k].components.value[j]
  {
    if doc.system.None? then Failure(KeyError("system"))
    else if doc.system.value.subsystems.None? then Failure(KeyError("subsystems"))
    else
      var subs := doc.system.value.subsystems.value;
      var r := MapAll(subs, ReadSubsystem);
      ReadSubsystemsErrorKey(subs);
      ReadSubsystemsIffWellFormed(subs);
      r
  }

  /** Reading the subsystems can only fail on a missing `components`, `id` or `dependencies`. */
  lemma ReadSubsystemsErrorKey(subs: seq<RawSubsystem>)
    ensures MapAll(subs, ReadSubsystem).Failure? ==>
              MapAll(subs, ReadSubsystem).error.key in {"components", "id", "dependencies"}
  {
    var r := MapAll(subs, ReadSubsystem);
    if r.Failure? {
      var i :| 0 <= i < |subs| && ReadSubsystem(subs[i]) == Failure(r.error);
      if subs[i].components.Some? {
        var cs := subs[i].components.value;
        var j :| 0 <= j < |cs| && ReadComponent(cs[j]) == Failure(r.error);
      }
    }
  }

  /** Reading the subsystems succeeds exactly when every subsystem has
      `components` and every component has `id` and `dependencies`. */
  lemma ReadSubsystemsIffWellFormed(subs: seq<RawSubsystem>)
    ensures MapAll(subs, ReadSubsystem).Success? <==>
              forall s :: s in subs ==>
                && s.components.Some?
                && forall c :: c in s.components.value ==> c.id.Some? && c.dependencies.Some?
  {
    var r := MapAll(subs, ReadSubsystem);
    if forall s :: s in subs ==>
         && s.components.Some?
         && forall c :: c in s.components.value ==> c.id.Some? && c.dependencies.Some?
    {
      forall i | 0 <= i < |subs| ensures ReadSubsystem(subs[i]).Success? {
        assert subs[i] in subs;
        var cs := subs[i].components.value;
        forall j | 0 <= j < |cs| ensures ReadComponent(cs[j]).Success? {
          assert cs[j] in cs;
        }
      }
    }
    if r.Success? {
      forall s | s in subs
        ensures s.components.Some?
        ensures forall c :: c in s.components.value ==> c.id.Some? && c.dependencies.Some?
      {
        var i :| 0 <= i < |subs| && subs[i] == s;
        assert ReadSubsystem(subs[i]).Success?;
        forall c | c in s.components.value ensures c.id.Some? && c.dependencies.Some? {
          var j :| 0 <= j < |s.components.value| && s.components.value[j] == c;
          assert ReadComponent(s.components.value[j]).Success?;
        }
      }
    }
  }
}
