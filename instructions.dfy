/**
 * Cache instructions as the messenger reads them back from the instruction log:
 * a parsed JSON array whose elements are instruction objects or nested arrays,
 * the refreshers those instructions address, and the run of refresher calls
 * that replaying an array produces, up to the first exception.
 */
module Instructions {
  import opened Common

  /** A GUID, standing only for its identity. */
  type Guid = int

  /**
   * RefreshMethodType. An enum value outside the six named members deserializes
   * without error but matches no case of the dispatch switch.
   */
  datatype RefreshMethodType =
    | RefreshAll
    | RefreshByGuid
    | RefreshById
    | RefreshByIds
    | RefreshByJson
    | RemoveById
    | Undefined(code: int)

  /** The JsonIds field as JavaScriptSerializer reads it: an int array, or text it rejects. */
  datatype IdList = Ids(ids: seq<int>) | UnreadableIds

  /** One RefreshInstruction: the fields the dispatch switch reads. */
  datatype RefreshInstruction = RefreshInstruction(
    refresherId: Guid,
    refreshType: RefreshMethodType,
    guidId: Guid,
    intId: int,
    jsonIds: IdList,
    jsonPayload: string)

  /**
   * One element of a parsed instruction array: an object that converts to a
   * RefreshInstruction, an object whose conversion throws a JsonException,
   * a nested array, or a primitive JSON value (string, number, null, ...).
   */
  datatype Node =
    | Obj(instruction: RefreshInstruction)
    | Unconvertible
    | Arr(children: seq<Node>)
    | Prim

  /**
   * A stored jsonInstruction, as deserializing it to a JArray sees it: text on
   * which that deserialization throws a JsonException (text that is not JSON,
   * or JSON of another type), text that deserializes to a null array (the JSON
   * literal null), or the parsed array.
   */
  datatype Payload = Malformed | NullDocument | Parsed(items: seq<Node>)

  /** A registered cache refresher; `jsonCapable` when it implements IJsonCacheRefresher. */
  datatype Refresher = Refresher(jsonCapable: bool)

  /** The cache refresher registry, by unique identifier. */
  type Registry = map<Guid, Refresher>

  /** One call made on a refresher. */
  datatype Call =
    | RefreshedAll(refresher: Guid)
    | RefreshedGuid(refresher: Guid, guid: Guid)
    | RefreshedInt(refresher: Guid, id: int)
    | RefreshedJson(refresher: Guid, payload: string)
    | Removed(refresher: Guid, id: int)

  /** The exceptions that replaying an instruction array can raise. */
  datatype Fault =
    | ConversionFailed          // JsonSerializationException from JObject.ToObject
    | InvalidCast               // an element that is neither an object nor an array
    | UnreadableIdList          // JavaScriptSerializer rejects JsonIds
    | UnknownRefresher(id: Guid)
    | NotJsonRefresher(id: Guid) // InvalidOperationException
    | NullArray                 // NullReferenceException from iterating a null array

  /** Only Newtonsoft's JsonException family is caught by the sync loop. */
  predicate IsJsonException(f: Fault) {
    f.ConversionFailed?
  }

  /** The refresher calls made so far and the exception that ended the run, if any. */
  datatype Run = Run(calls: seq<Call>, fault: Option<Fault>)

  const Done := Run([], None)

  /** Sequencing: `next` runs only when `first` ended without an exception. */
  function Then(first: Run, next: Run): Run {
    if first.fault.Some? then first else Run(first.calls + next.calls, next.fault)
  }

  /** Runs `step` on each element in order, stopping at the first exception. */
  function RunAll<T>(s: seq<T>, step: T -> Run): Run {
    if s == [] then Done else Then(step(s[0]), RunAll(s[1..], step))
  }

  lemma {:induction false} RunAllAppend<T>(a: seq<T>, b: seq<T>, step: T -> Run)
    ensures RunAll(a + b, step) == Then(RunAll(a, step), RunAll(b, step))
  {
    if a == [] {
      assert a + b == b;
    } else {
      assert (a + b)[1..] == a[1..] + b;
      RunAllAppend(a[1..], b, step);
    }
  }

  lemma RunAllSingle<T>(x: T, step: T -> Run)
    ensures RunAll([x], step) == step(x)
  {
    assert [x][1..] == [];
  }

  /** The refresher calls an instruction asks for, whatever the registry holds. */
  function Intended(ins: RefreshInstruction): seq<Call> {
    var id := ins.refresherId;
    match ins.refreshType
    case RefreshAll => [RefreshedAll(id)]
    case RefreshByGuid => [RefreshedGuid(id, ins.guidId)]
    case RefreshById => [RefreshedInt(id, ins.intId)]
    case RefreshByIds => if ins.jsonIds.Ids? then RefreshEach(id, ins.jsonIds.ids) else []
    case RefreshByJson => [RefreshedJson(id, ins.jsonPayload)]
    case RemoveById => [Removed(id, ins.intId)]
    case Undefined(_) => []
  }

  /** One Refresh(int) call per id, in listed order. */
  function RefreshEach(refresher: Guid, ids: seq<int>): (r: seq<Call>)
    ensures |r| == |ids|
    ensures forall k :: 0 <= k < |ids| ==> r[k] == RefreshedInt(refresher, ids[k])
  {
    seq(|ids|, k requires 0 <= k < |ids| => RefreshedInt(refresher, ids[k]))
  }

  /**
   * The exception dispatching an instruction raises, if any: an unreadable id
   * list (read before the lookup), an unknown refresher, or a payload refresh
   * aimed at a refresher that cannot take one. Undefined types look nothing up.
   */
  function DispatchFault(registry: Registry, ins: RefreshInstruction): Option<Fault> {
    var id := ins.refresherId;
    match ins.refreshType
    case Undefined(_) => None
    case RefreshByIds =>
      if ins.jsonIds.UnreadableIds? then Some(UnreadableIdList)
      else if id !in registry then Some(UnknownRefresher(id))
      else None
    case RefreshByJson =>
      if id !in registry then Some(UnknownRefresher(id))
      else if !registry[id].jsonCapable then Some(NotJsonRefresher(id))
      else None
    case _ => if id !in registry then Some(UnknownRefresher(id)) else None
  }

  /** The `switch` over RefreshType: every call or none, since each case throws before its first call. */
  function Dispatch(registry: Registry, ins: RefreshInstruction): Run {
    match DispatchFault(registry, ins)
    case Some(f) => Run([], Some(f))
    case None => Run(Intended(ins), None)
  }

  /** A flattened array element: an instruction, an object that fails to convert, or a non-array. */
  datatype Elem = Item(instruction: RefreshInstruction) | NotConvertible | NotArray

  /** The array's elements in document order, nested arrays expanded in place. */
  function Flatten(nodes: seq<Node>): seq<Elem>
    decreases nodes
  {
    if nodes == [] then []
    else
      (match nodes[0]
       case Obj(ins) => [Item(ins)]
       case Unconvertible => [NotConvertible]
       case Arr(children) => Flatten(children)
       case Prim => [NotArray])
      + Flatten(nodes[1..])
  }

  /** The outcome of processing one flattened element. */
  function Step(registry: Registry, e: Elem): Run {
    match e
    case Item(ins) => Dispatch(registry, ins)
    case NotConvertible => Run([], Some(ConversionFailed))
    case NotArray => Run([], Some(InvalidCast))
  }

  function StepFault(registry: Registry, e: Elem): Option<Fault> {
    Step(registry, e).fault
  }

  /** What UpdateRefreshers does with an instruction array. */
  function Replay(registry: Registry, nodes: seq<Node>): Run {
    RunAll(Flatten(nodes), e => Step(registry, e))
  }

  /** What UpdateRefreshers does with one element of an array. */
  function ReplayNode(registry: Registry, n: Node): Run {
    match n
    case Obj(ins) => Dispatch(registry, ins)
    case Unconvertible => Run([], Some(ConversionFailed))
    case Arr(children) => Replay(registry, children)
    case Prim => Run([], Some(InvalidCast))
  }

  /** The calls the flattened instructions ask for, in order, with nothing skipped. */
  function Effects(elems: seq<Elem>): seq<Call> {
    if elems == [] then []
    else (if elems[0].Item? then Intended(elems[0].instruction) else []) + Effects(elems[1..])
  }

  // ---------------------------------------------------------------------------
  // Flattening

  lemma {:induction false} FlattenAppend(a: seq<Node>, b: seq<Node>)
    ensures Flatten(a + b) == Flatten(a) + Flatten(b)
  {
    if a == [] {
      assert a + b == b;
    } else {
      assert (a + b)[0] == a[0];
      assert (a + b)[1..] == a[1..] + b;
      FlattenAppend(a[1..], b);
    }
  }

  /** A nested batch [A, [B, C], D] flattens to [A, B, C, D]. */
  lemma FlattenNestedExample(a: RefreshInstruction, b: RefreshInstruction,
                             c: RefreshInstruction, d: RefreshInstruction)
    ensures Flatten([Obj(a), Arr([Obj(b), Obj(c)]), Obj(d)]) == [Item(a), Item(b), Item(c), Item(d)]
  {
    var inner := [Obj(b), Obj(c)];
    assert inner[1..] == [Obj(c)] && [Obj(c)][1..] == [];
    assert Flatten([Obj(c)]) == [Item(c)] + Flatten([]);
    assert Flatten(inner) == [Item(b)] + Flatten([Obj(c)]);
    var outer := [Obj(a), Arr(inner), Obj(d)];
    assert outer[1..] == [Arr(inner), Obj(d)];
    assert outer[1..][1..] == [Obj(d)] && [Obj(d)][1..] == [];
    assert Flatten([Obj(d)]) == [Item(d)] + Flatten([]);
    assert Flatten(outer[1..]) == Flatten(inner) + Flatten([Obj(d)]);
    assert Flatten(outer) == [Item(a)] + Flatten(outer[1..]);
  }

  /** The array that holds exactly the given flat elements, as the writer serializes them. */
  function AsNodes(elems: seq<Elem>): (r: seq<Node>)
    ensures |r| == |elems|
  {
    if elems == [] then []
    else
      [match elems[0]
       case Item(ins) => Obj(ins)
       case NotConvertible => Unconvertible
       case NotArray => Prim]
      + AsNodes(elems[1..])
  }

  /** Flattening is idempotent: a flat array flattens to itself. */
  lemma {:induction false} FlattenIdempotent(nodes: seq<Node>)
    ensures Flatten(AsNodes(Flatten(nodes))) == Flatten(nodes)
  {
    FlattenOfFlat(Flatten(nodes));
  }

  lemma {:induction false} FlattenOfFlat(elems: seq<Elem>)
    ensures Flatten(AsNodes(elems)) == elems
  {
    if elems != [] {
      FlattenOfFlat(elems[1..]);
    }
  }

  // ---------------------------------------------------------------------------
  // Replay

  /** Processing the array element by element is the same as replaying its flattening. */
  lemma ReplayExtend(registry: Registry, nodes: seq<Node>, i: nat)
    requires i < |nodes|
    ensures Replay(registry, nodes[..i + 1]) == Then(Replay(registry, nodes[..i]), ReplayNode(registry, nodes[i]))
  {
    var step := e => Step(registry, e);
    assert nodes[..i + 1] == nodes[..i] + [nodes[i]];
    FlattenAppend(nodes[..i], [nodes[i]]);
    assert [nodes[i]][1..] == [];
    RunAllAppend(Flatten(nodes[..i]), Flatten([nodes[i]]), step);
    match nodes[i]
    case Arr(children) =>
      assert Flatten([nodes[i]]) == Flatten(children) + [];
      assert Flatten(children) + [] == Flatten(children);
    case Obj(ins) =>
      RunAllSingle(Item(ins), step);
    case Unconvertible =>
      RunAllSingle(NotConvertible, step);
    case Prim =>
      RunAllSingle(NotArray, step);
  }

  lemma {:induction false} EffectsAppend(a: seq<Elem>, b: seq<Elem>)
    ensures Effects(a + b) == Effects(a) + Effects(b)
  {
    if a == [] {
      assert a + b == b;
    } else {
      assert (a + b)[0] == a[0];
      assert (a + b)[1..] == a[1..] + b;
      EffectsAppend(a[1..], b);
    }
  }

  /**
   * Replaying a flattened array dispatches every element exactly once, in
   * order, up to the first element that throws: with no such element every
   * intended call is made; otherwise the calls of the elements before it stay
   * made and its exception ends the run.
   */
  lemma {:induction false} RunAllCharacterised(registry: Registry, elems: seq<Elem>)
    ensures var r := RunAll(elems, e => Step(registry, e));
      match FirstIndex(elems, e => StepFault(registry, e).Some?)
      case None => r == Run(Effects(elems), None)
      case Some(k) => r == Run(Effects(elems[..k]), StepFault(registry, elems[k]))
  {
    var step := e => Step(registry, e);
    var bad := e => StepFault(registry, e).Some?;
    if elems != [] {
      RunAllCharacterised(registry, elems[1..]);
      var e := elems[0];
      if bad(e) {
        assert elems[..0] == [];
      } else {
        assert step(e).calls == (if e.Item? then Intended(e.instruction) else []);
        match FirstIndex(elems[1..], bad)
        case None =>
        case Some(k) =>
          assert elems[..k + 1] == [e] + elems[1..][..k];
          assert elems[..k + 1][1..] == elems[1..][..k];
      }
    }
  }

  lemma ReplayCharacterised(registry: Registry, nodes: seq<Node>)
    ensures var elems := Flatten(nodes);
      var r := Replay(registry, nodes);
      match FirstIndex(elems, e => StepFault(registry, e).Some?)
      case None => r == Run(Effects(elems), None)
      case Some(k) => r == Run(Effects(elems[..k]), StepFault(registry, elems[k]))
  {
    RunAllCharacterised(registry, Flatten(nodes));
  }

  /** An instruction that addresses a registered refresher of the right kind makes exactly its intended calls. */
  lemma DispatchSucceeds(registry: Registry, ins: RefreshInstruction)
    requires ins.refresherId in registry
    requires ins.refreshType == RefreshByJson ==> registry[ins.refresherId].jsonCapable
    requires ins.refreshType == RefreshByIds ==> ins.jsonIds.Ids?
    ensures Dispatch(registry, ins) == Run(Intended(ins), None)
  {
  }

  /** A RefreshByIds instruction calls Refresh once per id, in listed order. */
  lemma RefreshByIdsInOrder(registry: Registry, refresher: Guid, guid: Guid, intId: int, ids: seq<int>, payload: string)
    requires refresher in registry
    ensures var r := Dispatch(registry, RefreshInstruction(refresher, RefreshByIds, guid, intId, Ids(ids), payload));
      r.fault == None && |r.calls| == |ids| &&
      forall k :: 0 <= k < |ids| ==> r.calls[k] == RefreshedInt(refresher, ids[k])
  {
  }

  /** A RefreshByJson instruction throws InvalidOperationException exactly when its refresher is not JSON-capable. */
  lemma RefreshByJsonNeedsJsonRefresher(registry: Registry, ins: RefreshInstruction)
    requires ins.refreshType == RefreshByJson && ins.refresherId in registry
    ensures Dispatch(registry, ins).fault == Some(NotJsonRefresher(ins.refresherId))
        <==> !registry[ins.refresherId].jsonCapable
  {
  }
}
