/** The metadata the weaver reads and extends (types, methods, events, fields), the
    handler-signature check and the MakeWeak marker. */
module Metadata {
  import opened Wrappers
  import opened Cil
  import opened Lists

  const MakeWeakAttributeName := "WeakEventHandler.MakeWeakAttribute"
  const EventArgsName := "System.EventArgs"
  const ObjectName := "System.Object"
  /** typeof(void).Name */
  const VoidName := "Void"

  /** Why the pass stops. */
  datatype WeaveError =
    | StaticHandler(handler: MethodId)        // MakeWeak on a static method
    | BadSignature(handler: MethodId)         // not void (object, EventArgs)
    | MissingBody(owner: MethodId)            // a method of the target type without a body
    | AmbiguousAccessor(accessor: MethodId)   // two events share the accessor (SingleOrDefault)
    | UnknownStackDelta(at: nat)              // no stack transition for the instruction
    | CrawlBackFailed                         // walked back past the start of the body
    | UnexpectedInstruction(at: nat)          // RemoveAt found another opcode or ran off the end
    | MissingAccessor(event: nat)             // the event lacks its add or remove accessor

  /** An event: a name and its accessors (None where the event has no such accessor). */
  datatype EventDef = EventDef(
    id: nat,
    name: string,
    declaringType: TypeId,
    addMethod: Option<MethodId>,
    removeMethod: Option<MethodId>)

  datatype FieldDef = FieldDef(id: FieldId, name: string)

  /** A type definition; `depth` is its place in the inheritance chain. */
  datatype TypeDef = TypeDef(
    fullName: string,
    isClass: bool,
    baseType: Option<TypeRef>,
    depth: nat,
    methods: seq<MethodId>,
    events: seq<EventDef>,
    fields: seq<FieldDef>)

  datatype MethodDef = MethodDef(
    name: string,
    declaringType: TypeId,
    isStatic: bool,
    isConstructor: bool,
    parameters: seq<TypeRef>,
    returnTypeName: string,
    attributes: seq<string>)   // full names of the custom attributes' types, in order

  type TypeTable = map<TypeId, TypeDef>
  type MethodTable = map<MethodId, MethodDef>

  /** TypeReference.Resolve(): None for a type outside the loaded modules. */
  function Resolve(types: TypeTable, t: TypeRef): Option<TypeDef>
  {
    if t.id in types then Some(types[t.id]) else None
  }

  /** Resolve()?.BaseType */
  function BaseOf(types: TypeTable, t: TypeRef): Option<TypeRef>
  {
    match Resolve(types, t)
    case None => None
    case Some(d) => d.baseType
  }

  /** Inheritance has no cycles: a resolvable base type always sits lower. */
  ghost predicate Ranked(types: TypeTable)
  {
    forall id :: id in types && types[id].baseType.Some? && types[id].baseType.value.id in types ==>
      types[types[id].baseType.value.id].depth < types[id].depth
  }

  function Rank(types: TypeTable, t: Option<TypeRef>): nat
  {
    if t.Some? && t.value.id in types then types[t.value.id].depth + 1 else 0
  }

  /** The type reached from `t` by following the base type `k` times. */
  function Ancestor(types: TypeTable, t: TypeRef, k: nat): Option<TypeRef>
    decreases k
  {
    if k == 0 then Some(t)
    else match BaseOf(types, t)
      case None => None
      case Some(b) => Ancestor(types, b, k - 1)
  }

  predicate NamedAt(types: TypeTable, t: TypeRef, k: nat, name: string)
  {
    Ancestor(types, t, k).Some? && Ancestor(types, t, k).value.fullName == name
  }

  /** Whether the type is System.EventArgs or derives from it. */
  function IsEventArgs(types: TypeTable, t: Option<TypeRef>): bool
    requires Ranked(types)
    decreases Rank(types, t), if t.Some? then 1 else 0
  {
    match t
    case None => false
    case Some(r) => r.fullName == EventArgsName || IsEventArgs(types, BaseOf(types, r))
  }

  /** IsEventArgs holds exactly when System.EventArgs is on the base-type chain. */
  lemma {:induction false} IsEventArgsIffOnChain(types: TypeTable, t: TypeRef)
    requires Ranked(types)
    ensures IsEventArgs(types, Some(t)) <==> exists k: nat :: NamedAt(types, t, k, EventArgsName)
    decreases Rank(types, Some(t))
  {
    if t.fullName == EventArgsName {
      assert NamedAt(types, t, 0, EventArgsName);
    } else {
      match BaseOf(types, t)
      case None =>
        forall k: nat ensures !NamedAt(types, t, k, EventArgsName) {
          if k > 0 { assert Ancestor(types, t, k) == None; }
        }
      case Some(b) =>
        IsEventArgsIffOnChain(types, b);
        assert IsEventArgs(types, Some(t)) == IsEventArgs(types, Some(b));
        if IsEventArgs(types, Some(b)) {
          var k: nat :| NamedAt(types, b, k, EventArgsName);
          assert Ancestor(types, t, k + 1) == Ancestor(types, b, k);
          assert NamedAt(types, t, k + 1, EventArgsName);
        } else {
          forall k: nat ensures !NamedAt(types, t, k, EventArgsName) {
            if k > 0 {
              assert Ancestor(types, t, k) == Ancestor(types, b, k - 1);
              assert !NamedAt(types, b, k - 1, EventArgsName);
            }
          }
        }
    }
  }

  /** A null type reference is never an EventArgs type. */
  lemma NullIsNotEventArgs(types: TypeTable)
    requires Ranked(types)
    ensures !IsEventArgs(types, None)
  {
  }

  /** The void (object, EventArgs) shape of a handler. */
  predicate ShapeOk(types: TypeTable, d: MethodDef)
    requires Ranked(types)
  {
    && |d.parameters| == 2
    && d.parameters[0].fullName == ObjectName
    && IsEventArgs(types, Some(d.parameters[1]))
    && d.returnTypeName == VoidName
  }

  /** A marked method the weaver accepts. */
  predicate Acceptable(types: TypeTable, d: MethodDef)
    requires Ranked(types)
  {
    !d.isStatic && ShapeOk(types, d)
  }

  /** The error for a rejected handler: static first, then the signature. */
  function Rejection(m: MethodId, d: MethodDef): WeaveError
  {
    if d.isStatic then StaticHandler(m) else BadSignature(m)
  }

  /** Verify(methods): stops at the first marked method that is static or misshapen, and
      passes exactly when every marked method is acceptable. */
  function Verify(types: TypeTable, methods: MethodTable, candidates: seq<MethodId>): (r: Outcome<WeaveError>)
    requires Ranked(types)
    requires forall m :: m in candidates ==> m in methods
    ensures r == Pass <==> forall i :: 0 <= i < |candidates| ==> Acceptable(types, methods[candidates[i]])
  {
    if candidates == [] then Pass
    else
      var d := methods[candidates[0]];
      if d.isStatic then Fail(StaticHandler(candidates[0]))
      else if !ShapeOk(types, d) then Fail(BadSignature(candidates[0]))
      else
        var rest := Verify(types, methods, candidates[1..]);
        assert forall i :: 1 <= i < |candidates| ==> candidates[i] == candidates[1..][i - 1];
        rest
  }

  /** Candidate i is the first marked method the weaver rejects. */
  predicate FirstRejected(types: TypeTable, methods: MethodTable, candidates: seq<MethodId>, i: int)
    requires Ranked(types)
    requires forall m :: m in candidates ==> m in methods
  {
    && 0 <= i < |candidates|
    && (forall j :: 0 <= j < i ==> Acceptable(types, methods[candidates[j]]))
    && !Acceptable(types, methods[candidates[i]])
  }

  /** A failure names the first rejected method, with the reason that method fails. */
  lemma {:induction false} VerifyStopsAtFirst(types: TypeTable, methods: MethodTable, candidates: seq<MethodId>)
    requires Ranked(types)
    requires forall m :: m in candidates ==> m in methods
    requires Verify(types, methods, candidates).Fail?
    ensures exists i :: (FirstRejected(types, methods, candidates, i)
      && Verify(types, methods, candidates).error == Rejection(candidates[i], methods[candidates[i]]))
  {
    var i := FirstRejectedIndex(types, methods, candidates);
  }

  lemma {:induction false} FirstRejectedIndex(types: TypeTable, methods: MethodTable, candidates: seq<MethodId>) returns (i: nat)
    requires Ranked(types)
    requires forall m :: m in candidates ==> m in methods
    requires Verify(types, methods, candidates).Fail?
    ensures FirstRejected(types, methods, candidates, i)
    ensures Verify(types, methods, candidates).error == Rejection(candidates[i], methods[candidates[i]])
  {
    var d := methods[candidates[0]];
    if Acceptable(types, d) {
      var tail := candidates[1..];
      assert Verify(types, methods, candidates) == Verify(types, methods, tail);
      var k := FirstRejectedIndex(types, methods, tail);
      i := k + 1;
      assert candidates[i] == tail[k];
      forall j | 0 <= j < i ensures Acceptable(types, methods[candidates[j]]) {
        if j > 0 { assert candidates[j] == tail[j - 1]; }
      }
    } else {
      i := 0;
    }
  }

  predicate HasMarker(d: MethodDef)
  {
    MakeWeakAttributeName in d.attributes
  }

  /** ConsumeAttribute: reports whether the method carries the marker and takes the first
      copy of it off. */
  function ConsumeAttribute(d: MethodDef): (r: (bool, MethodDef))
    ensures r.0 <==> HasMarker(d)
    ensures r.1 == d.(attributes := r.1.attributes)
    ensures multiset(r.1.attributes) == multiset(d.attributes) - multiset{MakeWeakAttributeName}
  {
    RemoveFirstMultiset(d.attributes, MakeWeakAttributeName);
    (HasMarker(d), d.(attributes := RemoveFirst(d.attributes, MakeWeakAttributeName)))
  }

  /** Consuming is not repeatable: on a method that carried the marker once (the attribute
      does not allow more), the second call finds nothing. */
  lemma ConsumeTwice(d: MethodDef)
    requires multiset(d.attributes)[MakeWeakAttributeName] <= 1
    ensures !ConsumeAttribute(ConsumeAttribute(d).1).0
  {
    var d1 := ConsumeAttribute(d).1;
    assert multiset(d1.attributes)[MakeWeakAttributeName] == 0;
  }

  /** The methods the scan enumerates: every non-constructor method of every class type,
      in the order the module lists its types. */
  function ScanOrder(types: TypeTable, methods: MethodTable, typeOrder: seq<TypeId>): seq<MethodId>
  {
    if typeOrder == [] then []
    else
      var t := typeOrder[0];
      (if t in types && types[t].isClass then NonConstructors(methods, types[t].methods) else [])
        + ScanOrder(types, methods, typeOrder[1..])
  }

  /** GetMethods(): the methods that are not constructors. */
  function NonConstructors(methods: MethodTable, ms: seq<MethodId>): (r: seq<MethodId>)
    ensures forall m :: m in r <==> m in ms && m in methods && !methods[m].isConstructor
  {
    if ms == [] then []
    else
      (if ms[0] in methods && !methods[ms[0]].isConstructor then [ms[0]] else [])
        + NonConstructors(methods, ms[1..])
  }

  /** `.Where(ConsumeAttribute).ToArray()`: each visited method loses its marker, and the
      marked ones are collected in visiting order. */
  function ScanFrom(methods: MethodTable, order: seq<MethodId>): (seq<MethodId>, MethodTable)
  {
    if order == [] then ([], methods)
    else if order[0] !in methods then ScanFrom(methods, order[1..])
    else
      var c := ConsumeAttribute(methods[order[0]]);
      var rest := ScanFrom(methods[order[0] := c.1], order[1..]);
      (if c.0 then [order[0]] + rest.0 else rest.0, rest.1)
  }

  /** The scan keeps the set of methods and their declaring types, and collects only methods
      of the table. */
  lemma {:induction false} ScanFromKeeps(methods: MethodTable, order: seq<MethodId>)
    ensures forall m :: m in ScanFrom(methods, order).1 <==> m in methods
    ensures forall m :: m in methods ==> ScanFrom(methods, order).1[m].declaringType == methods[m].declaringType
    ensures forall m :: m in ScanFrom(methods, order).0 ==> m in methods
  {
    if order != [] {
      if order[0] !in methods {
        ScanFromKeeps(methods, order[1..]);
      } else {
        var c := ConsumeAttribute(methods[order[0]]);
        ScanFromKeeps(methods[order[0] := c.1], order[1..]);
      }
    }
  }

  /** On a duplicate-free enumeration, the scan collects exactly the marked methods and
      strips the marker from every method it visits, leaving all others alone. */
  lemma {:induction false} ScanFindsMarked(methods: MethodTable, order: seq<MethodId>)
    requires forall i, j :: 0 <= i < j < |order| ==> order[i] != order[j]
    ensures forall m :: m in ScanFrom(methods, order).0 <==> m in order && m in methods && HasMarker(methods[m])
    ensures ScanFrom(methods, order).1.Keys == methods.Keys
    ensures forall m :: m in methods ==>
      ScanFrom(methods, order).1[m] == if m in order then ConsumeAttribute(methods[m]).1 else methods[m]
  {
    if order != [] {
      var m0 := order[0];
      assert forall m :: m in order[1..] ==> m != m0;
      if m0 !in methods {
        ScanFindsMarked(methods, order[1..]);
      } else {
        var c := ConsumeAttribute(methods[m0]);
        ScanFindsMarked(methods[m0 := c.1], order[1..]);
      }
    }
  }
}
