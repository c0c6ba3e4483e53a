/** The weaving pass as a sequence of steps over a mutable module: scan, verify, analyse,
    warn, then weave each event site (teardown, adapter field, forwarders, rewrites). */
module Weaving {
  import opened Wrappers
  import opened Cil
  import opened Metadata
  import opened Analysis
  import opened Rewrite

  const TeardownName := ">WeakEvents>Unsubscribe"
  const GeneratedCodeName := "System.CodeDom.Compiler.GeneratedCodeAttribute"

  /** The adapter member a registration is rewritten to. */
  function AdapterMemberFor(registration: Registration): AdapterMember
  {
    if registration == Add then Subscribe else Unsubscribe
  }

  /** The teardown method: a private instance method without parameters returning nothing. */
  function TeardownDef(t: TypeId): MethodDef
  {
    MethodDef(TeardownName, t, false, false, [], VoidName, [])
  }

  /** A reference to a type by id, named as the tables name it (a type the tables do not
      hold is referenced by id alone). */
  function RefTo(types: TypeTable, t: TypeId): TypeRef
  {
    TypeRef(if t in types then types[t].fullName else "", t)
  }

  /** ImportReference(sourceEvent.AddMethod) / (...RemoveMethod) */
  function AccessorRef(methods: MethodTable, accessor: MethodId, sourceType: TypeRef): MethodRef
    requires accessor in methods
  {
    var d := methods[accessor];
    MethodRef(d.name, Some(accessor), sourceType, !d.isStatic, |d.parameters|, d.returnTypeName == VoidName)
  }

  /** CreateStaticAddRemoveMethod: a private static void (source, handler) method marked as
      generated code. */
  function ForwarderDef(name: string, t: TypeId, sourceType: TypeRef, handlerType: TypeRef): MethodDef
  {
    MethodDef(name, t, true, false, [sourceType, handlerType], VoidName, [GeneratedCodeName])
  }

  /** Its body: `ldarg.0; ldarg.1; callvirt accessor; ret`. */
  function ForwarderBody(accessor: MethodRef, nextId: InstrId): seq<Instr>
  {
    [Instr(nextId, Ldarg0, NoOperand), Instr(nextId + 1, Ldarg1, NoOperand),
     Instr(nextId + 2, Callvirt, MethodOp(accessor)), Instr(nextId + 3, Ret, NoOperand)]
  }

  /** For an instance accessor taking the handler and returning nothing, the forwarder calls
      it on `source` with `handler` and reaches `ret` with an empty stack. */
  lemma ForwarderBalanced(accessor: MethodRef, nextId: InstrId)
    requires accessor.hasThis && accessor.returnsVoid && accessor.paramCount == 1
    ensures Effect(ForwarderBody(accessor, nextId)[..3]) == Some(0)
    ensures ForwarderBody(accessor, nextId)[3].op == Ret
  {
    var b := ForwarderBody(accessor, nextId);
    assert b[..3] == [b[0]] + ([b[1]] + [b[2]]);
    EffectSingle(b[2]);
    EffectCons(b[1], [b[2]]);
    EffectCons(b[0], [b[1]] + [b[2]]);
  }

  /** The bodies a list of occurrences lies in. */
  function CollectionsOf(occurrences: seq<Occurrence>): set<MethodId>
  {
    set o | o in occurrences :: o.collection
  }

  /** Every entry of `a` is in `b`, unchanged. */
  ghost predicate Grows<K, V>(a: map<K, V>, b: map<K, V>)
  {
    forall k :: k in a ==> k in b && b[k] == a[k]
  }

  /** How many of the sites have a sink that type `t` declares. */
  function SitesOfType(sites: seq<EventSite>, methods: MethodTable, t: TypeId): nat
  {
    if sites == [] then 0
    else
      var sink := sites[|sites| - 1].key.sinkDefinition;
      SitesOfType(sites[..|sites| - 1], methods, t) + if sink in methods && methods[sink].declaringType == t then 1 else 0
  }

  /** Weaving one more site adds one release to the teardown of the type declaring its sink
      and leaves the other teardowns alone, so the counts follow the sites. */
  lemma CountStep(prefix: seq<EventSite>, site: EventSite, methods0: MethodTable, t0: TypeId,
                  before: map<TypeId, MethodId>, after: map<TypeId, MethodId>,
                  methods1: MethodTable, bodies1: map<MethodId, seq<Instr>>, methods2: MethodTable, bodies2: map<MethodId, seq<Instr>>)
    requires site.key.sinkDefinition in methods0 && methods0[site.key.sinkDefinition].declaringType == t0
    requires Teardowns(before, methods1, bodies1) && Teardowns(after, methods2, bodies2)
    requires forall t :: t in before ==> |ReleasedFields(bodies1[before[t]])| == SitesOfType(prefix, methods0, t)
    requires forall t :: t !in before ==> SitesOfType(prefix, methods0, t) == 0
    requires Grows(before, after) && forall u :: u in after && u !in before ==> u == t0
    requires forall u :: u in before && u != t0 ==> bodies2[before[u]] == bodies1[before[u]]
    requires t0 in after
    requires |ReleasedFields(bodies2[after[t0]])| == 1 + if t0 in before then |ReleasedFields(bodies1[before[t0]])| else 0
    ensures forall t :: t in after ==> |ReleasedFields(bodies2[after[t]])| == SitesOfType(prefix + [site], methods0, t)
    ensures forall t :: t !in after ==> SitesOfType(prefix + [site], methods0, t) == 0
  {
    var whole := prefix + [site];
    assert whole[..|whole| - 1] == prefix;
  }

  lemma PrefixStep<T>(s: seq<T>, k: nat)
    requires k < |s|
    ensures s[..k + 1] == s[..k] + [s[k]]
  {
  }

  /** Every key of `a` is a key of `b`. */
  ghost predicate KeepsKeys<K, V>(a: map<K, V>, b: map<K, V>)
  {
    forall k :: k in a ==> k in b
  }

  lemma GrowsTrans<K, V>(a: map<K, V>, b: map<K, V>, c: map<K, V>)
    requires Grows(a, b) && Grows(b, c)
    ensures Grows(a, c)
  {
  }

  /** Every method identity in use lies below `nextId`, so the ones handed out are new; every
      method belongs to a known type and every body to a known method. */
  ghost predicate Consistent(types: TypeTable, methods: MethodTable, bodies: map<MethodId, seq<Instr>>, nextId: nat)
  {
    && (forall m :: m in methods ==> m < nextId && methods[m].declaringType in types)
    && (forall m :: m in bodies ==> m in methods)
  }

  /** Adding a method of a known type, with a body, below the new bound keeps consistency. */
  lemma ConsistentAddMethod(types: TypeTable, methods: MethodTable, bodies: map<MethodId, seq<Instr>>, nextId: nat,
                            m: MethodId, def: MethodDef, body: seq<Instr>, nextId': nat)
    requires Consistent(types, methods, bodies, nextId) && nextId <= nextId' && m < nextId'
    requires def.declaringType in types
    ensures Consistent(types, methods[m := def], bodies[m := body], nextId')
  {
  }

  /** Replacing the definition of a known type keeps consistency. */
  lemma ConsistentRetype(types: TypeTable, methods: MethodTable, bodies: map<MethodId, seq<Instr>>, nextId: nat,
                         t: TypeId, def: TypeDef)
    requires Consistent(types, methods, bodies, nextId) && t in types
    ensures Consistent(types[t := def], methods, bodies, nextId)
  {
  }

  /** Each recorded teardown of a type is a method of that type whose body is a release chain. */
  ghost predicate Teardowns(memo: map<TypeId, MethodId>, methods: MethodTable, bodies: map<MethodId, seq<Instr>>)
  {
    forall t :: t in memo ==>
      && memo[t] in methods && methods[memo[t]].declaringType == t
      && memo[t] in bodies && ReleaseChain(bodies[memo[t]])
  }

  /** Adding methods and bodies keeps the recorded teardowns. */
  lemma TeardownsGrow(memo: map<TypeId, MethodId>, methods: MethodTable, bodies: map<MethodId, seq<Instr>>,
                      methods': MethodTable, bodies': map<MethodId, seq<Instr>>)
    requires Teardowns(memo, methods, bodies) && Grows(methods, methods') && Grows(bodies, bodies')
    ensures Teardowns(memo, methods', bodies')
  {
  }

  /** Replacing one body by another release chain keeps the recorded teardowns. */
  lemma TeardownsRechain(memo: map<TypeId, MethodId>, methods: MethodTable, bodies: map<MethodId, seq<Instr>>,
                         k: MethodId, body: seq<Instr>)
    requires Teardowns(memo, methods, bodies) && k in bodies && ReleaseChain(body)
    ensures Teardowns(memo, methods, bodies[k := body])
  {
  }

  /** Lines 250-262: walk back from the delegate's `ldarg.0` summing stack deltas until the
      two values the accessor call consumes below the delegate are accounted for. */
  method CrawlBackLoop(instructions: seq<Instr>, indexOfEventHandler: int) returns (r: Result<nat, WeaveError>)
    requires -1 <= indexOfEventHandler <= |instructions|
    ensures r == CrawlBack(instructions, indexOfEventHandler, -2)
  {
    var index := indexOfEventHandler;
    var stackSize := -2;
    while stackSize < 0
      invariant -1 <= index <= |instructions| && (stackSize >= 0 ==> index >= 0)
      invariant CrawlBack(instructions, index, stackSize) == CrawlBack(instructions, indexOfEventHandler, -2)
      decreases index + 1
    {
      index := index - 1;
      if index < 0 {
        return Err(CrawlBackFailed);
      }
      var delta := StackDelta(instructions[index]);
      if delta.None? {
        return Err(UnknownStackDelta(instructions[index].id));
      }
      stackSize := stackSize + delta.value;
    }
    return Ok(index);
  }

  /** Lines 264-280 on the body found by the crawl: ReplaceWith(ldarg.0) on the first
      instruction of the run, the two inserts behind it, the four checked removals and the
      adapter call. */
  method Splice(instructions: seq<Instr>, instruction: InstrId, t: nat, field: FieldId, member: AdapterMember, nextId: InstrId)
    returns (r: Result<seq<Instr>, WeaveError>)
    requires CrawlBack(instructions, IndexOf(instructions, instruction), -2) == Ok(t)
    ensures r == RewriteSite(instructions, instruction, field, member, nextId)
  {
    var indexOfEventHandler := IndexOf(instructions, instruction);
    var body := instructions;
    var index := t;
    // ReplaceWith(OpCodes.Ldarg_0): the top keeps its identity, a copy keeps its contents
    var top := body[index];
    body := body[index := Instr(top.id, Ldarg0, NoOperand)];
    index := index + 1;
    body := Insert(body, index, Instr(nextId, Ldfld, FieldOp(field)));
    index := index + 1;
    body := Insert(body, index, Instr(nextId + 1, top.op, top.operand));
    assert body == Prepared(instructions, t, field, nextId);
    index := indexOfEventHandler + 1;
    RewriteSiteAtStart(instructions, instruction, t, field, member, nextId);
    var removed := RemoveDelegate(body, index);
    SpliceAtSteps(instructions, t, indexOfEventHandler, field, member, nextId, body, removed);
    if removed.Err? {
      return Err(removed.error);
    }
    return Ok(Insert(removed.value, index, AdapterCall(nextId + 2, member)));
  }

  /** Lines 273-276: the four checked removals of `ldarg.0; ldftn; newobj; callvirt`; the
      first unexpected opcode throws. */
  method RemoveDelegate(instructions: seq<Instr>, index: nat) returns (r: Result<seq<Instr>, WeaveError>)
    ensures r == RemoveFour(instructions, index)
  {
    r := RemoveAt(instructions, index, Ldarg0);
    if r.Err? {
      return;
    }
    r := RemoveAt(r.value, index, Ldftn);
    if r.Err? {
      return;
    }
    r := RemoveAt(r.value, index, Newobj);
    if r.Err? {
      return;
    }
    r := RemoveAt(r.value, index, Callvirt);
  }

  /** The crawl back from the registered instruction, then the splice on what it found. */
  method RewriteBody(instructions: seq<Instr>, instruction: InstrId, field: FieldId, member: AdapterMember, nextId: InstrId)
    returns (r: Result<seq<Instr>, WeaveError>)
    ensures r == RewriteSite(instructions, instruction, field, member, nextId)
  {
    var start := CrawlBackLoop(instructions, IndexOf(instructions, instruction));
    if start.Err? {
      return Err(start.error);
    }
    r := Splice(instructions, instruction, start.value, field, member, nextId);
  }

  /** The LINQ query of Weave() (lines 98-103) as a loop over the enumeration order: each
      visited method has its marker consumed, and the ones that had it are collected. */
  method ScanLoop(methods: MethodTable, order: seq<MethodId>) returns (candidates: seq<MethodId>, methods': MethodTable)
    ensures (candidates, methods') == ScanFrom(methods, order)
  {
    methods' := methods;
    candidates := [];
    ghost var goal := ScanFrom(methods, order);
    assert order[0..] == order && [] + goal.0 == goal.0;
    var k := 0;
    while k < |order|
      invariant 0 <= k <= |order|
      invariant goal.0 == candidates + ScanFrom(methods', order[k..]).0
      invariant goal.1 == ScanFrom(methods', order[k..]).1
    {
      var m := order[k];
      assert order[k..][0] == m && order[k..][1..] == order[k + 1..];
      if m in methods' {
        var c := ConsumeAttribute(methods'[m]);
        methods' := methods'[m := c.1];
        ghost var rest := ScanFrom(methods', order[k + 1..]);
        if c.0 {
          assert candidates + ([m] + rest.0) == (candidates + [m]) + rest.0;
          candidates := candidates + [m];
        }
      }
      k := k + 1;
    }
    assert order[k..] == [] && candidates + [] == candidates;
  }

  /** The parts of the Cecil ModuleDefinition the pass reads and changes. `nextId` supplies
      identities for the instructions, methods and fields the pass creates. */
  class ModuleDefinition {
    var types: TypeTable
    var typeOrder: seq<TypeId>
    var methods: MethodTable
    var bodies: map<MethodId, seq<Instr>>
    var nextId: nat

    ghost predicate Valid()
      reads this
    {
      Consistent(types, methods, bodies, nextId)
    }

    constructor(types: TypeTable, typeOrder: seq<TypeId>, methods: MethodTable, bodies: map<MethodId, seq<Instr>>, nextId: nat)
      requires Consistent(types, methods, bodies, nextId)
      ensures this.types == types && this.typeOrder == typeOrder && this.methods == methods
      ensures this.bodies == bodies && this.nextId == nextId
      ensures Valid()
    {
      this.types := types;
      this.typeOrder := typeOrder;
      this.methods := methods;
      this.bodies := bodies;
      this.nextId := nextId;
    }
  }

  class Weaver {
    const md: ModuleDefinition
    /** The marked methods a "not attached to any event" warning was logged for. */
    var warnings: seq<MethodId>

    constructor(md: ModuleDefinition)
      ensures this.md == md && warnings == []
    {
      this.md := md;
      warnings := [];
    }

    /** Weave(), lines 98-103: enumerate the non-constructor methods of every class type and
        keep those from which ConsumeAttribute took the marker. */
    method Scan() returns (candidates: seq<MethodId>)
      modifies md
      ensures (candidates, md.methods)
           == ScanFrom(old(md.methods), ScanOrder(old(md.types), old(md.methods), old(md.typeOrder)))
      ensures md.types == old(md.types) && md.typeOrder == old(md.typeOrder)
      ensures md.bodies == old(md.bodies) && md.nextId == old(md.nextId)
      ensures old(md.Valid()) ==> md.Valid()
      ensures forall m :: m in candidates ==> m in md.methods
    {
      var order := ScanOrder(md.types, md.methods, md.typeOrder);
      ScanFromKeeps(md.methods, order);
      var methods;
      candidates, methods := ScanLoop(md.methods, order);
      md.methods := methods;
    }

    /** Analyze(eventHandlerMethod, eventInfos): every instruction of every method of the
        handler's declaring type is tried against the match predicate; matches are added to
        the dictionary under their key. */
    method Analyze(sink: MethodId, sites: seq<EventSite>) returns (r: Result<seq<EventSite>, WeaveError>)
      requires sink in md.methods && md.methods[sink].declaringType in md.types
      ensures r == Combine(sites, TypeHits(md.types, md.methods, md.bodies,
                                           md.types[md.methods[sink].declaringType].methods, sink))
    {
      var types, methods, bodies := md.types, md.methods, md.bodies;
      var ms := types[methods[sink].declaringType].methods;
      ghost var goal := Combine(sites, TypeHits(types, methods, bodies, ms, sink));
      var acc := sites;
      var k := 0;
      while k < |ms|
        invariant 0 <= k <= |ms|
        invariant Combine(acc, TypeHits(types, methods, bodies, ms[k..], sink)) == goal
      {
        var m := ms[k];
        assert ms[k..][0] == m && ms[k..][1..] == ms[k + 1..];
        if m !in bodies {
          return Err(MissingBody(m));
        }
        var body := bodies[m];
        ghost var rest := TypeHits(types, methods, bodies, ms[k + 1..], sink);
        var j := 0;
        while j < |body|
          invariant 0 <= j <= |body|
          invariant Combine(acc, Then(BodyHits(types, methods, body, m, j, sink), rest)) == goal
        {
          var h := MatchAt(types, methods, body, m, j, sink);
          match h {
            case Err(e) =>
              return Err(e);
            case Ok(None) =>
            case Ok(Some(hit)) =>
              ThenAssoc(Ok([hit]), BodyHits(types, methods, body, m, j + 1, sink), rest);
              CombineThen(acc, hit, Then(BodyHits(types, methods, body, m, j + 1, sink), rest));
              acc := Record(acc, hit);
          }
          j := j + 1;
        }
        ThenEmpty(rest);
        k := k + 1;
      }
      return Ok(acc);
    }

    /** Verify(methods, eventInfos): one warning per marked method that is the sink of no
        event site, in the order of the marked methods. */
    method ReportUnmapped(candidates: seq<MethodId>, sites: seq<EventSite>)
      modifies this
      ensures warnings == old(warnings) + Unmapped(candidates, sites)
    {
      var k := 0;
      while k < |candidates|
        invariant 0 <= k <= |candidates|
        invariant warnings + Unmapped(candidates[k..], sites) == old(warnings) + Unmapped(candidates, sites)
      {
        assert candidates[k..][0] == candidates[k] && candidates[k..][1..] == candidates[k + 1..];
        var m := candidates[k];
        var attached := false;
        var s := 0;
        while s < |sites|
          invariant 0 <= s <= |sites|
          invariant attached <==> exists i :: 0 <= i < s && sites[i].key.sinkDefinition == m
        {
          if sites[s].key.sinkDefinition == m {
            attached := true;
          }
          s := s + 1;
        }
        if !attached {
          warnings := warnings + [m];
        }
        k := k + 1;
      }
    }

    /** The per-type teardown methods recorded so far are bodies of that type holding a
        release chain. */
    ghost predicate TeardownsOk(memo: map<TypeId, MethodId>)
      reads md
    {
      Teardowns(memo, md.methods, md.bodies)
    }

    /** Lines 292-311: a new teardown for `t` whose body is a single `ret`, added to the type. */
    method CreateTeardown(t: TypeId) returns (m: MethodId)
      requires md.Valid() && t in md.types
      modifies md
      ensures md.Valid()
      ensures m == old(md.nextId) && md.nextId == old(md.nextId) + 2
      ensures m !in old(md.methods) && m !in old(md.bodies)
      ensures Grows(old(md.methods), md.methods) && Grows(old(md.bodies), md.bodies) && KeepsKeys(old(md.types), md.types)
      ensures md.methods == old(md.methods)[m := TeardownDef(t)]
      ensures md.bodies == old(md.bodies)[m := NewTeardown(m + 1)]
      ensures md.types == old(md.types)[t := old(md.types)[t].(methods := old(md.types)[t].methods + [m])]
      ensures md.typeOrder == old(md.typeOrder)
    {
      m := md.nextId;
      var def, body := TeardownDef(t), NewTeardown(m + 1);
      ConsistentAddMethod(md.types, md.methods, md.bodies, m, m, def, body, m + 2);
      var target := md.types[t].(methods := md.types[t].methods + [m]);
      ConsistentRetype(md.types, md.methods[m := def], md.bodies[m := body], m + 2, t, target);
      md.methods := md.methods[m := def];
      md.bodies := md.bodies[m := body];
      md.types := md.types[t := target];
      md.nextId := m + 2;
    }

    /** GetOrCreateUnsubscribeMethod (lines 284-317): the teardown recorded for `t`, or a new
        one, recorded. */
    method GetOrCreateTeardown(t: TypeId, memo: map<TypeId, MethodId>) returns (m: MethodId, memo': map<TypeId, MethodId>)
      requires md.Valid() && t in md.types && TeardownsOk(memo)
      modifies md
      ensures md.Valid() && TeardownsOk(memo')
      ensures Grows(old(md.bodies), md.bodies) && Grows(old(md.methods), md.methods) && KeepsKeys(old(md.types), md.types)
      ensures Grows(memo, memo') && t in memo' && memo'[t] == m
      ensures forall u :: u in memo' && u !in memo ==> u == t && memo'[u] !in old(md.bodies)
      ensures t in memo ==> m == memo[t] && memo' == memo && unchanged(md)
      ensures t !in memo ==> m == old(md.nextId) && memo' == memo[t := m] && md.bodies[m] == NewTeardown(m + 1)
    {
      if t in memo {
        return memo[t], memo;
      }
      ghost var methods, bodies := md.methods, md.bodies;
      m := CreateTeardown(t);
      NewTeardownReleasesNothing(m + 1);
      TeardownsGrow(memo, methods, bodies, md.methods, md.bodies);
      memo' := memo[t := m];
    }

    /** One iteration of the foreach over eventInfo.Instructions (lines 246-281), done on the
        body the occurrence was found in: the crawl back, then the splice. */
    method RewriteOccurrence(occ: Occurrence, field: FieldId) returns (r: Outcome<WeaveError>)
      requires md.Valid()
      modifies md
      ensures md.Valid()
      ensures md.types == old(md.types) && md.methods == old(md.methods) && md.typeOrder == old(md.typeOrder)
      ensures occ.collection !in old(md.bodies) ==> r == Fail(MissingBody(occ.collection)) && unchanged(md)
      ensures occ.collection in old(md.bodies) ==>
        var res := RewriteSite(old(md.bodies[occ.collection]), occ.instruction, field, AdapterMemberFor(occ.registration), old(md.nextId));
        && (res.Ok? ==> r == Pass && md.bodies == old(md.bodies)[occ.collection := res.value] && md.nextId == old(md.nextId) + 3)
        && (res.Err? ==> r == Fail(res.error) && unchanged(md))
    {
      if occ.collection !in md.bodies {
        return Fail(MissingBody(occ.collection));
      }
      var instructions := md.bodies[occ.collection];
      var member := AdapterMemberFor(occ.registration);
      var rewritten := RewriteBody(instructions, occ.instruction, field, member, md.nextId);
      if rewritten.Err? {
        return Fail(rewritten.error);
      }
      md.bodies := md.bodies[occ.collection := rewritten.value];
      md.nextId := md.nextId + 3;
      return Pass;
    }

    /** Lines 206-208: the adapter field `{key}>Adapter`, added to the target type. */
    method AddAdapterField(key: EventKey, t: TypeId) returns (field: FieldId)
      requires md.Valid() && t in md.types
      modifies md
      ensures md.Valid()
      ensures field == old(md.nextId) && md.nextId == old(md.nextId) + 1
      ensures md.types == old(md.types)[t := old(md.types)[t].(fields := old(md.types)[t].fields + [FieldDef(field, AdapterFieldName(key))])]
      ensures md.methods == old(md.methods) && md.bodies == old(md.bodies) && md.typeOrder == old(md.typeOrder)
    {
      field := md.nextId;
      var target := md.types[t].(fields := md.types[t].fields + [FieldDef(field, AdapterFieldName(key))]);
      ConsistentRetype(md.types, md.methods, md.bodies, field + 1, t, target);
      md.types := md.types[t := target];
      md.nextId := field + 1;
    }

    /** CreateStaticAddRemoveMethod and Methods.Add (lines 210-215, 319-336): the forwarder
        `name` calling `accessor`, added to the target type. */
    method AddForwarder(t: TypeId, name: string, sourceType: TypeRef, handlerType: TypeRef, accessor: MethodRef)
      returns (m: MethodId)
      requires md.Valid() && t in md.types
      modifies md
      ensures md.Valid()
      ensures m == old(md.nextId) && md.nextId == old(md.nextId) + 5
      ensures m !in old(md.methods) && m !in old(md.bodies)
      ensures Grows(old(md.methods), md.methods) && Grows(old(md.bodies), md.bodies) && KeepsKeys(old(md.types), md.types)
      ensures md.types[t].fields == old(md.types)[t].fields
      ensures md.methods == old(md.methods)[m := ForwarderDef(name, t, sourceType, handlerType)]
      ensures md.bodies == old(md.bodies)[m := ForwarderBody(accessor, m + 1)]
      ensures md.types == old(md.types)[t := old(md.types)[t].(methods := old(md.types)[t].methods + [m])]
      ensures md.typeOrder == old(md.typeOrder)
    {
      m := md.nextId;
      var def := ForwarderDef(name, t, sourceType, handlerType);
      var body := ForwarderBody(accessor, m + 1);
      ConsistentAddMethod(md.types, md.methods, md.bodies, m, m, def, body, m + 5);
      var target := md.types[t].(methods := md.types[t].methods + [m]);
      ConsistentRetype(md.types, md.methods[m := def], md.bodies[m := body], m + 5, t, target);
      md.methods := md.methods[m := def];
      md.bodies := md.bodies[m := body];
      md.types := md.types[t := target];
      md.nextId := m + 5;
    }

    /** Lines 240-244: `ldarg.0; ldfld field; callvirt Release` inserted at position 0 of the
        teardown. */
    method PrependReleaseCall(teardown: MethodId, field: FieldId)
      requires md.Valid() && teardown in md.bodies && ReleaseChain(md.bodies[teardown])
      modifies md
      ensures md.Valid()
      ensures md.bodies == old(md.bodies)[teardown := ReleaseTriple(field, old(md.nextId)) + old(md.bodies[teardown])]
      ensures ReleaseChain(md.bodies[teardown])
      ensures md.bodies.Keys == old(md.bodies).Keys
      ensures forall m :: m in old(md.bodies) && m != teardown ==> md.bodies[m] == old(md.bodies[m])
      ensures ReleasedFields(md.bodies[teardown]) == [field] + ReleasedFields(old(md.bodies[teardown]))
      ensures md.types == old(md.types) && md.methods == old(md.methods) && md.typeOrder == old(md.typeOrder)
      ensures md.nextId == old(md.nextId) + 3
    {
      PrependRelease(md.bodies[teardown], field, md.nextId);
      md.bodies := md.bodies[teardown := ReleaseTriple(field, md.nextId) + md.bodies[teardown]];
      md.nextId := md.nextId + 3;
    }

    /** The foreach over eventInfo.Instructions: each occurrence rewritten in turn; the first
        failure stops the pass. Bodies no occurrence lies in are left alone. */
    method RewriteOccurrences(occurrences: seq<Occurrence>, field: FieldId) returns (r: Outcome<WeaveError>)
      requires md.Valid()
      requires forall o :: o in occurrences ==> o.collection in md.bodies
      modifies md
      ensures md.Valid()
      ensures md.types == old(md.types) && md.methods == old(md.methods) && md.typeOrder == old(md.typeOrder)
      ensures KeepsKeys(old(md.bodies), md.bodies) && KeepsKeys(md.bodies, old(md.bodies))
      ensures forall m :: m in md.bodies && m !in CollectionsOf(occurrences) ==> md.bodies[m] == old(md.bodies[m])
    {
      var k := 0;
      while k < |occurrences|
        invariant 0 <= k <= |occurrences|
        invariant md.Valid()
        invariant md.types == old(md.types) && md.methods == old(md.methods) && md.typeOrder == old(md.typeOrder)
        invariant KeepsKeys(old(md.bodies), md.bodies) && KeepsKeys(md.bodies, old(md.bodies))
        invariant forall m :: m in md.bodies && m !in CollectionsOf(occurrences) ==> md.bodies[m] == old(md.bodies[m])
      {
        var occ := occurrences[k];
        assert occ in occurrences;
        r := RewriteOccurrence(occ, field);
        if r.Fail? {
          return;
        }
        k := k + 1;
      }
      r := Pass;
    }

    /** Lines 206-244: the adapter field and the forwarders added to the target type, and the
        adapter's release call put first in the teardown. */
    method AttachAdapter(key: EventKey, t: TypeId, sourceType: TypeRef, addAccessor: MethodRef, removeAccessor: MethodRef,
                         teardown: MethodId, memo: map<TypeId, MethodId>)
      returns (field: FieldId)
      requires md.Valid() && TeardownsOk(memo) && t in md.types
      requires teardown in md.bodies && ReleaseChain(md.bodies[teardown])
      modifies md
      ensures md.Valid() && TeardownsOk(memo)
      ensures Grows(old(md.methods), md.methods) && KeepsKeys(old(md.types), md.types) && KeepsKeys(old(md.bodies), md.bodies)
      ensures forall m :: m in old(md.bodies) && m != teardown ==> md.bodies[m] == old(md.bodies[m])
      ensures ReleaseChain(md.bodies[teardown])
      ensures ReleasedFields(md.bodies[teardown]) == [field] + ReleasedFields(old(md.bodies[teardown]))
      ensures FieldDef(field, AdapterFieldName(key)) in md.types[t].fields
    {
      ghost var b0, m0 := md.bodies, md.methods;
      ghost var chain := md.bodies[teardown];
      field := AddAdapterField(key, t);
      assert FieldDef(field, AdapterFieldName(key)) in md.types[t].fields;
      var handlerType := key.handlerConstructor.declaringType;
      var addForwarder := AddForwarder(t, AddMethodName(key), sourceType, handlerType, addAccessor);
      ghost var b1, m1 := md.bodies, md.methods;
      var removeForwarder := AddForwarder(t, RemoveMethodName(key), sourceType, handlerType, removeAccessor);
      ghost var b2, m2 := md.bodies, md.methods;
      GrowsTrans(b0, b1, b2);
      GrowsTrans(m0, m1, m2);
      TeardownsGrow(memo, m0, b0, m2, b2);
      assert md.bodies[teardown] == chain;
      PrependReleaseCall(teardown, field);
      TeardownsRechain(memo, m2, b2, teardown, md.bodies[teardown]);
    }

    /** Lines 186-244 of Weave(eventInfo, ...): the teardown of the sink's type, then the
        adapter attached to it. */
    method SetUpSite(site: EventSite, memo: map<TypeId, MethodId>)
      returns (r: Outcome<WeaveError>, memo': map<TypeId, MethodId>, field: FieldId)
      requires md.Valid() && TeardownsOk(memo)
      requires site.key.sinkDefinition in md.methods
      modifies md
      ensures md.Valid() && TeardownsOk(memo')
      ensures Grows(old(md.methods), md.methods) && KeepsKeys(old(md.types), md.types)
      ensures KeepsKeys(old(md.bodies), md.bodies)
      ensures Grows(memo, memo')
      ensures forall u :: u in memo' && u !in memo ==>
        u == old(md.methods[site.key.sinkDefinition].declaringType) && memo'[u] !in old(md.bodies)
      ensures forall m :: m in old(md.bodies) && m !in memo.Values ==> md.bodies[m] == old(md.bodies[m])
      ensures forall u :: u in memo && u != old(md.methods[site.key.sinkDefinition].declaringType) ==>
        md.bodies[memo[u]] == old(md.bodies[memo[u]])
      ensures r.Pass? ==>
        var t := old(md.methods[site.key.sinkDefinition].declaringType);
        && t in memo'
        && ReleasedFields(md.bodies[memo'[t]])
           == [field] + (if t in memo then ReleasedFields(old(md.bodies[memo[t]])) else [])
        && FieldDef(field, AdapterFieldName(site.key)) in md.types[t].fields
    {
      var sink := site.key.sinkDefinition;
      var t := md.methods[sink].declaringType;
      var e := site.key.event;
      if e.addMethod.None? || e.addMethod.value !in md.methods || e.removeMethod.None? || e.removeMethod.value !in md.methods {
        return Fail(MissingAccessor(e.id)), memo, 0;
      }
      var sourceType := RefTo(md.types, e.declaringType);
      var addAccessor := AccessorRef(md.methods, e.addMethod.value, sourceType);
      var removeAccessor := AccessorRef(md.methods, e.removeMethod.value, sourceType);
      ghost var b0, m0 := md.bodies, md.methods;
      var teardown;
      teardown, memo' := GetOrCreateTeardown(t, memo);
      assert teardown in memo.Values || teardown !in b0;
      assert forall u :: u in memo && u != t ==> memo[u] != teardown;
      ghost var b1, m1 := md.bodies, md.methods;
      field := AttachAdapter(site.key, t, sourceType, addAccessor, removeAccessor, teardown, memo');
      GrowsTrans(m0, m1, md.methods);
      r := Pass;
    }

    /** Weave(eventInfo, unsubscribeMethods): the set-up, then every occurrence rewritten. */
    method WeaveSite(site: EventSite, memo: map<TypeId, MethodId>) returns (r: Outcome<WeaveError>, memo': map<TypeId, MethodId>)
      requires md.Valid() && TeardownsOk(memo)
      requires site.key.sinkDefinition in md.methods
      requires forall o :: o in site.occurrences ==> o.collection in md.bodies && o.collection !in memo.Values
      modifies md
      ensures md.Valid() && TeardownsOk(memo')
      ensures Grows(old(md.methods), md.methods) && KeepsKeys(old(md.types), md.types)
      ensures KeepsKeys(old(md.bodies), md.bodies)
      ensures Grows(memo, memo')
      ensures forall u :: u in memo' && u !in memo ==>
        u == old(md.methods[site.key.sinkDefinition].declaringType) && memo'[u] !in old(md.bodies)
      ensures forall u :: u in memo && u != old(md.methods[site.key.sinkDefinition].declaringType) ==>
        md.bodies[memo[u]] == old(md.bodies[memo[u]])
      ensures r.Pass? ==>
        var t := old(md.methods[site.key.sinkDefinition].declaringType);
        && t in memo'
        && var released := ReleasedFields(md.bodies[memo'[t]]);
        && |released| >= 1
        && released[1..] == (if t in memo then ReleasedFields(old(md.bodies[memo[t]])) else [])
        && FieldDef(released[0], AdapterFieldName(site.key)) in md.types[t].fields
    {
      var field;
      r, memo', field := SetUpSite(site, memo);
      if r.Fail? {
        return;
      }
      ghost var bodies1, methods1, types1 := md.bodies, md.methods, md.types;
      assert forall o :: o in site.occurrences ==> o.collection in md.bodies;
      assert forall u :: u in memo' ==> memo'[u] !in CollectionsOf(site.occurrences);
      r := RewriteOccurrences(site.occurrences, field);
      assert forall u :: u in memo' ==> md.bodies[memo'[u]] == bodies1[memo'[u]];
    }

    /** The foreach over the marked methods in Weave(methods) (lines 114-117): each one analysed
        in turn into one dictionary of event sites. */
    method AnalyzeSinks(sinks: seq<MethodId>) returns (r: Result<seq<EventSite>, WeaveError>)
      requires md.Valid() && forall m :: m in sinks ==> m in md.methods
      ensures r == AnalyzeAll(md.types, md.methods, md.bodies, sinks, [])
    {
      var sites: seq<EventSite> := [];
      var k := 0;
      assert sinks[k..] == sinks;
      while k < |sinks|
        invariant 0 <= k <= |sinks|
        invariant AnalyzeAll(md.types, md.methods, md.bodies, sinks[k..], sites) == AnalyzeAll(md.types, md.methods, md.bodies, sinks, [])
      {
        assert sinks[k..][0] == sinks[k] && sinks[k..][1..] == sinks[k + 1..];
        var step := Analyze(sinks[k], sites);
        if step.Err? {
          return Err(step.error);
        }
        sites := step.value;
        k := k + 1;
      }
      return Ok(sites);
    }

    /** The foreach over eventInfos.Values (lines 124-127): every site woven in turn with one
        dictionary of teardowns; the first failure stops the pass. When all succeed, the
        teardown of each type releases one adapter per site whose sink the type declares. */
    method WeaveSites(sites: seq<EventSite>) returns (r: Outcome<WeaveError>, teardowns: map<TypeId, MethodId>)
      requires md.Valid()
      requires forall s :: s in sites ==> s.key.sinkDefinition in md.methods
      requires forall s :: s in sites ==> forall o :: o in s.occurrences ==> o.collection in md.bodies
      modifies md
      ensures md.Valid() && TeardownsOk(teardowns)
      ensures Grows(old(md.methods), md.methods)
      ensures r.Pass? ==> forall t :: t in teardowns ==>
        |ReleasedFields(md.bodies[teardowns[t]])| == SitesOfType(sites, old(md.methods), t)
      ensures r.Pass? ==> forall t :: t !in teardowns ==> SitesOfType(sites, old(md.methods), t) == 0
    {
      ghost var methods0, bodies0 := md.methods, md.bodies;
      teardowns := map[];
      var k := 0;
      while k < |sites|
        invariant 0 <= k <= |sites|
        invariant md.Valid() && TeardownsOk(teardowns)
        invariant Grows(methods0, md.methods) && KeepsKeys(bodies0, md.bodies)
        invariant forall u :: u in teardowns ==> teardowns[u] !in bodies0
        invariant forall t :: t in teardowns ==> |ReleasedFields(md.bodies[teardowns[t]])| == SitesOfType(sites[..k], methods0, t)
        invariant forall t :: t !in teardowns ==> SitesOfType(sites[..k], methods0, t) == 0
      {
        var site := sites[k];
        assert site in sites;
        ghost var bodies1, methods1 := md.bodies, md.methods;
        ghost var before := teardowns;
        ghost var t0 := methods0[site.key.sinkDefinition].declaringType;
        assert forall o :: o in site.occurrences ==> o.collection in bodies0;
        r, teardowns := WeaveSite(site, teardowns);
        GrowsTrans(methods0, methods1, md.methods);
        if r.Fail? {
          return;
        }
        ghost var released := ReleasedFields(md.bodies[teardowns[t0]]);
        assert |released| == 1 + |released[1..]|;
        PrefixStep(sites, k);
        CountStep(sites[..k], site, methods0, t0, before, teardowns, methods1, bodies1, md.methods, md.bodies);
        k := k + 1;
      }
      r := Pass;
      assert sites[..k] == sites;
    }

    /** Weave() and Weave(methods) (lines 96-129): collect and unmark the marked methods, reject
        the pass on a static or misshapen one, analyse them all, warn about the ones no event
        site uses, then weave every site. */
    method Run() returns (r: Outcome<WeaveError>, teardowns: map<TypeId, MethodId>)
      requires md.Valid() && Ranked(md.types)
      modifies this, md
      ensures md.Valid() && TeardownsOk(teardowns)
      ensures
        var scan := ScanFrom(old(md.methods), ScanOrder(old(md.types), old(md.methods), old(md.typeOrder)));
        && (forall m :: m in scan.0 ==> m in scan.1 && scan.1[m].declaringType in old(md.types))
        && var verdict := Verify(old(md.types), scan.1, scan.0);
        && (verdict.Fail? ==> r == verdict && warnings == old(warnings))
        && (verdict.Pass? ==>
             var analysis := AnalyzeAll(old(md.types), scan.1, old(md.bodies), scan.0, []);
             && (analysis.Err? ==> r == Fail(analysis.error) && warnings == old(warnings))
             && (analysis.Ok? ==>
                  && Unique(analysis.value)
                  && warnings == old(warnings) + Unmapped(scan.0, analysis.value)
                  && (r.Pass? ==> forall t :: t in teardowns ==>
                        |ReleasedFields(md.bodies[teardowns[t]])| == SitesOfType(analysis.value, scan.1, t))))
    {
      ghost var types0, bodies0 := md.types, md.bodies;
      var candidates := Scan();
      ghost var methods1 := md.methods;
      teardowns := map[];
      var verdict := Verify(md.types, md.methods, candidates);
      if verdict.Fail? {
        return verdict, teardowns;
      }
      var analysis := AnalyzeSinks(candidates);
      if analysis.Err? {
        return Fail(analysis.error), teardowns;
      }
      var sites := analysis.value;
      AnalyzeAllSitesFrom(md.types, md.methods, md.bodies, candidates, [], set m | m in candidates);
      ReportUnmapped(candidates, sites);
      assert forall s :: s in sites ==> s.key.sinkDefinition in md.methods;
      r, teardowns := WeaveSites(sites);
    }
  }
}
