/** Call-site analysis: recognising `ldftn sink; newobj; callvirt add_/remove_` in the
    bodies of the sink's declaring type, and grouping the matches into event sites. */
module Analysis {
  import opened Wrappers
  import opened Cil
  import opened Metadata

  datatype Registration = Add | Remove

  /** EventKey: the sink as referenced, its definition, the event, and the delegate
      constructor of the first match. */
  datatype EventKey = EventKey(
    sink: MethodRef,
    sinkDefinition: MethodId,
    event: EventDef,
    handlerConstructor: MethodRef)

  /** EventKey.Equals: only the sink definition and the event take part. */
  predicate KeyEquals(a: EventKey, b: EventKey)
  {
    a.sinkDefinition == b.sinkDefinition && a.event == b.event
  }

  /** EventKey.ToString: ">" + event name + ">" + sink name. */
  function KeyName(k: EventKey): (s: string)
    ensures |s| == |k.event.name| + |k.sink.name| + 2
    ensures s[0] == '>' && s[|k.event.name| + 1] == '>'
  {
    ">" + k.event.name + ">" + k.sink.name
  }

  function AdapterFieldName(k: EventKey): string { KeyName(k) + ">Adapter" }
  function AddMethodName(k: EventKey): string { KeyName(k) + ">Add" }
  function RemoveMethodName(k: EventKey): string { KeyName(k) + ">Remove" }

  /** The three members generated per site get three different names. */
  lemma GeneratedNamesDiffer(k: EventKey)
    ensures AdapterFieldName(k) != AddMethodName(k)
    ensures AddMethodName(k) != RemoveMethodName(k)
    ensures AdapterFieldName(k) != RemoveMethodName(k)
  {
    var n := |KeyName(k)|;
    assert AdapterFieldName(k)[n + 1] == 'A' && AddMethodName(k)[n + 1] == 'A';
    assert |AdapterFieldName(k)| != |AddMethodName(k)|;
    assert AddMethodName(k)[n + 1] != RemoveMethodName(k)[n + 1];
    assert AdapterFieldName(k)[n + 1] != RemoveMethodName(k)[n + 1];
  }

  /** InstructionInfo: where a registration was found and which way it goes. */
  datatype Occurrence = Occurrence(registration: Registration, instruction: InstrId, collection: MethodId)

  /** EventInfo: a key and the occurrences recorded under it, in scan order. */
  datatype EventSite = EventSite(key: EventKey, occurrences: seq<Occurrence>)

  /** One match: the key it belongs under and the occurrence. */
  datatype Hit = Hit(key: EventKey, occurrence: Occurrence)

  /** No two sites have equal keys. */
  predicate Unique(sites: seq<EventSite>)
  {
    forall i, j :: 0 <= i < j < |sites| ==> !KeyEquals(sites[i].key, sites[j].key)
  }

  /** Dictionary lookup: the position of the site with an equal key, -1 if none. */
  function IndexOfKey(sites: seq<EventSite>, key: EventKey): (i: int)
    ensures -1 <= i < |sites|
    ensures i == -1 <==> forall j :: 0 <= j < |sites| ==> !KeyEquals(sites[j].key, key)
    ensures i >= 0 ==> KeyEquals(sites[i].key, key)
  {
    if sites == [] then -1
    else if KeyEquals(sites[0].key, key) then 0
    else
      var j := IndexOfKey(sites[1..], key);
      if j == -1 then -1 else j + 1
  }

  /** GetOrAdd: the site already stored under an equal key, or a new empty site added at
      the end. */
  function GetOrAdd(sites: seq<EventSite>, key: EventKey): (r: (seq<EventSite>, nat))
    ensures r.1 < |r.0| && KeyEquals(r.0[r.1].key, key)
    ensures IndexOfKey(sites, key) >= 0 ==> r.0 == sites
    ensures IndexOfKey(sites, key) == -1 ==> r.0 == sites + [EventSite(key, [])]
    ensures Unique(sites) ==> Unique(r.0)
  {
    var i := IndexOfKey(sites, key);
    if i >= 0 then (sites, i) else (sites + [EventSite(key, [])], |sites|)
  }

  /** `GetOrAdd(eventInfos, key).Instructions.Add(occurrence)` */
  function Record(sites: seq<EventSite>, h: Hit): seq<EventSite>
  {
    var (s, i) := GetOrAdd(sites, h.key);
    s[i := s[i].(occurrences := s[i].occurrences + [h.occurrence])]
  }

  /** The dictionary after recording the hits in order. */
  function Group(sites: seq<EventSite>, hits: seq<Hit>): seq<EventSite>
    decreases |hits|
  {
    if hits == [] then sites else Group(Record(sites, hits[0]), hits[1..])
  }

  /** The occurrences stored under `k` (none if there is no such site). */
  function OccurrencesOf(sites: seq<EventSite>, k: EventKey): seq<Occurrence>
  {
    var i := IndexOfKey(sites, k);
    if i >= 0 then sites[i].occurrences else []
  }

  /** The occurrences of the hits whose key equals `k`, in order. */
  function HitsFor(hits: seq<Hit>, k: EventKey): seq<Occurrence>
  {
    if hits == [] then []
    else (if KeyEquals(hits[0].key, k) then [hits[0].occurrence] else []) + HitsFor(hits[1..], k)
  }

  lemma {:induction false} IndexOfKeyUnique(sites: seq<EventSite>, k: EventKey, i: nat)
    requires Unique(sites) && i < |sites| && KeyEquals(sites[i].key, k)
    ensures IndexOfKey(sites, k) == i
  {
  }

  /** Recording a hit keeps the sites distinct: it only ever adds a site under a new key. */
  lemma RecordKeepsUnique(sites: seq<EventSite>, h: Hit)
    requires Unique(sites)
    ensures Unique(Record(sites, h))
  {
    var (s, i) := GetOrAdd(sites, h.key);
    var r := Record(sites, h);
    assert forall j :: 0 <= j < |r| ==> r[j].key == s[j].key;
  }

  /** Recording a hit appends its occurrence under its own key and nowhere else. */
  lemma RecordStep(sites: seq<EventSite>, h: Hit, k: EventKey)
    requires Unique(sites)
    ensures OccurrencesOf(Record(sites, h), k)
         == OccurrencesOf(sites, k) + if KeyEquals(h.key, k) then [h.occurrence] else []
  {
    var (s, i) := GetOrAdd(sites, h.key);
    var r := Record(sites, h);
    RecordKeepsUnique(sites, h);
    if KeyEquals(h.key, k) {
      IndexOfKeyUnique(r, k, i);
      IndexOfKeyUnique(s, k, i);
      if IndexOfKey(sites, h.key) == -1 {
        assert IndexOfKey(sites, k) == -1;
      }
    } else {
      var j := IndexOfKey(sites, k);
      if j >= 0 {
        IndexOfKeyUnique(r, k, j);
      } else {
        assert IndexOfKey(r, k) == -1;
      }
    }
  }

  lemma AppendAssoc<T>(a: seq<T>, b: seq<T>, c: seq<T>)
    ensures a + b + c == a + (b + c)
  {
  }

  /** Recording hits keeps the sites distinct. */
  lemma {:induction false} GroupKeepsUnique(sites: seq<EventSite>, hits: seq<Hit>)
    ensures Unique(sites) ==> Unique(Group(sites, hits))
    decreases |hits|
  {
    if Unique(sites) && hits != [] {
      RecordKeepsUnique(sites, hits[0]);
      GroupKeepsUnique(Record(sites, hits[0]), hits[1..]);
    }
  }

  /** Occurrences for one (sink, event) pair accumulate in scan order under a single site. */
  lemma {:induction false} GroupAccumulates(sites: seq<EventSite>, hits: seq<Hit>, k: EventKey)
    requires Unique(sites)
    ensures OccurrencesOf(Group(sites, hits), k) == OccurrencesOf(sites, k) + HitsFor(hits, k)
    decreases |hits|
  {
    if hits != [] {
      var h, rest := hits[0], hits[1..];
      var r := Record(sites, h);
      var own := if KeyEquals(h.key, k) then [h.occurrence] else [];
      assert OccurrencesOf(r, k) == OccurrencesOf(sites, k) + own by {
        RecordStep(sites, h, k);
      }
      assert OccurrencesOf(Group(r, rest), k) == OccurrencesOf(r, k) + HitsFor(rest, k) by {
        RecordKeepsUnique(sites, h);
        GroupAccumulates(r, rest, k);
      }
      assert HitsFor(hits, k) == own + HitsFor(rest, k);
      AppendAssoc(OccurrencesOf(sites, k), own, HitsFor(rest, k));
    }
  }

  /** (instr.Operand as MethodReference)?.Resolve() == sink */
  predicate RefersTo(i: Instr, sink: MethodId)
  {
    i.operand.MethodOp? && i.operand.ref.resolved == Some(sink)
  }

  /** The method a call resolves to, if it resolves to a known definition. */
  function ResolvedCallee(methods: MethodTable, operand: Operand): Option<MethodId>
  {
    if operand.MethodOp? && operand.ref.resolved.Some? && operand.ref.resolved.value in methods
    then operand.ref.resolved
    else None
  }

  predicate IsAccessorOf(e: EventDef, m: MethodId)
  {
    e.addMethod == Some(m) || e.removeMethod == Some(m)
  }

  /** The events that have `m` as their add or remove accessor. */
  function EventsWithAccessor(events: seq<EventDef>, m: MethodId): (r: seq<EventDef>)
    ensures forall e :: e in r <==> e in events && IsAccessorOf(e, m)
  {
    if events == [] then []
    else (if IsAccessorOf(events[0], m) then [events[0]] else []) + EventsWithAccessor(events[1..], m)
  }

  /** The match predicate of Analyze at position `j` of `body` (a method of the sink's type):
      a reference to the sink, then `newobj`, then a `callvirt` to an accessor of exactly one
      event of the accessor's declaring type. Two such events make SingleOrDefault throw. */
  function MatchAt(types: TypeTable, methods: MethodTable, body: seq<Instr>, owner: MethodId, j: nat, sink: MethodId)
    : (r: Result<Option<Hit>, WeaveError>)
    requires j < |body|
    ensures r.Ok? && r.value.Some? ==>
      var h := r.value.value;
      && RefersTo(body[j], sink)
      && j + 2 < |body| && body[j + 1].op == Newobj && body[j + 2].op == Callvirt
      && h.key.sinkDefinition == sink && h.key.sink == body[j].operand.ref
      && h.occurrence == Occurrence(h.occurrence.registration, body[j].id, owner)
      && exists am :: (
        && ResolvedCallee(methods, body[j + 2].operand) == Some(am)
        && methods[am].declaringType in types
        && h.key.event in types[methods[am].declaringType].events
        && IsAccessorOf(h.key.event, am)
        && (h.occurrence.registration == Add <==> h.key.event.addMethod == Some(am)))
    ensures !RefersTo(body[j], sink) ==> r == Ok(None)
    ensures RefersTo(body[j], sink) && (j + 1 == |body| || body[j + 1].op != Newobj) ==> r == Ok(None)
    ensures j + 2 < |body| && body[j + 1].op == Newobj && body[j + 2].op != Callvirt ==> r == Ok(None)
    ensures r.Err? ==> RefersTo(body[j], sink) && j + 2 < |body| && r.error.AmbiguousAccessor?
    // conversely, a complete pattern is found: a hit for exactly one event, an error for several
    ensures
      && RefersTo(body[j], sink)
      && j + 2 < |body| && body[j + 1].op == Newobj && body[j + 1].operand.MethodOp? && body[j + 2].op == Callvirt
      && ResolvedCallee(methods, body[j + 2].operand).Some?
      && methods[ResolvedCallee(methods, body[j + 2].operand).value].declaringType in types
      ==>
      var am := ResolvedCallee(methods, body[j + 2].operand).value;
      var es := EventsWithAccessor(types[methods[am].declaringType].events, am);
      && (|es| == 0 ==> r == Ok(None))
      && (|es| == 1 ==>
            r == Ok(Some(Hit(EventKey(body[j].operand.ref, sink, es[0], body[j + 1].operand.ref),
                             Occurrence(if es[0].addMethod == Some(am) then Add else Remove, body[j].id, owner)))))
      && (|es| > 1 ==> r == Err(AmbiguousAccessor(am)))
  {
    if !RefersTo(body[j], sink) then Ok(None)
    else if j + 1 >= |body| || body[j + 1].op != Newobj || !body[j + 1].operand.MethodOp? then Ok(None)
    else if j + 2 >= |body| || body[j + 2].op != Callvirt then Ok(None)
    else match ResolvedCallee(methods, body[j + 2].operand)
      case None => Ok(None)
      case Some(am) =>
        var sourceType := methods[am].declaringType;
        if sourceType !in types then Ok(None)
        else
          var candidates := EventsWithAccessor(types[sourceType].events, am);
          if |candidates| == 0 then Ok(None)
          else if |candidates| > 1 then Err(AmbiguousAccessor(am))
          else
            var e := candidates[0];
            var key := EventKey(body[j].operand.ref, sink, e, body[j + 1].operand.ref);
            var registration := if e.addMethod == Some(am) then Add else Remove;
            Ok(Some(Hit(key, Occurrence(registration, body[j].id, owner))))
  }

  /** The matches in `body` from position `from` on, in order. */
  function BodyHits(types: TypeTable, methods: MethodTable, body: seq<Instr>, owner: MethodId, from: nat, sink: MethodId)
    : (r: Result<seq<Hit>, WeaveError>)
    requires from <= |body|
    ensures r.Ok? ==> forall h :: h in r.value ==> h.key.sinkDefinition == sink && h.occurrence.collection == owner
    decreases |body| - from
  {
    if from == |body| then Ok([])
    else match MatchAt(types, methods, body, owner, from, sink)
      case Err(e) => Err(e)
      case Ok(None) => BodyHits(types, methods, body, owner, from + 1, sink)
      case Ok(Some(h)) => Then(Ok([h]), BodyHits(types, methods, body, owner, from + 1, sink))
  }

  /** The scan of a body fails exactly when MatchAt fails at one of its positions. */
  lemma {:induction false} BodyHitsOk(types: TypeTable, methods: MethodTable, body: seq<Instr>, owner: MethodId, from: nat, sink: MethodId)
    requires from <= |body|
    ensures BodyHits(types, methods, body, owner, from, sink).Ok?
        <==> forall j :: from <= j < |body| ==> MatchAt(types, methods, body, owner, j, sink).Ok?
    decreases |body| - from
  {
    if from < |body| {
      BodyHitsOk(types, methods, body, owner, from + 1, sink);
    }
  }

  /** BodyHits finds exactly what MatchAt finds at the positions from `from` on. */
  lemma {:induction false} BodyHitsExact(types: TypeTable, methods: MethodTable, body: seq<Instr>, owner: MethodId, from: nat, sink: MethodId, h: Hit)
    requires from <= |body| && BodyHits(types, methods, body, owner, from, sink).Ok?
    ensures h in BodyHits(types, methods, body, owner, from, sink).value
        <==> exists j :: from <= j < |body| && MatchAt(types, methods, body, owner, j, sink) == Ok(Some(h))
    decreases |body| - from
  {
    if from < |body| {
      BodyHitsExact(types, methods, body, owner, from + 1, sink, h);
      if MatchAt(types, methods, body, owner, from, sink) == Ok(Some(h)) {
        assert h in BodyHits(types, methods, body, owner, from, sink).value;
      }
    }
  }

  /** Sequencing of two partial results: the first error wins. */
  function Then(a: Result<seq<Hit>, WeaveError>, b: Result<seq<Hit>, WeaveError>): Result<seq<Hit>, WeaveError>
  {
    match a
    case Err(e) => Err(e)
    case Ok(x) => match b
      case Err(e) => Err(e)
      case Ok(y) => Ok(x + y)
  }

  /** The matches in the bodies of `ms`, in order; a method without a body stops the scan. */
  function TypeHits(types: TypeTable, methods: MethodTable, bodies: map<MethodId, seq<Instr>>, ms: seq<MethodId>, sink: MethodId)
    : (r: Result<seq<Hit>, WeaveError>)
    ensures r.Ok? ==> forall h :: h in r.value ==>
      h.key.sinkDefinition == sink && h.occurrence.collection in ms && h.occurrence.collection in bodies
  {
    if ms == [] then Ok([])
    else if ms[0] !in bodies then Err(MissingBody(ms[0]))
    else Then(BodyHits(types, methods, bodies[ms[0]], ms[0], 0, sink), TypeHits(types, methods, bodies, ms[1..], sink))
  }

  /** Folding results into the dictionary. */
  function Combine(sites: seq<EventSite>, hits: Result<seq<Hit>, WeaveError>): Result<seq<EventSite>, WeaveError>
  {
    match hits
    case Err(e) => Err(e)
    case Ok(hs) => Ok(Group(sites, hs))
  }

  lemma CombineThen(sites: seq<EventSite>, h: Hit, rest: Result<seq<Hit>, WeaveError>)
    ensures Combine(sites, Then(Ok([h]), rest)) == Combine(Record(sites, h), rest)
  {
    if rest.Ok? {
      assert ([h] + rest.value)[1..] == rest.value;
    }
  }

  lemma ThenAssoc(a: Result<seq<Hit>, WeaveError>, b: Result<seq<Hit>, WeaveError>, c: Result<seq<Hit>, WeaveError>)
    ensures Then(Then(a, b), c) == Then(a, Then(b, c))
  {
    if a.Ok? && b.Ok? && c.Ok? {
      assert (a.value + b.value) + c.value == a.value + (b.value + c.value);
    }
  }

  lemma ThenEmpty(b: Result<seq<Hit>, WeaveError>)
    ensures Then(Ok([]), b) == b
  {
    if b.Ok? {
      assert [] + b.value == b.value;
    }
  }

  /** Analyze for each marked method in turn, all into one dictionary. */
  function AnalyzeAll(types: TypeTable, methods: MethodTable, bodies: map<MethodId, seq<Instr>>, sinks: seq<MethodId>, sites: seq<EventSite>)
    : (r: Result<seq<EventSite>, WeaveError>)
    requires forall m :: m in sinks ==> m in methods && methods[m].declaringType in types
    ensures Unique(sites) && r.Ok? ==> Unique(r.value)
  {
    if sinks == [] then Ok(sites)
    else
      var first := Combine(sites, TypeHits(types, methods, bodies, types[methods[sinks[0]].declaringType].methods, sinks[0]));
      if first.Err? then first
      else
        GroupKeepsUnique(sites, TypeHits(types, methods, bodies, types[methods[sinks[0]].declaringType].methods, sinks[0]).value);
        AnalyzeAll(types, methods, bodies, sinks[1..], first.value)
  }

  /** Every site's sink is among `sinks` and every occurrence lies in a body in `collections`. */
  predicate SitesFrom(sites: seq<EventSite>, sinks: set<MethodId>, collections: set<MethodId>)
  {
    forall s :: s in sites ==>
      s.key.sinkDefinition in sinks && forall o :: o in s.occurrences ==> o.collection in collections
  }

  lemma RecordSitesFrom(sites: seq<EventSite>, h: Hit, sinks: set<MethodId>, collections: set<MethodId>)
    requires SitesFrom(sites, sinks, collections)
    requires h.key.sinkDefinition in sinks && h.occurrence.collection in collections
    ensures SitesFrom(Record(sites, h), sinks, collections)
  {
    var (s, i) := GetOrAdd(sites, h.key);
    assert SitesFrom(s, sinks, collections);
    var r := Record(sites, h);
    forall x | x in r
      ensures x.key.sinkDefinition in sinks && forall o :: o in x.occurrences ==> o.collection in collections
    {
      var j :| 0 <= j < |r| && r[j] == x;
      if j != i {
        assert x == s[j];
      }
    }
  }

  lemma {:induction false} GroupSitesFrom(sites: seq<EventSite>, hits: seq<Hit>, sinks: set<MethodId>, collections: set<MethodId>)
    requires SitesFrom(sites, sinks, collections)
    requires forall h :: h in hits ==> h.key.sinkDefinition in sinks && h.occurrence.collection in collections
    ensures SitesFrom(Group(sites, hits), sinks, collections)
    decreases |hits|
  {
    if hits != [] {
      RecordSitesFrom(sites, hits[0], sinks, collections);
      GroupSitesFrom(Record(sites, hits[0]), hits[1..], sinks, collections);
    }
  }

  /** The whole analysis only records sites for the given sinks, with occurrences in
      existing bodies. */
  lemma {:induction false} AnalyzeAllSitesFrom(types: TypeTable, methods: MethodTable, bodies: map<MethodId, seq<Instr>>,
                                               sinks: seq<MethodId>, sites: seq<EventSite>, allowed: set<MethodId>)
    requires forall m :: m in sinks ==> m in methods && methods[m].declaringType in types && m in allowed
    requires SitesFrom(sites, allowed, bodies.Keys)
    requires AnalyzeAll(types, methods, bodies, sinks, sites).Ok?
    ensures SitesFrom(AnalyzeAll(types, methods, bodies, sinks, sites).value, allowed, bodies.Keys)
    decreases |sinks|
  {
    if sinks != [] {
      var hs := TypeHits(types, methods, bodies, types[methods[sinks[0]].declaringType].methods, sinks[0]);
      GroupSitesFrom(sites, hs.value, allowed, bodies.Keys);
      AnalyzeAllSitesFrom(types, methods, bodies, sinks[1..], Group(sites, hs.value), allowed);
    }
  }

  /** Verify(methods, eventInfos): the marked methods that are the sink of no site. */
  function Unmapped(candidates: seq<MethodId>, sites: seq<EventSite>): (r: seq<MethodId>)
    ensures forall m :: m in r <==> m in candidates && forall i :: 0 <= i < |sites| ==> sites[i].key.sinkDefinition != m
    ensures |r| <= |candidates|
  {
    if candidates == [] then []
    else
      (if forall i :: 0 <= i < |sites| ==> sites[i].key.sinkDefinition != candidates[0] then [candidates[0]] else [])
        + Unmapped(candidates[1..], sites)
  }

  /** One warning per occurrence of an unmapped candidate, and none for a mapped one. */
  lemma {:induction false} UnmappedCounts(candidates: seq<MethodId>, sites: seq<EventSite>)
    ensures forall m :: (multiset(Unmapped(candidates, sites))[m]
      == if (forall i :: 0 <= i < |sites| ==> sites[i].key.sinkDefinition != m) then multiset(candidates)[m] else 0)
  {
    if candidates != [] {
      UnmappedCounts(candidates[1..], sites);
      assert candidates == [candidates[0]] + candidates[1..];
    }
  }

  /** The warnings follow candidate order: those for an earlier part of the candidates come
      before those for a later part. */
  lemma {:induction false} UnmappedAppend(a: seq<MethodId>, b: seq<MethodId>, sites: seq<EventSite>)
    ensures Unmapped(a + b, sites) == Unmapped(a, sites) + Unmapped(b, sites)
  {
    if a == [] {
      assert a + b == b;
    } else {
      UnmappedAppend(a[1..], b, sites);
      assert (a + b)[0] == a[0] && (a + b)[1..] == a[1..] + b;
      var own := if forall i :: 0 <= i < |sites| ==> sites[i].key.sinkDefinition != a[0] then [a[0]] else [];
      AppendAssoc(own, Unmapped(a[1..], sites), Unmapped(b, sites));
    }
  }
}
