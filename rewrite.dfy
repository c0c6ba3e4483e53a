/** Rewriting one registration site, and the teardown method's release chain. */
module Rewrite {
  import opened Wrappers
  import opened Cil
  import opened Metadata

  /** The net stack effect of a run of instructions; None if one of them has no known
      stack transition. */
  function Effect(s: seq<Instr>): Option<int>
  {
    if s == [] then Some(0)
    else match StackDelta(s[0])
      case None => None
      case Some(d) =>
        match Effect(s[1..])
        case None => None
        case Some(e) => Some(d + e)
  }

  function AddEffects(a: Option<int>, b: Option<int>): Option<int>
  {
    if a.Some? && b.Some? then Some(a.value + b.value) else None
  }

  lemma {:induction false} EffectAppend(a: seq<Instr>, b: seq<Instr>)
    ensures Effect(a + b) == AddEffects(Effect(a), Effect(b))
    decreases |a|
  {
    if a == [] {
      assert a + b == b;
    } else {
      assert (a + b)[0] == a[0];
      assert (a + b)[1..] == a[1..] + b;
      EffectAppend(a[1..], b);
    }
  }

  lemma EffectCons(x: Instr, s: seq<Instr>)
    ensures Effect([x] + s) == AddEffects(StackDelta(x), Effect(s))
  {
    assert ([x] + s)[1..] == s;
  }

  lemma EffectSingle(x: Instr)
    ensures Effect([x]) == StackDelta(x)
  {
    EffectCons(x, []);
    assert [x] + [] == [x];
  }

  /** The effect of body[k..i] is body[k]'s delta plus that of body[k+1..i]. */
  lemma EffectStep(body: seq<Instr>, k: nat, i: nat)
    requires k < i <= |body|
    ensures Effect(body[k..i]) == AddEffects(StackDelta(body[k]), Effect(body[k + 1..i]))
  {
    assert body[k..i] == [body[k]] + body[k + 1..i];
    EffectCons(body[k], body[k + 1..i]);
  }

  /** The crawl-back loop: step back one instruction at a time, adding its stack delta,
      until the running size is no longer negative; the position reached. */
  function CrawlBack(body: seq<Instr>, index: int, stackSize: int): (r: Result<nat, WeaveError>)
    requires index <= |body|
    requires stackSize >= 0 ==> index >= 0
    ensures r.Ok? ==> r.value <= index && (stackSize < 0 ==> r.value < index)
    decreases if index < 0 then 0 else index
  {
    if stackSize >= 0 then Ok(index)
    else if index - 1 < 0 then Err(CrawlBackFailed)
    else match StackDelta(body[index - 1])
      case None => Err(UnknownStackDelta(body[index - 1].id))
      case Some(d) => CrawlBack(body, index - 1, stackSize + d)
  }

  /** The net stack effect of body[u..i], summed from the end as the crawl does. */
  function RunEffect(body: seq<Instr>, u: nat, i: nat): Option<int>
    requires u <= i <= |body|
    decreases i - u
  {
    if u == i then Some(0) else AddEffects(StackDelta(body[u]), RunEffect(body, u + 1, i))
  }

  lemma {:induction false} RunEffectIsEffect(body: seq<Instr>, u: nat, i: nat)
    requires u <= i <= |body|
    ensures RunEffect(body, u, i) == Effect(body[u..i])
    decreases i - u
  {
    if u == i {
      assert body[u..i] == [];
    } else {
      EffectStep(body, u, i);
      RunEffectIsEffect(body, u + 1, i);
    }
  }

  /** `t` is where the pushes that the delegate constructor's two arguments need begin:
      the instructions from `t` up to `i` leave at least `-base` values, and no shorter
      run ending at `i` does. */
  predicate StopsAt(body: seq<Instr>, i: nat, base: int, t: int)
    requires i <= |body|
  {
    && 0 <= t < i
    && RunEffect(body, t, i).Some? && base + RunEffect(body, t, i).value >= 0
    && Owing(body, i, base, t)
  }

  /** Every run strictly after `k` and ending at `i` has a known effect that still leaves
      values owed. */
  predicate Owing(body: seq<Instr>, i: nat, base: int, k: nat)
    requires i <= |body|
  {
    forall u :: k < u <= i ==> RunEffect(body, u, i).Some? && base + RunEffect(body, u, i).value < 0
  }

  /** When the crawl from `k` succeeds, it stops where StopsAt says. */
  lemma {:induction false} CrawlBackReachesStop(body: seq<Instr>, i: nat, base: int, k: nat)
    requires base < 0 && k <= i <= |body|
    requires RunEffect(body, k, i).Some? && Owing(body, i, base, k)
    ensures var r := CrawlBack(body, k, base + RunEffect(body, k, i).value);
      r.Ok? ==> StopsAt(body, i, base, r.value)
    decreases k
  {
    var s := base + RunEffect(body, k, i).value;
    if s >= 0 {
      assert CrawlBack(body, k, s) == Ok(k);
    } else if k > 0 && StackDelta(body[k - 1]).Some? {
      var d := StackDelta(body[k - 1]).value;
      assert CrawlBack(body, k, s) == CrawlBack(body, k - 1, s + d);
      CrawlBackReachesStop(body, i, base, k - 1);
    }
  }

  /** A start StopsAt admits at or before `k` is where the crawl from `k` stops. */
  lemma {:induction false} CrawlBackOnlyStop(body: seq<Instr>, i: nat, base: int, k: nat, t: int)
    requires base < 0 && k <= i <= |body|
    requires RunEffect(body, k, i).Some? && Owing(body, i, base, k)
    requires StopsAt(body, i, base, t)
    ensures CrawlBack(body, k, base + RunEffect(body, k, i).value) == Ok(t)
    decreases k
  {
    var s := base + RunEffect(body, k, i).value;
    if s < 0 {
      assert t < k;
      assert RunEffect(body, k - 1, i).Some?;
      var d := StackDelta(body[k - 1]).value;
      assert CrawlBack(body, k, s) == CrawlBack(body, k - 1, s + d);
      CrawlBackOnlyStop(body, i, base, k - 1, t);
    }
  }

  /** The crawl as the rewrite starts it, from the delegate's `ldftn` with two values
      owed: it succeeds exactly when such a start exists, and then finds it. */
  lemma CrawlBackFindsStart(body: seq<Instr>, i: nat)
    requires i <= |body|
    ensures CrawlBack(body, i, -2).Ok? ==> StopsAt(body, i, -2, CrawlBack(body, i, -2).value)
    ensures forall t :: StopsAt(body, i, -2, t) ==> CrawlBack(body, i, -2) == Ok(t)
  {
    CrawlBackReachesStop(body, i, -2, i);
    forall t | StopsAt(body, i, -2, t)
      ensures CrawlBack(body, i, -2) == Ok(t)
    {
      CrawlBackOnlyStop(body, i, -2, i, t);
    }
  }

  /** Collection.Insert */
  function Insert(s: seq<Instr>, k: nat, x: Instr): (r: seq<Instr>)
    requires k <= |s|
    ensures |r| == |s| + 1 && r[k] == x
  {
    s[..k] + [x] + s[k..]
  }

  /** RemoveAt(index, opcode): removes the instruction at `k` after checking its opcode; a
      different opcode or a position past the end is an error. */
  function RemoveAt(s: seq<Instr>, k: nat, op: OpCode): (r: Result<seq<Instr>, WeaveError>)
    ensures r.Ok? <==> k < |s| && s[k].op == op
    ensures r.Ok? ==> r.value == s[..k] + s[k + 1..]
  {
    if k < |s| && s[k].op == op then Ok(s[..k] + s[k + 1..]) else Err(UnexpectedInstruction(k))
  }

  /** The adapter member a registration turns into. */
  function AdapterCall(nextId: InstrId, member: AdapterMember): Instr
  {
    Instr(nextId, Callvirt, AdapterOp(member))
  }

  /** The top instruction turned into `ldarg.0` (same identity), then `ldfld field`, then
      a copy of the top instruction: body[..t] + those three + body[t+1..]. */
  function Prepared(body: seq<Instr>, t: nat, field: FieldId, nextId: InstrId): (r: seq<Instr>)
    requires t < |body|
    ensures r == body[..t] + [Instr(body[t].id, Ldarg0, NoOperand), Instr(nextId, Ldfld, FieldOp(field)), Instr(nextId + 1, body[t].op, body[t].operand)] + body[t + 1..]
  {
    var top := body[t];
    var b1 := body[t := Instr(top.id, Ldarg0, NoOperand)];
    assert b1[..t] == body[..t] && b1[t + 1..] == body[t + 1..];
    var b2 := Insert(b1, t + 1, Instr(nextId, Ldfld, FieldOp(field)));
    Insert(b2, t + 2, Instr(nextId + 1, top.op, top.operand))
  }

  /** The four RemoveAt calls at one position: `ldarg.0`, `ldftn`, `newobj`, `callvirt`. */
  function RemoveFour(b: seq<Instr>, k: nat): (r: Result<seq<Instr>, WeaveError>)
    ensures r.Ok? <==> k + 3 < |b| && b[k].op == Ldarg0 && b[k + 1].op == Ldftn && b[k + 2].op == Newobj && b[k + 3].op == Callvirt
    ensures r.Ok? ==> r.value == b[..k] + b[k + 4..]
  {
    var b4 :- RemoveAt(b, k, Ldarg0);
    assert k + 1 < |b| ==> b4[k] == b[k + 1];
    var b5 :- RemoveAt(b4, k, Ldftn);
    assert k + 2 < |b| ==> b5[k] == b[k + 2];
    var b6 :- RemoveAt(b5, k, Newobj);
    assert k + 3 < |b| ==> b6[k] == b[k + 3];
    var b7 :- RemoveAt(b6, k, Callvirt);
    assert b7 == b[..k] + b[k + 4..];
    Ok(b7)
  }

  /** One iteration of the rewrite loop in Weave(eventInfo): crawl back from the delegate's
      `ldftn` to the start of the event source's pushes, turn that instruction into
      `ldarg.0` (keeping its identity) followed by `ldfld adapter` and a copy of it, then
      replace `ldarg.0; ldftn; newobj; callvirt` with a call of the adapter's
      Subscribe or Unsubscribe. `nextId` .. `nextId + 2` are the new instructions' ids. */
  function RewriteSite(body: seq<Instr>, instruction: InstrId, field: FieldId, member: AdapterMember, nextId: InstrId)
    : Result<seq<Instr>, WeaveError>
  {
    var i := IndexOf(body, instruction);
    var c := CrawlBack(body, i, -2);
    if c.Err? then Err(c.error)
    else SpliceAt(body, c.value, i, field, member, nextId)
  }

  /** The splice once the crawl has found the start `t` of the run that ends at the
      delegate's `ldftn` at `i`. */
  function SpliceAt(body: seq<Instr>, t: nat, i: nat, field: FieldId, member: AdapterMember, nextId: InstrId)
    : Result<seq<Instr>, WeaveError>
    requires t < |body|
  {
    var r := RemoveFour(Prepared(body, t, field, nextId), i + 1);
    if r.Err? then Err(r.error)
    else Ok(Insert(r.value, i + 1, AdapterCall(nextId + 2, member)))
  }

  /** RewriteSite once the crawl is known to stop at `t`: the splice at `t`. */
  lemma RewriteSiteAtStart(body: seq<Instr>, instruction: InstrId, t: nat, field: FieldId, member: AdapterMember, nextId: InstrId)
    requires CrawlBack(body, IndexOf(body, instruction), -2) == Ok(t)
    ensures t < |body|
    ensures RewriteSite(body, instruction, field, member, nextId) == SpliceAt(body, t, IndexOf(body, instruction), field, member, nextId)
  {
  }

  /** SpliceAt in terms of the prepared body and the outcome of the four removals. */
  lemma SpliceAtSteps(body: seq<Instr>, t: nat, i: nat, field: FieldId, member: AdapterMember, nextId: InstrId,
                      prepared: seq<Instr>, removed: Result<seq<Instr>, WeaveError>)
    requires t < |body| && prepared == Prepared(body, t, field, nextId) && removed == RemoveFour(prepared, i + 1)
    ensures removed.Ok? ==> i + 1 <= |removed.value|
    ensures SpliceAt(body, t, i, field, member, nextId)
         == if removed.Err? then Err(removed.error) else Ok(Insert(removed.value, i + 1, AdapterCall(nextId + 2, member)))
  {
  }

  /** What replaces body[t..i+3]: the adapter field loaded off `this` under the event
      source's pushes, and one adapter call instead of delegate creation and accessor call. */
  function Replacement(body: seq<Instr>, t: nat, i: nat, field: FieldId, member: AdapterMember, nextId: InstrId): seq<Instr>
    requires t < i <= |body| && t + 1 <= i - 1
  {
    [Instr(body[t].id, Ldarg0, NoOperand), Instr(nextId, Ldfld, FieldOp(field)), Instr(nextId + 1, body[t].op, body[t].operand)]
      + body[t + 1..i - 1] + [AdapterCall(nextId + 2, member)]
  }

  /** The expected shape around the registration: `ldarg.0; ldftn; newobj; callvirt`. */
  predicate DelegateShape(body: seq<Instr>, i: int)
  {
    1 <= i && i + 2 < |body|
    && body[i - 1].op == Ldarg0 && body[i].op == Ldftn && body[i + 1].op == Newobj && body[i + 2].op == Callvirt
  }

  /** The rewrite succeeds exactly when the instruction is present, the crawl finds a start
      and the four expected instructions are in place; the start then lies before the
      `ldarg.0`, and the result is the body with body[t..i+3] replaced, one shorter. */
  /** Prepared shifts everything after the top instruction two places; at i+1 it holds
      body[i-1] or, when that was the top, its copy, so the opcode is body[i-1]'s either way. */
  lemma PreparedAround(body: seq<Instr>, t: nat, i: nat, field: FieldId, nextId: InstrId)
    requires t < i < |body|
    ensures var b3 := Prepared(body, t, field, nextId);
      && |b3| == |body| + 2 && b3[i + 1].op == body[i - 1].op
      && forall k :: i <= k < |body| ==> b3[k + 2] == body[k]
  {
  }

  /** The four removals after Prepared succeed exactly on the delegate shape. */
  lemma RemoveFourPrepared(body: seq<Instr>, t: nat, i: nat, field: FieldId, nextId: InstrId)
    requires t < i < |body|
    ensures RemoveFour(Prepared(body, t, field, nextId), i + 1).Ok? <==> DelegateShape(body, i)
  {
    PreparedAround(body, t, i, field, nextId);
  }

  lemma SpliceValue(body: seq<Instr>, t: nat, i: nat, field: FieldId, member: AdapterMember, nextId: InstrId)
    requires t + 2 <= i && i + 2 < |body|
    ensures var b3 := Prepared(body, t, field, nextId);
      Insert(b3[..i + 1] + b3[i + 5..], i + 1, AdapterCall(nextId + 2, member))
        == body[..t] + Replacement(body, t, i, field, member, nextId) + body[i + 3..]
  {
    var b3 := Prepared(body, t, field, nextId);
    var head := [Instr(body[t].id, Ldarg0, NoOperand), Instr(nextId, Ldfld, FieldOp(field)), Instr(nextId + 1, body[t].op, body[t].operand)];
    assert b3[..i + 1] == body[..t] + head + body[t + 1..i - 1];
    assert b3[i + 5..] == body[i + 3..];
  }

  /** The crawl cannot stop on the delegate's `ldarg.0`: it pushes only one value. */
  lemma StartBeforeDelegate(body: seq<Instr>, i: nat, t: nat)
    requires i <= |body| && StopsAt(body, i, -2, t) && 1 <= i && body[i - 1].op == Ldarg0
    ensures t <= i - 2
  {
    assert RunEffect(body, i - 1, i) == Some(1);
  }

  /** The rewrite succeeds exactly when the instruction is present, the crawl finds a start
      and the four expected instructions are in place. */
  lemma RewriteSiteSucceeds(body: seq<Instr>, instruction: InstrId, field: FieldId, member: AdapterMember, nextId: InstrId)
    ensures var i := IndexOf(body, instruction);
      RewriteSite(body, instruction, field, member, nextId).Ok? <==>
        i >= 0 && CrawlBack(body, i, -2).Ok? && DelegateShape(body, i)
  {
    var i := IndexOf(body, instruction);
    var c := CrawlBack(body, i, -2);
    if i < 0 {
      assert c.Err?;
    } else if c.Ok? {
      RemoveFourPrepared(body, c.value, i, field, nextId);
    }
  }

  /** On success the start lies before the delegate's `ldarg.0`, and the result is the body
      with body[t..i+3] replaced, one instruction shorter. */
  lemma {:induction false} RewriteSiteShape(body: seq<Instr>, instruction: InstrId, field: FieldId, member: AdapterMember, nextId: InstrId)
    requires RewriteSite(body, instruction, field, member, nextId).Ok?
    ensures var i := IndexOf(body, instruction);
      var t := CrawlBack(body, i, -2).value;
      && 0 <= t <= i - 2 && StopsAt(body, i, -2, t)
      && RewriteSite(body, instruction, field, member, nextId).value
         == body[..t] + Replacement(body, t, i, field, member, nextId) + body[i + 3..]
      && |RewriteSite(body, instruction, field, member, nextId).value| == |body| - 1
  {
    var i := IndexOf(body, instruction);
    RewriteSiteSucceeds(body, instruction, field, member, nextId);
    var t := CrawlBack(body, i, -2).value;
    CrawlBackFindsStart(body, i);
    StartBeforeDelegate(body, i, t);
    assert RewriteSite(body, instruction, field, member, nextId) == SpliceAt(body, t, i, field, member, nextId);
    SpliceAtValue(body, t, i, field, member, nextId);
  }

  lemma SpliceAtValue(body: seq<Instr>, t: nat, i: nat, field: FieldId, member: AdapterMember, nextId: InstrId)
    requires t + 2 <= i && DelegateShape(body, i)
    ensures SpliceAt(body, t, i, field, member, nextId)
         == Ok(body[..t] + Replacement(body, t, i, field, member, nextId) + body[i + 3..])
  {
    var b3 := Prepared(body, t, field, nextId);
    RemoveFourPrepared(body, t, i, field, nextId);
    var r := RemoveFour(b3, i + 1);
    assert r.value == b3[..i + 1] + b3[i + 5..];
    SpliceValue(body, t, i, field, member, nextId);
  }

  /** Every instruction of `r` carries the id of an instruction of `body` or one of the
      three new ids nextId .. nextId + 2. */
  predicate IdsFrom(r: seq<Instr>, body: seq<Instr>, nextId: InstrId)
  {
    forall x :: x in r ==> (exists y :: y in body && y.id == x.id) || nextId <= x.id < nextId + 3
  }

  lemma SpliceIds(body: seq<Instr>, t: nat, i: nat, field: FieldId, member: AdapterMember, nextId: InstrId)
    requires t + 2 <= i && i + 2 < |body|
    ensures IdsFrom(body[..t] + Replacement(body, t, i, field, member, nextId) + body[i + 3..], body, nextId)
  {
    assert body[t] in body;
    forall x | x in body[..t] + body[t + 1..i - 1] + body[i + 3..]
      ensures x in body
    {
      if x in body[..t] {
        var k :| 0 <= k < t && body[..t][k] == x;
        assert body[k] == x;
      } else if x in body[t + 1..i - 1] {
        var k :| 0 <= k < i - 1 - (t + 1) && body[t + 1..i - 1][k] == x;
        assert body[t + 1 + k] == x;
      } else {
        var k :| 0 <= k < |body| - (i + 3) && body[i + 3..][k] == x;
        assert body[i + 3 + k] == x;
      }
    }
  }

  /** A rewrite brings in no instruction identity except the three new ones: every other
      instruction carries the id of an instruction of the original body. */
  lemma RewriteSiteIds(body: seq<Instr>, instruction: InstrId, field: FieldId, member: AdapterMember, nextId: InstrId)
    requires RewriteSite(body, instruction, field, member, nextId).Ok?
    ensures IdsFrom(RewriteSite(body, instruction, field, member, nextId).value, body, nextId)
  {
    var i := IndexOf(body, instruction);
    RewriteSiteSucceeds(body, instruction, field, member, nextId);
    assert DelegateShape(body, i);
    RewriteSiteShape(body, instruction, field, member, nextId);
    var t := CrawlBack(body, i, -2).value;
    assert t + 2 <= i && i + 2 < |body|;
    SpliceIds(body, t, i, field, member, nextId);
  }

  /** Hence ids stay below a bound that covers the body and the three new ids. */
  lemma RewriteSiteIdsBelow(body: seq<Instr>, instruction: InstrId, field: FieldId, member: AdapterMember, nextId: InstrId, bound: nat)
    requires RewriteSite(body, instruction, field, member, nextId).Ok?
    requires forall x :: x in body ==> x.id < bound
    requires nextId + 3 <= bound
    ensures forall x :: x in RewriteSite(body, instruction, field, member, nextId).value ==> x.id < bound
  {
    RewriteSiteIds(body, instruction, field, member, nextId);
    var r := RewriteSite(body, instruction, field, member, nextId).value;
    forall x | x in r
      ensures x.id < bound
    {
      assert (exists y :: y in body && y.id == x.id) || nextId <= x.id < nextId + 3;
    }
  }

  lemma ReplacementEffect(body: seq<Instr>, t: nat, i: nat, field: FieldId, member: AdapterMember, nextId: InstrId)
    requires t + 2 <= i <= |body|
    ensures Effect(Replacement(body, t, i, field, member, nextId))
         == AddEffects(Some(1), AddEffects(StackDelta(body[t]), AddEffects(Effect(body[t + 1..i - 1]), StackDelta(AdapterCall(nextId + 2, member)))))
  {
    var h0 := Instr(body[t].id, Ldarg0, NoOperand);
    var h1 := Instr(nextId, Ldfld, FieldOp(field));
    var h2 := Instr(nextId + 1, body[t].op, body[t].operand);
    var rest := body[t + 1..i - 1] + [AdapterCall(nextId + 2, member)];
    assert Replacement(body, t, i, field, member, nextId) == [h0] + ([h1] + ([h2] + rest));
    EffectAppend(body[t + 1..i - 1], [AdapterCall(nextId + 2, member)]);
    EffectSingle(AdapterCall(nextId + 2, member));
    EffectCons(h2, rest);
    EffectCons(h1, [h2] + rest);
    EffectCons(h0, [h1] + ([h2] + rest));
  }

  lemma DelegateRunEffect(body: seq<Instr>, t: nat, i: nat)
    requires t + 2 <= i && i + 2 < |body|
    ensures Effect(body[t..i + 3])
         == AddEffects(StackDelta(body[t]), AddEffects(Effect(body[t + 1..i - 1]), Effect(body[i - 1..i + 3])))
    ensures Effect(body[i - 1..i + 3])
         == AddEffects(StackDelta(body[i - 1]), AddEffects(StackDelta(body[i]), AddEffects(StackDelta(body[i + 1]), StackDelta(body[i + 2]))))
  {
    var four := body[i - 1..i + 3];
    assert body[t..i + 3] == [body[t]] + (body[t + 1..i - 1] + four);
    EffectAppend(body[t + 1..i - 1], four);
    EffectCons(body[t], body[t + 1..i - 1] + four);
    assert four == [body[i - 1]] + ([body[i]] + ([body[i + 1]] + [body[i + 2]]));
    EffectSingle(body[i + 2]);
    EffectCons(body[i + 1], [body[i + 2]]);
    EffectCons(body[i], [body[i + 1]] + [body[i + 2]]);
    EffectCons(body[i - 1], [body[i]] + ([body[i + 1]] + [body[i + 2]]));
  }

  /** Where the delegate is built from `this` and a function pointer by a two-argument
      constructor, and the accessor is an instance method taking the handler and returning
      nothing, the replacement leaves the stack exactly as the original run did. */
  lemma ReplacementKeepsStackEffect(body: seq<Instr>, t: nat, i: nat, field: FieldId, member: AdapterMember, nextId: InstrId)
    requires t + 2 <= i && i + 2 < |body|
    requires member != Release
    requires body[i - 1].op == Ldarg0 && body[i].op == Ldftn
    requires body[i + 1].op == Newobj && body[i + 1].operand.MethodOp? && body[i + 1].operand.ref.paramCount == 2
    requires body[i + 2].op == Callvirt && body[i + 2].operand.MethodOp?
    requires var a := body[i + 2].operand.ref; a.hasThis && a.returnsVoid && a.paramCount == 1
    ensures Effect(Replacement(body, t, i, field, member, nextId)) == Effect(body[t..i + 3])
  {
    ReplacementEffect(body, t, i, field, member, nextId);
    DelegateRunEffect(body, t, i);
  }

  // ---- the teardown method (">WeakEvents>Unsubscribe") ----

  /** `ldarg.0; ldfld field; callvirt Release`, prepended once per site. */
  function ReleaseTriple(field: FieldId, nextId: InstrId): seq<Instr>
  {
    [Instr(nextId, Ldarg0, NoOperand), Instr(nextId + 1, Ldfld, FieldOp(field)), AdapterCall(nextId + 2, Release)]
  }

  /** The teardown body: release triples followed by a single `ret`. */
  predicate ReleaseChain(b: seq<Instr>)
    decreases |b|
  {
    (|b| == 1 && b[0].op == Ret)
    || (|b| >= 4 && b[0].op == Ldarg0 && b[1].op == Ldfld && b[1].operand.FieldOp? && b[2] == AdapterCall(b[2].id, Release)
        && ReleaseChain(b[3..]))
  }

  /** The fields the teardown releases, in execution order. */
  function ReleasedFields(b: seq<Instr>): seq<FieldId>
    requires ReleaseChain(b)
    decreases |b|
  {
    if |b| == 1 then [] else [b[1].operand.field] + ReleasedFields(b[3..])
  }

  /** The body a new teardown method starts with. */
  function NewTeardown(nextId: InstrId): seq<Instr>
  {
    [Instr(nextId, Ret, NoOperand)]
  }

  lemma NewTeardownReleasesNothing(nextId: InstrId)
    ensures ReleaseChain(NewTeardown(nextId)) && ReleasedFields(NewTeardown(nextId)) == []
  {
  }

  /** Prepending a triple keeps the chain and releases that field first. */
  lemma PrependRelease(b: seq<Instr>, field: FieldId, nextId: InstrId)
    requires ReleaseChain(b)
    ensures ReleaseChain(ReleaseTriple(field, nextId) + b)
    ensures ReleasedFields(ReleaseTriple(field, nextId) + b) == [field] + ReleasedFields(b)
  {
    assert (ReleaseTriple(field, nextId) + b)[3..] == b;
  }

  /** Every release triple pops what it pushes, so the teardown reaches its `ret` with the
      stack it started with; the body is three instructions per released field plus one. */
  lemma {:induction false} ReleaseChainBalanced(b: seq<Instr>)
    requires ReleaseChain(b)
    ensures Effect(b[..|b| - 1]) == Some(0)
    ensures |b| == 3 * |ReleasedFields(b)| + 1
    decreases |b|
  {
    if |b| > 1 {
      ReleaseChainBalanced(b[3..]);
      assert b[..|b| - 1] == [b[0]] + ([b[1]] + ([b[2]] + b[3..][..|b[3..]| - 1]));
      EffectCons(b[2], b[3..][..|b[3..]| - 1]);
      EffectCons(b[1], [b[2]] + b[3..][..|b[3..]| - 1]);
      EffectCons(b[0], [b[1]] + ([b[2]] + b[3..][..|b[3..]| - 1]));
    }
  }
}
