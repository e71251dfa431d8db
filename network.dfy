/**
 The manager `LoRAw2wVAE`: `__init__` files the layout, walks the groups to
 build one adapter per retained module (`create_modules`), then installs the
 adapters one after the other; `__enter__` hands every adapter the decoded
 buffer and the manager's multiplier, and `__exit__` takes both away again.
 */
module Network {

  import opened Types
  import opened SkipPolicy
  import opened Layout
  import opened Adapters

  // ---------------------------------------------------------------------
  // The second loop of `create_modules`
  // ---------------------------------------------------------------------

  /** A walk's outcome with the modules `done` placed in front of its list. */
  function Then(done: seq<Planned>, r: Result<(seq<Planned>, nat)>): Result<(seq<Planned>, nat)>
  {
    match r
    case Err(e) => Err(e)
    case Ok((rest, total)) => Ok((done + rest, total))
  }

  lemma ThenThen(done: seq<Planned>, more: seq<Planned>, r: Result<(seq<Planned>, nat)>)
    ensures Then(done, Then(more, r)) == Then(done + more, r)
  {
    if r.Ok? {
      assert done + (more + r.value.0) == (done + more) + r.value.0;
    }
  }

  /** Resolve from group `i` of `order`, one step. */
  lemma ResolveAt(order: seq<string>, i: nat, pairs: map<string, Slots>, trainMethod: string,
                  rank: int, modules: set<string>, counter: nat)
    requires i < |order| && forall b :: b in order ==> b in pairs
    ensures forall b :: b in order[i..] ==> b in pairs
    ensures forall b :: b in order[i + 1..] ==> b in pairs
    ensures order[i..][0] == order[i] && order[i..][1..] == order[i + 1..]
  {
    assert order[i..][1..] == order[i + 1..];
  }

  /** A retained group at position `i`: its module goes first, then the walk continues after its ranges. */
  lemma KeepAt(order: seq<string>, i: nat, pairs: map<string, Slots>, trainMethod: string,
               rank: int, modules: set<string>, counter: nat)
    requires i < |order| && forall b :: b in order ==> b in pairs
    requires pairs[order[i]].a.Some? && pairs[order[i]].b.Some?
    requires ShouldSkip(ModulePath(order[i]), trainMethod) == Ok(false)
    requires ModulePath(order[i]) in modules && rank != 0
    ensures forall b :: b in order[i + 1..] ==> b in pairs
    ensures var sizeA, sizeB := pairs[order[i]].a.value.size, pairs[order[i]].b.value.size;
      Resolve(order[i..], pairs, trainMethod, rank, modules, counter) ==
        Then([Planned(order[i], ModulePath(order[i]), Span(counter, counter + sizeA), Span(counter + sizeA, counter + sizeA + sizeB))],
             Resolve(order[i + 1..], pairs, trainMethod, rank, modules, counter + sizeA + sizeB))
  {
    ResolveAt(order, i, pairs, trainMethod, rank, modules, counter);
  }

  /** The walk from position `i` raises when group `i` does, whatever follows. */
  lemma FailAt(order: seq<string>, i: nat, pairs: map<string, Slots>, trainMethod: string,
               rank: int, modules: set<string>, counter: nat)
    requires i < |order| && forall b :: b in order ==> b in pairs
    ensures var base, slots := order[i], pairs[order[i]];
      var R := Resolve(order[i..], pairs, trainMethod, rank, modules, counter);
      && (slots.a.None? ==> R == Err(MissingSlot(base, A)))
      && (slots.a.Some? && slots.b.None? ==> R == Err(MissingSlot(base, B)))
      && (slots.a.Some? && slots.b.Some? && ShouldSkip(ModulePath(base), trainMethod).Err? ==>
            R == Err(ShouldSkip(ModulePath(base), trainMethod).error))
      && (slots.a.Some? && slots.b.Some? && ShouldSkip(ModulePath(base), trainMethod) == Ok(false) ==>
            (ModulePath(base) !in modules ==> R == Err(NoSuchModule(ModulePath(base))))
            && (ModulePath(base) in modules && rank == 0 ==> R == Err(ZeroDivision)))
  {
    ResolveAt(order, i, pairs, trainMethod, rank, modules, counter);
  }

  /** A skipped group at position `i` leaves the walk and the counter as they are. */
  lemma SkipAt(order: seq<string>, i: nat, pairs: map<string, Slots>, trainMethod: string,
               rank: int, modules: set<string>, counter: nat)
    requires i < |order| && forall b :: b in order ==> b in pairs
    requires pairs[order[i]].a.Some? && pairs[order[i]].b.Some?
    requires ShouldSkip(ModulePath(order[i]), trainMethod) == Ok(true)
    ensures forall b :: b in order[i + 1..] ==> b in pairs
    ensures Resolve(order[i..], pairs, trainMethod, rank, modules, counter) ==
              Resolve(order[i + 1..], pairs, trainMethod, rank, modules, counter)
  {
    ResolveAt(order, i, pairs, trainMethod, rank, modules, counter);
  }

  /** The adapter `a` is what `LoRAVAEModule(...)` builds for the planned module `p` hooked to `sub`. */
  ghost predicate BuiltFor(a: LoRAVAEModule, p: Planned, sub: Submodule, multiplier: real, rank: int, alpha: Option<real>)
    reads a
  {
    && a.name == p.base && a.sliceA == p.sliceA && a.sliceB == p.sliceB
    && a.rank == rank && Scale(rank, alpha) == Ok(a.scale)
    && a.multiplier == multiplier && a.orgModule == Some(sub)
    && a.orgForward == None && a.params == None
  }

  /**
   A retained module's adapter: look its path up in the UNet (a missing one
   raises) and build the adapter over that submodule, which divides `alpha`
   by `rank`.
   */
  method Construct(p: Planned, unet: map<string, Submodule>, multiplier: real, rank: int, alpha: Option<real>)
    returns (r: Result<LoRAVAEModule>)
    ensures r.Err? <==> p.path !in unet || rank == 0
    ensures p.path !in unet ==> r == Err(NoSuchModule(p.path))
    ensures p.path in unet && rank == 0 ==> r == Err(ZeroDivision)
    ensures r.Ok? ==> fresh(r.value) && BuiltFor(r.value, p, unet[p.path], multiplier, rank, alpha)
  {
    if p.path !in unet {
      return Err(NoSuchModule(p.path));
    }
    var target := unet[p.path];
    if Scale(rank, alpha).Err? {
      return Err(ZeroDivision);
    }
    var lora := new LoRAVAEModule(p.base, p.sliceA, p.sliceB, target, multiplier, rank, alpha);
    return Ok(lora);
  }

  /**
   One group of the walk, at position `i` of `order`: unpack both slots, ask
   the policy, and for a retained module take its two ranges from the counter
   and build its adapter. The answer is the adapter, or None for a skipped
   group, with the counter after the group; it agrees with one step of `Resolve`.
   */
  method ResolveGroup(order: seq<string>, i: nat, pairs: map<string, Slots>, trainMethod: string, rank: int,
                      alpha: Option<real>, multiplier: real, unet: map<string, Submodule>, counter: nat)
    returns (r: Result<Option<LoRAVAEModule>>, next: nat, planned: Planned)
    requires i < |order| && forall b :: b in order ==> b in pairs
    ensures forall b :: b in order[i + 1..] ==> b in pairs
    ensures var here := Resolve(order[i..], pairs, trainMethod, rank, unet.Keys, counter);
      && (r.Err? ==> here == Err(r.error))
      && (r == Ok(None) ==> next == counter && here == Resolve(order[i + 1..], pairs, trainMethod, rank, unet.Keys, counter))
      && (r.Ok? && r.value.Some? ==>
            && here == Then([planned], Resolve(order[i + 1..], pairs, trainMethod, rank, unet.Keys, next))
            && planned.path in unet && fresh(r.value.value)
            && BuiltFor(r.value.value, planned, unet[planned.path], multiplier, rank, alpha))
  {
    FailAt(order, i, pairs, trainMethod, rank, unet.Keys, counter);
    ResolveAt(order, i, pairs, trainMethod, rank, unet.Keys, counter);
    next, planned := counter, Planned("", "", Span(0, 0), Span(0, 0));
    var base := order[i];
    var slots := pairs[base];
    if slots.a.None? {
      return Err(MissingSlot(base, A)), next, planned;
    }
    if slots.b.None? {
      return Err(MissingSlot(base, B)), next, planned;
    }
    var path := ModulePath(base);
    var skip := ShouldSkip(path, trainMethod);
    if skip.Err? {
      return Err(skip.error), next, planned;
    }
    if skip.value {
      SkipAt(order, i, pairs, trainMethod, rank, unet.Keys, counter);
      return Ok(None), next, planned;
    }
    var sliceA := Span(next, next + slots.a.value.size);
    next := next + slots.a.value.size;
    var sliceB := Span(next, next + slots.b.value.size);
    next := next + slots.b.value.size;
    planned := Planned(base, path, sliceA, sliceB);
    var built := Construct(planned, unet, multiplier, rank, alpha);
    if built.Err? {
      return Err(built.error), next, planned;
    }
    KeepAt(order, i, pairs, trainMethod, rank, unet.Keys, counter);
    return Ok(Some(built.value)), next, planned;
  }

  /**
   The walk over the groups of `module_pairs`: unpack both slots, ask the
   policy, and for a retained module hand out its two ranges from the counter,
   look it up in the UNet and build its adapter. Its outcome is the one
   `Resolve` specifies: the same error, or one fresh adapter per planned module.
   */
  method CreateModules(order: seq<string>, pairs: map<string, Slots>, trainMethod: string, rank: int,
                       alpha: Option<real>, multiplier: real, unet: map<string, Submodule>)
    returns (r: Result<seq<LoRAVAEModule>>)
    requires forall b :: b in order ==> b in pairs
    ensures var spec := Resolve(order, pairs, trainMethod, rank, unet.Keys, 0);
      && (r.Err? <==> spec.Err?)
      && (r.Err? ==> r.error == spec.error)
      && (r.Ok? ==>
            && |r.value| == |spec.value.0|
            && (forall i :: 0 <= i < |r.value| ==>
                  && spec.value.0[i].path in unet && fresh(r.value[i])
                  && BuiltFor(r.value[i], spec.value.0[i], unet[spec.value.0[i].path], multiplier, rank, alpha))
            && (forall i, j :: 0 <= i < j < |r.value| ==> r.value[i] != r.value[j]))
  {
    var loras: seq<LoRAVAEModule> := [];
    var counter: nat := 0;
    ghost var plan: seq<Planned> := [];
    ghost var spec := Resolve(order, pairs, trainMethod, rank, unet.Keys, 0);
    assert order[0..] == order;
    assert Then([], spec) == spec by {
      if spec.Ok? {
        assert [] + spec.value.0 == spec.value.0;
      }
    }
    var i := 0;
    while i < |order|
      invariant i <= |order|
      invariant forall b :: b in order[i..] ==> b in pairs
      invariant spec == Then(plan, Resolve(order[i..], pairs, trainMethod, rank, unet.Keys, counter))
      invariant |loras| == |plan|
      invariant forall k :: 0 <= k < |loras| ==>
                  && plan[k].path in unet && fresh(loras[k])
                  && BuiltFor(loras[k], plan[k], unet[plan[k].path], multiplier, rank, alpha)
      invariant forall k, l :: 0 <= k < l < |loras| ==> loras[k] != loras[l]
    {
      var step, next, planned := ResolveGroup(order, i, pairs, trainMethod, rank, alpha, multiplier, unet, counter);
      if step.Err? {
        return Err(step.error);
      }
      if step.value.Some? {
        ThenThen(plan, [planned], Resolve(order[i + 1..], pairs, trainMethod, rank, unet.Keys, next));
        loras := loras + [step.value.value];
        plan := plan + [planned];
      }
      counter := next;
      i := i + 1;
    }
    assert Resolve(order[i..], pairs, trainMethod, rank, unet.Keys, counter) == Ok(([], counter));
    assert plan + [] == plan;
    return Ok(loras);
  }

  /** A successful walk cuts the buffer into its ranges without gap or overlap, from offset 0 to the total. */
  lemma ResolveCarves(order: seq<string>, pairs: map<string, Slots>, trainMethod: string,
                      rank: int, modules: set<string>, buf: Vector)
    requires forall b :: b in order ==> b in pairs
    requires Resolve(order, pairs, trainMethod, rank, modules, 0).Ok?
    requires Resolve(order, pairs, trainMethod, rank, modules, 0).value.1 <= |buf|
    ensures var (plan, total) := Resolve(order, pairs, trainMethod, rank, modules, 0).value;
      Carve(plan, buf) == buf[..total]
  {
    var (plan, total) := Resolve(order, pairs, trainMethod, rank, modules, 0).value;
    ResolveContiguous(order, pairs, trainMethod, rank, modules, 0);
    CarveContiguous(plan, 0, total, buf);
  }

  // ---------------------------------------------------------------------
  // Distinct modules
  // ---------------------------------------------------------------------

  /** No two groups of `order` name the same UNet module. */
  predicate PathsDistinct(order: seq<string>)
  {
    forall i, j :: 0 <= i < j < |order| ==> ModulePath(order[i]) != ModulePath(order[j])
  }

  /** The retained groups are groups of `order`, and still name distinct modules. */
  lemma {:induction false} RetainedPathsDistinct(order: seq<string>, trainMethod: string)
    ensures forall b :: b in Retained(order, trainMethod) ==> b in order
    ensures PathsDistinct(order) ==> PathsDistinct(Retained(order, trainMethod))
    decreases |order|
  {
    if order != [] {
      var tail := order[1..];
      RetainedPathsDistinct(tail, trainMethod);
      assert forall b :: b in tail ==> b in order;
      if PathsDistinct(order) {
        assert PathsDistinct(tail) by {
          forall i, j | 0 <= i < j < |tail| ensures ModulePath(tail[i]) != ModulePath(tail[j]) {
            assert tail[i] == order[i + 1] && tail[j] == order[j + 1];
          }
        }
        var rt := Retained(tail, trainMethod);
        forall b | b in rt ensures ModulePath(b) != ModulePath(order[0]) {
          var k :| 1 <= k < |order| && order[k] == b;
          assert ModulePath(order[0]) != ModulePath(order[k]);
        }
        if Kept(order[0], trainMethod) {
          var r := [order[0]] + rt;
          forall i, j | 0 <= i < j < |r| ensures ModulePath(r[i]) != ModulePath(r[j]) {
            if i == 0 {
              assert r[j] == rt[j - 1] && r[j] in rt;
            } else {
              assert r[i] == rt[i - 1] && r[j] == rt[j - 1];
            }
          }
        }
      }
    }
  }

  /** The modules a successful walk plans have pairwise distinct UNet paths. */
  lemma PlannedPathsDistinct(order: seq<string>, pairs: map<string, Slots>, trainMethod: string,
                             rank: int, modules: set<string>)
    requires forall b :: b in order ==> b in pairs
    requires PathsDistinct(order)
    requires Resolve(order, pairs, trainMethod, rank, modules, 0).Ok?
    ensures var plan := Resolve(order, pairs, trainMethod, rank, modules, 0).value.0;
      forall i, j :: 0 <= i < j < |plan| ==> plan[i].path != plan[j].path
  {
    var plan := Resolve(order, pairs, trainMethod, rank, modules, 0).value.0;
    ResolveRetained(order, pairs, trainMethod, rank, modules, 0);
    RetainedPathsDistinct(order, trainMethod);
    var rt := Retained(order, trainMethod);
    forall i, j | 0 <= i < j < |plan| ensures plan[i].path != plan[j].path {
      assert BasesOf(plan)[i] == rt[i] && BasesOf(plan)[j] == rt[j];
    }
  }

  // ---------------------------------------------------------------------
  // The manager
  // ---------------------------------------------------------------------

  class LoRAw2wVAE {
    const adapters: seq<LoRAVAEModule>
    const multiplier: real
    const rank: int
    const alpha: Option<real>

    constructor (adapters: seq<LoRAVAEModule>, multiplier: real, rank: int, alpha: Option<real>)
      ensures this.adapters == adapters && this.multiplier == multiplier
      ensures this.rank == rank && this.alpha == alpha
    {
      this.adapters := adapters;
      this.multiplier := multiplier;
      this.rank := rank;
      this.alpha := alpha;
    }

    /**
     `__init__`: file the layout, build the adapters, then install them in
     order. When building raises, nothing has been installed: every UNet
     submodule keeps its forward. Otherwise each planned module's submodule is
     hooked to its adapter, whose captured original forward is the one the
     submodule had, and every other submodule is left alone.
     */
    static method Build(layout: seq<Dim>, unet: map<string, Submodule>, rank: int, multiplier: real,
                        alpha: Option<real>, trainMethod: string) returns (r: Result<LoRAw2wVAE>)
      requires var spec := Resolve(Order(layout), PairsOf(layout), trainMethod, rank, unet.Keys, 0);
        spec.Ok? ==> forall i :: 0 <= i < |spec.value.0| && spec.value.0[i].path in unet ==>
                       unet[spec.value.0[i].path].forward.Native?
      requires forall p, q :: p in unet && q in unet && p != q ==> unet[p] != unet[q]
      requires PathsDistinct(Order(layout))
      modifies unet.Values
      ensures var spec := Resolve(Order(layout), PairsOf(layout), trainMethod, rank, unet.Keys, 0);
        && (r.Err? <==> spec.Err?)
        && (r.Err? ==> r.error == spec.error && forall p :: p in unet ==> unet[p].forward == old(unet[p].forward))
      ensures r.Ok? ==>
        var plan := Resolve(Order(layout), PairsOf(layout), trainMethod, rank, unet.Keys, 0).value.0;
        var m := r.value;
        && m.multiplier == multiplier && m.rank == rank && m.alpha == alpha
        && |m.adapters| == |plan|
        && (forall i :: 0 <= i < |plan| ==>
              var a := m.adapters[i];
              && plan[i].path in unet
              && a.name == plan[i].base && a.sliceA == plan[i].sliceA && a.sliceB == plan[i].sliceB
              && a.rank == rank && Scale(rank, alpha) == Ok(a.scale)
              && a.multiplier == multiplier && a.params == None && a.orgModule == None
              && a.orgForward == Some(old(unet[plan[i].path].forward).f)
              && unet[plan[i].path].forward == Hooked(a))
        && (forall p :: p in unet && (forall i :: 0 <= i < |plan| ==> plan[i].path != p) ==>
              unet[p].forward == old(unet[p].forward))
      ensures r.Ok? ==>
        && fresh(r.value)
        && (forall i :: 0 <= i < |r.value.adapters| ==> fresh(r.value.adapters[i]))
        && (forall i, j :: 0 <= i < j < |r.value.adapters| ==> r.value.adapters[i] != r.value.adapters[j])
      ensures r.Ok? ==> forall p, x :: p in unet && old(unet[p].forward).Native? ==>
                          Run(unet[p], x) == Ok(old(unet[p].forward).f(x))
    {
      var order, pairs := GroupPairs(layout);
      var made := CreateModules(order, pairs, trainMethod, rank, alpha, multiplier, unet);
      if made.Err? {
        return Err(made.error);
      }
      var adapters := made.value;
      ghost var plan := Resolve(order, pairs, trainMethod, rank, unet.Keys, 0).value.0;
      PlannedPathsDistinct(order, pairs, trainMethod, rank, unet.Keys);
      var m := Assemble(adapters, plan, unet, multiplier, rank, alpha);
      return Ok(m);
    }

    /**
     The second half of `__init__`: the manager over freshly built adapters,
     each installed on the submodule of its planned path. Every submodule that
     had its native forward still computes it, whether it was hooked or not.
     */
    static method Assemble(adapters: seq<LoRAVAEModule>, ghost plan: seq<Planned>, unet: map<string, Submodule>,
                           multiplier: real, rank: int, alpha: Option<real>) returns (m: LoRAw2wVAE)
      requires |adapters| == |plan|
      requires forall i :: 0 <= i < |plan| ==>
                 plan[i].path in unet && BuiltFor(adapters[i], plan[i], unet[plan[i].path], multiplier, rank, alpha)
                 && unet[plan[i].path].forward.Native?
      requires forall i, j :: 0 <= i < j < |plan| ==> adapters[i] != adapters[j] && plan[i].path != plan[j].path
      requires forall p, q :: p in unet && q in unet && p != q ==> unet[p] != unet[q]
      modifies unet.Values, adapters
      ensures fresh(m) && m.adapters == adapters
      ensures m.multiplier == multiplier && m.rank == rank && m.alpha == alpha
      ensures forall i :: 0 <= i < |plan| ==>
                var a := m.adapters[i];
                && a.name == plan[i].base && a.sliceA == plan[i].sliceA && a.sliceB == plan[i].sliceB
                && a.rank == rank && Scale(rank, alpha) == Ok(a.scale)
                && a.multiplier == multiplier && a.params == None && a.orgModule == None
                && a.orgForward == Some(old(unet[plan[i].path].forward).f)
                && unet[plan[i].path].forward == Hooked(a)
      ensures forall p :: p in unet && (forall i :: 0 <= i < |plan| ==> plan[i].path != p) ==>
                unet[p].forward == old(unet[p].forward)
      ensures forall p, x :: p in unet && old(unet[p].forward).Native? ==>
                Run(unet[p], x) == Ok(old(unet[p].forward).f(x))
    {
      ghost var subs := seq(|plan|, k requires 0 <= k < |plan| => unet[plan[k].path]);
      assert forall k, l :: 0 <= k < l < |plan| ==> subs[k] != subs[l];
      m := new LoRAw2wVAE(adapters, multiplier, rank, alpha);
      m.InstallAll(subs);
      forall p, x | p in unet && old(unet[p].forward).Native?
        ensures Run(unet[p], x) == Ok(old(unet[p].forward).f(x))
      {
        if k :| 0 <= k < |plan| && plan[k].path == p {
          assert unet[p] == subs[k];
        } else {
          assert unet[p] !in subs by {
            forall k | 0 <= k < |subs| ensures subs[k] != unet[p] {
              assert subs[k] == unet[plan[k].path];
            }
          }
          assert unet[p].forward == old(unet[p].forward);
        }
      }
    }

    /**
     The install loop of `__init__`: `apply_to` on every adapter in order. Each
     adapter captures the forward its submodule had and hooks the submodule;
     adapters and submodules are pairwise distinct, so no adapter captures
     another adapter.
     */
    method InstallAll(ghost subs: seq<Submodule>)
      requires |subs| == |adapters|
      requires forall k, l :: 0 <= k < l < |adapters| ==> adapters[k] != adapters[l] && subs[k] != subs[l]
      requires forall k :: 0 <= k < |adapters| ==> adapters[k].orgModule == Some(subs[k]) && subs[k].forward.Native?
      modifies adapters, subs
      ensures forall k :: 0 <= k < |adapters| ==>
                && adapters[k].orgModule == None
                && adapters[k].orgForward == Some(old(subs[k].forward).f)
                && subs[k].forward == Hooked(adapters[k])
                && adapters[k].multiplier == old(adapters[k].multiplier)
                && adapters[k].params == old(adapters[k].params)
      ensures forall k, x :: 0 <= k < |adapters| && old(adapters[k].params) == None ==>
                Run(subs[k], x) == Ok(old(subs[k].forward).f(x))
    {
      var i := 0;
      while i < |adapters|
        invariant i <= |adapters|
        invariant forall k :: 0 <= k < i ==>
                    && adapters[k].orgModule == None
                    && adapters[k].orgForward == Some(old(subs[k].forward).f)
                    && subs[k].forward == Hooked(adapters[k])
        invariant forall k :: i <= k < |adapters| ==>
                    adapters[k].orgModule == Some(subs[k]) && subs[k].forward == old(subs[k].forward)
        invariant forall k :: 0 <= k < |adapters| ==>
                    adapters[k].multiplier == old(adapters[k].multiplier) && adapters[k].params == old(adapters[k].params)
      {
        var outcome := adapters[i].ApplyTo();
        i := i + 1;
      }
    }

    /**
     `__enter__` with the decoded buffer: every adapter receives the same
     buffer and the manager's multiplier; slices, rank, scale and the captured
     forward are not touched.
     */
    method Enter(buf: Vector)
      modifies adapters
      ensures forall i :: 0 <= i < |adapters| ==>
                adapters[i].params == Some(buf) && adapters[i].multiplier == multiplier
      ensures forall i :: 0 <= i < |adapters| ==>
                adapters[i].orgForward == old(adapters[i].orgForward) && adapters[i].orgModule == old(adapters[i].orgModule)
      ensures multiplier != 0.0 ==> forall i :: 0 <= i < |adapters| ==> !adapters[i].Passthrough()
    {
      var i := 0;
      while i < |adapters|
        invariant i <= |adapters|
        invariant forall k :: 0 <= k < i ==>
                    adapters[k].params == Some(buf) && adapters[k].multiplier == multiplier
        invariant forall k :: 0 <= k < |adapters| ==>
                    adapters[k].orgForward == old(adapters[k].orgForward) && adapters[k].orgModule == old(adapters[k].orgModule)
      {
        adapters[i].params := Some(buf);
        adapters[i].multiplier := multiplier;
        i := i + 1;
      }
    }

    /**
     `__exit__`: every adapter gets multiplier 0 and no buffer, whatever its
     state was, so every installed adapter passes through; the resulting state
     does not depend on the previous multiplier or buffer, so a second call, or
     a call without `__enter__`, leaves the same state.
     */
    method Exit()
      modifies adapters
      ensures forall i :: 0 <= i < |adapters| ==>
                adapters[i].multiplier == 0.0 && adapters[i].params == None
      ensures forall i :: 0 <= i < |adapters| ==>
                adapters[i].orgForward == old(adapters[i].orgForward) && adapters[i].orgModule == old(adapters[i].orgModule)
      ensures forall i, x :: 0 <= i < |adapters| && adapters[i].orgForward.Some? ==>
                adapters[i].Forward(x) == Ok(adapters[i].orgForward.value(x))
    {
      var i := 0;
      while i < |adapters|
        invariant i <= |adapters|
        invariant forall k :: 0 <= k < i ==> adapters[k].multiplier == 0.0 && adapters[k].params == None
        invariant forall k :: 0 <= k < |adapters| ==>
                    adapters[k].orgForward == old(adapters[k].orgForward) && adapters[k].orgModule == old(adapters[k].orgModule)
      {
        adapters[i].multiplier := 0.0;
        adapters[i].params := None;
        i := i + 1;
      }
    }
  }
}
