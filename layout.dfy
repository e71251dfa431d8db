/**
 The layout resolver, the first half of `LoRAw2wVAE.create_modules`: each
 decoder-side key of the stored layout is rewritten into the UNet's naming,
 cut at its last ".lora_" into a base key, and filed into the A or B slot of
 that base key in an insertion-ordered dictionary; the groups are then walked
 in first-appearance order and every retained module receives two adjacent
 half-open ranges of the flat decoded buffer from a running counter.

 `Resolve` is the specification of that counter walk; the walk itself, which
 also builds the adapter objects, is `Network.CreateModules`.
 */
module Layout {

  import opened Types
  import opened Strings
  import opened SkipPolicy

  /** One entry of the stored layout: a decoder-side key and `[0][0]` of its dimensions. */
  datatype Dim = Dim(key: string, size: nat)

  /** What a slot of `module_pairs` holds: the original key, its rewritten form, and its size. */
  datatype Entry = Entry(key: string, rewritten: string, size: nat)

  /** The `{"A": ..., "B": ...}` record of one base key; None until a key fills the slot. */
  datatype Slots = Slots(a: Option<Entry>, b: Option<Entry>)

  /** Python's `slice(start, stop)`; the resolver always builds it with start <= stop. */
  datatype Span = Span(start: nat, stop: nat)

  /** A retained module: its base key, its UNet path and its two ranges of the buffer. */
  datatype Planned = Planned(base: string, path: string, sliceA: Span, sliceB: Span)

  /** The fixed chain of `str.replace` calls from the decoder's naming to the UNet's. */
  function RewriteKey(key: string): string
  {
    var k1 := Replace(key, "lora_unet_", "base_model.model.");
    var k2 := Replace(k1, "A", "down");
    var k3 := Replace(k2, "B", "up");
    var k4 := Replace(k3, "weight", "identity1.weight");
    var k5 := Replace(k4, "_lora", ".lora");
    var k6 := Replace(k5, "lora_down", "lora_A");
    Replace(k6, "lora_up", "lora_B")
  }

  /** `rewritten.rsplit('.lora_', 1)[0]`. */
  function BaseKey(rewritten: string): string
  {
    RSplitHead(rewritten, ".lora_")
  }

  /** A rewritten key holding "lora_A" fills slot A; every other key fills slot B. */
  function SlotOf(rewritten: string): Slot
  {
    if Contains(rewritten, "lora_A") then A else B
  }

  /** `base_key.replace("base_model.model.", "")`. */
  function ModulePath(base: string): string
  {
    Replace(base, "base_model.model.", "")
  }

  /** A layout key as the first loop files it: its base key, its slot, and what the slot receives. */
  datatype Filed = Filed(base: string, slot: Slot, entry: Entry)

  function File(d: Dim): Filed
  {
    var rewritten := RewriteKey(d.key);
    Filed(BaseKey(rewritten), SlotOf(rewritten), Entry(d.key, rewritten, d.size))
  }

  /** Every layout key filed, in layout order. */
  function FileAll(layout: seq<Dim>): (fs: seq<Filed>)
    ensures |fs| == |layout| && forall i :: 0 <= i < |layout| ==> fs[i] == File(layout[i])
  {
    seq(|layout|, i requires 0 <= i < |layout| => File(layout[i]))
  }

  /** The base keys of filed keys, in order. */
  function Bases(fs: seq<Filed>): (bs: seq<string>)
    ensures |bs| == |fs| && forall i :: 0 <= i < |fs| ==> bs[i] == fs[i].base
  {
    seq(|fs|, i requires 0 <= i < |fs| => fs[i].base)
  }

  // ---------------------------------------------------------------------
  // Insertion order of the `module_pairs` dictionary
  // ---------------------------------------------------------------------

  predicate Distinct<T(==)>(s: seq<T>) {
    forall i, j :: 0 <= i < j < |s| ==> s[i] != s[j]
  }

  /** Index of the first occurrence of `x` in `s`. */
  function FirstIndex<T(==)>(s: seq<T>, x: T): (k: nat)
    requires x in s
    ensures k < |s| && s[k] == x && x !in s[..k]
  {
    if s[0] == x then 0 else 1 + FirstIndex(s[1..], x)
  }

  /**
   The keys of a dictionary filled by inserting `s` in order: every distinct
   element once, in order of first appearance. Defined on the last element,
   as the dictionary grows.
   */
  function FirstAppearance(s: seq<string>): (d: seq<string>)
    ensures Distinct(d)
    ensures forall x :: x in d <==> x in s
  {
    if s == [] then []
    else
      var d := FirstAppearance(s[..|s| - 1]);
      assert forall x :: x in s <==> x in s[..|s| - 1] || x == s[|s| - 1];
      if s[|s| - 1] in d then d else d + [s[|s| - 1]]
  }

  lemma FirstIndexPrefix<T>(s: seq<T>, n: nat, x: T)
    requires n <= |s| && x in s[..n]
    ensures x in s && FirstIndex(s, x) == FirstIndex(s[..n], x)
  {
    var k := FirstIndex(s[..n], x);
    assert s[..n][..k] == s[..k];
    FirstIndexUnique(s, x, k);
  }

  lemma FirstIndexUnique<T>(s: seq<T>, x: T, k: nat)
    requires k < |s| && s[k] == x && x !in s[..k]
    ensures FirstIndex(s, x) == k
  {
  }

  /** Earlier keys of the dictionary were first seen earlier in the insertion sequence. */
  lemma {:induction false} FirstAppearanceOrder(s: seq<string>, i: nat, j: nat)
    requires i < j < |FirstAppearance(s)|
    ensures FirstAppearance(s)[i] in s && FirstAppearance(s)[j] in s
    ensures FirstIndex(s, FirstAppearance(s)[i]) < FirstIndex(s, FirstAppearance(s)[j])
    decreases |s|
  {
    var d := FirstAppearance(s);
    var s' := s[..|s| - 1];
    var d' := FirstAppearance(s');
    if j < |d'| {
      assert d[i] == d'[i] && d[j] == d'[j];
      FirstAppearanceOrder(s', i, j);
      FirstIndexPrefix(s, |s| - 1, d[i]);
      FirstIndexPrefix(s, |s| - 1, d[j]);
    } else {
      assert d == d' + [s[|s| - 1]] && d[j] == s[|s| - 1] && d[j] !in s';
      assert d[i] in s';
      FirstIndexPrefix(s, |s| - 1, d[i]);
      assert s[..|s| - 1] == s';
      FirstIndexUnique(s, d[j], |s| - 1);
    }
  }

  // ---------------------------------------------------------------------
  // Slot contents: later keys overwrite earlier ones
  // ---------------------------------------------------------------------

  /** What slot `slot` of `base` holds once the keys `fs` have been filed in order. */
  function LastIn(fs: seq<Filed>, base: string, slot: Slot): Option<Entry>
  {
    if fs == [] then None
    else
      var f := fs[|fs| - 1];
      if f.base == base && f.slot == slot then Some(f.entry)
      else LastIn(fs[..|fs| - 1], base, slot)
  }

  /**
   A slot holds the entry of the LAST key with that base key and slot, and is
   empty exactly when no key has both: a later key overwrites an earlier one.
   */
  lemma {:induction false} LastInSpec(fs: seq<Filed>, base: string, slot: Slot)
    ensures LastIn(fs, base, slot).None? <==>
              forall i :: 0 <= i < |fs| ==> !(fs[i].base == base && fs[i].slot == slot)
    ensures LastIn(fs, base, slot).Some? ==>
              exists i :: && 0 <= i < |fs| && fs[i].base == base && fs[i].slot == slot
                          && LastIn(fs, base, slot).value == fs[i].entry
                          && forall j :: i < j < |fs| ==> !(fs[j].base == base && fs[j].slot == slot)
    decreases |fs|
  {
    if fs != [] {
      var n := |fs| - 1;
      var fs' := fs[..n];
      LastInSpec(fs', base, slot);
      assert forall i :: 0 <= i < n ==> fs'[i] == fs[i];
      if fs[n].base == base && fs[n].slot == slot {
        assert LastIn(fs, base, slot).value == fs[n].entry;
      } else if LastIn(fs, base, slot).Some? {
        var i :| && 0 <= i < n && fs'[i].base == base && fs'[i].slot == slot
                 && LastIn(fs', base, slot).value == fs'[i].entry
                 && forall j :: i < j < n ==> !(fs'[j].base == base && fs'[j].slot == slot);
        assert forall j :: i < j < |fs| ==> !(fs[j].base == base && fs[j].slot == slot);
      }
    }
  }

  /** A base key that no filed key produced has both slots empty. */
  lemma LastInAbsent(fs: seq<Filed>, base: string, slot: Slot)
    requires base !in Bases(fs)
    ensures LastIn(fs, base, slot) == None
  {
    LastInSpec(fs, base, slot);
    forall i | 0 <= i < |fs| ensures fs[i].base != base {
      assert Bases(fs)[i] == fs[i].base;
    }
  }

  // ---------------------------------------------------------------------
  // The first loop of `create_modules`: filling `module_pairs`
  // ---------------------------------------------------------------------

  /** The keys of `module_pairs` in insertion order. */
  function Order(layout: seq<Dim>): seq<string>
  {
    FirstAppearance(Bases(FileAll(layout)))
  }

  /** The contents of `module_pairs`: for each base key, the last A key and the last B key filed into it. */
  function PairsOf(layout: seq<Dim>): (pairs: map<string, Slots>)
    ensures forall b :: b in pairs <==> b in Order(layout)
  {
    var fs := FileAll(layout);
    map b | b in Order(layout) :: Slots(LastIn(fs, b, A), LastIn(fs, b, B))
  }

  lemma FileAllSnoc(layout: seq<Dim>, i: nat)
    requires i < |layout|
    ensures FileAll(layout[..i + 1]) == FileAll(layout[..i]) + [File(layout[i])]
    ensures Bases(FileAll(layout[..i + 1])) == Bases(FileAll(layout[..i])) + [File(layout[i]).base]
  {
    assert FileAll(layout[..i + 1]) == FileAll(layout[..i]) + [File(layout[i])];
  }

  /** The dictionary `(order, pairs)` is what filing the keys `fs` in order produces. */
  ghost predicate Agrees(order: seq<string>, pairs: map<string, Slots>, fs: seq<Filed>)
  {
    && order == FirstAppearance(Bases(fs))
    && (forall b :: b in pairs <==> b in order)
    && forall b :: b in pairs ==> pairs[b] == Slots(LastIn(fs, b, A), LastIn(fs, b, B))
  }

  /**
   Filing one key: a base key seen for the first time is appended to the key
   order with both slots empty, then the key's slot is overwritten.
   */
  function FileStep(order: seq<string>, pairs: map<string, Slots>, f: Filed): (seq<string>, map<string, Slots>)
  {
    var order1 := if f.base in pairs then order else order + [f.base];
    var pairs1 := if f.base in pairs then pairs else pairs[f.base := Slots(None, None)];
    var pairs2 := if f.slot == A then pairs1[f.base := pairs1[f.base].(a := Some(f.entry))]
                  else pairs1[f.base := pairs1[f.base].(b := Some(f.entry))];
    (order1, pairs2)
  }

  /** The last filed key decides its own slot; every other slot is as before. */
  lemma LastInSnoc(fs: seq<Filed>, f: Filed, base: string, slot: Slot)
    ensures LastIn(fs + [f], base, slot) ==
              if f.base == base && f.slot == slot then Some(f.entry) else LastIn(fs, base, slot)
  {
    assert (fs + [f])[..|fs|] == fs;
  }

  /** Filing one more key into a dictionary that agrees with `fs` gives one that agrees with `fs + [f]`. */
  lemma FileOneMore(fs: seq<Filed>, f: Filed, order: seq<string>, pairs: map<string, Slots>)
    requires Agrees(order, pairs, fs)
    ensures Agrees(FileStep(order, pairs, f).0, FileStep(order, pairs, f).1, fs + [f])
  {
    var fs' := fs + [f];
    var (order', pairs') := FileStep(order, pairs, f);
    assert Bases(fs')[..|fs|] == Bases(fs);
    assert order' == FirstAppearance(Bases(fs'));
    if f.base !in pairs {
      LastInAbsent(fs, f.base, A);
      LastInAbsent(fs, f.base, B);
    }
    forall b | b in pairs'
      ensures pairs'[b] == Slots(LastIn(fs', b, A), LastIn(fs', b, B))
    {
      LastInSnoc(fs, f, b, A);
      LastInSnoc(fs, f, b, B);
    }
  }

  /** A dictionary that agrees with every key of the layout is `module_pairs`. */
  lemma AgreesAll(layout: seq<Dim>, order: seq<string>, pairs: map<string, Slots>)
    requires Agrees(order, pairs, FileAll(layout))
    ensures order == Order(layout) && pairs == PairsOf(layout)
  {
  }

  /**
   The loop that files every layout key: rewrite it, cut it into a base key,
   create the base key's record on first sight, and overwrite the slot the
   key names. The dictionary is kept as its key order plus a map.
   */
  method GroupPairs(layout: seq<Dim>) returns (order: seq<string>, pairs: map<string, Slots>)
    ensures order == Order(layout) && pairs == PairsOf(layout)
  {
    order, pairs := [], map[];
    ghost var fs: seq<Filed> := [];
    var i := 0;
    while i < |layout|
      invariant i <= |layout|
      invariant fs == FileAll(layout[..i])
      invariant Agrees(order, pairs, fs)
    {
      // the key's rewritten form, its base key and its slot
      var filed := File(layout[i]);
      var base := filed.base;
      FileOneMore(fs, filed, order, pairs);
      ghost var next := FileStep(order, pairs, filed);
      if base !in pairs {
        pairs := pairs[base := Slots(None, None)];
        order := order + [base];
      }
      if filed.slot == A {
        pairs := pairs[base := pairs[base].(a := Some(filed.entry))];
      } else {
        pairs := pairs[base := pairs[base].(b := Some(filed.entry))];
      }
      assert order == next.0 && pairs == next.1;
      FileAllSnoc(layout, i);
      fs := fs + [filed];
      i := i + 1;
    }
    assert layout[..i] == layout;
    AgreesAll(layout, order, pairs);
  }

  // ---------------------------------------------------------------------
  // The counter walk over the groups
  // ---------------------------------------------------------------------

  /** Both slots of every group are filled (else the tuple unpacking raises). */
  predicate Complete(order: seq<string>, pairs: map<string, Slots>)
  {
    forall b :: b in order ==> b in pairs && pairs[b].a.Some? && pairs[b].b.Some?
  }

  /** A group is retained when the policy answers "do not skip" for its path. */
  predicate Kept(base: string, trainMethod: string)
  {
    ShouldSkip(ModulePath(base), trainMethod) == Ok(false)
  }

  /**
   The specification of the second loop of `create_modules`, from group 0 of
   `order` with the counter at `counter`: for each group, unpack slot A, unpack
   slot B (a missing one raises), ask the policy (which may raise), and on a
   skip go on without touching the counter; otherwise hand out
   `[counter, counter + size_A)` and the range after it, look the module up in
   the UNet, and build its adapter, which divides by `rank`.
   */
  function Resolve(order: seq<string>, pairs: map<string, Slots>, trainMethod: string,
                   rank: int, modules: set<string>, counter: nat): Result<(seq<Planned>, nat)>
    requires forall b :: b in order ==> b in pairs
    decreases |order|
  {
    if order == [] then Ok(([], counter))
    else
      var base := order[0];
      var slots := pairs[base];
      if slots.a.None? then Err(MissingSlot(base, A))
      else if slots.b.None? then Err(MissingSlot(base, B))
      else
        var path := ModulePath(base);
        match ShouldSkip(path, trainMethod)
        case Err(e) => Err(e)
        case Ok(skip) =>
          if skip then Resolve(order[1..], pairs, trainMethod, rank, modules, counter)
          else
            var sliceA := Span(counter, counter + slots.a.value.size);
            var sliceB := Span(sliceA.stop, sliceA.stop + slots.b.value.size);
            if path !in modules then Err(NoSuchModule(path))
            else if rank == 0 then Err(ZeroDivision)
            else
              match Resolve(order[1..], pairs, trainMethod, rank, modules, sliceB.stop)
              case Err(e) => Err(e)
              case Ok((rest, total)) => Ok(([Planned(base, path, sliceA, sliceB)] + rest, total))
  }

  /** The groups of `order` that the policy retains, in order. */
  function Retained(order: seq<string>, trainMethod: string): seq<string>
  {
    if order == [] then []
    else if Kept(order[0], trainMethod) then [order[0]] + Retained(order[1..], trainMethod)
    else Retained(order[1..], trainMethod)
  }

  /** size_A + size_B summed over the retained groups. */
  function RetainedSize(order: seq<string>, pairs: map<string, Slots>, trainMethod: string): nat
    requires Complete(order, pairs)
  {
    if order == [] then 0
    else
      var rest := RetainedSize(order[1..], pairs, trainMethod);
      if Kept(order[0], trainMethod) then pairs[order[0]].a.value.size + pairs[order[0]].b.value.size + rest
      else rest
  }

  /**
   The ranges start at `from`, each slice_A ends where its slice_B starts,
   each module starts where the previous one ended, and the last ends at `to`.
   */
  ghost predicate Contiguous(ps: seq<Planned>, from: nat, to: nat)
  {
    && (ps == [] ==> from == to)
    && (ps != [] ==> ps[0].sliceA.start == from && ps[|ps| - 1].sliceB.stop == to)
    && (forall i :: 0 <= i < |ps| ==>
          ps[i].sliceA.start <= ps[i].sliceA.stop == ps[i].sliceB.start <= ps[i].sliceB.stop)
    && (forall i, j :: 0 <= i && j == i + 1 && j < |ps| ==> ps[i].sliceB.stop == ps[j].sliceA.start)
  }

  /** Every range has the size its layout entry declares. */
  ghost predicate SizedBy(ps: seq<Planned>, pairs: map<string, Slots>)
  {
    forall i :: 0 <= i < |ps| ==>
      && ps[i].base in pairs && pairs[ps[i].base].a.Some? && pairs[ps[i].base].b.Some?
      && ps[i].sliceA.stop - ps[i].sliceA.start == pairs[ps[i].base].a.value.size
      && ps[i].sliceB.stop - ps[i].sliceB.start == pairs[ps[i].base].b.value.size
      && ps[i].path == ModulePath(ps[i].base)
  }

  function BasesOf(ps: seq<Planned>): (bs: seq<string>)
    ensures |bs| == |ps| && forall i :: 0 <= i < |ps| ==> bs[i] == ps[i].base
  {
    if ps == [] then [] else [ps[0].base] + BasesOf(ps[1..])
  }

  /** One step of a successful walk that retains its first group. */
  lemma ResolveKeepStep(order: seq<string>, pairs: map<string, Slots>, trainMethod: string,
                        rank: int, modules: set<string>, counter: nat)
    requires forall b :: b in order ==> b in pairs
    requires order != [] && Resolve(order, pairs, trainMethod, rank, modules, counter).Ok?
    requires ShouldSkip(ModulePath(order[0]), trainMethod) == Ok(false)
    ensures var slots := pairs[order[0]];
      && slots.a.Some? && slots.b.Some?
      && var next := counter + slots.a.value.size + slots.b.value.size;
      && Resolve(order[1..], pairs, trainMethod, rank, modules, next).Ok?
      && var (rest, total) := Resolve(order[1..], pairs, trainMethod, rank, modules, next).value;
      && Resolve(order, pairs, trainMethod, rank, modules, counter).value ==
           ([Planned(order[0], ModulePath(order[0]), Span(counter, counter + slots.a.value.size),
                     Span(counter + slots.a.value.size, next))] + rest, total)
  {
  }

  /** One step of a successful walk that skips its first group. */
  lemma ResolveSkipStep(order: seq<string>, pairs: map<string, Slots>, trainMethod: string,
                        rank: int, modules: set<string>, counter: nat)
    requires forall b :: b in order ==> b in pairs
    requires order != [] && Resolve(order, pairs, trainMethod, rank, modules, counter).Ok?
    requires ShouldSkip(ModulePath(order[0]), trainMethod) != Ok(false)
    ensures pairs[order[0]].a.Some? && pairs[order[0]].b.Some?
    ensures ShouldSkip(ModulePath(order[0]), trainMethod) == Ok(true)
    ensures Resolve(order, pairs, trainMethod, rank, modules, counter) ==
              Resolve(order[1..], pairs, trainMethod, rank, modules, counter)
  {
  }

  /**
   A successful walk hands out contiguous, gapless ranges: the first starts at
   the initial counter, each slice_A ends where its slice_B starts, each module
   starts where the previous one ended, and the last ends at the final counter.
   */
  lemma {:induction false} ResolveContiguous(order: seq<string>, pairs: map<string, Slots>, trainMethod: string,
                                             rank: int, modules: set<string>, counter: nat)
    requires forall b :: b in order ==> b in pairs
    requires Resolve(order, pairs, trainMethod, rank, modules, counter).Ok?
    ensures var (ps, total) := Resolve(order, pairs, trainMethod, rank, modules, counter).value;
      Contiguous(ps, counter, total)
    decreases |order|
  {
    if order != [] {
      if ShouldSkip(ModulePath(order[0]), trainMethod) != Ok(false) {
        ResolveSkipStep(order, pairs, trainMethod, rank, modules, counter);
        ResolveContiguous(order[1..], pairs, trainMethod, rank, modules, counter);
      } else {
        ResolveKeepStep(order, pairs, trainMethod, rank, modules, counter);
        var slots := pairs[order[0]];
        var next := counter + slots.a.value.size + slots.b.value.size;
        ResolveContiguous(order[1..], pairs, trainMethod, rank, modules, next);
        var (ps, total) := Resolve(order, pairs, trainMethod, rank, modules, counter).value;
        var rest := ps[1..];
        assert forall i :: 0 < i < |ps| ==> ps[i] == rest[i - 1];
      }
    }
  }

  /** A module of the declared sizes in front of modules of the declared sizes. */
  lemma SizedByCons(ps: seq<Planned>, pairs: map<string, Slots>)
    requires ps != [] && SizedBy(ps[1..], pairs)
    requires ps[0].base in pairs && pairs[ps[0].base].a.Some? && pairs[ps[0].base].b.Some?
    requires ps[0].sliceA.stop - ps[0].sliceA.start == pairs[ps[0].base].a.value.size
    requires ps[0].sliceB.stop - ps[0].sliceB.start == pairs[ps[0].base].b.value.size
    requires ps[0].path == ModulePath(ps[0].base)
    ensures SizedBy(ps, pairs)
  {
    assert forall i :: 0 < i < |ps| ==> ps[i] == ps[1..][i - 1];
  }

  /**
   Each module of a successful walk is a retained group, in group order, with
   ranges of the sizes its layout entries declare; the final counter is the
   initial one plus size_A + size_B of every retained group.
   */
  lemma {:induction false} ResolveRetained(order: seq<string>, pairs: map<string, Slots>, trainMethod: string,
                                           rank: int, modules: set<string>, counter: nat)
    requires forall b :: b in order ==> b in pairs
    requires Resolve(order, pairs, trainMethod, rank, modules, counter).Ok?
    ensures Complete(order, pairs)
    ensures var (ps, total) := Resolve(order, pairs, trainMethod, rank, modules, counter).value;
      && SizedBy(ps, pairs)
      && BasesOf(ps) == Retained(order, trainMethod)
      && total == counter + RetainedSize(order, pairs, trainMethod)
    decreases |order|
  {
    if order != [] {
      assert forall b :: b in order ==> b == order[0] || b in order[1..];
      if ShouldSkip(ModulePath(order[0]), trainMethod) != Ok(false) {
        ResolveSkipStep(order, pairs, trainMethod, rank, modules, counter);
        ResolveRetained(order[1..], pairs, trainMethod, rank, modules, counter);
      } else {
        ResolveKeepStep(order, pairs, trainMethod, rank, modules, counter);
        var slots := pairs[order[0]];
        var next := counter + slots.a.value.size + slots.b.value.size;
        ResolveRetained(order[1..], pairs, trainMethod, rank, modules, next);
        var (ps, total) := Resolve(order, pairs, trainMethod, rank, modules, counter).value;
        SizedByCons(ps, pairs);
        assert BasesOf(ps) == [ps[0].base] + BasesOf(ps[1..]);
      }
    }
  }

  /** Conditions under which the walk succeeds: the "no error" side of `Resolve`. */
  predicate Resolvable(order: seq<string>, pairs: map<string, Slots>, trainMethod: string,
                       rank: int, modules: set<string>)
  {
    && Complete(order, pairs)
    && (order != [] ==> trainMethod in KnownMethods)
    && (forall b :: b in Retained(order, trainMethod) ==> ModulePath(b) in modules)
    && (Retained(order, trainMethod) != [] ==> rank != 0)
  }

  /** `Resolvable` of a non-empty order, one group at a time. */
  lemma ResolvableStep(order: seq<string>, pairs: map<string, Slots>, trainMethod: string,
                       rank: int, modules: set<string>)
    requires order != [] && forall b :: b in order ==> b in pairs
    ensures Resolvable(order, pairs, trainMethod, rank, modules) <==>
      && pairs[order[0]].a.Some? && pairs[order[0]].b.Some? && trainMethod in KnownMethods
      && (Kept(order[0], trainMethod) ==> ModulePath(order[0]) in modules && rank != 0)
      && Resolvable(order[1..], pairs, trainMethod, rank, modules)
  {
    assert forall b :: b in order ==> b == order[0] || b in order[1..];
    assert forall b :: b in order[1..] ==> b in order;
  }

  /**
   The walk raises exactly when a group lacks a slot, the method is unknown
   (and there is at least one group to ask about), a retained path is not a
   UNet module, or a module is retained while rank is 0.
   */
  lemma {:induction false} ResolveOkIff(order: seq<string>, pairs: map<string, Slots>, trainMethod: string,
                                        rank: int, modules: set<string>, counter: nat)
    requires forall b :: b in order ==> b in pairs
    ensures Resolve(order, pairs, trainMethod, rank, modules, counter).Ok? <==>
              Resolvable(order, pairs, trainMethod, rank, modules)
    decreases |order|
  {
    if order != [] {
      var base := order[0];
      var slots := pairs[base];
      ResolvableStep(order, pairs, trainMethod, rank, modules);
      if slots.a.None? || slots.b.None? || trainMethod !in KnownMethods {
      } else if !Kept(base, trainMethod) {
        ResolveOkIff(order[1..], pairs, trainMethod, rank, modules, counter);
      } else {
        var next := counter + slots.a.value.size + slots.b.value.size;
        ResolveOkIff(order[1..], pairs, trainMethod, rank, modules, next);
      }
    }
  }

  /**
   With a method name outside the policy's table the walk over a non-empty
   dictionary raises: NotImplementedError from the policy, or the TypeError of
   a missing slot of the first group, which is unpacked before the policy is asked.
   */
  lemma UnknownMethodRaises(order: seq<string>, pairs: map<string, Slots>, trainMethod: string,
                            rank: int, modules: set<string>, counter: nat)
    requires forall b :: b in order ==> b in pairs
    requires order != [] && trainMethod !in KnownMethods
    ensures var r := Resolve(order, pairs, trainMethod, rank, modules, counter);
      && r.Err?
      && (r.error == NotImplemented(trainMethod) <==> pairs[order[0]].a.Some? && pairs[order[0]].b.Some?)
      && (r.error != NotImplemented(trainMethod) ==> r.error.MissingSlot? && r.error.base == order[0])
  {
  }

  /** The concrete layout of two groups with sizes (8,4) and (16,8) under "full". */
  lemma TwoGroupScenario(b1: string, b2: string, e1a: Entry, e1b: Entry, e2a: Entry, e2b: Entry, modules: set<string>)
    requires b1 != b2
    requires e1a.size == 8 && e1b.size == 4 && e2a.size == 16 && e2b.size == 8
    requires ModulePath(b1) in modules && ModulePath(b2) in modules
    ensures var pairs := map[b1 := Slots(Some(e1a), Some(e1b)), b2 := Slots(Some(e2a), Some(e2b))];
      Resolve([b1, b2], pairs, "full", 4, modules, 0) ==
        Ok(([Planned(b1, ModulePath(b1), Span(0, 8), Span(8, 12)),
             Planned(b2, ModulePath(b2), Span(12, 28), Span(28, 36))], 36))
  {
    var pairs := map[b1 := Slots(Some(e1a), Some(e1b)), b2 := Slots(Some(e2a), Some(e2b))];
    assert [b1, b2][1..] == [b2];
    assert [b2][1..] == [];
    assert Resolve([], pairs, "full", 4, modules, 36) == Ok(([], 36));
    assert ShouldSkip(ModulePath(b2), "full") == Ok(false);
    var p2 := Planned(b2, ModulePath(b2), Span(12, 28), Span(28, 36));
    assert [p2] + [] == [p2];
    assert pairs[b2] == Slots(Some(e2a), Some(e2b));
    assert Resolve([b2], pairs, "full", 4, modules, 12) ==
      Ok(([Planned(b2, ModulePath(b2), Span(12, 28), Span(28, 36))], 36));
    assert ShouldSkip(ModulePath(b1), "full") == Ok(false);
    var p1 := Planned(b1, ModulePath(b1), Span(0, 8), Span(8, 12));
    assert pairs[b1] == Slots(Some(e1a), Some(e1b));
    assert [p1] + [p2] == [p1, p2];
  }
}
