/**
 What the key rewrite of `create_modules` achieves on keys of the decoder's
 own naming convention, "lora_unet_<module>_lora_<A|B>.weight": both keys of a
 module land on the same base key "base_model.model.<module>", the A key and
 only the A key fills slot A, and the UNet path of the base key is the module
 name itself. The module name must not itself contain text the rewrite
 chain acts on (capital A or B, "lora", "weight", the UNet prefix).

 Every string below is written with the grouping of its parentheses chosen
 so that each step of the chain hands the next step exactly the term it
 expects; regrouping is done only in the small `Regroup` lemmas.
 */
module KeyNaming {

  import opened Types
  import opened Strings
  import opened Layout

  const Prefix: string := "base_model.model."

  /** The decoder-side key "lora_unet_<m>_lora_<A|B>.weight" of factor `slot` of module `m`. */
  function DecoderKey(m: string, slot: Slot): string
  {
    "lora_unet_" + (((m + "_lora_") + Role(slot)) + ".weight")
  }

  /** The key "base_model.model.<m>.lora_<A|B>.identity1.weight" the rewrite makes of it. */
  function RewrittenKey(m: string, slot: Slot): string
  {
    Prefix + (((m + ".lora_") + Role(slot)) + ".identity1.weight")
  }

  function Role(slot: Slot): string
  {
    if slot == A then "A" else "B"
  }

  function Down(slot: Slot): string
  {
    if slot == A then "down" else "up"
  }

  /** A module name the rewrite chain leaves untouched. */
  predicate PlainName(m: string)
  {
    && 'A' !in m && 'B' !in m
    && !Contains(m, "lora") && !Contains(m, "weight") && !Contains(m, Prefix)
  }

  // ---------------------------------------------------------------------
  // Small facts about replacing and searching
  // ---------------------------------------------------------------------

  lemma Regroup(a: string, b: string, c: string)
    ensures (a + b) + c == a + (b + c)
  {
  }

  lemma ReplaceHead(p: string, v: string, r: string)
    requires |p| > 0
    ensures Replace(p + v, p, r) == r + Replace(v, p, r)
  {
    assert (p + v)[..|p|] == p;
    assert (p + v)[|p|..] == v;
  }

  lemma ReplaceAbsentByChar(s: string, p: string, r: string, k: nat)
    requires k < |p| && p[k] !in s
    ensures Replace(s, p, r) == s
  {
    NotContainsByChar(s, p, k);
    ReplaceAbsent(s, p, r);
  }

  /** A one-character pattern never straddles a seam. */
  lemma ReplaceAppendChar(u: string, v: string, p: string, r: string)
    requires |p| == 1
    ensures Replace(u + v, p, r) == Replace(u, p, r) + Replace(v, p, r)
  {
    assert NoStraddle(u, v, p);
    ReplaceAppend(u, v, p, r);
  }

  /** The longer patterns of the chain hold "lora", so a plain name holds none of them. */
  lemma PlainNameAvoids(m: string)
    requires PlainName(m)
    ensures !Contains(m, "lora_unet_") && !Contains(m, "_lora")
    ensures !Contains(m, "lora_down") && !Contains(m, "lora_up")
  {
    if Contains(m, "lora_unet_") { ContainsPart(m, "lora_unet_", "lora", 0); }
    if Contains(m, "_lora") { ContainsPart(m, "_lora", "lora", 1); }
    if Contains(m, "lora_down") { ContainsPart(m, "lora_down", "lora", 0); }
    if Contains(m, "lora_up") { ContainsPart(m, "lora_up", "lora", 0); }
  }

  /** `Prefix + w` is replaced in `w` only, for a pattern that `Prefix` cannot start or hold. */
  lemma ReplaceBehindPrefix(w: string, p: string, r: string, k: nat)
    requires k < |p| && p[k] !in Prefix && '.' !in p[..|p| - 1]
    ensures Replace(Prefix + w, p, r) == Prefix + Replace(w, p, r)
  {
    NoStraddleByLast(Prefix, w, p);
    ReplaceAppend(Prefix, w, p, r);
    ReplaceAbsentByChar(Prefix, p, r, k);
  }

  /** A pattern that is the whole string is replaced by the replacement. */
  lemma ReplaceWhole(p: string, r: string)
    requires |p| > 0
    ensures Replace(p, p, r) == r
  {
    ReplaceHead(p, [], r);
    assert p + [] == p && r + [] == r;
  }

  /**
   The shape every rewritten key has after step 1: the UNet prefix, then four
   parts. When no occurrence straddles a seam, each part is replaced on its own.
   */
  lemma ReplaceParts(m: string, a: string, x: string, b: string, p: string, r: string, k: nat)
    requires k < |p| && p[k] !in Prefix && '.' !in p[..|p| - 1]
    requires NoStraddle(m, a, p) && NoStraddle(m + a, x, p) && NoStraddle((m + a) + x, b, p)
    ensures Replace(Prefix + (((m + a) + x) + b), p, r)
              == Prefix + (((Replace(m, p, r) + Replace(a, p, r)) + Replace(x, p, r)) + Replace(b, p, r))
  {
    ReplaceBehindPrefix(((m + a) + x) + b, p, r, k);
    ReplaceAppend((m + a) + x, b, p, r);
    ReplaceAppend(m + a, x, p, r);
    ReplaceAppend(m, a, p, r);
  }

  // ---------------------------------------------------------------------
  // The seven replacements of `RewriteKey`
  // ---------------------------------------------------------------------

  /** Step 1: the "lora_unet_" prefix becomes the UNet prefix, and occurs nowhere else. */
  lemma RewriteStep1(m: string, slot: Slot)
    requires PlainName(m)
    ensures Replace(DecoderKey(m, slot), "lora_unet_", Prefix)
              == Prefix + (((m + "_lora_") + Role(slot)) + ".weight")
  {
    var p := "lora_unet_";
    var x := ((m + "_lora_") + Role(slot)) + ".weight";
    ReplaceHead(p, x, Prefix);
    PlainNameAvoids(m);
    NoStraddleByHead(m, "_lora_", p, "lora");
    ReplaceAppend(m, "_lora_", p, Prefix);
    ReplaceAbsent(m, p, Prefix);
    NoStraddleByFirst(m + "_lora_", Role(slot), p);
    ReplaceAppend(m + "_lora_", Role(slot), p, Prefix);
    NoStraddleByFirst((m + "_lora_") + Role(slot), ".weight", p);
    ReplaceAppend((m + "_lora_") + Role(slot), ".weight", p, Prefix);
  }

  /** The role letter alone is replaced by a one-letter pattern that the name lacks. */
  lemma ReplaceRoleLetter(m: string, x: string, p: string, r: string)
    requires |p| == 1 && p[0] !in m && p[0] !in Prefix && p[0] !in "_lora_" && p[0] !in ".weight"
    ensures Replace(Prefix + (((m + "_lora_") + x) + ".weight"), p, r)
              == Prefix + (((m + "_lora_") + Replace(x, p, r)) + ".weight")
  {
    assert NoStraddle(m, "_lora_", p) && NoStraddle(m + "_lora_", x, p);
    assert NoStraddle((m + "_lora_") + x, ".weight", p);
    ReplaceParts(m, "_lora_", x, ".weight", p, r, 0);
    ReplaceAbsentByChar(m, p, r, 0);
    ReplaceAbsentByChar("_lora_", p, r, 0);
    ReplaceAbsentByChar(".weight", p, r, 0);
  }

  /** Steps 2 and 3: the role letter becomes "down" or "up". */
  lemma RewriteStep23(m: string, slot: Slot)
    requires PlainName(m)
    ensures Replace(Replace(Prefix + (((m + "_lora_") + Role(slot)) + ".weight"), "A", "down"), "B", "up")
              == Prefix + (((m + "_lora_") + Down(slot)) + ".weight")
  {
    ReplaceRoleLetter(m, Role(slot), "A", "down");
    ReplaceRoleLetter(m, Replace(Role(slot), "A", "down"), "B", "up");
    if slot == A {
      ReplaceWhole("A", "down");
      ReplaceAbsentByChar("down", "B", "up", 0);
    } else {
      ReplaceAbsentByChar("B", "A", "down", 0);
      ReplaceWhole("B", "up");
    }
  }

  /** ".weight" becomes ".identity1.weight". */
  lemma ReplaceWeightSuffix()
    ensures Replace(".weight", "weight", "identity1.weight") == ".identity1.weight"
  {
    NoStraddleByLast(".", "weight", "weight");
    ReplaceAppend(".", "weight", "weight", "identity1.weight");
    NotContainsByLength(".", "weight");
    ReplaceAbsent(".", "weight", "identity1.weight");
    ReplaceWhole("weight", "identity1.weight");
  }

  /** Step 4: the ".weight" suffix becomes ".identity1.weight"; `d` is "down" or "up". */
  lemma RewriteStep4(m: string, d: string)
    requires !Contains(m, "weight") && |d| > 0 && d[0] !in "eight" && 'e' !in d
    ensures Replace(Prefix + (((m + "_lora_") + d) + ".weight"), "weight", "identity1.weight")
              == Prefix + (((m + "_lora_") + d) + ".identity1.weight")
  {
    var p, r := "weight", "identity1.weight";
    NoStraddleByFirst(m, "_lora_", p);
    NoStraddleByFirst(m + "_lora_", d, p);
    NoStraddleByFirst((m + "_lora_") + d, ".weight", p);
    ReplaceParts(m, "_lora_", d, ".weight", p, r, 0);
    ReplaceAbsent(m, p, r);
    ReplaceAbsentByChar("_lora_", p, r, 1);
    ReplaceAbsentByChar(d, p, r, 1);
    ReplaceWeightSuffix();
  }

  /** "_lora_" becomes ".lora_". */
  lemma ReplaceLoraSeparator()
    ensures Replace("_lora_", "_lora", ".lora") == ".lora_"
  {
    ReplaceHead("_lora", "_", ".lora");
  }

  /** Step 5: the "_lora" after the name becomes ".lora"; `d` is "down" or "up". */
  lemma RewriteStep5(m: string, d: string)
    requires !Contains(m, "_lora") && |d| > 0 && d[0] !in "lora" && 'l' !in d
    ensures Replace(Prefix + (((m + "_lora_") + d) + ".identity1.weight"), "_lora", ".lora")
              == Prefix + (((m + ".lora_") + d) + ".identity1.weight")
  {
    var p, r := "_lora", ".lora";
    NoStraddleByFirst(m, "_lora_", p);
    NoStraddleByFirst(m + "_lora_", d, p);
    NoStraddleByFirst((m + "_lora_") + d, ".identity1.weight", p);
    ReplaceParts(m, "_lora_", d, ".identity1.weight", p, r, 3);
    ReplaceAbsent(m, p, r);
    ReplaceLoraSeparator();
    ReplaceAbsentByChar(d, p, r, 1);
    ReplaceAbsentByChar(".identity1.weight", p, r, 1);
  }

  /** Steps 6 and 7 on a role the pattern does not name: nothing changes. */
  lemma ReplaceOtherRole(m: string, x: string, p: string, r: string)
    requires |p| > 2 && p[2] !in Prefix && '.' !in p && !Contains(m, p)
    requires 0 < |x| && x[0] !in p[1..] && p[|p| - 1] !in x
    requires p[|p| - 1] !in ".lora_" && p[0] !in ".identity1.weight"
    ensures Replace(Prefix + (((m + ".lora_") + x) + ".identity1.weight"), p, r)
              == Prefix + (((m + ".lora_") + x) + ".identity1.weight")
  {
    NoStraddleByFirst(m, ".lora_", p);
    NoStraddleByFirst(m + ".lora_", x, p);
    NoStraddleByFirst((m + ".lora_") + x, ".identity1.weight", p);
    ReplaceParts(m, ".lora_", x, ".identity1.weight", p, r, 2);
    ReplaceAbsent(m, p, r);
    ReplaceAbsentByChar(".lora_", p, r, |p| - 1);
    ReplaceAbsentByChar(x, p, r, |p| - 1);
    ReplaceAbsentByChar(".identity1.weight", p, r, 0);
  }

  /** Steps 6 and 7 on the role the pattern names: "lora_down" or "lora_up" becomes "lora_<A|B>". */
  lemma ReplaceOwnRole(m: string, p: string, r: string)
    requires |p| > 2 && p[2] !in Prefix && '.' !in p && !Contains(m, p)
    requires p[0] !in ".identity1.weight"
    ensures Replace(Prefix + (((m + ".") + p) + ".identity1.weight"), p, r)
              == Prefix + (((m + ".") + r) + ".identity1.weight")
  {
    NoStraddleByFirst(m, ".", p);
    NoStraddleByLast(m + ".", p, p);
    NoStraddleByFirst((m + ".") + p, ".identity1.weight", p);
    ReplaceParts(m, ".", p, ".identity1.weight", p, r, 2);
    ReplaceAbsent(m, p, r);
    ReplaceAbsentByChar(".", p, r, 0);
    ReplaceWhole(p, r);
    ReplaceAbsentByChar(".identity1.weight", p, r, 0);
  }

  /** ".lora_" followed by a role reads the same as "." followed by "lora_" and the role. */
  lemma RegroupRole(m: string, role: string, tag: string)
    requires tag == "lora_" + role
    ensures Prefix + (((m + ".lora_") + role) + ".identity1.weight")
              == Prefix + (((m + ".") + tag) + ".identity1.weight")
  {
    Regroup(m, ".lora_", role);
    Regroup(m, ".", tag);
    assert ".lora_" + role == "." + tag;
  }

  /** Step 6 on an A key: "lora_down" becomes "lora_A". */
  lemma RewriteStep6A(m: string)
    requires !Contains(m, "lora_down")
    ensures Replace(Prefix + (((m + ".lora_") + "down") + ".identity1.weight"), "lora_down", "lora_A")
              == RewrittenKey(m, A)
  {
    RegroupRole(m, "down", "lora_down");
    ReplaceOwnRole(m, "lora_down", "lora_A");
    RegroupRole(m, "A", "lora_A");
  }

  /** Steps 6 and 7 on an A key: "lora_down" becomes "lora_A", and "lora_up" is absent. */
  lemma RewriteStep67A(m: string)
    requires !Contains(m, "lora_down") && !Contains(m, "lora_up")
    ensures Replace(Replace(Prefix + (((m + ".lora_") + "down") + ".identity1.weight"), "lora_down", "lora_A"), "lora_up", "lora_B")
              == RewrittenKey(m, A)
  {
    RewriteStep6A(m);
    ReplaceOtherRole(m, "A", "lora_up", "lora_B");
  }

  /** Step 7 on a B key: "lora_up" becomes "lora_B". */
  lemma RewriteStep7B(m: string)
    requires !Contains(m, "lora_up")
    ensures Replace(Prefix + (((m + ".lora_") + "up") + ".identity1.weight"), "lora_up", "lora_B")
              == RewrittenKey(m, B)
  {
    RegroupRole(m, "up", "lora_up");
    ReplaceOwnRole(m, "lora_up", "lora_B");
    RegroupRole(m, "B", "lora_B");
  }

  /** Steps 6 and 7 on a B key: "lora_down" is absent, and "lora_up" becomes "lora_B". */
  lemma RewriteStep67B(m: string)
    requires !Contains(m, "lora_down") && !Contains(m, "lora_up")
    ensures Replace(Replace(Prefix + (((m + ".lora_") + "up") + ".identity1.weight"), "lora_down", "lora_A"), "lora_up", "lora_B")
              == RewrittenKey(m, B)
  {
    ReplaceOtherRole(m, "up", "lora_down", "lora_A");
    RewriteStep7B(m);
  }

  /** The whole chain turns a decoder key into its rewritten key. */
  lemma RewriteDecoderKey(m: string, slot: Slot)
    requires PlainName(m)
    ensures RewriteKey(DecoderKey(m, slot)) == RewrittenKey(m, slot)
  {
    PlainNameAvoids(m);
    RewriteStep1(m, slot);
    RewriteStep23(m, slot);
    RewriteStep4(m, Down(slot));
    RewriteStep5(m, Down(slot));
    if slot == A {
      RewriteStep67A(m);
    } else {
      RewriteStep67B(m);
    }
  }

  // ---------------------------------------------------------------------
  // Filing the rewritten key
  // ---------------------------------------------------------------------

  /** An occurrence at or after `n` is an occurrence in the suffix from `n`. */
  lemma OccursAtDrop(s: string, p: string, j: int, n: nat)
    requires n <= j && n <= |s|
    ensures OccursAt(s, p, j) ==> OccursAt(s[n..], p, j - n)
  {
    if OccursAt(s, p, j) {
      assert s[n..][j - n..j - n + |p|] == s[j..j + |p|];
    }
  }

  /** `rsplit` at a separator that starts `v`, and does not occur later in it, cuts `u + v` back to `u`. */
  lemma RSplitHeadAt(u: string, v: string, sep: string)
    requires |sep| > 0 && OccursAt(v, sep, 0) && !Contains(v[1..], sep)
    ensures RSplitHead(u + v, sep) == u
  {
    var s := u + v;
    assert s[|u|..|u| + |sep|] == v[..|sep|];
    assert OccursAt(s, sep, |u|);
    ContainsSpec(v[1..], sep);
    assert s[|u| + 1..] == v[1..];
    forall j | |u| < j ensures !OccursAt(s, sep, j) {
      OccursAtDrop(s, sep, j, |u| + 1);
    }
    ContainsSpec(s, sep);
    RSplitHeadSpec(s, sep);
    assert RSplitHead(s, sep) == s[..|u|];
  }

  /** After its leading ".", the part of a rewritten key behind the name holds no ".lora_". */
  lemma TailAvoidsSeparator(slot: Slot)
    ensures !Contains((".lora_" + (Role(slot) + ".identity1.weight"))[1..], ".lora_")
  {
    var w := Role(slot) + ".identity1.weight";
    assert (".lora_" + w)[1..] == "lora_" + w;
    NotContainsByChar("lora_", ".lora_", 0);
    NotContainsByChar(w, ".lora_", 1);
    NoStraddleByFirst("lora_", w, ".lora_");
    NotContainsAppend("lora_", w, ".lora_");
  }

  /** The base key of a rewritten key is the UNet prefix followed by the name. */
  lemma RewrittenBase(m: string, slot: Slot)
    ensures BaseKey(RewrittenKey(m, slot)) == Prefix + m
  {
    var w := Role(slot) + ".identity1.weight";
    Regroup(m + ".lora_", Role(slot), ".identity1.weight");
    Regroup(m, ".lora_", w);
    Regroup(Prefix, m, ".lora_" + w);
    assert OccursAt(".lora_" + w, ".lora_", 0);
    TailAvoidsSeparator(slot);
    RSplitHeadAt(Prefix + m, ".lora_" + w, ".lora_");
  }

  /** A rewritten key files into the slot its role names. */
  lemma RewrittenSlot(m: string, slot: Slot)
    requires 'A' !in m
    ensures SlotOf(RewrittenKey(m, slot)) == slot
  {
    if slot == A {
      RegroupRole(m, "A", "lora_A");
      Regroup(Prefix, (m + ".") + "lora_A", ".identity1.weight");
      Regroup(Prefix, m + ".", "lora_A");
      ContainsInfix(Prefix + (m + "."), "lora_A", ".identity1.weight");
    } else {
      NotContainsByChar(RewrittenKey(m, slot), "lora_A", 5);
    }
  }

  /** Stripping the UNet prefix from "base_model.model.<m>" gives back `m`. */
  lemma PlainPath(m: string)
    requires !Contains(m, Prefix)
    ensures ModulePath(Prefix + m) == m
  {
    ReplaceHead(Prefix, m, "");
    ReplaceAbsent(m, Prefix, "");
  }

  /**
   Both decoder keys of a module file into the same base key
   "base_model.model.<m>", into the slot their role names, and the base key's
   UNet path is `m`.
   */
  lemma DecoderKeyFiling(m: string, slot: Slot)
    requires PlainName(m)
    ensures var k := RewriteKey(DecoderKey(m, slot));
      && BaseKey(k) == Prefix + m
      && SlotOf(k) == slot
      && ModulePath(BaseKey(k)) == m
  {
    RewriteDecoderKey(m, slot);
    RewrittenBase(m, slot);
    RewrittenSlot(m, slot);
    PlainPath(m);
  }
}
