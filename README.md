# LoRA adapters fed by a decoded parameter vector — a Dafny model

This project models the core of `lora_VAEw2w.py`. That file feeds a frozen
diffusion UNet with low-rank (LoRA) adapters. The adapters take their weights
from one flat vector, which a VAE decoder produces from a learnable latent.
The model covers four parts.

- **The module-selection policy** `_should_skip_module` (module `SkipPolicy`).
  It is a decision table of substring tests, keyed on the training method.
  A method outside the table raises `NotImplementedError`.
- **Layout resolution** in `create_modules` (modules `Strings`, `KeyNaming`,
  `Layout`, `Network`).
  - Every decoder-side layout key is rewritten by the fixed chain of
    `str.replace` calls, with Python's left-to-right, non-overlapping
    semantics.
  - The key is cut at its last `".lora_"` and filed into slot A or B of its
    base key. The dictionary keeps insertion order, and a later key
    overwrites a slot.
  - The groups are then walked in first-appearance order. A running counter
    hands each retained module two adjacent half-open ranges of the flat
    vector. The module is looked up in the UNet and its adapter is built.
- **The adapter** `LoRAVAEModule` (module `Adapters`).
  - Construction fixes the slices, the rank and `scale = alpha / rank`.
  - `apply_to` is a one-shot redirection of the submodule's `forward`.
  - `forward` passes through, or adds `(x·A)·B · multiplier · scale`, where A
    and B are read from the adapter's two ranges of the buffer.
- **The manager** `LoRAw2wVAE` (module `Network`).
  - `__init__` builds the adapters and installs them in order.
  - `__enter__` gives every adapter the decoded buffer and the manager's
    multiplier.
  - `__exit__` sets every multiplier to 0 and drops every buffer.

Pure code is modelled as functions with lemmas. Code that changes state is
modelled imperatively:
- `create_modules` is a pair of loops (`Layout.GroupPairs`,
  `Network.CreateModules`). Each is proved against a pure specification
  (`Layout.Order`/`Layout.PairsOf`, `Layout.Resolve`).
- The adapter and the manager are classes. The adapter's `multiplier`,
  `params`, `org_forward` and `org_module` are mutable fields.
- UNet submodules are objects whose `forward` field `apply_to` overwrites.

Errors are values of `Types.Error`, returned in a `Result`, and raised in the
same order as the Python code raises them:
1. unpacking a missing A slot, then a missing B slot;
2. the policy;
3. the `getattr` walk;
4. the division by `rank`.

## Model

| member | source | states |
|---|---|---|
| SkipPolicy.ShouldSkip | lora_VAEw2w.py:121-142 | the policy raises exactly for a method name outside its eight known names, and then raises NotImplementedError carrying that name |
| SkipPolicy.ShouldSkipTable | lora_VAEw2w.py:123-138 | the skip decision per method. noxattn and its hspace variants skip iff the path holds "attn2" or "time_embed". innoxattn skips iff it holds "attn2". selfattn skips iff it lacks "attn1". xattn skips iff it holds "to_k". xattn-strict skips iff it holds "to_k" or "out". full never skips |
| SkipPolicy.SelfAttnKeepsAttn1 | lora_VAEw2w.py:129-131 | under selfattn, a path with "attn1" in it keeps its adapter |
| SkipPolicy.SelfAttnSkipsAttn2 | lora_VAEw2w.py:129-131 | under selfattn, a cross-attention path without "attn1" is skipped |
| Strings.ContainsSpec | lora_VAEw2w.py:224 | Python's `p in s` holds iff `p` occurs in `s` at some index |
| Strings.ReplaceAbsent | lora_VAEw2w.py:209-215 | `str.replace` with a pattern that does not occur returns the string unchanged |
| Strings.RSplitHeadSpec | lora_VAEw2w.py:219 | `rsplit(sep, 1)[0]` is a prefix of the key. The separator follows it directly and occurs nowhere later. With no separator the whole key is returned |
| KeyNaming.RewriteDecoderKey | lora_VAEw2w.py:209-215 | the replace chain turns "lora_unet_<m>_lora_<A/B>.weight" into "base_model.model.<m>.lora_<A/B>.identity1.weight" (for a module name the chain leaves alone) |
| KeyNaming.DecoderKeyFiling | lora_VAEw2w.py:209-235 | both decoder keys of a module file under the base key "base_model.model.<m>", into the slot their role names, and that base key's module path is `m` |
| Layout.GroupPairs | lora_VAEw2w.py:205-227 | the first loop yields exactly the dictionary's key order (`Order`) and contents (`PairsOf`) |
| Layout.FileOneMore | lora_VAEw2w.py:221-227 | filing one more key keeps the dictionary equal to its specification. A new base key is appended with both slots empty, and the key's slot is then overwritten |
| Layout.FirstAppearanceOrder | lora_VAEw2w.py:206-207 | dictionary keys appear in the order their first key appeared in the layout |
| Layout.LastInSpec | lora_VAEw2w.py:224-227 | a slot holds the entry of the last key with that base key and slot, so a later key overwrites an earlier one. It is empty iff no key has both |
| Layout.ResolveContiguous | lora_VAEw2w.py:243-250 | the ranges of a successful walk are contiguous and gapless. The first starts at the initial counter, each slice_A ends where its slice_B starts, each module starts where the previous one ended, and the last ends at the final counter |
| Layout.ResolveRetained | lora_VAEw2w.py:230-250 | a successful walk yields one module per retained group, in group order, so skipped groups yield none and do not move the counter. Each range has its declared size, and the final counter is the sum of size_A + size_B over retained groups |
| Layout.ResolveOkIff | lora_VAEw2w.py:229-266 | the walk succeeds iff every group has both slots, the method is known (when there is a group), every retained path is a UNet module, and rank is nonzero when a module is retained |
| Layout.UnknownMethodRaises | lora_VAEw2w.py:229-240 | with an unknown method and at least one group, the walk raises. It raises NotImplementedError iff the first group has both slots, and otherwise the TypeError of that group's missing slot |
| Layout.TwoGroupScenario | lora_VAEw2w.py:243-250 | sizes (8,4) and (16,8) under "full" give ranges (0,8),(8,12),(12,28),(28,36) and a total of 36 |
| Network.CreateModules | lora_VAEw2w.py:201-269 | the second loop raises exactly when the walk specification does, with the same error. Otherwise it returns one fresh, distinct adapter per planned module, in order, built with that module's name, ranges, rank, scale and multiplier over the UNet submodule at its path |
| Network.ResolveGroup | lora_VAEw2w.py:230-266 | one group of the loop agrees with one step of the walk: its error, a skip that keeps the counter, or an adapter and the counter advanced by size_A + size_B |
| Network.Construct | lora_VAEw2w.py:252-266 | a missing UNet path raises AttributeError and a zero rank raises ZeroDivisionError, in that order. Otherwise a fresh adapter is built over the submodule at the path |
| Network.ResolveCarves | lora_VAEw2w.py:243-250 | the ranges of a successful walk, read in order from a buffer at least as long as the total, are exactly the buffer's first `total` values |
| Network.PlannedPathsDistinct | lora_VAEw2w.py:230-266 | when the groups name distinct modules, the planned modules have pairwise distinct UNet paths |
| Adapters.Scale | lora_VAEw2w.py:61-63 | rank 0 raises ZeroDivisionError. Alpha None or 0 gives scale 1. Otherwise scale · rank = alpha |
| Adapters.SliceOf | lora_VAEw2w.py:80-81 | `params[slice_A]` clamps to the buffer. In range it is exactly `params[start..stop]`. A range that runs past the end is `params[start..]`, so a buffer shorter than the total truncates the last module's ranges. A range starting at or past the end, or one whose stop does not exceed its start, is empty |
| Adapters.CarveContiguous | lora_VAEw2w.py:80-81 | contiguous ranges inside the buffer read it without gap or overlap |
| Adapters.BroadcastAdd | lora_VAEw2w.py:86 | the addition succeeds iff the lengths agree or one is 1, and then adds elementwise with broadcasting. Otherwise it raises a shape error |
| Adapters.Apply | lora_VAEw2w.py:76-86 | `forward` raises TypeError while `org_forward` is None. With multiplier 0 or no buffer it returns `org_forward(x)`. When active it succeeds iff x matches slice_A's length and the sum broadcasts |
| Adapters.ApplyIsLowRankUpdate | lora_VAEw2w.py:80-86 | an active `forward` returns `org_forward(x)` plus multiplier·scale times the rank-1 matrix B·A applied to x |
| Adapters.ZeroColumnAddsNothing | lora_VAEw2w.py:86 | a zero B range adds nothing: the output is `org_forward(x)` |
| Adapters.LoRAVAEModule.constructor | lora_VAEw2w.py:51-68 | the slices, rank and scale are fixed, the multiplier and target submodule are stored, and no forward or buffer is held |
| Adapters.LoRAVAEModule.ApplyTo | lora_VAEw2w.py:70-74 | the first call captures the submodule's forward, redirects the submodule to the adapter and drops the reference. A second call raises and changes nothing |
| Adapters.LoRAVAEModule.Forward | lora_VAEw2w.py:76-86 | in a passthrough state (multiplier 0 or no buffer) it returns `org_forward(x)`, and otherwise it returns the active update |
| Network.LoRAw2wVAE.Build | lora_VAEw2w.py:94-119 | `__init__` raises exactly when the walk does, and then no submodule's forward has changed, so nothing is partially installed. Otherwise every planned submodule is hooked to its adapter, which holds the submodule's previous forward, and every other submodule is untouched. The manager and its adapters are new, pairwise distinct objects, so a caller may go on to `__enter__` and `__exit__` them |
| Network.LoRAw2wVAE.Assemble | lora_VAEw2w.py:117-119 | right after `__init__`, every submodule that had its native forward, hooked or not, still computes exactly that forward: a new adapter holds no buffer, so it passes `x` to the forward it captured |
| Network.LoRAw2wVAE.InstallAll | lora_VAEw2w.py:117-119 | installing in order hooks every submodule to its own adapter and captures its original forward, leaving multipliers and buffers as they were. A submodule whose adapter has no buffer computes its original forward |
| Network.LoRAw2wVAE.Enter | lora_VAEw2w.py:271-278 | every adapter holds the same buffer and the manager's multiplier, and its captured forward is unchanged. With a nonzero multiplier no adapter is a passthrough |
| Network.LoRAw2wVAE.Exit | lora_VAEw2w.py:280-284 | every adapter has multiplier 0 and no buffer whatever its previous state, so a repeated call changes nothing. The captured forward is unchanged, and `forward(x)` returns `org_forward(x)` |

Slices, rank and scale are immutable fields of the adapter, so neither `Enter`
nor `Exit` can change them.

## Behaviour of the code worth noting

The model follows the code in each of these cases.

- A base key missing its A or B partner makes the tuple unpacking at
  lines 231-232 raise a TypeError (`MissingSlot`); nothing skips or logs
  such a key.
- The final counter is only printed (line 268). It is not compared with the
  decoder's output width, so the model has no parameter-count error.
- The comments on `TRAINING_METHODS` (lines 30-35) describe what each
  method trains, and the tests of lines 123-136 do otherwise. xattn skips
  only "to_k" paths rather than keeping only cross-attention. innoxattn skips
  the "attn2" (cross-attention) paths, not self-attention. xattn-strict skips
  "to_k" and "out" paths rather than keeping queries and keys.

## Left out

- `torch.load` of the layout (line 101). The layout is an input sequence of
  (key, size) pairs, with size standing for `[0][0]` of the stored
  dimensions. Keys are distinct in the source, because it is a dict; the
  model does not rely on that.
- The VAE `decode` call and the `.bfloat16()` cast (line 273). The decoded
  buffer is the parameter of `Enter`. The latent `z` is not modelled.
- bf16 rounding, batch dimensions, `reshape` and matmul on tensors
  (lines 83-86). Tensors are one-dimensional sequences of exact reals, and
  the rank-1 product is computed exactly.
- Adapters.Scale: `alpha / rank` (line 63) and the multiplier are Python
  floats in the source and exact reals in the model. The promise
  scale · rank = alpha holds for reals but not always for doubles
  (1/49 · 49 is not 1 in double precision).
- The `getattr` walk over the UNet (lines 253-255) is a map from module path
  to submodule object.
- `nn.Module` and `nn.Parameter` machinery, and `parameters()` (lines 104,
  286-287).
- The commented-out `create_modules` (lines 144-200), the unused constants
  and imports, and the diagnostic prints (lines 239, 268).
- Network.LoRAw2wVAE.Build: requires that the groups name distinct UNet
  modules, that the UNet map sends distinct paths to distinct submodules, and
  that every submodule a planned module targets still has its native forward
  (submodules no module targets may already be hooked). Two adapters stacked
  on one submodule, where the second would capture the first, are not
  modelled.
- Adapters.LoRAVAEModule.ApplyTo: requires a target whose forward is still
  its native one, for the same reason.
- Adapters.LoRAVAEModule.constructor: requires a nonzero rank. The
  ZeroDivisionError of a zero rank is modelled one step earlier, in
  `Adapters.Scale` and `Network.Construct`, before construction.
- Strings.Replace: requires a non-empty pattern. Every pattern in the replace
  chain is non-empty.
- KeyNaming.RewriteDecoderKey: states the rewrite only for module names that
  contain no capital A or B, "lora", "weight" or the UNet prefix. On other
  names the chain rewrites the name too, and the model still computes that
  rewrite, but no lemma describes it.
- `forward` on a tensor whose shape mismatches is reported as one
  `ShapeMismatch` error, not as torch's specific exceptions.
