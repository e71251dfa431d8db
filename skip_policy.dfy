/**
 The module-selection policy `_should_skip_module`: given a UNet module path
 and the name of a training method, decide by substring tests whether the
 module is left without an adapter. An unknown method raises.
 */
module SkipPolicy {

  import opened Types
  import opened Strings

  /** The names the policy accepts; any other name raises NotImplementedError. */
  const KnownMethods: set<string> :=
    {"noxattn", "noxattn-hspace", "noxattn-hspace-last", "innoxattn",
     "selfattn", "xattn", "xattn-strict", "full"}

  /**
   The decision, in the nesting of the Python `if`/`elif` chain. Only a method
   name outside the table raises.
   */
  function ShouldSkip(name: string, trainMethod: string): (r: Result<bool>)
    ensures r.Err? <==> trainMethod !in KnownMethods
    ensures r.Err? ==> r.error == NotImplemented(trainMethod)
  {
    if trainMethod == "noxattn" || trainMethod == "noxattn-hspace" || trainMethod == "noxattn-hspace-last" then
      Ok(Contains(name, "attn2") || Contains(name, "time_embed"))
    else if trainMethod == "innoxattn" then
      Ok(Contains(name, "attn2"))
    else if trainMethod == "selfattn" then
      Ok(!Contains(name, "attn1"))
    else if trainMethod == "xattn" || trainMethod == "xattn-strict" then
      if Contains(name, "to_k") then Ok(true)
      else Ok(trainMethod == "xattn-strict" && (Contains(name, "out") || Contains(name, "to_k")))
    else if trainMethod == "full" then
      Ok(false)
    else
      Err(NotImplemented(trainMethod))
  }

  /** For each known family of methods the decision is its substring rule. */
  lemma ShouldSkipTable(name: string, trainMethod: string)
    ensures trainMethod in {"noxattn", "noxattn-hspace", "noxattn-hspace-last"} ==>
              ShouldSkip(name, trainMethod) == Ok(Contains(name, "attn2") || Contains(name, "time_embed"))
    ensures trainMethod == "innoxattn" ==> ShouldSkip(name, trainMethod) == Ok(Contains(name, "attn2"))
    ensures trainMethod == "selfattn" ==> ShouldSkip(name, trainMethod) == Ok(!Contains(name, "attn1"))
    ensures trainMethod == "xattn" ==> ShouldSkip(name, trainMethod) == Ok(Contains(name, "to_k"))
    ensures trainMethod == "xattn-strict" ==>
              ShouldSkip(name, trainMethod) == Ok(Contains(name, "to_k") || Contains(name, "out"))
    ensures trainMethod == "full" ==> ShouldSkip(name, trainMethod) == Ok(false)
  {
  }

  /** Under "selfattn" a self-attention projection keeps its adapter. */
  lemma SelfAttnKeepsAttn1()
    ensures ShouldSkip("down_blocks.0.attentions.0.transformer_blocks.0." + "attn1" + ".to_q", "selfattn") == Ok(false)
  {
    ContainsInfix("down_blocks.0.attentions.0.transformer_blocks.0.", "attn1", ".to_q");
  }

  /** Under "selfattn" a cross-attention projection, which lacks "attn1", is skipped. */
  lemma SelfAttnSkipsAttn2()
    ensures ShouldSkip("down_blocks.0.attentions.0." + "transformer_blocks.0.attn2.to_q", "selfattn") == Ok(true)
  {
    var u, v := "down_blocks.0.attentions.0.", "transformer_blocks.0.attn2.to_q";
    assert '1' !in u && '1' !in v;
    NotContainsByChar(u + v, "attn1", 4);
  }
}
