/**
 * The architecture, metadata-key and tensor-name tables of the C++ loader
 * (src/core/gguf_model/gguf_loader.h) and the architecture lookup llm_arch_from_string
 * (src/core/gguf_model/gguf_utils.cpp).
 */
module LlmNames {
  import opened Wrappers
  import opened Search

  // ---------------------------------------------------------------- LLM_ARCH

  const LLM_ARCH_LLAMA: nat := 0
  const LLM_ARCH_BAICHUAN: nat := 2
  const LLM_ARCH_UNKNOWN: nat := 28

  /** The enumerators LLM_ARCH_LLAMA .. LLM_ARCH_UNKNOWN. */
  type Arch = a: nat | a <= LLM_ARCH_UNKNOWN

  /**
   * LLM_ARCH_NAMES, indexed by the enumerator.  A std::map iterates in key order, so this is
   * also the order llm_arch_from_string visits the entries in.
   */
  const ARCH_NAMES: seq<string> := [
    "llama", "falcon", "baichuan", "grok", "gpt2", "gptj", "gptneox", "mpt", "starcoder",
    "persimmon", "refact", "bert", "nomic-bert", "bloom", "stablelm", "qwen", "qwen2", "phi2",
    "plamo", "codeshell", "orion", "internlm2", "minicpm", "gemma", "starcoder2", "mamba",
    "xverse", "command-r", "(unknown)"]

  function ArchName(a: Arch): string
  {
    ARCH_NAMES[a]
  }

  /** Every architecture has its own name. */
  lemma ArchNamesDistinct()
    ensures |ARCH_NAMES| == LLM_ARCH_UNKNOWN + 1
    ensures forall j, k :: 0 <= j < k < |ARCH_NAMES| ==> ARCH_NAMES[j] != ARCH_NAMES[k]
  {
  }

  /**
   * llm_arch_from_string(name): the first architecture, in enumerator order, whose name is
   * `name`; LLM_ARCH_UNKNOWN when there is none.
   */
  method ArchFromString(name: string) returns (a: Arch)
    ensures name in ARCH_NAMES ==> a == FirstIndex(ARCH_NAMES, name)
    ensures name !in ARCH_NAMES ==> a == LLM_ARCH_UNKNOWN
  {
    var i := 0;
    while i < |ARCH_NAMES|
      invariant 0 <= i <= |ARCH_NAMES|
      invariant name !in ARCH_NAMES[..i]
    {
      if ARCH_NAMES[i] == name {
        FirstIndexAt(ARCH_NAMES, name, i);
        return i;
      }
      assert ARCH_NAMES[..i + 1] == ARCH_NAMES[..i] + [ARCH_NAMES[i]];
      i := i + 1;
    }
    assert ARCH_NAMES[..i] == ARCH_NAMES;
    return LLM_ARCH_UNKNOWN;
  }

  /** The lookup inverts the naming: the architecture named ArchName(a) is a. */
  lemma ArchNameRoundTrip(a: Arch)
    ensures ArchName(a) in ARCH_NAMES
    ensures FirstIndex(ARCH_NAMES, ArchName(a)) == a
  {
    ArchNamesDistinct();
    FirstIndexOfDistinct(ARCH_NAMES, a);
  }

  // ---------------------------------------------------------------- LLM_KV

  /** The names of one block of LLM_KV enumerators: a common prefix before each suffix. */
  function Prefixed(prefix: string, suffixes: seq<string>): (r: seq<string>)
    ensures |r| == |suffixes|
    ensures forall i :: 0 <= i < |r| ==> r[i] == prefix + suffixes[i]
  {
    seq(|suffixes|, i requires 0 <= i < |suffixes| => prefix + suffixes[i])
  }

  const GENERAL_PREFIX: string := "general."
  const ARCH_PREFIX: string := "%s."
  const SPLIT_PREFIX: string := "split."
  const TOKENIZER_PREFIX: string := "tokenizer."

  const GENERAL_KEYS: seq<string> := [
    "architecture", "quantization_version", "alignment", "name", "author", "url",
    "description", "license", "source.url", "source.huggingface.repository"]

  const ARCH_KEYS: seq<string> := [
    "vocab_size", "context_length", "embedding_length", "block_count",
    "feed_forward_length", "use_parallel_residual", "tensor_data_layout", "expert_count",
    "expert_used_count", "pooling_type", "logit_scale",
    "attention.head_count", "attention.head_count_kv", "attention.max_alibi_bias",
    "attention.clamp_kqv", "attention.key_length", "attention.value_length",
    "attention.layer_norm_epsilon", "attention.layer_norm_rms_epsilon", "attention.causal",
    "rope.dimension_count", "rope.freq_base", "rope.scale_linear", "rope.scaling.type",
    "rope.scaling.factor", "rope.scaling.original_context_length", "rope.scaling.finetuned"]

  const SPLIT_KEYS: seq<string> := ["no", "count", "tensors.count"]

  const SSM_KEYS: seq<string> := [
    "ssm.inner_size", "ssm.conv_kernel", "ssm.state_size", "ssm.time_step_rank"]

  const TOKENIZER_KEYS: seq<string> := [
    "ggml.model", "ggml.tokens", "ggml.token_type", "ggml.token_type_count", "ggml.scores",
    "ggml.merges", "ggml.bos_token_id", "ggml.eos_token_id", "ggml.unknown_token_id",
    "ggml.seperator_token_id", "ggml.padding_token_id", "ggml.add_bos_token",
    "ggml.add_eos_token", "ggml.add_space_prefix", "huggingface.json", "rwkv.world"]

  /**
   * LLM_KV_NAMES, indexed by the LLM_KV enumerator.  Keys of the architecture's own
   * hyper-parameters carry a "%s" placeholder for the architecture name.
   */
  const KV_NAMES: seq<string> :=
    Prefixed(GENERAL_PREFIX, GENERAL_KEYS) + Prefixed(ARCH_PREFIX, ARCH_KEYS)
    + Prefixed(SPLIT_PREFIX, SPLIT_KEYS) + Prefixed(ARCH_PREFIX, SSM_KEYS)
    + Prefixed(TOKENIZER_PREFIX, TOKENIZER_KEYS)

  /** The groups of the LLM_KV enumeration. */
  datatype KvGroup = General | PerArch | Split | Tokenizer

  /** The group of enumerator k, from the layout of enum LLM_KV. */
  function KvGroupOf(k: nat): KvGroup
  {
    if k < 10 then General
    else if k < 37 then PerArch
    else if k < 40 then Split
    else if k < 44 then PerArch
    else Tokenizer
  }

  /** The prefix every key of a group starts with. */
  function GroupPrefix(g: KvGroup): string
  {
    match g
    case General => GENERAL_PREFIX
    case PerArch => ARCH_PREFIX
    case Split => SPLIT_PREFIX
    case Tokenizer => TOKENIZER_PREFIX
  }

  /**
   * There is one name per enumerator; the general, split and tokenizer keys are literal
   * names under their own prefix, and every other key starts with the "%s" placeholder.
   */
  lemma KvNamePrefixes(k: nat)
    requires k < |KV_NAMES|
    ensures |KV_NAMES| == 60
    ensures GroupPrefix(KvGroupOf(k)) <= KV_NAMES[k]
    ensures KV_NAMES[k][0] == '%' <==> KvGroupOf(k) == PerArch
  {
    var g := Prefixed(GENERAL_PREFIX, GENERAL_KEYS);
    var a := Prefixed(ARCH_PREFIX, ARCH_KEYS);
    var s := Prefixed(SPLIT_PREFIX, SPLIT_KEYS);
    var m := Prefixed(ARCH_PREFIX, SSM_KEYS);
    var t := Prefixed(TOKENIZER_PREFIX, TOKENIZER_KEYS);
    assert KV_NAMES == g + a + s + m + t;
    var name, p := KV_NAMES[k], GroupPrefix(KvGroupOf(k));
    if k < 10 {
      assert name == g[k];
    } else if k < 37 {
      assert name == a[k - 10];
    } else if k < 40 {
      assert name == s[k - 37];
    } else if k < 44 {
      assert name == m[k - 40];
    } else {
      assert name == t[k - 44];
    }
    assert name == p + name[|p|..];
    assert name[0] == p[0];
  }

  // ---------------------------------------------------------------- LLM_TENSOR_NAMES

  const LLM_TENSOR_TOKEN_EMBD: nat := 0
  const LLM_TENSOR_OUTPUT: nat := 4
  const LLM_TENSOR_OUTPUT_NORM: nat := 5
  const LLM_TENSOR_ROPE_FREQS: nat := 6
  const LLM_TENSOR_ATTN_Q: nat := 7
  const LLM_TENSOR_ATTN_K: nat := 8
  const LLM_TENSOR_ATTN_V: nat := 9
  const LLM_TENSOR_ATTN_OUT: nat := 11
  const LLM_TENSOR_ATTN_NORM: nat := 12
  const LLM_TENSOR_ATTN_ROT_EMBD: nat := 15
  const LLM_TENSOR_FFN_GATE_INP: nat := 16
  const LLM_TENSOR_FFN_NORM: nat := 17
  const LLM_TENSOR_FFN_GATE: nat := 18
  const LLM_TENSOR_FFN_DOWN: nat := 19
  const LLM_TENSOR_FFN_UP: nat := 20
  const LLM_TENSOR_FFN_DOWN_EXP: nat := 22
  const LLM_TENSOR_FFN_GATE_EXP: nat := 23
  const LLM_TENSOR_FFN_UP_EXP: nat := 24

  /** The per-layer placeholder every block tensor name starts with. */
  const BLK: string := "blk.%d."

  /** The tensor-name patterns LLaMA and Baichuan share. */
  function BaseTensorName(t: nat): Option<string>
  {
    if t == LLM_TENSOR_TOKEN_EMBD then Some("token_embd")
    else if t == LLM_TENSOR_OUTPUT_NORM then Some("output_norm")
    else if t == LLM_TENSOR_OUTPUT then Some("output")
    else if t == LLM_TENSOR_ROPE_FREQS then Some("rope_freqs")
    else if t == LLM_TENSOR_ATTN_NORM then Some(BLK + "attn_norm")
    else if t == LLM_TENSOR_ATTN_Q then Some(BLK + "attn_q")
    else if t == LLM_TENSOR_ATTN_K then Some(BLK + "attn_k")
    else if t == LLM_TENSOR_ATTN_V then Some(BLK + "attn_v")
    else if t == LLM_TENSOR_ATTN_OUT then Some(BLK + "attn_output")
    else if t == LLM_TENSOR_ATTN_ROT_EMBD then Some(BLK + "attn_rot_embd")
    else if t == LLM_TENSOR_FFN_NORM then Some(BLK + "ffn_norm")
    else if t == LLM_TENSOR_FFN_GATE then Some(BLK + "ffn_gate")
    else if t == LLM_TENSOR_FFN_DOWN then Some(BLK + "ffn_down")
    else if t == LLM_TENSOR_FFN_UP then Some(BLK + "ffn_up")
    else None
  }

  /** LLaMA adds the expert router and the mixture-of-experts patterns. */
  function LlamaTensorName(t: nat): Option<string>
  {
    if t == LLM_TENSOR_FFN_GATE_INP then Some(BLK + "ffn_gate_inp")
    else if t == LLM_TENSOR_FFN_GATE_EXP then Some(BLK + "ffn_gate.%d")
    else if t == LLM_TENSOR_FFN_DOWN_EXP then Some(BLK + "ffn_down.%d")
    else if t == LLM_TENSOR_FFN_UP_EXP then Some(BLK + "ffn_up.%d")
    else BaseTensorName(t)
  }

  /** LLM_TENSOR_NAMES.at(arch).at(tensor): only LLaMA and Baichuan have a table. */
  function TensorName(a: Arch, t: nat): Option<string>
  {
    if a == LLM_ARCH_LLAMA then LlamaTensorName(t)
    else if a == LLM_ARCH_BAICHUAN then BaseTensorName(t)
    else None
  }

  /** The whole-model tensors; every other pattern is per layer. */
  predicate IsModelTensor(t: nat)
  {
    t == LLM_TENSOR_TOKEN_EMBD || t == LLM_TENSOR_OUTPUT_NORM || t == LLM_TENSOR_OUTPUT
    || t == LLM_TENSOR_ROPE_FREQS
  }

  predicate IsExpertTensor(t: nat)
  {
    t == LLM_TENSOR_FFN_GATE_INP || t == LLM_TENSOR_FFN_GATE_EXP
    || t == LLM_TENSOR_FFN_DOWN_EXP || t == LLM_TENSOR_FFN_UP_EXP
  }

  /** A per-layer pattern starts with the block placeholder and a whole-model name does not. */
  lemma LayerPatternPrefix(t: nat)
    ensures LlamaTensorName(t).Some? ==> (IsModelTensor(t) <==> !(BLK <= LlamaTensorName(t).value))
  {
    if LlamaTensorName(t).Some? {
      var v := LlamaTensorName(t).value;
      if IsModelTensor(t) {
        assert v[0] != BLK[0];
      } else {
        assert v[..|BLK|] == BLK;
      }
    }
  }

  /**
   * Patterns exist only for LLaMA and Baichuan; Baichuan's table is LLaMA's without the
   * expert tensors; a per-layer pattern starts with the block placeholder "blk.%d." and a
   * whole-model name does not.
   */
  lemma TensorNameTables(a: Arch, t: nat)
    ensures (exists u :: TensorName(a, u).Some?) <==> a == LLM_ARCH_LLAMA || a == LLM_ARCH_BAICHUAN
    ensures TensorName(LLM_ARCH_BAICHUAN, t) ==
              if IsExpertTensor(t) then None else TensorName(LLM_ARCH_LLAMA, t)
    ensures TensorName(a, t).Some? ==> (IsModelTensor(t) <==> !(BLK <= TensorName(a, t).value))
  {
    if a == LLM_ARCH_LLAMA || a == LLM_ARCH_BAICHUAN {
      assert TensorName(a, LLM_TENSOR_TOKEN_EMBD).Some?;
    }
    LayerPatternPrefix(t);
  }
}
