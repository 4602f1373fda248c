/** Which operation names are elementwise, and the primitive each one stands for. */
module Elementwise {
  import opened FusionAst
  import opened Wrappers

  predicate IsSpace(c: char) {
    c == ' ' || '\t' <= c <= '\r' || c as int == 0x85 || c as int == 0xA0
  }

  function LowerChar(c: char): char {
    if 'A' <= c <= 'Z' then c - 'A' + 'a' else c
  }

  function ToLower(s: string): string {
    seq(|s|, i requires 0 <= i < |s| => LowerChar(s[i]))
  }

  function TrimSpace(s: string): string {
    if s == "" then s
    else if IsSpace(s[0]) then TrimSpace(s[1..])
    else if IsSpace(s[|s| - 1]) then TrimSpace(s[..|s| - 1])
    else s
  }

  const TABLE: map<string, NodeType> := map[
    "math.add" := NodeAdd,
    "math.sub" := NodeSub,
    "math.mul" := NodeMul,
    "math.div" := NodeDiv,
    "math.max" := NodeMax,
    "math.min" := NodeMin,
    "math.neg" := NodeNeg,
    "math.abs" := NodeAbs,
    "math.sqrt" := NodeSqrt,
    "math.exp" := NodeExp,
    "math.log" := NodeLog,
    "math.sign" := NodeNeg,
    "math.sin" := NodeInvalid,
    "math.cos" := NodeInvalid,
    "activation.relu" := NodeReLU,
    "activation.sigmoid" := NodeSigmoid,
    "activation.tanh" := NodeTanh,
    "activation.swish" := NodeSilu,
    "activation.gelu" := NodeGelu,
    "activation.leaky_relu" := NodeLeakyReLU
  ]

  /** The primitive an operation name stands for, or None when it must never be fused. */
  function IsElementwiseOp(op: string): (r: Option<NodeType>)
    ensures r.Some? ==> IsOperation(r.value)
  {
    var normalized := ToLower(TrimSpace(op));
    if normalized !in TABLE || TABLE[normalized] == NodeInvalid then None
    else Some(TABLE[normalized])
  }

  /** Trimming takes off what surrounds a name without outer blanks, and no more. */
  lemma {:induction false} TrimmingStrips(before: string, name: string, after: string)
    requires name != "" && !IsSpace(name[0]) && !IsSpace(name[|name| - 1])
    requires (forall i | 0 <= i < |before| :: IsSpace(before[i])) && (forall i | 0 <= i < |after| :: IsSpace(after[i]))
    ensures TrimSpace(before + name + after) == name
    decreases |before| + |after|
  {
    hide IsSpace;
    var s := before + name + after;
    if before != [] {
      assert s[1..] == before[1..] + name + after;
      TrimmingStrips(before[1..], name, after);
    } else if after != [] {
      assert s[0] == name[0] && s[|s| - 1] == after[|after| - 1];
      assert s[..|s| - 1] == before + name + after[..|after| - 1];
      TrimmingStrips(before, name, after[..|after| - 1]);
    } else {
      assert s == name;
    }
  }

  /** A blank of ASCII or of Latin-1. */
  ghost predicate Blanks(s: string) {
    forall i | 0 <= i < |s| :: s[i] in {' ', '\t', '\n', '\r'} || s[i] as int in {0x0B, 0x0C, 0x85, 0xA0}
  }

  /** Visible ASCII characters. */
  ghost predicate Visible(s: string) {
    forall i | 0 <= i < |s| :: '!' <= s[i] <= '~'
  }

  /** The names differ at most in the case of their letters. */
  ghost predicate SameLetters(a: string, b: string) {
    |a| == |b| && forall i | 0 <= i < |a| ::
      || a[i] == b[i]
      || ('A' <= a[i] <= 'Z' && b[i] as int == a[i] as int + 32)
      || ('A' <= b[i] <= 'Z' && a[i] as int == b[i] as int + 32)
  }

  /** The text is the name up to blanks around it and the case of its letters. */
  ghost predicate Spells(text: string, name: string) {
    exists before, core, after ::
      text == before + core + after && Blanks(before) && Blanks(after) && SameLetters(core, name)
  }

  lemma VisibleEnds(core: string, name: string)
    requires name != "" && Visible(name) && SameLetters(core, name)
    ensures core != "" && !IsSpace(core[0]) && !IsSpace(core[|core| - 1])
  {
  }

  lemma LettersLower(core: string, name: string)
    requires SameLetters(core, name)
    ensures ToLower(core) == ToLower(name)
  {
  }

  /** Blanks around a name and the case of its letters make no difference to the lookup. */
  lemma LookupIgnoresBlanksAndCase(text: string, name: string)
    requires name != "" && Visible(name) && Spells(text, name)
    ensures IsElementwiseOp(text) == IsElementwiseOp(name)
  {
    hide IsElementwiseOp, IsSpace, ToLower, TrimSpace, Visible, Blanks, SameLetters;
    var before, core, after :|
      text == before + core + after && Blanks(before) && Blanks(after) && SameLetters(core, name);
    TrimmedToCore(before, core, after, name);
    SameAsItself(name);
    TrimmedToCore("", name, "", name);
    assert "" + name + "" == name;
    LettersLower(core, name);
    LookupByNormalForm(text, name);
  }

  lemma TrimmedToCore(before: string, core: string, after: string, name: string)
    requires name != "" && Visible(name) && SameLetters(core, name) && Blanks(before) && Blanks(after)
    ensures TrimSpace(before + core + after) == core
  {
    assert forall i | 0 <= i < |before| :: IsSpace(before[i]);
    assert forall i | 0 <= i < |after| :: IsSpace(after[i]);
    VisibleEnds(core, name);
    hide *;
    TrimmingStrips(before, core, after);
  }

  lemma SameAsItself(name: string)
    ensures SameLetters(name, name) && Blanks("")
  {
  }

  lemma LookupByNormalForm(a: string, b: string)
    requires ToLower(TrimSpace(a)) == ToLower(TrimSpace(b))
    ensures IsElementwiseOp(a) == IsElementwiseOp(b)
  {
  }

  lemma BlanksJoin(a: string, b: string)
    requires Blanks(a) && Blanks(b)
    ensures Blanks(a + b)
  {
  }

  lemma SpaceIsBlank(c: char)
    requires IsSpace(c)
    ensures Blanks([c])
  {
  }

  /** Trimming only takes blanks away. */
  lemma {:induction false} TrimmedOf(text: string) returns (before: string, after: string)
    ensures text == before + TrimSpace(text) + after && Blanks(before) && Blanks(after)
    decreases |text|
  {
    hide IsSpace, Blanks;
    SameAsItself("");
    before, after := "", "";
    if text != "" && IsSpace(text[0]) {
      before, after := TrimmedOf(text[1..]);
      SpaceIsBlank(text[0]);
      BlanksJoin([text[0]], before);
      assert text == [text[0]] + text[1..];
      before := [text[0]] + before;
    } else if text != "" && IsSpace(text[|text| - 1]) {
      before, after := TrimmedOf(text[..|text| - 1]);
      SpaceIsBlank(text[|text| - 1]);
      BlanksJoin(after, [text[|text| - 1]]);
      assert text == text[..|text| - 1] + [text[|text| - 1]];
      after := after + [text[|text| - 1]];
    }
  }

  /** The names of the operations of one operand that have a primitive. */
  ghost predicate OneOperandOp(op: string) {
    || op == "math.neg" || op == "math.sign" || op == "math.abs" || op == "math.sqrt" || op == "math.exp" || op == "math.log"
    || op == "activation.relu" || op == "activation.sigmoid" || op == "activation.tanh" || op == "activation.swish"
    || op == "activation.gelu" || op == "activation.leaky_relu"
  }

  /** The names of the operations of two operands that have one. */
  ghost predicate TwoOperandOp(op: string) {
    || op == "math.add" || op == "math.sub" || op == "math.mul" || op == "math.div" || op == "math.max" || op == "math.min"
  }

  /** A name already in lower case and without outer blanks is its own normal form. */
  lemma NormalForm(op: string)
    requires op != "" && !IsSpace(op[0]) && !IsSpace(op[|op| - 1])
    requires forall i | 0 <= i < |op| :: LowerChar(op[i]) == op[i]
    ensures ToLower(TrimSpace(op)) == op
  {
  }

  lemma NotInTable(op: string)
    requires |op| in {13, 14} || (|op| == 16 && op[0] != 'a')
    ensures op !in TABLE
  {
  }

  lemma ListedNormal(op: string)
    requires OneOperandOp(op) || TwoOperandOp(op)
    ensures ToLower(TrimSpace(op)) == op
  {
    NormalForm(op);
  }

  lemma PairEntries()
    ensures "math.add" in TABLE && TABLE["math.add"] == NodeAdd
    ensures "math.sub" in TABLE && TABLE["math.sub"] == NodeSub
    ensures "math.mul" in TABLE && TABLE["math.mul"] == NodeMul
    ensures "math.div" in TABLE && TABLE["math.div"] == NodeDiv
    ensures "math.max" in TABLE && TABLE["math.max"] == NodeMax
    ensures "math.min" in TABLE && TABLE["math.min"] == NodeMin
  {
  }

  lemma MathEntries()
    ensures "math.neg" in TABLE && TABLE["math.neg"] == NodeNeg
    ensures "math.sign" in TABLE && TABLE["math.sign"] == NodeNeg
    ensures "math.abs" in TABLE && TABLE["math.abs"] == NodeAbs
    ensures "math.sqrt" in TABLE && TABLE["math.sqrt"] == NodeSqrt
    ensures "math.exp" in TABLE && TABLE["math.exp"] == NodeExp
    ensures "math.log" in TABLE && TABLE["math.log"] == NodeLog
  {
  }

  lemma ActivationEntries()
    ensures "activation.relu" in TABLE && TABLE["activation.relu"] == NodeReLU
    ensures "activation.sigmoid" in TABLE && TABLE["activation.sigmoid"] == NodeSigmoid
    ensures "activation.tanh" in TABLE && TABLE["activation.tanh"] == NodeTanh
    ensures "activation.swish" in TABLE && TABLE["activation.swish"] == NodeSilu
    ensures "activation.gelu" in TABLE && TABLE["activation.gelu"] == NodeGelu
    ensures "activation.leaky_relu" in TABLE && TABLE["activation.leaky_relu"] == NodeLeakyReLU
  {
  }

  /** The primitive of each operation that has one, by name. */
  lemma NamedPrimitives(op: string)
    ensures op == "math.add" ==> IsElementwiseOp(op) == Some(NodeAdd)
    ensures op == "math.sub" ==> IsElementwiseOp(op) == Some(NodeSub)
    ensures op == "math.mul" ==> IsElementwiseOp(op) == Some(NodeMul)
    ensures op == "math.div" ==> IsElementwiseOp(op) == Some(NodeDiv)
    ensures op == "math.max" ==> IsElementwiseOp(op) == Some(NodeMax)
    ensures op == "math.min" ==> IsElementwiseOp(op) == Some(NodeMin)
    ensures op == "math.neg" || op == "math.sign" ==> IsElementwiseOp(op) == Some(NodeNeg)
    ensures op == "math.abs" ==> IsElementwiseOp(op) == Some(NodeAbs)
    ensures op == "math.sqrt" ==> IsElementwiseOp(op) == Some(NodeSqrt)
    ensures op == "math.exp" ==> IsElementwiseOp(op) == Some(NodeExp)
    ensures op == "math.log" ==> IsElementwiseOp(op) == Some(NodeLog)
    ensures op == "activation.relu" ==> IsElementwiseOp(op) == Some(NodeReLU)
    ensures op == "activation.sigmoid" ==> IsElementwiseOp(op) == Some(NodeSigmoid)
    ensures op == "activation.tanh" ==> IsElementwiseOp(op) == Some(NodeTanh)
    ensures op == "activation.swish" ==> IsElementwiseOp(op) == Some(NodeSilu)
    ensures op == "activation.gelu" ==> IsElementwiseOp(op) == Some(NodeGelu)
    ensures op == "activation.leaky_relu" ==> IsElementwiseOp(op) == Some(NodeLeakyReLU)
  {
    hide TABLE, ToLower, TrimSpace;
    if OneOperandOp(op) || TwoOperandOp(op) {
      ListedNormal(op);
      PairEntries();
      MathEntries();
      ActivationEntries();
    }
  }

  /** The text spells the name of an operation with a primitive. */
  ghost predicate HasPrimitiveName(op: string) {
    exists name :: (OneOperandOp(name) || TwoOperandOp(name)) && Spells(op, name)
  }

  lemma OneOperandVisible(op: string)
    requires OneOperandOp(op)
    ensures op != "" && Visible(op)
  {
  }

  lemma TwoOperandVisible(op: string)
    requires TwoOperandOp(op)
    ensures op != "" && Visible(op)
  {
  }

  /** Every spelling of a listed name has the name's primitive. */
  lemma SpellingKeepsPrimitive(op: string, name: string)
    requires (OneOperandOp(name) || TwoOperandOp(name)) && Spells(op, name)
    ensures IsElementwiseOp(op) == IsElementwiseOp(name)
  {
    hide IsElementwiseOp, Spells, OneOperandOp, TwoOperandOp;
    if OneOperandOp(name) {
      OneOperandVisible(name);
    } else {
      TwoOperandVisible(name);
    }
    LookupIgnoresBlanksAndCase(op, name);
  }

  /** What has a primitive spells one of these names. */
  lemma OthersHaveNone(op: string)
    requires IsElementwiseOp(op).Some?
    ensures HasPrimitiveName(op)
  {
    var core := TrimSpace(op);
    var before, after := TrimmedOf(op);
    hide IsSpace;
    var name := ToLower(core);
    assert OneOperandOp(name) || TwoOperandOp(name);
    hide TABLE, OneOperandOp, TwoOperandOp;
    assert SameLetters(core, name);
    assert Spells(op, name);
  }

  /** Fusion and folding consider exactly the spellings of the listed names. */
  lemma ElementwiseIffNamed(op: string)
    ensures IsElementwiseOp(op).Some? <==> HasPrimitiveName(op)
  {
    if IsElementwiseOp(op).Some? {
      OthersHaveNone(op);
    }
    hide IsElementwiseOp, Spells;
    if name :| (OneOperandOp(name) || TwoOperandOp(name)) && Spells(op, name) {
      NamedPrimitives(name);
      SpellingKeepsPrimitive(op, name);
    }
  }

  /** Sines and cosines are in the table and have none. */
  lemma SinesHaveNone()
    ensures IsElementwiseOp("math.sin").None? && IsElementwiseOp("math.cos").None?
  {
    NormalForm("math.sin");
    NormalForm("math.cos");
  }
}
