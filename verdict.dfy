/** `build_sharegpt` of the training-set builder: the three-message conversation whose
    assistant text remarks on the chain length and on the largest edge's share of the
    total, and ends with the conclusion for the label. The question the source draws at
    random from its pool is a parameter here. */
module Verdict {
  import opened Text
  import opened Decimal
  import opened TraceStats

  /** One entry of `conversations`: who speaks (`from`) and what (`value`). */
  datatype Message = Message(role: string, value: string)

  const SystemPrompt: string := "你是一个专家级调用链分析师。请先分析Trace的特征，最后给出“正常”或“异常”的结论。"

  const Abnormal: string := "异常"
  const Normal: string := "正常"
  const ConclusionMark: string := "====结论====\n"

  /** The chain-length remark: short at two edges or fewer, complete otherwise. */
  function LengthRemark(numEdges: nat): string {
    "链路节点数 num_edges=" + NatToString(numEdges) + (if numEdges <= 2 then "，链路过短。" else "，结构完整。")
  }

  /** `f"{ratio*100:.1f}"`. */
  function PercentText(r: Ratio): string
    requires r.den > 0
  {
    FixedText(r.num * 100, r.den, 1)
  }

  /** The bottleneck remark: `ratio > 0.9` names the bottleneck index and the share,
      `ratio > 0.5` names the share, anything else calls the spread even. The two
      thresholds are compared exactly on the fraction. */
  function RatioRemark(r: Ratio, bIdx: int): string
    requires r.den > 0
  {
    if 10 * r.num > 9 * r.den then "发现第 " + IntToString(bIdx) + " 条调用耗时占比高达 " + PercentText(r) + "%，存在显著的单点耗时。"
    else if 2 * r.num > r.den then "存在主要耗时节点，占比 " + PercentText(r) + "%。"
    else "各节点耗时分布相对均匀。"
  }

  /** The third point: why the label holds. */
  function Reason(numEdges: nat, lbl: string): string {
    if lbl == Abnormal then
      if numEdges <= 2 then "结合极短链路特征，判定为异常中断。" else "尽管链路完整，但结合高延迟与瓶颈特征，判定为性能异常。"
    else "该长耗时节点属于核心业务逻辑，符合预期，整体链路正常。"
  }

  /** The three numbered points of the assistant text. */
  function Analysis(st: Stats, lbl: string): string
    requires st.maxEdgeRatio.den > 0
  {
    "分析：\n" +
    "1. " + LengthRemark(st.numEdges) + "\n" +
    "2. " + RatioRemark(st.maxEdgeRatio, st.bottleneckIndex) + "\n" +
    "3. " + Reason(st.numEdges, lbl) + "\n"
  }

  /** The conclusion mark and the verdict word for the label. */
  function Conclusion(lbl: string): string {
    ConclusionMark + (if lbl == Abnormal then Abnormal else Normal)
  }

  /** The assistant text: the analysis, then the conclusion. */
  function Explanation(st: Stats, lbl: string): string
    requires st.maxEdgeRatio.den > 0
  {
    Analysis(st, lbl) + Conclusion(lbl)
  }

  /** `build_sharegpt(sample_txt, label)` with the drawn question `q`: the system prompt,
      the user's message and the assistant's explanation, which always ends with the
      conclusion for the label. */
  function BuildSharegpt(sampleTxt: string, lbl: string, q: string): (m: seq<Message>)
    ensures |m| == 3 && m[0] == Message("system", SystemPrompt)
    ensures m[1].role == "user" && m[2].role == "assistant"
    ensures EndsWith(m[2].value, Conclusion(lbl))
  {
    var st := EvolStats(sampleTxt);
    JoinEnds(Analysis(st, lbl), Conclusion(lbl));
    [Message("system", SystemPrompt),
     Message("user", st.cookedUser + "\n" + q),
     Message("assistant", Explanation(st, lbl))]
  }

  /** The assistant text ends with the abnormal conclusion exactly when the label is
      `异常`, and with the normal conclusion otherwise. */
  lemma ConclusionMatchesLabel(st: Stats, lbl: string)
    requires st.maxEdgeRatio.den > 0
    ensures EndsWith(Explanation(st, lbl), ConclusionMark + Abnormal) <==> lbl == Abnormal
    ensures lbl != Abnormal ==> EndsWith(Explanation(st, lbl), ConclusionMark + Normal)
  {
    ConclusionTail(Analysis(st, lbl), lbl);
  }

  /** Whatever comes before it, the conclusion decides how the text ends. */
  lemma ConclusionTail(body: string, lbl: string)
    ensures EndsWith(body + Conclusion(lbl), ConclusionMark + Abnormal) <==> lbl == Abnormal
    ensures lbl != Abnormal ==> EndsWith(body + Conclusion(lbl), ConclusionMark + Normal)
  {
    var c := Conclusion(lbl);
    JoinEnds(body, c);
    var e := body + c;
    assert e[|e| - 2] == c[|c| - 2];
    assert Abnormal[0] != Normal[0];
  }

  /** The length remark calls the chain short exactly when it has at most two edges. */
  lemma ShortChainRemark(numEdges: nat)
    ensures EndsWith(LengthRemark(numEdges), "链路过短。") <==> numEdges <= 2
  {
    var head := "链路节点数 num_edges=" + NatToString(numEdges);
    var tail := if numEdges <= 2 then "，链路过短。" else "，结构完整。";
    assert LengthRemark(numEdges) == head + tail;
    JoinEnds(head, tail);
    assert "，链路过短。"[1..] == "链路过短。";
    var r := LengthRemark(numEdges);
    if numEdges <= 2 {
      assert r[|r| - 5..] == tail[1..];
    } else {
      assert r[|r| - 1] == '。' && r[|r| - 2] == '整';
    }
  }

  /** The three bottleneck remarks are told apart by their opening, and each is chosen
      by its threshold. */
  lemma RatioRemarkCases(r: Ratio, bIdx: int)
    requires r.den > 0
    ensures StartsWith(RatioRemark(r, bIdx), "发现第 ") <==> 10 * r.num > 9 * r.den
    ensures StartsWith(RatioRemark(r, bIdx), "存在主要耗时节点") <==> !(10 * r.num > 9 * r.den) && 2 * r.num > r.den
    ensures RatioRemark(r, bIdx) == "各节点耗时分布相对均匀。" <==> !(2 * r.num > r.den)
  {
    var t := RatioRemark(r, bIdx);
    if 10 * r.num > 9 * r.den {
      BottleneckOpening(IntToString(bIdx), PercentText(r));
    } else if 2 * r.num > r.den {
      MainNodeOpening(PercentText(r));
    } else {
      assert t[0] == '各';
    }
    OpeningsDiffer(t);
  }

  /** The remark naming the bottleneck opens with `发现第 `. */
  lemma BottleneckOpening(idx: string, pct: string)
    ensures var t := "发现第 " + idx + " 条调用耗时占比高达 " + pct + "%，存在显著的单点耗时。";
      StartsWith(t, "发现第 ") && t[0] == '发'
  {
    var rest := idx + " 条调用耗时占比高达 " + pct + "%，存在显著的单点耗时。";
    assert "发现第 " + idx + " 条调用耗时占比高达 " + pct + "%，存在显著的单点耗时。" == "发现第 " + rest;
    Opening("发现第 ", rest);
  }

  /** The remark naming the main node's share opens with `存在主要耗时节点`. */
  lemma MainNodeOpening(pct: string)
    ensures var t := "存在主要耗时节点，占比 " + pct + "%。";
      StartsWith(t, "存在主要耗时节点") && t[0] == '存'
  {
    var rest := "，占比 " + pct + "%。";
    assert "存在主要耗时节点，占比 " + pct + "%。" == "存在主要耗时节点" + rest;
    Opening("存在主要耗时节点", rest);
  }

  /** Texts opening with different characters do not share an opening. */
  lemma OpeningsDiffer(t: string)
    requires |t| > 0
    ensures t[0] != '发' ==> !StartsWith(t, "发现第 ")
    ensures t[0] != '存' ==> !StartsWith(t, "存在主要耗时节点")
    ensures t[0] != '各' ==> t != "各节点耗时分布相对均匀。"
  {
    if StartsWith(t, "发现第 ") {
      assert t[0] == t[..4][0];
    }
    if StartsWith(t, "存在主要耗时节点") {
      assert t[0] == t[..8][0];
    }
  }

  /** A text starts with what was written first, and so with its first character. */
  lemma Opening(head: string, rest: string)
    requires |head| > 0
    ensures StartsWith(head + rest, head) && (head + rest)[0] == head[0]
  {
    JoinEnds(head, rest);
  }

  /** The user message is the cooked text, a newline and the question. */
  lemma UserMessageShape(sampleTxt: string, lbl: string, q: string)
    ensures |BuildSharegpt(sampleTxt, lbl, q)| == 3
    ensures BuildSharegpt(sampleTxt, lbl, q)[1].role == "user"
    ensures StartsWith(BuildSharegpt(sampleTxt, lbl, q)[1].value, EvolStats(sampleTxt).cookedUser)
    ensures EndsWith(BuildSharegpt(sampleTxt, lbl, q)[1].value, "\n" + q)
  {
    UserText(EvolStats(sampleTxt).cookedUser, q);
  }

  /** The statistics text leads the user message and the question closes it. */
  lemma UserText(c: string, q: string)
    ensures StartsWith(c + "\n" + q, c) && EndsWith(c + "\n" + q, "\n" + q)
  {
    assert c + "\n" + q == c + ("\n" + q);
    JoinEnds(c, "\n" + q);
  }
}
