/** What a capped result carries and what its metadata tells. */
module PayloadContents {
  import opened Options
  import opened Redaction
  import opened Utf8
  import opened PayloadLimits
  import opened PayloadLimitProperties

  /** Everything that leaves in a truncated result, text bytes and data together, has at most max(limit, sentinel) + 2
      elements. */
  lemma TruncatedPayloadBound(r: ToolResult, c: Config)
    requires Reported(r, c).truncated
    ensures |Payload(Capped(r, c).content)| <= Max(c.limit, SentinelBytes(Reported(r, c).totalBytes)) + 2
  {
    hide Encode, Decode, Sentinel, Truncate;
    TruncatedSize(r, c);
    MeasureIsPayload(Capped(r, c).content);
  }

  predicate NoText(blocks: seq<Block>) {
    forall i :: 0 <= i < |blocks| ==> !blocks[i].HasText()
  }

  /** Without texts it has no more than the limit leaves beside the sentinel, although there is then no sentinel. */
  lemma BinaryPayloadBound(r: ToolResult, c: Config)
    requires Reported(r, c).truncated && NoText(r.content)
    ensures |Payload(Capped(r, c).content)| <= Max(c.limit - SentinelBytes(Reported(r, c).totalBytes), 0)
  {
    hide Encode, Decode, Sentinel, Truncate, StopOf, TotalBytes;
    TruncatedSize(r, c);
    MeasureIsPayload(Capped(r, c).content);
    assert NoText(AfterRedaction(r, c).content);
  }

  /** Data is never cut: a binary block that leaves in a truncated result came in like that, and fits. */
  lemma {:induction false} DataLeavesWhole(blocks: seq<Block>, used: nat, cap: nat, sentinel: string, b: Block)
    requires used <= cap && b.Binary? && b in Truncate(blocks, used, cap, sentinel)
    ensures b in blocks && used + |Carried(b)| <= cap
  {
    hide Encode, Decode;
    if used + blocks[0].Bytes() <= cap {
      if b != blocks[0] {
        DataLeavesWhole(blocks[1..], used + blocks[0].Bytes(), cap, sentinel, b);
      }
    } else {
      DataLeavesWhole(blocks[1..], used, cap, sentinel, b);
    }
  }

  /** Blocks in which redaction finds nothing to change keep all their fields; the others keep nothing but their new
      text. */
  lemma RedactedBlocksExactly(r: ToolResult, c: Config, i: nat)
    requires c.redact && i < |r.content|
    ensures |AfterRedaction(r, c).content| == |r.content|
    ensures var (before, after) := (r.content[i], AfterRedaction(r, c).content[i]);
            && (after != before ==> before.TextContent? && after == TextContent(Redacted(c.patterns, before.text), ""))
            && (before.TextContent? ==> after.TextContent? && after.text == Redacted(c.patterns, before.text))
            && (after == before ==> after.extras == before.extras)
  {
  }

  /** What the metadata tells is true of the result that leaves: the size compared is that of what the redacted result
      carries, a result that is not reported as truncated keeps all its blocks, the structured copy is reported dropped
      exactly when there was one and it is gone, and when nothing is reported nothing has changed. The error flag and
      the result's own metadata are always kept. */
  lemma MetadataIsTrue(r: ToolResult, c: Config)
    ensures var (out, m) := (Capped(r, c), Reported(r, c));
            && out.isError == r.isError && out.meta == r.meta
            && (m.truncated <==> m.totalBytes > c.limit)
            && (m.structuredDropped <==> r.structured.Some? && out.structured.None?)
            && (m.truncated ==> out.structured.None?)
            && (!m.truncated ==> |out.content| == |r.content|)
            && (!m.truncated && TotalIsCurrent(r, c) ==>
                  m.totalBytes == |Payload(out.content)| + StructuredBytes(out.structured, c.dumped))
            && (!m.truncated && m.redacted == map[] ==> out == r)
            && (!c.redact ==> m.redacted == map[])
  {
    hide Encode, Decode, Sentinel, Truncate, RedactJson;
    MeasureIsPayload(Capped(r, c).content);
    if c.redact && Reported(r, c).redacted == map[] {
      NothingFoundNothingChanged(r, c);
    }
  }

  lemma NothingFoundNothingChanged(r: ToolResult, c: Config)
    requires c.redact && HitsOfAll(c.patterns, AllTexts(r)) == map[]
    ensures AfterRedaction(r, c) == r
  {
    hide RedactJson, RedactText;
    HitsAppend(c.patterns, StructuredLeaves(r.structured), Texts(r.content));
    MergeEmpty(HitsOfAll(c.patterns, StructuredLeaves(r.structured)), HitsOfAll(c.patterns, Texts(r.content)));
    if r.structured.Some? {
      NoHitsUnchanged(c.patterns, r.structured.value);
    }
    NoHitsAnywhere(c.patterns, Texts(r.content));
    forall i | 0 <= i < |r.content| ensures RedactBlock(c.patterns, r.content[i]) == r.content[i] {
      if r.content[i].HasText() {
        TextsOfBlock(r.content, i);
        NoCountsMeansNoMatch(c.patterns, r.content[i].text);
      }
    }
  }

  lemma {:induction false} TextsOfBlock(blocks: seq<Block>, i: nat)
    requires i < |blocks| && blocks[i].HasText()
    ensures blocks[i].text in Texts(blocks)
  {
    if i < |blocks| - 1 {
      TextsOfBlock(blocks[..|blocks| - 1], i);
    }
  }
}
