/** The transit cap on tool results (`cap_call_tool_result` in api/payload_limits.py): optional redaction, then a
    byte-budgeted walk over text and binary blocks that cuts the first text block it cannot keep. */
module PayloadLimits {
  import opened Options
  import opened Redaction
  import opened Utf8

  // --- Data -----------------------------------------------------------------------

  datatype Data = Absent | Chars(chars: string) | Octets(octets: seq<Byte>)

  /** `extras` stands for every other wire field of a block. */
  datatype Block =
    | TextContent(text: string, extras: string)
    | TextLike(text: string, extras: string)    // has a `text` attribute without being a TextContent
    | Binary(data: Data, extras: string)
  {
    predicate HasText() {
      TextContent? || TextLike?
    }

    /** The size estimate that measuring and truncating share. */
    function Bytes(): nat {
      match this
      case TextContent(text, _) => |Encode(text)|
      case TextLike(text, _) => |Encode(text)|
      case Binary(Absent, _) => 0
      case Binary(Chars(chars), _) => |chars|
      case Binary(Octets(octets), _) => |octets|
    }
  }

  datatype ToolResult = ToolResult(
    content: seq<Block>,
    isError: bool,
    structured: Option<Json>,
    meta: Option<string>
  )

  datatype Metadata = Metadata(
    totalBytes: nat,
    truncated: bool,
    redacted: Counts,
    structuredDropped: bool
  )

  /** How the gateway is configured; `dumped` is the length of the JSON text of a document. */
  datatype Config = Config(limit: int, redact: bool, patterns: seq<Pattern>, dumped: Json -> nat)

  // --- The sentinel -----------------------------------------------------------------

  const SENTINEL_HEAD :=
    "truncated by Vyuu gateway: payload exceeded inbound_max_response_body_bytes; full size "

  function Digits(n: nat): (ds: string)
    ensures |ds| >= 1 && forall i :: 0 <= i < |ds| ==> '0' <= ds[i] <= '9'
  {
    var last := [('0' as int + n % 10) as char];
    if n < 10 then last else Digits(n / 10) + last
  }

  function Sentinel(total: nat): string {
    "\n\n[" + ['\U{2026}'] + SENTINEL_HEAD + Digits(total) + " bytes]"
  }

  function SentinelBytes(total: nat): nat {
    |Encode(Sentinel(total))|
  }

  function EffectiveCap(limit: int, total: nat): nat {
    if limit < SentinelBytes(total) then 0 else limit - SentinelBytes(total)
  }

  // --- Measuring ---------------------------------------------------------------------

  function Measure(blocks: seq<Block>): nat {
    if blocks == [] then 0 else Measure(blocks[..|blocks| - 1]) + blocks[|blocks| - 1].Bytes()
  }

  function StructuredBytes(structured: Option<Json>, dumped: Json -> nat): nat {
    match structured
    case None => 0
    case Some(v) => dumped(v)
  }

  function WireBytes(r: ToolResult, dumped: Json -> nat): nat {
    Measure(r.content) + StructuredBytes(r.structured, dumped)
  }

  /** What a block carries: the bytes of its text, or its data, one element for each character or octet. */
  function Carried(b: Block): seq<int> {
    match b
    case Binary(Absent, _) => []
    case Binary(Chars(chars), _) => seq(|chars|, i requires 0 <= i < |chars| => chars[i] as int)
    case Binary(Octets(octets), _) => octets
    case _ => Encode(b.text)
  }

  function Payload(blocks: seq<Block>): seq<int> {
    if blocks == [] then [] else Carried(blocks[0]) + Payload(blocks[1..])
  }

  /** The measure is the length of everything that the blocks carry. */
  lemma {:induction false} MeasureIsPayload(blocks: seq<Block>)
    ensures Measure(blocks) == |Payload(blocks)|
  {
    if blocks != [] {
      MeasureIsPayload(blocks[1..]);
      MeasureAppend([blocks[0]], blocks[1..]);
      MeasureOne(blocks[0]);
      assert [blocks[0]] + blocks[1..] == blocks;
    }
  }

  method MeasureResponseBytes(blocks: seq<Block>) returns (total: nat)
    ensures total == Measure(blocks) == |Payload(blocks)|
  {
    MeasureIsPayload(blocks);
    total := 0;
    for i := 0 to |blocks|
      invariant total == Measure(blocks[..i])
    {
      total := total + blocks[i].Bytes();
      assert blocks[..i + 1][..i] == blocks[..i];
    }
    assert blocks[..|blocks|] == blocks;
  }

  lemma {:induction false} MeasureAppend(a: seq<Block>, b: seq<Block>)
    ensures Measure(a + b) == Measure(a) + Measure(b)
  {
    if b == [] {
      assert a + b == a;
    } else {
      MeasureAppend(a, b[..|b| - 1]);
      assert (a + b)[..|a + b| - 1] == a + b[..|b| - 1];
    }
  }

  lemma MeasureOne(b: Block)
    ensures Measure([b]) == b.Bytes()
  {
    assert [b][..0] == [];
  }

  // --- Redacting the blocks ---------------------------------------------------------------

  function RedactBlock(ps: seq<Pattern>, b: Block): Block {
    if b.TextContent? && Redacted(ps, b.text) != b.text then TextContent(Redacted(ps, b.text), "") else b
  }

  function RedactBlocks(ps: seq<Pattern>, blocks: seq<Block>): seq<Block> {
    seq(|blocks|, i requires 0 <= i < |blocks| => RedactBlock(ps, blocks[i]))
  }

  function Texts(blocks: seq<Block>): seq<string> {
    if blocks == [] then []
    else
      var last := blocks[|blocks| - 1];
      Texts(blocks[..|blocks| - 1]) + if last.HasText() then [last.text] else []
  }

  function StructuredLeaves(structured: Option<Json>): seq<string> {
    match structured
    case None => []
    case Some(v) => Leaves(v)
  }

  /** Structured content first, then the text blocks in order. */
  function AllTexts(r: ToolResult): seq<string> {
    StructuredLeaves(r.structured) + Texts(r.content)
  }

  function RedactStructuredContent(ps: seq<Pattern>, structured: Option<Json>): Option<Json> {
    match structured
    case None => None
    case Some(v) => Some(RedactJson(ps, v))
  }

  function AfterRedaction(r: ToolResult, c: Config): ToolResult {
    if !c.redact then r
    else r.(content := RedactBlocks(c.patterns, r.content),
            structured := RedactStructuredContent(c.patterns, r.structured))
  }

  /** The size the limit is compared with. It is taken again after redaction only when there are blocks. */
  function TotalBytes(r: ToolResult, c: Config): nat {
    WireBytes(if r.content == [] then r else AfterRedaction(r, c), c.dumped)
  }

  // --- Truncating ----------------------------------------------------------------------------

  function CutText(text: string, room: nat): string
    requires room <= |Encode(text)|
  {
    Decode(Encode(text)[..room])
  }

  /** What the walk emits from `blocks` when `used` bytes of `cap` are taken. */
  function Truncate(blocks: seq<Block>, used: nat, cap: nat, sentinel: string): seq<Block>
    requires used <= cap
  {
    if blocks == [] then []
    else if used + blocks[0].Bytes() <= cap then
      [blocks[0]] + Truncate(blocks[1..], used + blocks[0].Bytes(), cap, sentinel)
    else if !blocks[0].HasText() then Truncate(blocks[1..], used, cap, sentinel)
    else [TextContent(CutText(blocks[0].text, cap - used) + sentinel, "")]
  }

  function Truncated(r: ToolResult, c: Config): ToolResult {
    var total := TotalBytes(r, c);
    r.(content := Truncate(AfterRedaction(r, c).content, 0, EffectiveCap(c.limit, total), Sentinel(total)),
       structured := None)
  }

  function Capped(r: ToolResult, c: Config): ToolResult {
    if TotalBytes(r, c) <= c.limit then AfterRedaction(r, c) else Truncated(r, c)
  }

  function Reported(r: ToolResult, c: Config): Metadata {
    Metadata(
      TotalBytes(r, c),
      TotalBytes(r, c) > c.limit,
      if c.redact then HitsOfAll(c.patterns, AllTexts(r)) else map[],
      TotalBytes(r, c) > c.limit && r.structured.Some?)
  }

  // --- The operation ------------------------------------------------------------------------

  method RedactContent(ps: seq<Pattern>, blocks: seq<Block>, counts: RedactionCounts)
    returns (newBlocks: seq<Block>, changed: bool)
    modifies counts
    ensures newBlocks == RedactBlocks(ps, blocks)
    ensures changed <==> newBlocks != blocks
    ensures counts.hits == Merge(old(counts.hits), HitsOfAll(ps, Texts(blocks)))
  {
    hide Merge, HitsOfAll, RedactText;
    newBlocks, changed := [], false;
    NoLeaves(ps, counts.hits);
    for i := 0 to |blocks|
      invariant |newBlocks| == i && forall j :: 0 <= j < i ==> newBlocks[j] == RedactBlock(ps, blocks[j])
      invariant changed <==> exists j :: 0 <= j < i && newBlocks[j] != blocks[j]
      invariant counts.hits == Merge(old(counts.hits), HitsOfAll(ps, Texts(blocks[..i])))
    {
      assert blocks[..i + 1][..i] == blocks[..i];
      var block := blocks[i];
      if !block.HasText() {
        newBlocks := newBlocks + [block];
        assert Texts(blocks[..i + 1]) == Texts(blocks[..i]);
        continue;
      }
      var redacted, found := RedactSecrets(ps, block.text);
      counts.Add(found);
      AddLeaves(ps, old(counts.hits), Texts(blocks[..i]), [block.text]);
      HitsOfOne(ps, block.text);
      assert Texts(blocks[..i + 1]) == Texts(blocks[..i]) + [block.text];
      if redacted != block.text && block.TextContent? {
        newBlocks := newBlocks + [TextContent(redacted, "")];
        changed := true;
        assert newBlocks[i] != blocks[i];
      } else {
        newBlocks := newBlocks + [block];
      }
    }
    assert blocks[..|blocks|] == blocks;
  }

  lemma HitsOfOne(ps: seq<Pattern>, text: string)
    ensures HitsOfAll(ps, [text]) == RedactText(ps, text).1
  {
    assert [text][1..] == [];
  }

  lemma EmptyCut(text: string)
    ensures CutText(text, 0) == ""
  {
  }

  lemma TruncateKeeps(blocks: seq<Block>, i: nat, used: nat, cap: nat, sentinel: string, out: seq<Block>)
    requires i < |blocks| && used + blocks[i].Bytes() <= cap
    ensures out + Truncate(blocks[i..], used, cap, sentinel)
         == (out + [blocks[i]]) + Truncate(blocks[i + 1..], used + blocks[i].Bytes(), cap, sentinel)
  {
    assert blocks[i..][0] == blocks[i] && blocks[i..][1..] == blocks[i + 1..];
    var rest := Truncate(blocks[i + 1..], used + blocks[i].Bytes(), cap, sentinel);
    assert out + ([blocks[i]] + rest) == (out + [blocks[i]]) + rest;
  }

  lemma TruncateDrops(blocks: seq<Block>, i: nat, used: nat, cap: nat, sentinel: string)
    requires i < |blocks| && used <= cap < used + blocks[i].Bytes() && !blocks[i].HasText()
    ensures Truncate(blocks[i..], used, cap, sentinel) == Truncate(blocks[i + 1..], used, cap, sentinel)
  {
    assert blocks[i..][0] == blocks[i] && blocks[i..][1..] == blocks[i + 1..];
  }

  lemma TruncateCuts(blocks: seq<Block>, i: nat, used: nat, cap: nat, sentinel: string)
    requires i < |blocks| && used <= cap < used + blocks[i].Bytes() && blocks[i].HasText()
    ensures Truncate(blocks[i..], used, cap, sentinel)
         == [TextContent(CutText(blocks[i].text, cap - used) + sentinel, "")]
  {
    assert blocks[i..][0] == blocks[i];
  }

  lemma MeasureOneMore(out: seq<Block>, b: Block)
    ensures Measure(out + [b]) == Measure(out) + b.Bytes()
  {
    MeasureAppend(out, [b]);
    MeasureOne(b);
  }

  /** Everything but the cut block, and everything when nothing is cut, stays within the cap. */
  method TruncateBlocks(blocks: seq<Block>, cap: nat, sentinel: string) returns (out: seq<Block>)
    ensures out == Truncate(blocks, 0, cap, sentinel)
    ensures Measure(out) <= cap || (out != [] && Measure(out[..|out| - 1]) <= cap)
  {
    hide Encode, Decode, Truncate, Measure;
    out := [];
    var used := 0;
    assert Measure(out) == 0 by { MeasureNothing(); }
    assert blocks[0..] == blocks && [] + Truncate(blocks, 0, cap, sentinel) == Truncate(blocks, 0, cap, sentinel);
    for i := 0 to |blocks|
      invariant used == Measure(out) <= cap
      invariant out + Truncate(blocks[i..], used, cap, sentinel) == Truncate(blocks, 0, cap, sentinel)
    {
      var block := blocks[i];
      if !block.HasText() {
        if used + block.Bytes() <= cap {
          TruncateKeeps(blocks, i, used, cap, sentinel, out);
          MeasureOneMore(out, block);
          out := out + [block];
          used := used + block.Bytes();
        } else {
          TruncateDrops(blocks, i, used, cap, sentinel);
        }
        continue;
      }
      var textBytes := Encode(block.text);
      if used + |textBytes| <= cap {
        TruncateKeeps(blocks, i, used, cap, sentinel, out);
        MeasureOneMore(out, block);
        out := out + [block];
        used := used + |textBytes|;
        continue;
      }
      TruncateCuts(blocks, i, used, cap, sentinel);
      ghost var before := out;
      var room := cap - used;
      if room > 0 {
        out := out + [TextContent(Decode(textBytes[..room]) + sentinel, "")];
      } else {
        EmptyCut(block.text);
        assert "" + sentinel == sentinel;
        out := out + [TextContent(sentinel, "")];
      }
      assert out[..|out| - 1] == before;
      return;
    }
    assert blocks[|blocks|..] == [];
    TruncateNothing(used, cap, sentinel);
    assert out + [] == out;
  }

  lemma MeasureNothing()
    ensures Measure([]) == 0
  {
  }

  lemma TruncateNothing(used: nat, cap: nat, sentinel: string)
    requires used <= cap
    ensures Truncate([], used, cap, sentinel) == []
  {
  }

  lemma MergeNothing(ps: seq<Pattern>, texts: seq<string>)
    ensures Merge(map[], HitsOfAll(ps, texts)) == HitsOfAll(ps, texts) == Merge(HitsOfAll(ps, texts), HitsOfAll(ps, []))
    ensures HitsOfAll(ps, []) == map[]
  {
  }

  method CapCallToolResult(result: ToolResult, c: Config) returns (capped: ToolResult, metadata: Metadata)
    ensures capped == Capped(result, c)
    ensures metadata == Reported(result, c)
  {
    hide Encode, Sentinel, Merge, HitsOfAll, RedactJson, Truncate;
    var blocks, structured, changed := result.content, result.structured, false;
    var measured := MeasureResponseBytes(blocks);
    var total := measured + StructuredBytes(structured, c.dumped);
    var counts := new RedactionCounts();
    if c.redact && structured.Some? {
      var redacted := RedactStructured(c.patterns, structured.value, counts);
      if redacted != structured.value {
        structured := Some(redacted);
        changed := true;
      }
    }
    MergeNothing(c.patterns, StructuredLeaves(result.structured));
    assert counts.hits == if c.redact then HitsOfAll(c.patterns, StructuredLeaves(result.structured)) else map[];
    if c.redact && blocks != [] {
      var blocksChanged;
      blocks, blocksChanged := RedactContent(c.patterns, blocks, counts);
      changed := changed || blocksChanged;
      measured := MeasureResponseBytes(blocks);
      total := measured + StructuredBytes(structured, c.dumped);
    }
    assert blocks == AfterRedaction(result, c).content && structured == AfterRedaction(result, c).structured;
    assert total == TotalBytes(result, c);
    if c.redact {
      HitsAppend(c.patterns, StructuredLeaves(result.structured), Texts(result.content));
    }
    metadata := Metadata(total, false, counts.hits, false);
    if total <= c.limit {
      if !changed {
        return result, metadata;
      }
      return result.(content := blocks, structured := structured), metadata;
    }
    var out := TruncateBlocks(blocks, EffectiveCap(c.limit, total), Sentinel(total));
    metadata := metadata.(truncated := true, structuredDropped := structured.Some?);
    capped := result.(content := out, structured := None);
  }

  // --- Where the walk stops -------------------------------------------------------------------

  /** Fits: every text is kept. Cut: the text at `at` is the first that does not fit, with `room` bytes left for it. */
  datatype Stop = Fits(kept: nat) | Cut(at: nat, room: nat)

  function StopOf(blocks: seq<Block>, used: nat, cap: nat): (s: Stop)
    requires used <= cap
    ensures s.Cut? ==> s.at < |blocks| && blocks[s.at].HasText() && s.room <= cap - used
    ensures s.Cut? ==> s.room < |Encode(blocks[s.at].text)|
    ensures s.Fits? ==> used <= s.kept <= cap
  {
    if blocks == [] then Fits(used)
    else if used + blocks[0].Bytes() > cap && blocks[0].HasText() then Cut(0, cap - used)
    else
      match StopOf(blocks[1..], if used + blocks[0].Bytes() <= cap then used + blocks[0].Bytes() else used, cap)
      case Cut(at, room) => Cut(at + 1, room)
      case Fits(kept) => Fits(kept)
  }

  /** The exact size of what the walk emits. */
  lemma {:induction false} TruncateSize(blocks: seq<Block>, used: nat, cap: nat, sentinel: string)
    requires used <= cap
    ensures used + Measure(Truncate(blocks, used, cap, sentinel))
         == EmittedBytes(blocks, StopOf(blocks, used, cap), cap, sentinel)
  {
    hide Encode, Decode, CutGrowth;
    if blocks != [] {
      var b := blocks[0];
      if used + b.Bytes() <= cap {
        TruncateSize(blocks[1..], used + b.Bytes(), cap, sentinel);
        MeasureCons(b, Truncate(blocks[1..], used + b.Bytes(), cap, sentinel));
      } else if !b.HasText() {
        TruncateSize(blocks[1..], used, cap, sentinel);
      } else {
        CutBlockSize(b.text, cap - used, sentinel);
      }
    }
  }

  function EmittedBytes(blocks: seq<Block>, stop: Stop, cap: nat, sentinel: string): nat
    requires stop.Cut? ==> stop.at < |blocks| && blocks[stop.at].HasText()
  {
    match stop
    case Fits(kept) => kept
    case Cut(at, room) => cap + |Encode(sentinel)| + CutGrowth(blocks[at].text, room)
  }

  lemma MeasureCons(b: Block, rest: seq<Block>)
    ensures Measure([b] + rest) == b.Bytes() + Measure(rest)
  {
    MeasureAppend([b], rest);
    MeasureOne(b);
  }

  lemma CutBlockSize(text: string, room: nat, sentinel: string)
    requires room <= |Encode(text)|
    ensures Measure([TextContent(CutText(text, room) + sentinel, "")])
         == room + |Encode(sentinel)| + CutGrowth(text, room)
  {
    MeasureOne(TextContent(CutText(text, room) + sentinel, ""));
    EncodeAppend(CutText(text, room), sentinel);
    CutSize(text, room);
  }
}
