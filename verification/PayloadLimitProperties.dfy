/** What the transit cap guarantees, stated about `Capped`, which `CapCallToolResult` is proved to compute. */
module PayloadLimitProperties {
  import opened Options
  import opened Redaction
  import opened Text
  import opened Utf8
  import opened PayloadLimits

  // --- The greedy selection ----------------------------------------------------------

  /** Bytes of the blocks before `i` whose positions are in `kept`. */
  function Taken(blocks: seq<Block>, kept: set<nat>, i: nat): nat
    requires i <= |blocks|
  {
    if i == 0 then 0 else Taken(blocks, kept, i - 1) + if i - 1 in kept then blocks[i - 1].Bytes() else 0
  }

  /** The blocks before `i` whose positions are in `kept`, in their order. */
  function Picked(blocks: seq<Block>, kept: set<nat>, i: nat): seq<Block>
    requires i <= |blocks|
  {
    if i == 0 then [] else Picked(blocks, kept, i - 1) + if i - 1 in kept then [blocks[i - 1]] else []
  }

  /** The walk in words. Before `end`, a block is kept exactly when it fits in what the kept blocks before it leave of
      the cap, and only binary blocks are dropped; `end` is the first text that does not fit, or the end of the list. */
  ghost predicate Greedy(blocks: seq<Block>, cap: nat, kept: set<nat>, end: nat) {
    && end <= |blocks|
    && (forall i :: i in kept ==> i < end)
    && KeepsWhatFits(blocks, cap, kept, end)
    && (forall i: nat :: i < end && i !in kept ==> !blocks[i].HasText())
    && (end < |blocks| ==> blocks[end].HasText())
    && (end < |blocks| ==> Taken(blocks, kept, end) <= cap < Taken(blocks, kept, end) + blocks[end].Bytes())
  }

  /** Every block before `end` is kept exactly when it fits beside the kept blocks before it. */
  predicate KeepsWhatFits(blocks: seq<Block>, cap: nat, kept: set<nat>, end: nat)
    requires end <= |blocks|
  {
    end == 0 ||
    (KeepsWhatFits(blocks, cap, kept, end - 1)
     && (end - 1 in kept <==> Taken(blocks, kept, end - 1) + blocks[end - 1].Bytes() <= cap))
  }

  lemma {:induction false} TakenDependsOnPrefix(blocks: seq<Block>, a: set<nat>, b: set<nat>, i: nat)
    requires i <= |blocks| && forall j: nat :: j < i ==> (j in a <==> j in b)
    ensures Taken(blocks, a, i) == Taken(blocks, b, i) && Picked(blocks, a, i) == Picked(blocks, b, i)
  {
    if i > 0 {
      TakenDependsOnPrefix(blocks, a, b, i - 1);
    }
  }

  /** At most one selection is greedy. */
  lemma GreedyIsUnique(blocks: seq<Block>, cap: nat, a: set<nat>, endA: nat, b: set<nat>, endB: nat)
    requires Greedy(blocks, cap, a, endA) && Greedy(blocks, cap, b, endB)
    ensures a == b && endA == endB
  {
    hide Encode;
    var least := if endA <= endB then endA else endB;
    GreedyUpTo(blocks, cap, a, endA, least);
    GreedyUpTo(blocks, cap, b, endB, least);
    GreedyAgree(blocks, cap, a, b, least);
    TakenDependsOnPrefix(blocks, a, b, least);
    if endA < endB {
      GreedyUpTo(blocks, cap, b, endB, endA + 1);
    } else if endB < endA {
      GreedyUpTo(blocks, cap, a, endA, endB + 1);
    }
    assert forall i :: i in a <==> i in b;
  }

  lemma {:induction false} GreedyUpTo(blocks: seq<Block>, cap: nat, kept: set<nat>, end: nat, n: nat)
    requires n <= end <= |blocks| && KeepsWhatFits(blocks, cap, kept, end)
    ensures KeepsWhatFits(blocks, cap, kept, n)
    decreases end
  {
    if n < end {
      GreedyUpTo(blocks, cap, kept, end - 1, n);
    }
  }

  lemma {:induction false} GreedyAgree(blocks: seq<Block>, cap: nat, a: set<nat>, b: set<nat>, n: nat)
    requires n <= |blocks| && KeepsWhatFits(blocks, cap, a, n) && KeepsWhatFits(blocks, cap, b, n)
    ensures forall i: nat :: i < n ==> (i in a <==> i in b)
  {
    if n > 0 {
      GreedyAgree(blocks, cap, a, b, n - 1);
      TakenDependsOnPrefix(blocks, a, b, n - 1);
    }
  }

  /** The block that the first overflowing text is cut down to: a proper prefix of the text, a U+FFFD when the cut fell
      inside a character, and the sentinel. */
  function CutBlock(text: string, room: nat, sentinel: string): Block {
    TextContent(text[..WholeChars(text, room)] + Broken(Leftover(text, room)) + sentinel, "")
  }

  function Emitted(blocks: seq<Block>, cap: nat, kept: set<nat>, end: nat, sentinel: string): seq<Block>
    requires end <= |blocks|
    requires end < |blocks| ==> blocks[end].HasText() && Taken(blocks, kept, end) <= cap
  {
    Picked(blocks, kept, end)
    + if end == |blocks| then [] else [CutBlock(blocks[end].text, cap - Taken(blocks, kept, end), sentinel)]
  }

  /** Truncation emits the greedy selection, verbatim and in order, followed by the cut block when some text did not
      fit, and nothing else. */
  lemma TruncateIsGreedy(blocks: seq<Block>, cap: nat, sentinel: string)
    ensures exists kept: set<nat>, end: nat ::
              Greedy(blocks, cap, kept, end)
              && Truncate(blocks, 0, cap, sentinel) == Emitted(blocks, cap, kept, end, sentinel)
  {
    var kept, end := Walk(blocks, cap, sentinel, {}, 0, 0);
    assert blocks[0..] == blocks;
  }

  /** After the blocks that were kept comes one more, and its text ends in the sentinel. */
  predicate EndsInSentinel(out: seq<Block>, kept: seq<Block>, sentinel: string) {
    && |out| == |kept| + 1 && out[..|kept|] == kept
    && out[|kept|].TextContent? && EndsWith(out[|kept|].text, sentinel)
  }

  /** Some text block exceeds the cap beside the blocks that are kept before it. */
  predicate TextOverflows(blocks: seq<Block>, cap: nat, kept: set<nat>) {
    exists i: nat :: i < |blocks| && blocks[i].HasText() && Taken(blocks, kept, i) + blocks[i].Bytes() > cap
  }

  /** The output ends in a block of its own with the sentinel if and only if some text overflows; otherwise it is just
      the kept blocks. */
  lemma SentinelExactlyWhenTextOverflows(blocks: seq<Block>, cap: nat, sentinel: string, kept: set<nat>, end: nat)
    requires Greedy(blocks, cap, kept, end)
    ensures var out := Truncate(blocks, 0, cap, sentinel);
            && (EndsInSentinel(out, Picked(blocks, kept, end), sentinel) <==> TextOverflows(blocks, cap, kept))
            && (!TextOverflows(blocks, cap, kept) ==> out == Picked(blocks, kept, end))
            && (StopOf(blocks, 0, cap).Cut? <==> TextOverflows(blocks, cap, kept))
  {
    hide Greedy, Truncate, StopOf, Encode, TextOverflows;
    TruncateEmits(blocks, cap, sentinel, kept, end);
    OverflowExactly(blocks, cap, kept, end);
    EmittedEnd(blocks, cap, kept, end, sentinel);
  }

  lemma TruncateEmits(blocks: seq<Block>, cap: nat, sentinel: string, kept: set<nat>, end: nat)
    requires Greedy(blocks, cap, kept, end)
    ensures Truncate(blocks, 0, cap, sentinel) == Emitted(blocks, cap, kept, end, sentinel)
    ensures StopOf(blocks, 0, cap).Cut? <==> end < |blocks|
  {
    hide Truncate, StopOf, Encode, Emitted;
    var others, otherEnd := Walk(blocks, cap, sentinel, {}, 0, 0);
    GreedyIsUnique(blocks, cap, kept, end, others, otherEnd);
    assert blocks[0..] == blocks && Picked(blocks, {}, 0) == [];
    assert [] + Truncate(blocks, 0, cap, sentinel) == Truncate(blocks, 0, cap, sentinel);
  }

  lemma OverflowExactly(blocks: seq<Block>, cap: nat, kept: set<nat>, end: nat)
    requires Greedy(blocks, cap, kept, end)
    ensures TextOverflows(blocks, cap, kept) <==> end < |blocks|
  {
    hide Encode, KeepsWhatFits;
    if end == |blocks| {
      forall i: nat | i < |blocks| && blocks[i].HasText() ensures Taken(blocks, kept, i) + blocks[i].Bytes() <= cap {
        TextFits(blocks, cap, kept, end, i);
      }
    }
  }

  lemma EmittedEnd(blocks: seq<Block>, cap: nat, kept: set<nat>, end: nat, sentinel: string)
    requires Greedy(blocks, cap, kept, end)
    ensures EndsInSentinel(Emitted(blocks, cap, kept, end, sentinel), Picked(blocks, kept, end), sentinel)
       <==> end < |blocks|
    ensures end == |blocks| ==> Emitted(blocks, cap, kept, end, sentinel) == Picked(blocks, kept, end)
  {
    hide Encode, Picked, KeepsWhatFits;
    if end < |blocks| {
      var cut := CutBlock(blocks[end].text, cap - Taken(blocks, kept, end), sentinel);
      assert (Picked(blocks, kept, end) + [cut])[..|Picked(blocks, kept, end)|] == Picked(blocks, kept, end);
      assert cut.text[|cut.text| - |sentinel|..] == sentinel;
    }
  }

  lemma TextFits(blocks: seq<Block>, cap: nat, kept: set<nat>, end: nat, i: nat)
    requires Greedy(blocks, cap, kept, end) && i < end && blocks[i].HasText()
    ensures Taken(blocks, kept, i) + blocks[i].Bytes() <= cap
  {
    GreedyUpTo(blocks, cap, kept, end, i + 1);
  }

  lemma {:induction false} Walk(blocks: seq<Block>, cap: nat, sentinel: string, before: set<nat>, i: nat, used: nat)
    returns (kept: set<nat>, end: nat)
    requires i <= |blocks| && used == Taken(blocks, before, i) <= cap
    requires forall j :: j in before ==> j < i
    requires KeepsWhatFits(blocks, cap, before, i)
    requires forall j: nat :: j < i && j !in before ==> !blocks[j].HasText()
    ensures Greedy(blocks, cap, kept, end)
    ensures Picked(blocks, before, i) + Truncate(blocks[i..], used, cap, sentinel)
         == Emitted(blocks, cap, kept, end, sentinel)
    ensures StopOf(blocks[i..], used, cap).Cut? <==> end < |blocks|
    decreases |blocks| - i
  {
    if i < |blocks| && (used + blocks[i].Bytes() <= cap || !blocks[i].HasText()) {
      hide Encode, Truncate, StopOf, Emitted, Greedy, KeepsWhatFits;
      var more, taken := WalkStep(blocks, cap, sentinel, before, i, used);
      kept, end := Walk(blocks, cap, sentinel, more, i + 1, taken);
    } else {
      kept, end := before, i;
      WalkEnd(blocks, cap, sentinel, before, i, used);
    }
  }

  /** The walk is over at the first text that does not fit, or at the end of the list. */
  lemma WalkEnd(blocks: seq<Block>, cap: nat, sentinel: string, kept: set<nat>, i: nat, used: nat)
    requires i <= |blocks| && used == Taken(blocks, kept, i) <= cap
    requires i < |blocks| ==> blocks[i].HasText() && used + blocks[i].Bytes() > cap
    ensures Picked(blocks, kept, i) + Truncate(blocks[i..], used, cap, sentinel)
         == Emitted(blocks, cap, kept, i, sentinel)
    ensures StopOf(blocks[i..], used, cap).Cut? <==> i < |blocks|
  {
    hide Encode, Decode, Picked;
    if i < |blocks| {
      assert blocks[i..][0] == blocks[i];
      DecodeCut(blocks[i].text, cap - used);
    }
  }

  /** One step of the walk over a block that is kept or dropped. */
  lemma WalkStep(blocks: seq<Block>, cap: nat, sentinel: string, kept: set<nat>, i: nat, used: nat)
    returns (more: set<nat>, taken: nat)
    requires i < |blocks| && used == Taken(blocks, kept, i) <= cap
    requires forall j :: j in kept ==> j < i
    requires KeepsWhatFits(blocks, cap, kept, i)
    requires used + blocks[i].Bytes() <= cap || !blocks[i].HasText()
    ensures more == if used + blocks[i].Bytes() <= cap then kept + {i} else kept
    ensures taken == Taken(blocks, more, i + 1) <= cap && KeepsWhatFits(blocks, cap, more, i + 1)
    ensures Picked(blocks, more, i + 1) + Truncate(blocks[i + 1..], taken, cap, sentinel)
         == Picked(blocks, kept, i) + Truncate(blocks[i..], used, cap, sentinel)
    ensures StopOf(blocks[i + 1..], taken, cap).Cut? == StopOf(blocks[i..], used, cap).Cut?
  {
    hide Truncate, StopOf, Encode;
    more, taken := kept, used;
    StopStep(blocks, i, used, cap);
    if used + blocks[i].Bytes() <= cap {
      more, taken := kept + {i}, used + blocks[i].Bytes();
      KeepOne(blocks, cap, kept, i);
      TruncateKeeps(blocks, i, used, cap, sentinel, Picked(blocks, kept, i));
    } else {
      TruncateDrops(blocks, i, used, cap, sentinel);
      assert Picked(blocks, kept, i + 1) == Picked(blocks, kept, i);
    }
  }

  lemma StopStep(blocks: seq<Block>, i: nat, used: nat, cap: nat)
    requires i < |blocks| && used <= cap && (used + blocks[i].Bytes() <= cap || !blocks[i].HasText())
    ensures var taken := if used + blocks[i].Bytes() <= cap then used + blocks[i].Bytes() else used;
            StopOf(blocks[i + 1..], taken, cap).Cut? == StopOf(blocks[i..], used, cap).Cut?
  {
    assert blocks[i..][0] == blocks[i] && blocks[i..][1..] == blocks[i + 1..];
  }

  lemma KeepOne(blocks: seq<Block>, cap: nat, kept: set<nat>, i: nat)
    requires i < |blocks| && KeepsWhatFits(blocks, cap, kept, i)
    requires forall j :: j in kept ==> j < i
    requires Taken(blocks, kept, i) + blocks[i].Bytes() <= cap
    ensures KeepsWhatFits(blocks, cap, kept + {i}, i + 1)
    ensures Taken(blocks, kept + {i}, i) == Taken(blocks, kept, i)
    ensures Picked(blocks, kept + {i}, i + 1) == Picked(blocks, kept, i) + [blocks[i]]
  {
    KeepsSame(blocks, cap, kept, kept + {i}, i);
    TakenDependsOnPrefix(blocks, kept, kept + {i}, i);
  }

  lemma {:induction false} KeepsSame(blocks: seq<Block>, cap: nat, a: set<nat>, b: set<nat>, n: nat)
    requires n <= |blocks| && KeepsWhatFits(blocks, cap, a, n)
    requires forall i: nat :: i < n ==> (i in a <==> i in b)
    ensures KeepsWhatFits(blocks, cap, b, n)
  {
    if n > 0 {
      KeepsSame(blocks, cap, a, b, n - 1);
      TakenDependsOnPrefix(blocks, a, b, n - 1);
    }
  }

  predicate LastText(blocks: seq<Block>, i: nat) {
    i < |blocks| && blocks[i].HasText() && forall j :: i < j < |blocks| ==> !blocks[j].HasText()
  }

  /** The strategy is documented as truncating the last text block. The block that is cut is the last text, exactly when
      every text before the last one fits. */
  lemma CutIsLastTextExactly(blocks: seq<Block>, cap: nat, kept: set<nat>, end: nat)
    requires Greedy(blocks, cap, kept, end) && end < |blocks|
    ensures LastText(blocks, end)
       <==> forall i: nat :: i < |blocks| && blocks[i].HasText() && !LastText(blocks, i) ==>
              Taken(blocks, kept, i) + blocks[i].Bytes() <= cap
  {
    hide Encode, KeepsWhatFits;
    if LastText(blocks, end) {
      forall i: nat | i < |blocks| && blocks[i].HasText() && !LastText(blocks, i)
        ensures Taken(blocks, kept, i) + blocks[i].Bytes() <= cap
      {
        TextFits(blocks, cap, kept, end, i);
      }
    }
  }

  /** Otherwise texts are lost that would have fitted: of two texts of which the first does not fit, the second is
      dropped whatever its size. */
  lemma LaterTextIsDropped(first: string, second: string, c: Config)
    requires !c.redact
    requires var r := ToolResult([TextContent(first, ""), TextContent(second, "")], false, None, None);
             TotalBytes(r, c) > c.limit && |Encode(first)| > EffectiveCap(c.limit, TotalBytes(r, c))
    ensures var r := ToolResult([TextContent(first, ""), TextContent(second, "")], false, None, None);
            var total := TotalBytes(r, c);
            Capped(r, c).content
              == [TextContent(CutText(first, EffectiveCap(c.limit, total)) + Sentinel(total), "")]
  {
    hide Encode, Decode, Sentinel;
  }

  /** The sentinel can be missing: when the blocks fit beside it and only their structured copy makes the result too
      large, the copy is dropped, the blocks leave as they were, and only the metadata tells. */
  lemma SilentTruncation(r: ToolResult, c: Config)
    requires !c.redact && TotalBytes(r, c) > c.limit
    requires Measure(r.content) <= EffectiveCap(c.limit, TotalBytes(r, c))
    ensures Capped(r, c) == r.(structured := None)
    ensures Reported(r, c).truncated
  {
    hide Encode, Sentinel, Truncate;
    var total := TotalBytes(r, c);
    NothingToCut(r.content, 0, EffectiveCap(c.limit, total), Sentinel(total));
  }

  // --- Size ------------------------------------------------------------------------------

  function Max(a: int, b: int): int {
    if a < b then b else a
  }

  function StopFor(r: ToolResult, c: Config): (s: Stop)
    ensures s.Cut? ==> s.at < |AfterRedaction(r, c).content| && AfterRedaction(r, c).content[s.at].HasText()
  {
    StopOf(AfterRedaction(r, c).content, 0, EffectiveCap(c.limit, TotalBytes(r, c)))
  }

  /** Extra bytes from the one cut: 0, 1 or 2. */
  function Growth(r: ToolResult, c: Config): nat {
    match StopFor(r, c)
    case Fits(_) => 0
    case Cut(at, room) => CutGrowth(AfterRedaction(r, c).content[at].text, room)
  }

  /** The exact size of a truncated result. */
  lemma TruncatedSize(r: ToolResult, c: Config)
    ensures StopFor(r, c).Fits? ==> WireBytes(Truncated(r, c), c.dumped) == StopFor(r, c).kept
    ensures StopFor(r, c).Cut? ==>
      WireBytes(Truncated(r, c), c.dumped) == Max(c.limit, SentinelBytes(TotalBytes(r, c))) + Growth(r, c)
    ensures Growth(r, c) <= 2
  {
    var total := TotalBytes(r, c);
    TruncateSize(AfterRedaction(r, c).content, 0, EffectiveCap(c.limit, total), Sentinel(total));
    if StopFor(r, c).Cut? {
      CutSize(AfterRedaction(r, c).content[StopFor(r, c).at].text, StopFor(r, c).room);
    }
  }

  /** Whether the size that is compared with the limit is the size after redaction. */
  predicate TotalIsCurrent(r: ToolResult, c: Config) {
    !c.redact || r.content != []
  }

  /** A result that was compared with the limit before redaction, passed, and was then changed. */
  predicate OutgrowsComparison(r: ToolResult, c: Config, bound: int) {
    TotalBytes(r, c) <= c.limit && !TotalIsCurrent(r, c)
      && StructuredBytes(RedactStructuredContent(c.patterns, r.structured), c.dumped) > bound
  }

  /** What leaves untruncated has the size that was compared, or else the size of its redacted structured content. */
  lemma UntruncatedSize(r: ToolResult, c: Config)
    requires TotalBytes(r, c) <= c.limit
    ensures WireBytes(Capped(r, c), c.dumped)
         == if TotalIsCurrent(r, c) then TotalBytes(r, c)
            else StructuredBytes(RedactStructuredContent(c.patterns, r.structured), c.dumped)
  {
    hide Encode, RedactJson, RedactBlock;
    if r.content == [] {
      assert RedactBlocks(c.patterns, r.content) == [];
    }
  }

  /** A result leaves with at most max(limit, sentinel) + 2 bytes, always when it is truncated, and otherwise if and
      only if redaction has not made it outgrow the comparison. */
  lemma SizeBound(r: ToolResult, c: Config)
    ensures var bound := Max(c.limit, SentinelBytes(TotalBytes(r, c))) + 2;
            WireBytes(Capped(r, c), c.dumped) <= bound <==> !OutgrowsComparison(r, c, bound)
  {
    hide Encode, RedactJson;
    TruncatedSize(r, c);
    if TotalBytes(r, c) <= c.limit { UntruncatedSize(r, c); }
  }

  predicate MeetsLimit(r: ToolResult, c: Config) {
    if TotalBytes(r, c) <= c.limit then !OutgrowsComparison(r, c, c.limit)
    else if StopFor(r, c).Fits? then 0 <= c.limit
    else SentinelBytes(TotalBytes(r, c)) <= c.limit && Growth(r, c) == 0
  }

  /** The documented cap, exactly, for every result. One that passes the comparison leaves within the limit if and
      only if redaction does not make it outgrow the comparison. One that is truncated does if and only if no text had
      to be cut, or the sentinel fits in the limit and the cut did not turn one or two bytes of a character into
      U+FFFD. */
  lemma WithinLimitExactly(r: ToolResult, c: Config)
    ensures WireBytes(Capped(r, c), c.dumped) <= c.limit <==> MeetsLimit(r, c)
  {
    hide Encode, RedactJson;
    TruncatedSize(r, c);
    if TotalBytes(r, c) <= c.limit { UntruncatedSize(r, c); }
  }

  /** The same for a result without content blocks while redaction is on, in terms of its structured content alone. */
  lemma StructuredOnlyExactly(r: ToolResult, c: Config)
    requires c.redact && r.content == []
    ensures WireBytes(Capped(r, c), c.dumped) <= c.limit
       <==> if StructuredBytes(r.structured, c.dumped) > c.limit then 0 <= c.limit
            else StructuredBytes(RedactStructuredContent(c.patterns, r.structured), c.dumped) <= c.limit
  {
    hide Encode, RedactJson;
    WithinLimitExactly(r, c);
    assert RedactBlocks(c.patterns, r.content) == [];
  }

  /** For ASCII texts and a limit not smaller than the sentinel, only redaction after the comparison can exceed it. */
  lemma AsciiWithinLimit(r: ToolResult, c: Config)
    requires forall b :: b in AfterRedaction(r, c).content && b.HasText() ==>
      forall i :: 0 <= i < |b.text| ==> b.text[i] < '\U{80}'
    requires SentinelBytes(TotalBytes(r, c)) <= c.limit
    ensures WireBytes(Capped(r, c), c.dumped) <= c.limit <==> !OutgrowsComparison(r, c, c.limit)
  {
    hide Encode, RedactJson;
    WithinLimitExactly(r, c);
    if StopFor(r, c).Cut? {
      Ascii(AfterRedaction(r, c).content[StopFor(r, c).at].text, StopFor(r, c).room);
    }
  }

  function Ellipses(n: nat): string {
    seq(n, i => '\U{2026}')
  }

  lemma {:induction false} EllipsesSize(n: nat)
    ensures |Encode(Ellipses(n))| == 3 * n
  {
    if n > 0 {
      EllipsesSize(n - 1);
      assert Ellipses(n)[1..] == Ellipses(n - 1);
    }
  }

  /** The two extra bytes do occur: one text of n three-byte characters under a limit of sentinel + 1 bytes. */
  lemma BoundIsTight(n: nat, c: Config)
    requires n >= 1 && !c.redact
    requires c.limit == SentinelBytes(3 * n) + 1 < 3 * n
    ensures WireBytes(Capped(ToolResult([TextContent(Ellipses(n), "")], false, None, None), c), c.dumped) == c.limit + 2
  {
    var b := TextContent(Ellipses(n), "");
    var r := ToolResult([b], false, None, None);
    EllipsesSize(n);
    MeasureOne(b);
    assert StopOf(r.content, 0, 1) == Cut(0, 1);
    TruncatedSize(r, c);
  }

  function MaskPattern(secret: string, mask: string): Pattern {
    Pattern("secret", t => if t == secret then (mask, 1) else (t, 0))
  }

  /** The failure does occur: an object whose one string is a secret passes the comparison, and leaves over the limit
      and not marked as truncated when the replacement makes its JSON text longer than the limit. (A 20-character
      access key is replaced by the 25 characters of its label.) */
  lemma StaleTotal(key: string, secret: string, mask: string, c: Config)
    requires c.redact && c.patterns == [MaskPattern(secret, mask)]
    requires c.dumped(JObject([Member(key, JString(secret))])) <= c.limit
    requires c.limit < c.dumped(JObject([Member(key, JString(mask))]))
    ensures var r := ToolResult([], false, Some(JObject([Member(key, JString(secret))])), None);
            && Capped(r, c) == r.(structured := Some(JObject([Member(key, JString(mask))])))
            && WireBytes(Capped(r, c), c.dumped) > c.limit && !Reported(r, c).truncated
  {
    var ps := c.patterns;
    assert ps[..0] == [];
    assert RedactText([], secret) == (secret, map[]);
    assert ps[0].subn(secret) == (mask, 1);
    assert Redacted(ps, secret) == mask;
    var v := JObject([Member(key, JString(secret))]);
    assert RedactJson(ps, v).members == [Member(key, JString(mask))];
    assert RedactBlocks(ps, []) == [];
  }

  // --- No sentinel ---------------------------------------------------------------------

  /** Content that fits beside the sentinel is passed whole even when the structured copy made the result too large:
      the result then counts as truncated and yet carries no sentinel. */
  lemma {:induction false} NothingToCut(blocks: seq<Block>, used: nat, cap: nat, sentinel: string)
    requires used + Measure(blocks) <= cap
    ensures Truncate(blocks, used, cap, sentinel) == blocks
    ensures StopOf(blocks, used, cap).Fits?
  {
    if blocks != [] {
      assert blocks == [blocks[0]] + blocks[1..];
      MeasureCons(blocks[0], blocks[1..]);
      NothingToCut(blocks[1..], used + blocks[0].Bytes(), cap, sentinel);
    }
  }

  // --- What redaction reaches ------------------------------------------------------------------

  /** Every text leaves as its redaction if and only if redaction changes no text of a block that merely looks like
      text: such a block is scanned and counted, but handed on as it was. */
  lemma RedactionReaches(r: ToolResult, c: Config)
    requires c.redact
    ensures (forall i :: 0 <= i < |r.content| && r.content[i].HasText() ==>
              AfterRedaction(r, c).content[i].HasText()
              && AfterRedaction(r, c).content[i].text == Redacted(c.patterns, r.content[i].text))
       <==> (forall i :: 0 <= i < |r.content| && r.content[i].TextLike? ==>
              Redacted(c.patterns, r.content[i].text) == r.content[i].text)
  {
    var after := AfterRedaction(r, c).content;
    forall i | 0 <= i < |r.content| && r.content[i].TextLike? ensures after[i] == r.content[i] {
    }
  }

  /** Such a block: its secret is counted, and leaves all the same. */
  lemma TextLikeLeaks(secret: string, mask: string, extras: string, c: Config)
    requires c.redact && c.patterns == [MaskPattern(secret, mask)]
    ensures var r := ToolResult([TextLike(secret, extras)], false, None, None);
            AfterRedaction(r, c) == r && Reported(r, c).redacted == map["secret" := 1]
  {
    var (ps, r) := (c.patterns, ToolResult([TextLike(secret, extras)], false, None, None));
    assert ps[..0] == [];
    assert RedactText([], secret) == (secret, map[]);
    assert ps[0].subn(secret) == (mask, 1);
    assert RedactText(ps, secret).1 == map["secret" := 1];
    assert r.content[..0] == [] && Texts([]) == [];
    assert Texts(r.content) == [secret] && AllTexts(r) == [secret];
    assert [secret][1..] == [] && HitsOfAll(ps, []) == map[];
    assert Merge(map["secret" := 1], map[]) == map["secret" := 1];
  }
}
