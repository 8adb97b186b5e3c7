/** What a second pass of the transit cap does to a result that has been capped, without redaction. */
module CappingTwice {
  import opened Options
  import opened Redaction
  import opened Text
  import opened Utf8
  import opened PayloadLimits
  import opened PayloadLimitProperties

  // --- Sentinels -------------------------------------------------------------------------

  lemma {:induction false} DigitsDiffer(m: nat, n: nat)
    requires Digits(m) == Digits(n)
    ensures m == n
  {
    var (d, e) := (Digits(m), Digits(n));
    assert d[|d| - 1] == ('0' as int + m % 10) as char && e[|e| - 1] == ('0' as int + n % 10) as char;
    if m >= 10 && n >= 10 {
      assert Digits(m / 10) == d[..|d| - 1] == e[..|e| - 1] == Digits(n / 10);
      DigitsDiffer(m / 10, n / 10);
    }
  }

  predicate Decimal(ds: string) {
    forall i :: 0 <= i < |ds| ==> '0' <= ds[i] <= '9'
  }

  /** The number that a row of decimal digits stands for. */
  function Number(ds: string): nat
    requires Decimal(ds)
  {
    if ds == "" then 0 else 10 * Number(ds[..|ds| - 1]) + (ds[|ds| - 1] as int - '0' as int)
  }

  lemma {:induction false} DigitsRead(n: nat)
    ensures Number(Digits(n)) == n
  {
    var ds := Digits(n);
    if n < 10 {
      assert ds[..|ds| - 1] == "";
    } else {
      DigitsRead(n / 10);
      assert ds[..|ds| - 1] == Digits(n / 10);
    }
  }

  /** The size of the whole result can be read from a sentinel, in decimal. */
  lemma SentinelStatesSize(total: nat)
    ensures exists ds :: Decimal(ds) && Number(ds) == total && EndsWith(Sentinel(total), " " + ds + " bytes]")
  {
    hide Sentinel, Digits, Number;
    var (s, d) := (Sentinel(total), Digits(total));
    DigitsRead(total);
    SentinelTail(total);
    SentinelEnd(total);
    assert s[|s| - |d| - 8..] == " " + d + " bytes]";
    assert Decimal(d);
  }

  lemma SentinelEnd(total: nat)
    ensures |Sentinel(total)| > 7 && Sentinel(total)[|Sentinel(total)| - 7..] == " bytes]"
  {
  }

  /** What a sentinel looks like from its end: " bytes]", the digits, a blank. */
  lemma SentinelTail(total: nat)
    ensures var (s, d) := (Sentinel(total), Digits(total));
            |s| > |d| + 7 && s[|s| - 7 - |d|..|s| - 7] == d && s[|s| - 8 - |d|] == ' '
  {
    var (s, d) := (Sentinel(total), Digits(total));
    var head := "\n\n[" + ['\U{2026}'] + SENTINEL_HEAD;
    assert s == head + d + " bytes]" && |" bytes]"| == 7;
    assert s[|head| - 1] == head[|head| - 1] == SENTINEL_HEAD[|SENTINEL_HEAD| - 1] == ' ';
  }

  lemma TailOf(text: string, total: nat)
    requires EndsWith(text, Sentinel(total))
    ensures var d := Digits(total);
            |text| > |d| + 7 && text[|text| - 7 - |d|..|text| - 7] == d && text[|text| - 8 - |d|] == ' '
  {
    hide Sentinel, Digits;
    SentinelTail(total);
    var (s, d, k) := (Sentinel(total), Digits(total), |text| - |Sentinel(total)|);
    assert text[k..] == s;
    SliceOfSuffix(text, k, |s| - 7 - |d|, |s| - 7);
    assert text[k + (|s| - 8 - |d|)] == s[|s| - 8 - |d|];
  }

  lemma SliceOfSuffix(text: string, k: nat, lo: nat, hi: nat)
    requires k <= |text| && lo <= hi <= |text| - k
    ensures text[k..][lo..hi] == text[k + lo..k + hi]
  {
  }

  /** A text ends in at most one sentinel. */
  lemma OneSentinel(text: string, m: nat, n: nat)
    requires EndsWith(text, Sentinel(m)) && EndsWith(text, Sentinel(n))
    ensures m == n
  {
    hide Sentinel, Digits;
    TailOf(text, m);
    TailOf(text, n);
    NotLonger(text, Digits(m), Digits(n));
    NotLonger(text, Digits(n), Digits(m));
    DigitsDiffer(m, n);
  }

  lemma NotLonger(text: string, d: string, e: string)
    requires |text| > |d| + 7 && text[|text| - 8 - |d|] == ' '
    requires |text| > |e| + 7 && text[|text| - 7 - |e|..|text| - 7] == e
    requires forall i :: 0 <= i < |e| ==> '0' <= e[i] <= '9'
    ensures |e| <= |d|
  {
    var tail := text[|text| - 7 - |e|..|text| - 7];
    forall k | |text| - 7 - |e| <= k < |text| - 7 ensures text[k] != ' ' {
      assert text[k] == tail[k - (|text| - 7 - |e|)];
    }
  }

  // --- Cutting again ---------------------------------------------------------------------

  /** Characters that fit whole can be counted first. */
  lemma {:induction false} WholeCharsAppend(a: string, b: string, k: nat)
    requires |Encode(a)| <= k
    ensures WholeChars(a + b, k) == |a| + WholeChars(b, k - |Encode(a)|)
    ensures Leftover(a + b, k) == Leftover(b, k - |Encode(a)|)
  {
    hide EncodeChar;
    if a == "" {
      assert a + b == b;
    } else {
      assert (a + b)[1..] == a[1..] + b;
      WholeCharsAppend(a[1..], b, k - |EncodeChar(a[0])|);
    }
  }

  /** Cutting a cut text at the same place changes nothing, whatever has been appended to it. */
  lemma CutAgain(text: string, room: nat, more: string)
    requires room <= |Encode(text)|
    ensures room <= |Encode(CutText(text, room) + more)|
    ensures CutText(CutText(text, room) + more, room) == CutText(text, room)
  {
    hide Encode, Decode, EncodeChar, WholeChars, Leftover;
    var (whole, broken) := (text[..WholeChars(text, room)], Broken(Leftover(text, room)));
    var again := CutText(text, room) + more;
    DecodeCut(text, room);
    WholeCharsFit(text, room);
    CutSize(text, room);
    EncodeAppend(CutText(text, room), more);
    DecodeCut(again, room);
    assert again == whole + (broken + more);
    WholeCharsAppend(whole, broken + more, room);
    BrokenFits(Leftover(text, room), more) by { LeftoverSmall(text, room); }
    var kept := WholeChars(again, room);
    assert again[..kept] == whole + (broken + more)[..kept - |whole|];
    assert (whole + (broken + more)[..kept - |whole|]) + Broken(Leftover(again, room)) == whole + broken;
  }

  lemma {:induction false} LeftoverSmall(text: string, k: nat)
    requires k <= |Encode(text)|
    ensures Leftover(text, k) <= 3
  {
    if text != "" && |EncodeChar(text[0])| <= k { LeftoverSmall(text[1..], k - |EncodeChar(text[0])|); }
  }

  /** One to three bytes of a U+FFFD are one U+FFFD again. */
  lemma BrokenFits(leftover: nat, more: string)
    requires leftover <= 3
    ensures var s := Broken(leftover) + more;
            s[..WholeChars(s, leftover)] + Broken(Leftover(s, leftover)) == Broken(leftover)
  {
    var s := Broken(leftover) + more;
    if leftover == 0 {
      NothingFits(s);
    } else {
      assert s[0] == REPLACEMENT && |EncodeChar(REPLACEMENT)| == 3;
      assert s[1..] == more;
      NothingFits(more);
    }
  }

  lemma NothingFits(s: string)
    ensures WholeChars(s, 0) == 0 && Leftover(s, 0) == 0
  {
  }

  /** The walk leaves its own output alone as long as cap and sentinel stay the same. */
  lemma {:induction false} TruncateAgain(blocks: seq<Block>, used: nat, cap: nat, sentinel: string)
    requires used <= cap && StopOf(blocks, used, cap).Cut? && |Encode(sentinel)| > 0
    ensures var out := Truncate(blocks, used, cap, sentinel);
            Truncate(out, used, cap, sentinel) == out
  {
    hide Encode, Decode;
    var (b, out) := (blocks[0], Truncate(blocks, used, cap, sentinel));
    if used + b.Bytes() <= cap {
      TruncateAgain(blocks[1..], used + b.Bytes(), cap, sentinel);
      assert out[1..] == Truncate(blocks[1..], used + b.Bytes(), cap, sentinel);
    } else if !b.HasText() {
      TruncateAgain(blocks[1..], used, cap, sentinel);
    } else {
      CutBlockSize(b.text, cap - used, sentinel);
      MeasureOne(out[0]);
      CutAgain(b.text, cap - used, sentinel);
    }
  }

  lemma {:induction false} CutEndsInSentinel(blocks: seq<Block>, used: nat, cap: nat, sentinel: string)
    requires used <= cap && StopOf(blocks, used, cap).Cut?
    ensures var out := Truncate(blocks, used, cap, sentinel);
            out != [] && out[|out| - 1].TextContent? && EndsWith(out[|out| - 1].text, sentinel)
  {
    hide Encode, Decode;
    var b := blocks[0];
    if used + b.Bytes() <= cap {
      CutEndsInSentinel(blocks[1..], used + b.Bytes(), cap, sentinel);
    } else if !b.HasText() {
      CutEndsInSentinel(blocks[1..], used, cap, sentinel);
    } else {
      var text := CutText(b.text, cap - used) + sentinel;
      assert text[|text| - |sentinel|..] == sentinel;
    }
  }

  // --- The second pass --------------------------------------------------------------------

  /** Without redaction a result within the limit comes back unchanged, structured content included, and the second pass
      truncates again exactly when the first one missed the limit. */
  lemma SecondPassTruncates(r: ToolResult, c: Config)
    requires !c.redact
    ensures WireBytes(r, c.dumped) <= c.limit ==> Capped(r, c) == r
    ensures Reported(Capped(r, c), c).truncated <==> !MeetsLimit(r, c)
    ensures MeetsLimit(r, c) ==> Capped(Capped(r, c), c) == Capped(r, c)
  {
    hide Encode, Sentinel;
    WithinLimitExactly(r, c);
  }

  /** Two truncated results can be equal although the limit is missed: the sentinel then states the very size that the
      first pass left. */
  predicate StatesOwnSize(r: ToolResult, c: Config) {
    TotalBytes(r, c) == Max(c.limit, SentinelBytes(TotalBytes(r, c))) + Growth(r, c)
  }

  /** Capping twice is capping once if and only if the first pass met the limit, or had no text to cut, or cut a
      result to the size it had: the size in the sentinel is that of the capped result itself. */
  lemma CappingTwiceExactly(r: ToolResult, c: Config)
    requires !c.redact
    ensures Capped(Capped(r, c), c) == Capped(r, c)
       <==> MeetsLimit(r, c) || StopFor(r, c).Fits? || StatesOwnSize(r, c)
  {
    hide Encode, Sentinel, Truncate, StopOf, Growth;
    SecondPassTruncates(r, c);
    if !MeetsLimit(r, c) {
      if StopFor(r, c).Fits? {
        NoTextTwice(r, c);
      } else {
        CutTwice(r, c);
      }
    }
  }

  lemma NoTextTwice(r: ToolResult, c: Config)
    requires !c.redact && TotalBytes(r, c) > c.limit && StopFor(r, c).Fits? && c.limit < 0
    ensures Capped(Capped(r, c), c) == Capped(r, c)
  {
    hide Encode, Sentinel, Truncate, StopOf;
    TruncatedSize(r, c);
    var t := Capped(r, c);
    assert Measure(t.content) == 0;
    NothingToCut(t.content, 0, EffectiveCap(c.limit, TotalBytes(t, c)), Sentinel(TotalBytes(t, c)));
  }

  lemma CutTwice(r: ToolResult, c: Config)
    requires !c.redact && TotalBytes(r, c) > c.limit && StopFor(r, c).Cut? && !MeetsLimit(r, c)
    ensures Capped(Capped(r, c), c) == Capped(r, c) <==> StatesOwnSize(r, c)
  {
    hide Encode, Sentinel, Truncate, StopOf, Growth;
    var (t, total) := (Capped(r, c), TotalBytes(r, c));
    var (size, cap) := (TotalBytes(t, c), EffectiveCap(c.limit, TotalBytes(r, c)));
    TruncatedSize(r, c);
    WithinLimitExactly(r, c);
    assert size == Measure(t.content) > c.limit;
    SentinelNotEmpty(total);
    if size == total {
      TruncateAgain(r.content, 0, cap, Sentinel(total));
    } else if Capped(t, c) == t {
      var cap2 := EffectiveCap(c.limit, size);
      assert Truncate(t.content, 0, cap2, Sentinel(size)) == t.content;
      TruncateSize(t.content, 0, cap2, Sentinel(size));
      assert StopOf(t.content, 0, cap2).Cut?;
      CutEndsInSentinel(r.content, 0, cap, Sentinel(total));
      CutEndsInSentinel(t.content, 0, cap2, Sentinel(size));
      OneSentinel(t.content[|t.content| - 1].text, total, size);
    }
  }

  lemma SentinelNotEmpty(total: nat)
    ensures SentinelBytes(total) > 0
  {
    hide EncodeChar;
    assert Sentinel(total) != "";
  }
}
