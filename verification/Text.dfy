/** String operations. Case folding and white space are those of ASCII. */
module Text {
  function LowerChar(c: char): char {
    if 'A' <= c <= 'Z' then (c as int + 32) as char else c
  }

  function Lower(s: string): (r: string)
    ensures |r| == |s|
    ensures ':' in r <==> ':' in s
  {
    if s == [] then []
    else
      assert s == [s[0]] + s[1..];
      [LowerChar(s[0])] + Lower(s[1..])
  }

  predicate StartsWith(text: string, prefix: string): (b: bool)
    ensures b <==> |prefix| <= |text| && forall i :: 0 <= i < |prefix| ==> text[i] == prefix[i]
  {
    prefix <= text
  }

  predicate EndsWith(text: string, suffix: string) {
    |suffix| <= |text| && text[|text| - |suffix|..] == suffix
  }

  predicate Blank(c: char) {
    c == ' ' || '\t' <= c <= '\r' || '\U{1C}' <= c <= '\U{1F}'
  }

  function Strip(s: string): string {
    if s != [] && Blank(s[0]) then Strip(s[1..])
    else if s != [] && Blank(s[|s| - 1]) then Strip(s[..|s| - 1])
    else s
  }

  function Replace(s: string, from: char, to: char): string {
    seq(|s|, i requires 0 <= i < |s| => if s[i] == from then to else s[i])
  }

  /** A colon cannot fall inside a scheme that the text starts with. */
  lemma FirstColon(a: string, b: string, text: string)
    requires |a| < |text| && text[|a|] == ':' && b <= text && ':' !in b
    ensures |b| <= |a|
  {
    assert forall k :: 0 <= k < |b| ==> b[k] == text[k];
  }
}
