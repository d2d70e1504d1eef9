/** White space and stripping, as the source language has them. */
module Text {

  predicate IsSpace(c: char) {
    || '\U{9}' <= c <= '\U{D}' || '\U{1C}' <= c <= '\U{20}' || c == '\U{85}' || c == '\U{A0}'
    || c == '\U{1680}' || '\U{2000}' <= c <= '\U{200A}' || c == '\U{2028}' || c == '\U{2029}'
    || c == '\U{202F}' || c == '\U{205F}' || c == '\U{3000}'
  }

  predicate Contains(text: string, part: string) {
    exists i :: 0 <= i <= |text| && part <= text[i..]
  }

  function StripLeft(s: string): string {
    if s != "" && IsSpace(s[0]) then StripLeft(s[1..]) else s
  }

  function StripRight(s: string): string {
    if s != "" && IsSpace(s[|s| - 1]) then StripRight(s[..|s| - 1]) else s
  }

  function Strip(s: string): string { StripRight(StripLeft(s)) }

  /** A text that starts with a visible character keeps it. */
  lemma {:induction false} StripKeepsStart(s: string)
    requires s != "" && !IsSpace(s[0])
    ensures Strip(s) != "" && Strip(s)[0] == s[0]
    decreases |s|
  {
    if IsSpace(s[|s| - 1]) {
      StripKeepsStart(s[..|s| - 1]);
    }
  }

  predicate AllSpaces(s: string) { forall i :: 0 <= i < |s| ==> IsSpace(s[i]) }

  predicate VisibleEnds(s: string) { s != "" && !IsSpace(s[0]) && !IsSpace(s[|s| - 1]) }

  lemma {:induction false} StripLeftPad(pad: string, rest: string)
    requires AllSpaces(pad) && rest != "" && !IsSpace(rest[0])
    ensures StripLeft(pad + rest) == rest
  {
    if pad == "" {
      assert pad + rest == rest;
    } else {
      assert (pad + rest)[1..] == pad[1..] + rest;
      StripLeftPad(pad[1..], rest);
    }
  }

  lemma {:induction false} StripRightPad(core: string, pad: string)
    requires AllSpaces(pad) && core != "" && !IsSpace(core[|core| - 1])
    ensures StripRight(core + pad) == core
  {
    if pad == "" {
      assert core + pad == core;
    } else {
      assert (core + pad)[..|core + pad| - 1] == core + pad[..|pad| - 1];
      StripRightPad(core, pad[..|pad| - 1]);
    }
  }

  /** White space around a text is stripped, and nothing else. */
  lemma StripPadded(before: string, core: string, after: string)
    requires AllSpaces(before) && AllSpaces(after) && VisibleEnds(core)
    ensures Strip(before + core + after) == core
  {
    assert before + core + after == before + (core + after);
    StripLeftPad(before, core + after);
    StripRightPad(core, after);
  }
}
