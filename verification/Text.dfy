/** Trimming characters off both ends of a text, and Go's `strings.TrimSpace`. */
module Text {
  predicate All(s: string, cut: char -> bool) {
    forall c <- s :: cut(c)
  }

  function TrimLeft(s: string, cut: char -> bool): (r: string)
    ensures |r| <= |s| && r == s[|s| - |r|..] && All(s[..|s| - |r|], cut)
    ensures r != "" ==> !cut(r[0])
  {
    if s != "" && cut(s[0]) then TrimLeft(s[1..], cut) else s
  }

  function TrimRight(s: string, cut: char -> bool): (r: string)
    ensures r <= s && All(s[|r|..], cut)
    ensures r != "" ==> !cut(r[|r| - 1])
  {
    if s != "" && cut(s[|s| - 1]) then TrimRight(s[..|s| - 1], cut) else s
  }

  function Trim(s: string, cut: char -> bool): string {
    TrimRight(TrimLeft(s, cut), cut)
  }

  predicate Bare(s: string, cut: char -> bool) {
    s != "" ==> !cut(s[0]) && !cut(s[|s| - 1])
  }

  lemma Split(s: string, n: nat)
    requires n <= |s|
    ensures s[..n] + s[n..] == s
  {
  }

  lemma Joined(a: string, b: string, c: string)
    ensures a + b + c == a + (b + c)
  {
  }

  /** What is left begins and ends with none of the characters, and only such characters were taken off. */
  lemma TrimExact(s: string, cut: char -> bool) returns (before: string, after: string)
    ensures s == before + Trim(s, cut) + after
    ensures All(before, cut) && All(after, cut) && Bare(Trim(s, cut), cut)
  {
    var left := TrimLeft(s, cut);
    var kept := TrimRight(left, cut);
    before, after := s[..|s| - |left|], left[|kept|..];
    assert Bare(kept, cut) by {
      assert kept != "" ==> kept[0] == left[0];
    }
    Split(s, |s| - |left|);
    Split(left, |kept|);
    assert left[..|kept|] == kept;
    Joined(before, kept, after);
  }

  /** Nothing is left exactly of a text that has no other character. */
  lemma TrimEmpty(s: string, cut: char -> bool)
    ensures Trim(s, cut) == "" <==> All(s, cut)
  {
    var before, after := TrimExact(s, cut);
    if Trim(s, cut) == "" {
      assert s == before + after;
    } else {
      assert Trim(s, cut)[0] in s;
    }
  }

  /** The characters with the Unicode property White_Space. */
  predicate IsSpace(c: char) {
    || '\t' <= c <= '\r' || c == ' ' || c == '\U{0085}' || c == '\U{00A0}' || c == '\U{1680}'
    || '\U{2000}' <= c <= '\U{200A}' || c == '\U{2028}' || c == '\U{2029}' || c == '\U{202F}'
    || c == '\U{205F}' || c == '\U{3000}'
  }

  /** They are these twenty-five. */
  lemma SpacesExactly(c: char)
    ensures IsSpace(c) <==>
            c in "\t\n\U{000B}\U{000C}\r \U{0085}\U{00A0}\U{1680}\U{2000}\U{2001}\U{2002}\U{2003}\U{2004}\U{2005}"
                 + "\U{2006}\U{2007}\U{2008}\U{2009}\U{200A}\U{2028}\U{2029}\U{202F}\U{205F}\U{3000}"
  {
  }

  function TrimSpace(s: string): string {
    Trim(s, IsSpace)
  }
}
