/** The string operations of Go's standard library that the DRS code relies on.
    A Go string is modelled as a sequence of Unicode code points. */
module Text {

  /** `unicode.IsSpace`. */
  predicate IsSpace(c: char) {
    || '\t' <= c <= '\r'
    || c == ' '
    || c == '\U{85}'
    || c == '\U{A0}'
    || c == '\U{1680}'
    || '\U{2000}' <= c <= '\U{200A}'
    || c == '\U{2028}'
    || c == '\U{2029}'
    || c == '\U{202F}'
    || c == '\U{205F}'
    || c == '\U{3000}'
  }

  /** No white space at either end. */
  predicate Trimmed(s: string) {
    s != "" ==> !IsSpace(s[0]) && !IsSpace(s[|s| - 1])
  }

  function TrimLeft(s: string): string {
    if s != "" && IsSpace(s[0]) then TrimLeft(s[1..]) else s
  }

  function TrimRight(s: string): string {
    if s != "" && IsSpace(s[|s| - 1]) then TrimRight(s[..|s| - 1]) else s
  }

  /** `strings.TrimSpace`. */
  function TrimSpace(s: string): string {
    TrimRight(TrimLeft(s))
  }

  lemma {:induction false} TrimLeftSuffix(s: string)
    ensures var r := TrimLeft(s); (r != "" ==> !IsSpace(r[0])) && |r| <= |s| && r == s[|s| - |r|..]
  {
    if s != "" && IsSpace(s[0]) {
      TrimLeftSuffix(s[1..]);
    }
  }

  lemma {:induction false} TrimRightPrefix(s: string)
    ensures var r := TrimRight(s); (r != "" ==> !IsSpace(r[|r| - 1])) && |r| <= |s| && r == s[..|r|]
  {
    if s != "" && IsSpace(s[|s| - 1]) {
      TrimRightPrefix(s[..|s| - 1]);
    }
  }

  predicate AllSpace(s: string) {
    forall i :: 0 <= i < |s| ==> IsSpace(s[i])
  }

  lemma {:induction false} TrimLeftCuts(s: string)
    ensures |TrimLeft(s)| <= |s| && forall i :: 0 <= i < |s| - |TrimLeft(s)| ==> IsSpace(s[i])
  {
    TrimLeftSuffix(s);
    if s != "" && IsSpace(s[0]) {
      TrimLeftCuts(s[1..]);
      forall i | 0 < i < |s| - |TrimLeft(s)| ensures IsSpace(s[i]) {
        assert s[i] == s[1..][i - 1];
      }
    }
  }

  lemma {:induction false} TrimRightCuts(s: string)
    ensures |TrimRight(s)| <= |s| && forall i :: |TrimRight(s)| <= i < |s| ==> IsSpace(s[i])
  {
    TrimRightPrefix(s);
    if s != "" && IsSpace(s[|s| - 1]) {
      var init := s[..|s| - 1];
      TrimRightCuts(init);
      forall i | |TrimRight(s)| <= i < |init| ensures IsSpace(s[i]) {
        assert s[i] == init[i];
      }
    }
  }

  lemma CutLeft(s: string) returns (a: string)
    ensures s == a + TrimLeft(s) && AllSpace(a)
  {
    TrimLeftSuffix(s);
    TrimLeftCuts(s);
    a := s[..|s| - |TrimLeft(s)|];
  }

  lemma CutRight(s: string) returns (b: string)
    ensures s == TrimRight(s) + b && AllSpace(b)
  {
    TrimRightPrefix(s);
    TrimRightCuts(s);
    b := s[|TrimRight(s)|..];
  }

  /** Trimming cuts white space off both ends, and nothing else. */
  lemma TrimSpaceCuts(s: string) returns (a: string, b: string)
    ensures s == a + (TrimSpace(s) + b) && AllSpace(a) && AllSpace(b)
    ensures Trimmed(TrimSpace(s))
  {
    a := CutLeft(s);
    b := CutRight(TrimLeft(s));
    TrimSpaceTrims(s);
  }

  lemma TrimSpaceTrims(s: string)
    ensures Trimmed(TrimSpace(s))
  {
    TrimLeftSuffix(s);
    TrimRightPrefix(TrimLeft(s));
  }

  lemma TrimSpaceFixed(s: string)
    requires Trimmed(s)
    ensures TrimSpace(s) == s
  {
  }

  function FoldChar(c: char): char {
    if 'A' <= c <= 'Z' then c - 'A' + 'a'
    else if c == '\U{017F}' then 's'
    else if c == '\U{212A}' then 'k'
    else c
  }

  /** `strings.EqualFold`, exact whenever one of the arguments is ASCII: the long s and the
      Kelvin sign are the only characters outside ASCII that fold to an ASCII letter. */
  predicate EqualFold(a: string, b: string) {
    |a| == |b| && forall i :: 0 <= i < |a| ==> FoldChar(a[i]) == FoldChar(b[i])
  }

  /** Letters fold with their other case, and with the two letters outside ASCII that fold into it. */
  lemma FoldExamples()
    ensures EqualFold("Drs-1", "dRS-1") && EqualFold("k", "\U{212A}") && EqualFold("S", "\U{017F}")
    ensures !EqualFold("drs", "dr") && !EqualFold("drs", "drt") && !EqualFold("[", "{") && !EqualFold("@", "`")
  {
    assert "drs"[2] != "drt"[2] && "["[0] == '[' && "@"[0] == '@';
  }

  function LowerChar(c: char): char {
    if 'A' <= c <= 'Z' then c - 'A' + 'a'
    else if c == '\U{0130}' then 'i'
    else if c == '\U{212A}' then 'k'
    else c
  }

  /** `strings.ToLower`, exact on every string whose image is ASCII. */
  function ToLower(s: string): (r: string)
    ensures |r| == |s|
    ensures forall i :: 0 <= i < |s| ==> r[i] == LowerChar(s[i])
  {
    seq(|s|, i requires 0 <= i < |s| => LowerChar(s[i]))
  }

  predicate IsAscii(s: string) {
    forall i :: 0 <= i < |s| ==> s[i] < '\U{0080}'
  }

  /** Lower-casing leaves no capital letter, and leaves the text the same but for case; text compares equal in
      any case exactly if it is the same in lower case. */
  lemma LowerAndFold(a: string, b: string)
    requires IsAscii(a) && IsAscii(b)
    ensures EqualFold(ToLower(a), a) && forall i :: 0 <= i < |a| ==> !('A' <= ToLower(a)[i] <= 'Z')
    ensures EqualFold(a, b) <==> ToLower(a) == ToLower(b)
  {
    assert forall i :: 0 <= i < |a| ==> FoldChar(a[i]) == ToLower(a)[i];
    assert forall i :: 0 <= i < |b| ==> FoldChar(b[i]) == ToLower(b)[i];
  }

  predicate HasPrefix(s: string, prefix: string) {
    prefix <= s
  }

  /** `strings.TrimPrefix`. */
  function TrimPrefix(s: string, prefix: string): (r: string)
    ensures HasPrefix(s, prefix) ==> s == prefix + r
    ensures !HasPrefix(s, prefix) ==> r == s
  {
    if HasPrefix(s, prefix) then s[|prefix|..] else s
  }
}
