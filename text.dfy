/** ASCII models of Python's `str.strip()` and `str.lower()`. The functions only
    compute; what they compute is stated by the lemmas after each. */
module Text {

  /** The ASCII characters for which Python's `str.isspace()` holds:
      space, tab, line feed, vertical tab, form feed, carriage return,
      and the four information separators 0x1C-0x1F. */
  predicate IsSpace(c: char) {
    c == ' ' || ('\t' <= c <= '\r') || ('\U{1C}' <= c <= '\U{1F}')
  }

  predicate IsUpper(c: char) { 'A' <= c <= 'Z' }

  /** `s.lstrip()`: drop the leading whitespace. */
  function TrimStart(s: string): string {
    if |s| != 0 && IsSpace(s[0]) then TrimStart(s[1..]) else s
  }

  /** `lstrip` removes a prefix of whitespace and stops at the first other character. */
  lemma {:induction false} TrimStartSpec(s: string)
    ensures var r := TrimStart(s);
            && |r| <= |s| && r == s[|s| - |r|..]
            && (forall k :: 0 <= k < |s| - |r| ==> IsSpace(s[k]))
            && (r == [] || !IsSpace(r[0]))
  {
    if |s| != 0 && IsSpace(s[0]) {
      TrimStartSpec(s[1..]);
      assert s[1..][|s| - 1 - |TrimStart(s)|..] == s[|s| - |TrimStart(s)|..];
    }
  }

  /** `s.rstrip()`: drop the trailing whitespace. */
  function TrimEnd(s: string): string {
    if |s| != 0 && IsSpace(s[|s| - 1]) then TrimEnd(s[..|s| - 1]) else s
  }

  /** `rstrip` removes a suffix of whitespace and stops at the last other character. */
  lemma {:induction false} TrimEndSpec(s: string)
    ensures var r := TrimEnd(s);
            && |r| <= |s| && r == s[..|r|]
            && (forall k :: |r| <= k < |s| ==> IsSpace(s[k]))
            && (r == [] || !IsSpace(r[|r| - 1]))
  {
    if |s| != 0 && IsSpace(s[|s| - 1]) {
      TrimEndSpec(s[..|s| - 1]);
    }
  }

  /** `s.strip()`: whitespace removed at both ends. */
  function Strip(s: string): string {
    TrimEnd(TrimStart(s))
  }

  /** `strip` leaves the slice of `s` between a whitespace prefix and a whitespace
      suffix, and that slice neither starts nor ends with whitespace. */
  lemma StripSpec(s: string)
    ensures var r := Strip(s);
            && (exists i, j ::
                  && 0 <= i <= j <= |s| && r == s[i..j]
                  && (forall k :: 0 <= k < i ==> IsSpace(s[k]))
                  && (forall k :: j <= k < |s| ==> IsSpace(s[k])))
            && (r == [] || (!IsSpace(r[0]) && !IsSpace(r[|r| - 1])))
  {
    var t := TrimStart(s);
    var r := TrimEnd(t);
    TrimStartSpec(s);
    TrimEndSpec(t);
    var i := |s| - |t|;
    assert r == s[i..i + |r|];
    assert forall k :: i + |r| <= k < |s| ==> s[k] == t[k - i];
    if r != [] {
      assert r[0] == t[0];
    }
  }

  /** A string that is all whitespace strips to the empty string. */
  lemma {:induction false} StripAllSpace(s: string)
    requires forall k :: 0 <= k < |s| ==> IsSpace(s[k])
    ensures Strip(s) == []
  {
    if s != [] {
      StripAllSpace(s[1..]);
      assert TrimStart(s) == TrimStart(s[1..]);
    }
  }

  function LowerChar(c: char): (d: char)
    ensures !IsUpper(d)
    ensures IsUpper(c) ==> d as int == c as int + 32
    ensures !IsUpper(c) ==> d == c
  {
    if IsUpper(c) then (c as int + 32) as char else c
  }

  /** `s.lower()` restricted to ASCII letters: every other character is kept. */
  function Lower(s: string): string {
    seq(|s|, k requires 0 <= k < |s| => LowerChar(s[k]))
  }

  /** `lower` maps every character on its own and keeps the length. */
  lemma LowerSpec(s: string)
    ensures |Lower(s)| == |s|
    ensures forall k :: 0 <= k < |s| ==> Lower(s)[k] == LowerChar(s[k])
  {
  }

  predicate IsLower(s: string) {
    forall k :: 0 <= k < |s| ==> !IsUpper(s[k])
  }

  /** Lowering keeps whitespace where it is, so a stripped string stays stripped. */
  lemma LowerOfStripped(s: string)
    ensures IsLower(Lower(Strip(s)))
    ensures Strip(Lower(Strip(s))) == Lower(Strip(s))
  {
    var t := Strip(s);
    var l := Lower(t);
    StripSpec(s);
    assert forall k :: 0 <= k < |t| ==> (IsSpace(l[k]) <==> IsSpace(t[k]));
    if l != [] {
      assert !IsSpace(l[0]) && !IsSpace(l[|l| - 1]);
      StripKeepsUnpadded(l);
    }
  }

  /** A string with no whitespace at either end is its own strip. */
  lemma StripKeepsUnpadded(s: string)
    requires s != [] && !IsSpace(s[0]) && !IsSpace(s[|s| - 1])
    ensures Strip(s) == s
  {
    assert TrimStart(s) == s;
    assert TrimEnd(s) == s;
  }
}
