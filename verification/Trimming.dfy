// String helpers shared by the lexers: JavaScript white space and String.prototype.trim.
module Trimming {

  /** The characters that JavaScript's `trim` and the regular-expression class `\s` treat as white space. */
  predicate IsSpace(c: char) {
    || '\t' <= c <= '\r' || c == ' ' || c == '\U{00A0}' || c == '\U{1680}'
    || '\U{2000}' <= c <= '\U{200A}' || c == '\U{2028}' || c == '\U{2029}'
    || c == '\U{202F}' || c == '\U{205F}' || c == '\U{3000}' || c == '\U{FEFF}'
  }

  function TrimLeft(s: string): string {
    if s != "" && IsSpace(s[0]) then TrimLeft(s[1..]) else s
  }

  function TrimRight(s: string): string {
    if s != "" && IsSpace(s[|s| - 1]) then TrimRight(s[..|s| - 1]) else s
  }

  function Trim(s: string): string {
    TrimRight(TrimLeft(s))
  }

  /** Neither end of `s` is white space. */
  predicate Trimmed(s: string) {
    s == "" || (!IsSpace(s[0]) && !IsSpace(s[|s| - 1]))
  }

  lemma {:induction false} TrimLeftIsSuffix(s: string) returns (k: nat)
    ensures k <= |s| && TrimLeft(s) == s[k..] && (forall i :: 0 <= i < k ==> IsSpace(s[i]))
    ensures k < |s| ==> !IsSpace(s[k])
  {
    k := 0;
    if s != "" && IsSpace(s[0]) {
      var j := TrimLeftIsSuffix(s[1..]);
      k := j + 1;
      assert s[1..][j..] == s[k..];
      forall i | 0 <= i < k ensures IsSpace(s[i]) {
        assert i > 0 ==> s[i] == s[1..][i - 1];
      }
    }
  }

  lemma {:induction false} TrimRightIsPrefix(s: string) returns (k: nat)
    ensures k <= |s| && TrimRight(s) == s[..k] && (forall i :: k <= i < |s| ==> IsSpace(s[i]))
    ensures k > 0 ==> !IsSpace(s[k - 1])
  {
    k := |s|;
    if s != "" && IsSpace(s[|s| - 1]) {
      var t := s[..|s| - 1];
      k := TrimRightIsPrefix(t);
      assert t[..k] == s[..k];
      forall i | k <= i < |s| ensures IsSpace(s[i]) {
        assert i < |t| ==> s[i] == t[i];
      }
    }
  }

  /** Trimming removes white space from both ends and nothing else. */
  lemma {:induction false} TrimIsWindow(s: string) returns (lo: nat)
    ensures lo + |Trim(s)| <= |s|
    ensures forall k :: 0 <= k < |Trim(s)| ==> Trim(s)[k] == s[lo + k]
    ensures forall i :: 0 <= i < lo || lo + |Trim(s)| <= i < |s| ==> IsSpace(s[i])
    ensures Trimmed(Trim(s))
  {
    lo := TrimLeftIsSuffix(s);
    var t := TrimLeft(s);
    var k := TrimRightIsPrefix(t);
    forall i | lo + k <= i < |s| ensures IsSpace(s[i]) {
      assert s[i] == t[i - lo];
    }
    if k > 0 {
      assert t[..k][0] == t[0] == s[lo];
    }
  }

  lemma {:induction false} TrimOfTrimmed(s: string)
    requires Trimmed(s)
    ensures Trim(s) == s
  {
  }

  lemma {:induction false} TrimTwice(s: string)
    ensures Trim(Trim(s)) == Trim(s)
  {
    var _ := TrimIsWindow(s);
    TrimOfTrimmed(Trim(s));
  }

  lemma {:induction false} TrimLeading(c: char, s: string)
    requires IsSpace(c)
    ensures Trim([c] + s) == Trim(s)
  {
    assert ([c] + s)[1..] == s;
  }

  lemma {:induction false} TrimTrailing(s: string, c: char)
    requires IsSpace(c)
    ensures Trim(s + [c]) == Trim(s)
    decreases |s|
  {
    if s != "" && IsSpace(s[0]) {
      assert s == [s[0]] + s[1..];
      assert s + [c] == [s[0]] + (s[1..] + [c]);
      TrimLeading(s[0], s[1..] + [c]);
      TrimLeading(s[0], s[1..]);
      TrimTrailing(s[1..], c);
    } else if s == "" {
      assert (s + [c])[1..] == "";
    } else {
      assert (s + [c])[..|s|] == s;
    }
  }

  /** A text that ends in a visible character keeps that character under trimming. */
  lemma {:induction false} TrimKeepsLast(s: string, c: char)
    requires !IsSpace(c)
    ensures Trim(s + [c]) == TrimLeft(s) + [c]
    decreases |s|
  {
    if s != "" && IsSpace(s[0]) {
      assert s + [c] == [s[0]] + (s[1..] + [c]);
      TrimLeading(s[0], s[1..] + [c]);
      TrimKeepsLast(s[1..], c);
    } else if s == "" {
      assert s + [c] == [c];
    }
  }

  lemma {:induction false} TrimShrinks(s: string)
    ensures |Trim(s)| <= |TrimLeft(s)| <= |s|
  {
    var _ := TrimLeftIsSuffix(s);
    var _ := TrimRightIsPrefix(TrimLeft(s));
  }
}
