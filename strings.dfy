/**
 * The two character-level helpers the codec relies on: the tokenizer's
 * "is this text white space" test and Java's String.trim.
 */
module Strings {

  /** White space in the sense of XML 1.0 (production S): space, tab, line feed, carriage return. */
  predicate IsXmlSpace(c: char) {
    c == ' ' || c == '\t' || c == '\n' || c == '\r'
  }

  /** A characters event is white space when every character of its text is XML white space. */
  predicate IsWhiteSpace(s: string): (r: bool)
    ensures r ==> forall i :: 0 <= i < |s| ==> Trimmable(s[i])
  {
    forall i :: 0 <= i < |s| ==> IsXmlSpace(s[i])
  }

  /** String.trim removes every leading and trailing character whose code is at most U+0020. */
  predicate Trimmable(c: char) {
    c <= ' '
  }

  /** A string that String.trim leaves as it is: empty, or with a non-trimmable character at each end. */
  predicate IsTrimmed(s: string) {
    s == [] || (!Trimmable(s[0]) && !Trimmable(s[|s| - 1]))
  }

  function TrimStart(s: string): (r: string)
    ensures |r| <= |s| && r == s[|s| - |r|..]
    ensures forall i :: 0 <= i < |s| - |r| ==> Trimmable(s[i])
    ensures r == [] || !Trimmable(r[0])
  {
    if s != [] && Trimmable(s[0]) then TrimStart(s[1..]) else s
  }

  function TrimEnd(s: string): (r: string)
    ensures |r| <= |s| && r == s[..|r|]
    ensures forall i :: |r| <= i < |s| ==> Trimmable(s[i])
    ensures r == [] || !Trimmable(r[|r| - 1])
  {
    if s != [] && Trimmable(s[|s| - 1]) then TrimEnd(s[..|s| - 1]) else s
  }

  /**
   * Java's String.trim: the input with every leading and every trailing character at most
   * U+0020 removed. The result is a slice of the input, what is cut off on either side is
   * trimmable, and the result itself starts and ends with a character that is not.
   */
  function Trim(s: string): (r: string)
    ensures IsTrimmed(r)
    ensures exists i, j :: 0 <= i <= j <= |s| && r == s[i..j] &&
                          (forall k :: 0 <= k < i ==> Trimmable(s[k])) && (forall k :: j <= k < |s| ==> Trimmable(s[k]))
  {
    var t := TrimStart(s);
    var r := TrimEnd(t);
    assert r == [] || r[0] == t[0];
    TrimIsSlice(s, t, r);
    r
  }

  /** Cutting a trimmable prefix off and then a trimmable suffix leaves a slice of the original. */
  lemma TrimIsSlice(s: string, t: string, r: string)
    requires |t| <= |s| && t == s[|s| - |t|..] && forall k :: 0 <= k < |s| - |t| ==> Trimmable(s[k])
    requires |r| <= |t| && r == t[..|r|] && forall k :: |r| <= k < |t| ==> Trimmable(t[k])
    ensures exists i, j :: 0 <= i <= j <= |s| && r == s[i..j] &&
                          (forall k :: 0 <= k < i ==> Trimmable(s[k])) && (forall k :: j <= k < |s| ==> Trimmable(s[k]))
  {
    var i := |s| - |t|;
    var j := i + |r|;
    assert r == s[i..j];
    forall k | j <= k < |s|
      ensures Trimmable(s[k])
    {
      assert s[k] == t[k - i];
    }
  }

  /** A trimmed string is a fixed point of trim; in particular trim is idempotent. */
  lemma TrimOfTrimmed(s: string)
    requires IsTrimmed(s)
    ensures Trim(s) == s
  {
    assert TrimStart(s) == s;
    assert TrimEnd(s) == s;
  }

  /** Trimming never yields text that starts with white space: a non-empty trimmed string is not white space. */
  lemma TrimmedNotWhiteSpace(s: string)
    requires IsTrimmed(s) && s != []
    ensures !IsWhiteSpace(s)
  {
    assert !IsXmlSpace(s[0]);
  }

  /** Text that is white space trims to nothing. */
  lemma WhiteSpaceTrimsToNothing(s: string)
    requires IsWhiteSpace(s)
    ensures Trim(s) == []
  {
    assert TrimStart(s) == [];
  }

  /** White space after a text does not change what trim makes of it. */
  lemma TrimAppendSpace(s: string, w: string)
    requires IsWhiteSpace(w)
    ensures Trim(s + w) == Trim(s)
  {
    TrimStartAppend(s, w);
    assert TrimStart(w) == [];
    if TrimStart(s) != [] {
      TrimEndAppend(TrimStart(s), w);
    }
  }

  lemma {:induction false} TrimStartAppend(s: string, w: string)
    ensures TrimStart(s + w) == if TrimStart(s) == [] then TrimStart(w) else TrimStart(s) + w
  {
    if s == [] {
      assert s + w == w;
    } else if Trimmable(s[0]) {
      assert (s + w)[1..] == s[1..] + w;
      TrimStartAppend(s[1..], w);
    }
  }

  lemma {:induction false} TrimEndAppend(t: string, w: string)
    requires forall i :: 0 <= i < |w| ==> Trimmable(w[i])
    ensures TrimEnd(t + w) == TrimEnd(t)
    decreases |w|
  {
    if w == [] {
      assert t + w == t;
    } else {
      var w' := w[..|w| - 1];
      assert (t + w)[..|t + w| - 1] == t + w';
      TrimEndAppend(t, w');
    }
  }
}
