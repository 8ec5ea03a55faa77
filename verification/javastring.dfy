/**
 * java.lang.String.trim and the blank test `s.trim().isEmpty()`.
 * trim removes every leading and trailing character whose code is at most
 * U+0020 (the space and all control characters), not just whitespace.
 */
module JavaString {

  /** A character String.trim strips from either end. */
  predicate Trimmable(c: char)
  {
    c <= ' '
  }

  /** `s` without its leading trimmable characters. */
  function TrimStart(s: string): (r: string)
    ensures |r| <= |s| && r == s[|s| - |r|..]
    ensures r == [] || !Trimmable(r[0])
    ensures forall i :: 0 <= i < |s| - |r| ==> Trimmable(s[i])
  {
    if s != [] && Trimmable(s[0]) then TrimStart(s[1..]) else s
  }

  /** `s` without its trailing trimmable characters. */
  function TrimEnd(s: string): (r: string)
    ensures |r| <= |s| && r == s[..|r|]
    ensures r == [] || !Trimmable(r[|r| - 1])
    ensures forall i :: |r| <= i < |s| ==> Trimmable(s[i])
  {
    if s != [] && Trimmable(s[|s| - 1]) then
      var r := TrimEnd(s[..|s| - 1]);
      assert s[..|s| - 1][..|r|] == s[..|r|];
      r
    else s
  }

  /** `r` is what is left of `s` once a trimmable prefix and a trimmable suffix are dropped. */
  ghost predicate TrimmedInfix(s: string, r: string)
  {
    exists k :: 0 <= k <= |s| - |r| && s[k..][..|r|] == r &&
                (forall i :: 0 <= i < k ==> Trimmable(s[i])) &&
                (forall i :: k + |r| <= i < |s| ==> Trimmable(s[i]))
  }

  /**
   * String.trim: the infix of `s` left after dropping trimmable characters
   * from both ends, which neither starts nor ends with a trimmable character.
   * It is empty exactly when every character of `s` is trimmable.
   */
  function Trim(s: string): (r: string)
    ensures TrimmedInfix(s, r)
    ensures r == [] || (!Trimmable(r[0]) && !Trimmable(r[|r| - 1]))
    ensures r == [] <==> forall i :: 0 <= i < |s| ==> Trimmable(s[i])
  {
    TrimIsInfix(s);
    TrimEmptyWhenAllTrimmable(s);
    TrimEnd(TrimStart(s))
  }

  /** What trim keeps starts after a trimmable prefix and ends before a trimmable suffix. */
  lemma TrimIsInfix(s: string)
    ensures TrimmedInfix(s, TrimEnd(TrimStart(s)))
  {
    var t := TrimStart(s);
    var r := TrimEnd(t);
    var k := |s| - |t|;
    assert s[k..] == t;
    assert s[k..][..|r|] == r;
    forall i | k + |r| <= i < |s|
      ensures Trimmable(s[i])
    {
      assert s[i] == t[i - k];
    }
    assert 0 <= k <= |s| - |r| && s[k..][..|r|] == r;
  }

  /** What trim keeps is empty exactly when every character is trimmable. */
  lemma TrimEmptyWhenAllTrimmable(s: string)
    ensures TrimEnd(TrimStart(s)) == [] <==> forall i :: 0 <= i < |s| ==> Trimmable(s[i])
  {
    var t := TrimStart(s);
    var r := TrimEnd(t);
    var k := |s| - |t|;
    assert s[k..] == t;
    assert r == [] ==> t == [] by {
      assert t != [] ==> Trimmable(t[0]) || r != [];
    }
    assert t != [] ==> t[0] == s[k];
  }

  /** Java's `s.trim().isEmpty()`: every character of `s` is at most U+0020. */
  predicate IsBlank(s: string)
    ensures IsBlank(s) <==> forall i :: 0 <= i < |s| ==> Trimmable(s[i])
  {
    Trim(s) == []
  }
}
