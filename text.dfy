/**
 * `String.prototype.trim`, which the handlers apply to every input value
 * before they test it for emptiness.
 */
module Text {

  /**
   * The code points ECMAScript counts as WhiteSpace or LineTerminator, which
   * is exactly what `trim` strips: tab, line feed, vertical tab, form feed,
   * carriage return, the Unicode space separators (category Zs), the line and
   * paragraph separators and the byte order mark.
   */
  predicate IsWhiteSpace(c: char) {
    var n := c as int;
    n == 0x09 || n == 0x0A || n == 0x0B || n == 0x0C || n == 0x0D
    || n == 0x20 || n == 0xA0 || n == 0x1680 || (0x2000 <= n <= 0x200A)
    || n == 0x2028 || n == 0x2029 || n == 0x202F || n == 0x205F
    || n == 0x3000 || n == 0xFEFF
  }

  /** Every character of `s` is white space (the empty string is blank). */
  predicate Blank(s: string) {
    forall i :: 0 <= i < |s| ==> IsWhiteSpace(s[i])
  }

  /** `s` without its leading white space. */
  function TrimStart(s: string): (r: string)
    ensures |r| <= |s| && r == s[|s| - |r|..]
    ensures Blank(s[..|s| - |r|])
    ensures r == [] || !IsWhiteSpace(r[0])
  {
    if s != [] && IsWhiteSpace(s[0]) then
      var r := TrimStart(s[1..]);
      assert s[..|s| - |r|] == [s[0]] + s[1..][..|s| - 1 - |r|];
      r
    else
      s
  }

  /** `s` without its trailing white space. */
  function TrimEnd(s: string): (r: string)
    ensures |r| <= |s| && r == s[..|r|]
    ensures Blank(s[|r|..])
    ensures r == [] || !IsWhiteSpace(r[|r| - 1])
  {
    if s != [] && IsWhiteSpace(s[|s| - 1]) then
      var r := TrimEnd(s[..|s| - 1]);
      assert s[|r|..] == s[..|s| - 1][|r|..] + [s[|s| - 1]];
      r
    else
      s
  }

  /**
   * `s` with white space removed from both ends: a contiguous piece of `s`
   * that neither starts nor ends with white space, with only white space
   * around it. It is empty exactly when `s` is blank.
   */
  function Trim(s: string): (r: string)
    ensures r == [] || (!IsWhiteSpace(r[0]) && !IsWhiteSpace(r[|r| - 1]))
    ensures r == [] <==> Blank(s)
  {
    var t := TrimStart(s);
    var r := TrimEnd(t);
    assert s == s[..|s| - |t|] + t;
    BlankAppend(s[..|s| - |t|], t);
    assert t[..|r|] == r;
    r
  }

  lemma BlankAppend(a: string, b: string)
    ensures Blank(a + b) <==> Blank(a) && Blank(b)
  {
    if Blank(a + b) {
      forall i | 0 <= i < |a| ensures IsWhiteSpace(a[i]) { assert a[i] == (a + b)[i]; }
      forall i | 0 <= i < |b| ensures IsWhiteSpace(b[i]) { assert b[i] == (a + b)[|a| + i]; }
    }
    if Blank(a) && Blank(b) {
      forall i | 0 <= i < |a + b| ensures IsWhiteSpace((a + b)[i]) {
        if i < |a| { assert (a + b)[i] == a[i]; } else { assert (a + b)[i] == b[i - |a|]; }
      }
    }
  }

  /**
   * What `Trim` removes is white space only, and what it keeps is the piece
   * of `s` between that leading and that trailing white space.
   */
  lemma TrimKeepsMiddle(s: string)
    ensures var r := Trim(s); var lo := |s| - |TrimStart(s)|;
      lo + |r| <= |s| && r == s[lo..lo + |r|] && Blank(s[..lo]) && Blank(s[lo + |r|..])
  {
    var t := TrimStart(s);
    var r := TrimEnd(t);
    var lo := |s| - |t|;
    assert r == t[..|r|] && t == s[lo..];
    var tail, after := t[|r|..], s[lo + |r|..];
    assert Blank(tail);
    forall i | 0 <= i < |after| ensures IsWhiteSpace(after[i]) {
      assert after[i] == tail[i];
    }
  }

  /** Trimming a trimmed string changes nothing. */
  lemma TrimIdempotent(s: string)
    ensures Trim(Trim(s)) == Trim(s)
  {
  }

}
