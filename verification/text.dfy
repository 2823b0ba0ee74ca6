/** JavaScript's notion of white space, and String.prototype.trim.

    Both `trim` and the regular-expression class `\s` use the same set of
    code points: the ECMAScript WhiteSpace characters (TAB, VT, FF, ZWNBSP and
    every character of Unicode category Zs) and the LineTerminator
    characters (LF, CR, LS, PS). */
module Text {

  /** True for the code points JavaScript's `trim` strips and `\s` matches. */
  predicate IsSpace(c: char) {
    var n := c as int;
    n == 0x09 || n == 0x0A || n == 0x0B || n == 0x0C || n == 0x0D || n == 0x20
    || n == 0xA0 || n == 0x1680 || (0x2000 <= n <= 0x200A)
    || n == 0x2028 || n == 0x2029 || n == 0x202F || n == 0x205F
    || n == 0x3000 || n == 0xFEFF
  }

  predicate AllSpace(s: string) {
    forall i :: 0 <= i < |s| ==> IsSpace(s[i])
  }

  /** Drops the leading white space (TrimStartShape states what is
      dropped and what is kept). */
  function TrimStart(s: string): (r: string)
    ensures |r| <= |s|
  {
    if s != [] && IsSpace(s[0]) then TrimStart(s[1..]) else s
  }

  /** The result of TrimStart is a suffix of `s`, what was dropped is all
      white space, and the result does not start with any. */
  lemma {:induction false} TrimStartShape(s: string)
    ensures TrimStart(s) == s[|s| - |TrimStart(s)|..]
    ensures AllSpace(s[..|s| - |TrimStart(s)|])
    ensures TrimStart(s) != [] ==> !IsSpace(TrimStart(s)[0])
  {
    if s != [] && IsSpace(s[0]) {
      var r := TrimStart(s[1..]);
      TrimStartShape(s[1..]);
      assert s[..|s| - |r|] == [s[0]] + s[1..][..|s| - 1 - |r|];
    }
  }

  /** Drops the trailing white space (TrimEndShape states what is dropped
      and what is kept). */
  function TrimEnd(s: string): (r: string)
    ensures |r| <= |s|
  {
    if s != [] && IsSpace(s[|s| - 1]) then TrimEnd(s[..|s| - 1]) else s
  }

  /** The result of TrimEnd is a prefix of `s`, what was dropped is all
      white space, and the result does not end with any. */
  lemma {:induction false} TrimEndShape(s: string)
    ensures TrimEnd(s) == s[..|TrimEnd(s)|]
    ensures AllSpace(s[|TrimEnd(s)|..])
    ensures TrimEnd(s) != [] ==> !IsSpace(TrimEnd(s)[|TrimEnd(s)| - 1])
  {
    if s != [] && IsSpace(s[|s| - 1]) {
      var r := TrimEnd(s[..|s| - 1]);
      TrimEndShape(s[..|s| - 1]);
      assert s[|r|..] == s[..|s| - 1][|r|..] + [s[|s| - 1]];
    }
  }

  /** String.prototype.trim: white space removed from both ends. */
  function Trim(s: string): (r: string)
    ensures |r| <= |s|
  {
    TrimEnd(TrimStart(s))
  }

  /** `s` is white space, then `m`, then white space, and `m` neither starts
      nor ends with white space: the shape `trim` leaves behind. */
  ghost predicate IsTrimSplit(s: string, p: string, m: string, q: string) {
    s == p + m + q && AllSpace(p) && AllSpace(q)
    && (m != [] ==> !IsSpace(m[0]) && !IsSpace(m[|m| - 1]))
  }

  lemma {:induction false} TrimStartOfSplit(p: string, rest: string)
    requires AllSpace(p)
    requires rest != [] && !IsSpace(rest[0])
    ensures TrimStart(p + rest) == rest
  {
    if p != [] {
      assert (p + rest)[1..] == p[1..] + rest;
      TrimStartOfSplit(p[1..], rest);
    } else {
      assert p + rest == rest;
    }
  }

  lemma {:induction false} TrimEndOfSplit(m: string, q: string)
    requires AllSpace(q)
    requires m != [] && !IsSpace(m[|m| - 1])
    ensures TrimEnd(m + q) == m
  {
    if q != [] {
      assert (m + q)[..|m + q| - 1] == m + q[..|q| - 1];
      TrimEndOfSplit(m, q[..|q| - 1]);
    } else {
      assert m + q == m;
    }
  }

  /** `trim` is determined by the split: for every way of writing `s` as
      white space, a core without white space at its ends, and white space,
      the core is exactly what `trim` returns. */
  lemma {:induction false} TrimOfSplit(s: string, p: string, m: string, q: string)
    requires IsTrimSplit(s, p, m, q)
    ensures Trim(s) == m
  {
    if m == [] {
      assert AllSpace(s) by {
        forall i | 0 <= i < |s| ensures IsSpace(s[i]) {
          if i < |p| { assert s[i] == p[i]; } else { assert s[i] == q[i - |p|]; }
        }
      }
      AllSpaceTrimsToEmpty(s);
    } else {
      assert s == p + (m + q);
      TrimStartOfSplit(p, m + q);
      TrimEndOfSplit(m, q);
    }
  }

  lemma {:induction false} LeadingSpace(s: string) returns (p: string)
    ensures s == p + TrimStart(s) && AllSpace(p)
  {
    TrimStartShape(s);
    p := s[..|s| - |TrimStart(s)|];
  }

  lemma {:induction false} TrailingSpace(t: string) returns (q: string)
    ensures t == TrimEnd(t) + q && AllSpace(q)
  {
    TrimEndShape(t);
    q := t[|TrimEnd(t)|..];
  }

  /** Conversely, what `trim` returns always arises from such a split. */
  lemma {:induction false} TrimIsSplit(s: string) returns (p: string, q: string)
    ensures IsTrimSplit(s, p, Trim(s), q)
  {
    p := LeadingSpace(s);
    q := TrailingSpace(TrimStart(s));
    TrimEnds(s);
  }

  /** What `trim` returns neither starts nor ends with white space. */
  lemma {:induction false} TrimEnds(s: string)
    ensures Trim(s) != [] ==> !IsSpace(Trim(s)[0]) && !IsSpace(Trim(s)[|Trim(s)| - 1])
  {
    var t := TrimStart(s);
    TrimStartShape(s);
    TrimEndShape(t);
    if Trim(s) != [] {
      assert Trim(s)[0] == t[0];
    }
  }

  lemma {:induction false} AllSpaceTrimsToEmpty(s: string)
    requires AllSpace(s)
    ensures TrimStart(s) == [] && Trim(s) == []
  {
    if s != [] {
      AllSpaceTrimsToEmpty(s[1..]);
    }
  }

  /** The trimmed string is empty exactly when the whole string is white
      space (the empty string included). */
  lemma {:induction false} TrimEmptyIff(s: string)
    ensures Trim(s) == [] <==> AllSpace(s)
  {
    if AllSpace(s) {
      AllSpaceTrimsToEmpty(s);
    } else {
      var t := TrimStart(s);
      TrimStartShape(s);
      TrimEndShape(t);
      var k :| 0 <= k < |s| && !IsSpace(s[k]);
      assert k >= |s| - |t|;
      assert t[k - (|s| - |t|)] == s[k];
      assert t != [] && !IsSpace(t[0]);
      assert TrimEnd(t) != [];
    }
  }

  /** Trimming twice is trimming once. */
  lemma {:induction false} TrimIdempotent(s: string)
    ensures Trim(Trim(s)) == Trim(s)
  {
    var m := Trim(s);
    TrimEnds(s);
    var e: string := [];
    assert m == e + m + e;
    assert AllSpace(e);
    assert IsTrimSplit(m, e, m, e);
    TrimOfSplit(m, e, m, e);
  }
}
