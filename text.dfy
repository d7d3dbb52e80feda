/**
 * The JavaScript string operations the components rely on: `String.prototype.trim`,
 * `startsWith`, `endsWith`, ASCII case folding (as a non-unicode `/i` regular expression
 * compares letters) and `name.split('.').pop()`.
 */
module Text {

  /** ECMAScript WhiteSpace and LineTerminator code points: exactly what `trim()` removes. */
  predicate IsWhitespace(c: char)
  {
    c == '\U{9}' || c == '\U{A}' || c == '\U{B}' || c == '\U{C}' || c == '\U{D}' ||
    c == ' ' || c == '\U{A0}' || c == '\U{1680}' || ('\U{2000}' <= c <= '\U{200A}') ||
    c == '\U{2028}' || c == '\U{2029}' || c == '\U{202F}' || c == '\U{205F}' ||
    c == '\U{3000}' || c == '\U{FEFF}'
  }

  /** Every character of `s` is whitespace (the empty string included). */
  predicate Blank(s: string)
  {
    forall i :: 0 <= i < |s| ==> IsWhitespace(s[i])
  }

  /** `s` neither begins nor ends with whitespace. */
  predicate Trimmed(s: string)
  {
    s == [] || (!IsWhitespace(s[0]) && !IsWhitespace(s[|s| - 1]))
  }

  /** `s.trimStart()`: the suffix of `s` left after dropping its leading whitespace. */
  function TrimStart(s: string): (r: string)
    ensures |r| <= |s| && r == s[|s| - |r|..]
    ensures r == [] || !IsWhitespace(r[0])
    ensures Blank(s[..|s| - |r|])
  {
    if s != [] && IsWhitespace(s[0]) then TrimStart(s[1..]) else s
  }

  /** `s.trimEnd()`: the prefix of `s` left after dropping its trailing whitespace. */
  function TrimEnd(s: string): (r: string)
    ensures |r| <= |s| && r == s[..|r|]
    ensures r == [] || !IsWhitespace(r[|r| - 1])
    ensures Blank(s[|r|..])
  {
    if s != [] && IsWhitespace(s[|s| - 1]) then TrimEnd(s[..|s| - 1]) else s
  }

  /** `s.trim()` */
  function Trim(s: string): (r: string)
    ensures Trimmed(r)
    ensures |r| <= |s|
  {
    var t := TrimStart(s);
    var r := TrimEnd(t);
    assert r != [] ==> r[0] == t[0];
    r
  }

  /** `trim()` gives the empty string exactly on blank input. */
  lemma TrimEmptyIffBlank(s: string)
    ensures Trim(s) == [] <==> Blank(s)
  {
    var t := TrimStart(s);
    if TrimEnd(t) == [] {
      assert Blank(t[0..]);
      assert t == [];
    } else {
      var k := |s| - |t|;
      assert s[k] == t[0];
    }
  }

  /** A string without surrounding whitespace is its own trim. */
  lemma TrimOfTrimmed(s: string)
    requires Trimmed(s)
    ensures Trim(s) == s
  {
    assert TrimStart(s) == s;
    assert TrimEnd(s) == s;
  }

  /** `trim()` is idempotent. */
  lemma TrimIdempotent(s: string)
    ensures Trim(Trim(s)) == Trim(s)
  {
    TrimOfTrimmed(Trim(s));
  }

  /** `trimStart` drops exactly a blank prefix in front of text that does not start with whitespace. */
  lemma {:induction false} TrimStartBlankPrefix(p: string, t: string)
    requires Blank(p) && (t == [] || !IsWhitespace(t[0]))
    ensures TrimStart(p + t) == t
    decreases |p|
  {
    if p == [] {
      assert p + t == t;
    } else {
      assert (p + t)[0] == p[0];
      assert (p + t)[1..] == p[1..] + t;
      TrimStartBlankPrefix(p[1..], t);
    }
  }

  /** `trimEnd` drops exactly a blank suffix behind text that does not end with whitespace. */
  lemma {:induction false} TrimEndBlankSuffix(t: string, q: string)
    requires Blank(q) && (t == [] || !IsWhitespace(t[|t| - 1]))
    ensures TrimEnd(t + q) == t
    decreases |q|
  {
    if q == [] {
      assert t + q == t;
    } else {
      var q' := q[..|q| - 1];
      assert (t + q)[|t + q| - 1] == q[|q| - 1];
      assert (t + q)[..|t + q| - 1] == t + q';
      TrimEndBlankSuffix(t, q');
    }
  }

  /** `trim()` removes exactly the blank padding around a trimmed text. */
  lemma TrimPadded(p: string, c: string, q: string)
    requires Blank(p) && Blank(q) && Trimmed(c)
    ensures Trim(p + c + q) == c
  {
    assert p + c + q == p + (c + q);
    if c == [] {
      assert Blank(c + q) by {
        assert c + q == q;
      }
      TrimStartBlankPrefix(p + q, []);
      assert p + q + [] == p + c + q;
    } else {
      assert (c + q)[0] == c[0];
      TrimStartBlankPrefix(p, c + q);
      TrimEndBlankSuffix(c, q);
    }
  }

  /** `s.startsWith(p)` */
  predicate StartsWith(s: string, p: string)
  {
    |p| <= |s| && s[..|p|] == p
  }

  /** `s.endsWith(p)` */
  predicate EndsWith(s: string, p: string)
  {
    |p| <= |s| && s[|s| - |p|..] == p
  }

  /** Lower-cases ASCII letters and leaves every other character alone. */
  function AsciiLower(c: char): (r: char)
    ensures 'A' <= c <= 'Z' ==> 'a' <= r <= 'z' && r as int - c as int == 32
    ensures !('A' <= c <= 'Z') ==> r == c
  {
    if 'A' <= c <= 'Z' then (c as int + 32) as char else c
  }

  /** `s` with its ASCII letters lower-cased. */
  function LowerAscii(s: string): (r: string)
    ensures |r| == |s|
    ensures forall i :: 0 <= i < |s| ==> r[i] == AsciiLower(s[i])
  {
    seq(|s|, i requires 0 <= i < |s| => AsciiLower(s[i]))
  }

  /** `s` contains no '.'. */
  predicate NoDot(s: string)
  {
    forall i :: 0 <= i < |s| ==> s[i] != '.'
  }

  /** The index of the last '.' among the first `n` characters of `s`, or -1 when there is none. */
  function LastDot(s: string, n: nat): (k: int)
    requires n <= |s|
    ensures -1 <= k < n
    ensures k >= 0 ==> s[k] == '.'
    ensures forall i :: k < i < n ==> s[i] != '.'
  {
    if n == 0 then -1
    else if s[n - 1] == '.' then n - 1
    else LastDot(s, n - 1)
  }

  /** Only one index can be the last dot: one that is a dot (or -1) with no dot after it. */
  lemma LastDotUnique(s: string, n: nat, k: int)
    requires n <= |s| && -1 <= k < n
    requires k >= 0 ==> s[k] == '.'
    requires forall i :: k < i < n ==> s[i] != '.'
    ensures LastDot(s, n) == k
  {
    var j := LastDot(s, n);
    assert j >= 0 ==> s[j] == '.';
  }

  /**
   * `s.split('.').pop()`: the text after the last '.', or the whole of `s` when it has
   * no '.'. It is the longest suffix of `s` without a dot.
   */
  function AfterLastDot(s: string): (r: string)
    ensures NoDot(r)
    ensures |r| <= |s| && r == s[|s| - |r|..]
    ensures |r| == |s| || s[|s| - |r| - 1] == '.'
  {
    var k := LastDot(s, |s|);
    var r := s[k + 1..];
    assert forall i :: 0 <= i < |r| ==> r[i] == s[k + 1 + i];
    r
  }

  /** Appending dot-free text does not move the last dot. */
  lemma LastDotAppend(p: string, q: string)
    requires NoDot(q)
    ensures LastDot(p + q, |p + q|) == LastDot(p, |p|)
  {
    var s := p + q;
    var k := LastDot(p, |p|);
    forall i | k < i < |s| ensures s[i] != '.' {
      if i < |p| {
        assert s[i] == p[i];
      } else {
        assert s[i] == q[i - |p|];
      }
    }
    assert k >= 0 ==> s[k] == p[k];
    LastDotUnique(s, |s|, k);
  }

  /** Appending dot-free text extends the text after the last dot. */
  lemma AfterLastDotAppend(p: string, q: string)
    requires NoDot(q)
    ensures AfterLastDot(p + q) == AfterLastDot(p) + q
  {
    LastDotAppend(p, q);
    var k := LastDot(p, |p|);
    assert (p + q)[k + 1..] == p[k + 1..] + q;
  }

  /** Whatever precedes the last dot, the text after it is `e`. */
  lemma AfterLastDotOfJoin(p: string, e: string)
    requires NoDot(e)
    ensures AfterLastDot(p + "." + e) == e
  {
    var s := p + ".";
    assert AfterLastDot(s) == [] by {
      LastDotUnique(s, |s|, |p|);
    }
    AfterLastDotAppend(s, e);
    assert [] + e == e;
  }
}
