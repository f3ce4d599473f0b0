/**
  The two string operations of the JavaScript runtime that tag normalisation
  relies on: `String.prototype.trim` and `String.prototype.split` with a
  one-character separator.
 */
module Text {

  /** WhiteSpace and LineTerminator code points of ECMAScript (sections 12.2
      and 12.3 of ECMA-262), the characters that `trim` removes. */
  predicate IsSpace(c: char) {
    || c == '\t' || c == '\n' || c == '\U{000B}' || c == '\U{000C}' || c == '\r'
    || c == ' ' || c == '\U{00A0}' || c == '\U{1680}'
    || ('\U{2000}' <= c <= '\U{200A}')
    || c == '\U{2028}' || c == '\U{2029}' || c == '\U{202F}' || c == '\U{205F}'
    || c == '\U{3000}' || c == '\U{FEFF}'
  }

  predicate AllSpace(s: string) {
    forall i :: 0 <= i < |s| ==> IsSpace(s[i])
  }

  /** Length of the longest prefix of `s` made of white space. */
  function SpacePrefix(s: string): (n: nat)
    ensures n <= |s|
    ensures AllSpace(s[..n])
    ensures n < |s| ==> !IsSpace(s[n])
  {
    if |s| > 0 && IsSpace(s[0]) then
      var n := 1 + SpacePrefix(s[1..]);
      assert s[..n] == [s[0]] + s[1..][..n - 1];
      n
    else
      0
  }

  /** Length of the longest suffix of `s` made of white space. */
  function SpaceSuffix(s: string): (n: nat)
    ensures n <= |s|
    ensures forall i :: |s| - n <= i < |s| ==> IsSpace(s[i])
    ensures n < |s| ==> !IsSpace(s[|s| - 1 - n])
  {
    if |s| > 0 && IsSpace(s[|s| - 1]) then
      var t := s[..|s| - 1];
      1 + SpaceSuffix(t)
    else
      0
  }

  /** `s.trim()`: `s` without its leading and trailing white space. */
  function Trim(s: string): (r: string)
    ensures SpacePrefix(s) + |r| <= |s|
    ensures r == s[SpacePrefix(s)..SpacePrefix(s) + |r|]
    ensures r == [] <==> AllSpace(s)
    ensures r != [] ==> !IsSpace(r[0]) && !IsSpace(r[|r| - 1])
  {
    var a := SpacePrefix(s);
    var rest := s[a..];
    var b := SpaceSuffix(rest);
    if a == |s| then
      assert s[..a] == s;
      rest
    else
      assert rest[0] == s[a];
      rest[..|rest| - b]
  }

  /** Glues `parts` back together with `sep` between consecutive parts. */
  function Join(parts: seq<string>, sep: char): string {
    if |parts| == 0 then ""
    else if |parts| == 1 then parts[0]
    else parts[0] + [sep] + Join(parts[1..], sep)
  }

  /** `s.split(sep)`: the pieces of `s` between occurrences of `sep`. As in
      JavaScript, the empty string gives one empty piece and two adjacent
      separators give an empty piece between them. */
  function Split(s: string, sep: char): (r: seq<string>)
    ensures |r| >= 1
    ensures forall i :: 0 <= i < |r| ==> sep !in r[i]
    ensures Join(r, sep) == s
  {
    if |s| == 0 then
      [""]
    else if s[0] == sep then
      var rest := Split(s[1..], sep);
      assert s == [sep] + s[1..];
      [""] + rest
    else
      var rest := Split(s[1..], sep);
      var r := [[s[0]] + rest[0]] + rest[1..];
      assert r[1..] == rest[1..];
      assert s == [s[0]] + s[1..];
      r
  }

  lemma {:induction false} SpacePrefixAfterSpaces(p: string, t: string)
    requires AllSpace(p)
    ensures SpacePrefix(p + t) == |p| + SpacePrefix(t)
  {
    if |p| > 0 {
      assert (p + t)[1..] == p[1..] + t;
      SpacePrefixAfterSpaces(p[1..], t);
    } else {
      assert p + t == t;
    }
  }

  lemma {:induction false} SpaceSuffixBeforeSpaces(t: string, q: string)
    requires AllSpace(q)
    ensures SpaceSuffix(t + q) == SpaceSuffix(t) + |q|
  {
    if |q| > 0 {
      var u := t + q;
      assert u[..|u| - 1] == t + q[..|q| - 1];
      SpaceSuffixBeforeSpaces(t, q[..|q| - 1]);
    } else {
      assert t + q == t;
    }
  }

  /** `trim` is characterised by what it leaves: surrounding any string that
      neither starts nor ends with white space by white space, and trimming,
      gives that string back. In particular `trim` is idempotent. */
  lemma TrimSurrounded(p: string, m: string, q: string)
    requires AllSpace(p) && AllSpace(q)
    requires m != [] ==> !IsSpace(m[0]) && !IsSpace(m[|m| - 1])
    ensures Trim(p + m + q) == m
  {
    var s := p + m + q;
    if m == [] {
      assert s == p + q;
      assert AllSpace(s);
    } else {
      assert s == p + (m + q);
      SpacePrefixAfterSpaces(p, m + q);
      assert SpacePrefix(m + q) == 0;
      assert s[|p|..] == m + q;
      SpaceSuffixBeforeSpaces(m, q);
      assert SpaceSuffix(m) == 0;
      assert (m + q)[..|m|] == m;
    }
  }

  /** `trim` only removes characters: it never introduces one. */
  lemma TrimKeepsOut(s: string, c: char)
    requires c !in s
    ensures c !in Trim(s)
  {
  }

  lemma TrimIdempotent(s: string)
    ensures Trim(Trim(s)) == Trim(s)
  {
    TrimSurrounded("", Trim(s), "");
    assert "" + Trim(s) + "" == Trim(s);
  }

  lemma {:induction false} SplitWithoutSeparator(w: string, sep: char)
    requires sep !in w
    ensures Split(w, sep) == [w]
  {
    if |w| > 0 {
      SplitWithoutSeparator(w[1..], sep);
    }
  }

  lemma {:induction false} SplitFirstPiece(w: string, sep: char, t: string)
    requires sep !in w
    ensures Split(w + [sep] + t, sep) == [w] + Split(t, sep)
  {
    var s := w + [sep] + t;
    if |w| == 0 {
      assert s[1..] == t;
    } else {
      assert s[1..] == w[1..] + [sep] + t;
      SplitFirstPiece(w[1..], sep, t);
      assert [w[0]] + w[1..] == w;
    }
  }

  /** `split` undoes `Join` whenever no part contains the separator, so
      together with the contract of `Split` the two are inverses. */
  lemma {:induction false} SplitJoin(parts: seq<string>, sep: char)
    requires |parts| >= 1
    requires forall i :: 0 <= i < |parts| ==> sep !in parts[i]
    ensures Split(Join(parts, sep), sep) == parts
  {
    if |parts| == 1 {
      SplitWithoutSeparator(parts[0], sep);
    } else {
      SplitJoin(parts[1..], sep);
      SplitFirstPiece(parts[0], sep, Join(parts[1..], sep));
      assert [parts[0]] + parts[1..] == parts;
    }
  }
}
