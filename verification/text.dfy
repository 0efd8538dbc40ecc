/** The part of JavaScript's `String.prototype.trim` the catalog relies on:
    removal of leading and trailing white space and line terminators. */
module Text {

  /** ECMAScript WhiteSpace and LineTerminator code points: TAB, LF, VT, FF,
      CR, SPACE, NBSP, the Unicode space separators, LS, PS and the BOM. */
  predicate IsWs(c: char) {
    || c == '\t' || c == '\n' || c == '\U{0B}' || c == '\U{0C}' || c == '\r'
    || c == ' ' || c == '\U{A0}' || c == '\U{1680}'
    || ('\U{2000}' <= c <= '\U{200A}')
    || c == '\U{2028}' || c == '\U{2029}' || c == '\U{202F}' || c == '\U{205F}'
    || c == '\U{3000}' || c == '\U{FEFF}'
  }

  predicate AllWs(t: string) {
    forall k :: 0 <= k < |t| ==> IsWs(t[k])
  }

  /** No white space at either end. */
  predicate Trimmed(r: string) {
    r == [] || (!IsWs(r[0]) && !IsWs(r[|r| - 1]))
  }

  /** `r` is `s[i..j]`, with only white space cut away on either side and no
      white space left at either end. */
  ghost predicate TrimAt(r: string, s: string, i: int, j: int) {
    0 <= i <= j <= |s| && r == s[i..j] && AllWs(s[..i]) && AllWs(s[j..]) && Trimmed(r)
  }

  /** `r` is what trimming `s` must produce. */
  ghost predicate IsTrimOf(r: string, s: string) {
    exists i, j :: TrimAt(r, s, i, j)
  }

  function TrimStart(s: string): (r: string)
    ensures |r| <= |s| && r == s[|s| - |r|..]
    ensures AllWs(s[..|s| - |r|])
    ensures r == [] || !IsWs(r[0])
  {
    if |s| > 0 && IsWs(s[0]) then
      var r := TrimStart(s[1..]);
      assert s[..|s| - |r|] == [s[0]] + s[1..][..|s| - 1 - |r|];
      r
    else s
  }

  function TrimEnd(s: string): (r: string)
    ensures |r| <= |s| && r == s[..|r|]
    ensures AllWs(s[|r|..])
    ensures r == [] || !IsWs(r[|r| - 1])
  {
    if |s| > 0 && IsWs(s[|s| - 1]) then
      var r := TrimEnd(s[..|s| - 1]);
      assert s[|r|..] == s[..|s| - 1][|r|..] + [s[|s| - 1]];
      r
    else s
  }

  /** `String.prototype.trim`. */
  function Trim(s: string): (r: string)
    ensures |r| <= |s| && Trimmed(r)
  {
    var a := TrimStart(s);
    var b := TrimEnd(a);
    assert b != [] ==> b[0] == a[0];
    b
  }

  /** `Trim` meets the specification of trimming. */
  lemma TrimMeetsSpec(s: string)
    ensures IsTrimOf(Trim(s), s)
  {
    var a := TrimStart(s);
    var b := TrimEnd(a);
    var i := |s| - |a|;
    assert a == s[i..] && b == a[..|b|];
    assert s[i..i + |b|] == b;
    assert s[i + |b|..] == a[|b|..];
    assert AllWs(s[..i]) && AllWs(s[i + |b|..]) && Trimmed(b);
    assert TrimAt(b, s, i, i + |b|);
  }

  /** There is only one trim of a string, so `IsTrimOf` specifies `Trim` completely. */
  lemma TrimUnique(r1: string, r2: string, s: string)
    requires IsTrimOf(r1, s) && IsTrimOf(r2, s)
    ensures r1 == r2
  {
    var i1, j1 :| TrimAt(r1, s, i1, j1);
    var i2, j2 :| TrimAt(r2, s, i2, j2);
    TrimAtUnique(r1, i1, j1, r2, i2, j2, s);
  }

  lemma TrimAtUnique(r1: string, i1: int, j1: int, r2: string, i2: int, j2: int, s: string)
    requires TrimAt(r1, s, i1, j1) && TrimAt(r2, s, i2, j2)
    ensures r1 == r2
  {
    if r1 == [] && r2 != [] {
      EmptyTrimAllWs(r1, s, i1, j1, i2);
      assert false;
    } else if r2 == [] && r1 != [] {
      EmptyTrimAllWs(r2, s, i2, j2, i1);
      assert false;
    } else if r1 != [] && r2 != [] {
      TrimStartsAgree(r1, i1, j1, r2, i2, j2, s);
      TrimEndsAgree(r1, i1, j1, r2, i2, j2, s);
    }
  }

  lemma TrimStartsAgree(r1: string, i1: int, j1: int, r2: string, i2: int, j2: int, s: string)
    requires TrimAt(r1, s, i1, j1) && TrimAt(r2, s, i2, j2) && r1 != [] && r2 != []
    ensures i1 == i2
  {
    if i1 < i2 {
      WsBefore(s, i2, i1);
      assert false;
    } else if i2 < i1 {
      WsBefore(s, i1, i2);
      assert false;
    }
  }

  lemma TrimEndsAgree(r1: string, i1: int, j1: int, r2: string, i2: int, j2: int, s: string)
    requires TrimAt(r1, s, i1, j1) && TrimAt(r2, s, i2, j2) && r1 != [] && r2 != []
    ensures j1 == j2
  {
    if j1 < j2 {
      WsAfter(s, j1, j2 - 1);
      assert false;
    } else if j2 < j1 {
      WsAfter(s, j2, j1 - 1);
      assert false;
    }
  }

  lemma WsBefore(s: string, i: int, k: int)
    requires 0 <= k < i <= |s| && AllWs(s[..i])
    ensures IsWs(s[k])
  {
    assert s[..i][k] == s[k];
  }

  lemma WsAfter(s: string, j: int, k: int)
    requires 0 <= j <= k < |s| && AllWs(s[j..])
    ensures IsWs(s[k])
  {
    assert s[j..][k - j] == s[k];
  }

  /** When a trim is empty, the whole string is white space. */
  lemma EmptyTrimAllWs(r: string, s: string, i: int, j: int, k: int)
    requires TrimAt(r, s, i, j) && r == [] && 0 <= k < |s|
    ensures IsWs(s[k])
  {
    if k < i {
      WsBefore(s, i, k);
    } else {
      WsAfter(s, j, k);
    }
  }

  /** A string without white space at either end is its own trim. */
  lemma TrimUntouched(s: string)
    requires Trimmed(s)
    ensures Trim(s) == s
  {
    assert TrimAt(s, s, 0, |s|) by {
      assert s == s[0..|s|] && s[..0] == [] && s[|s|..] == [];
    }
    TrimMeetsSpec(s);
    TrimUnique(Trim(s), s, s);
  }

  /** A leading white space character in front of an already trimmed string is cut. */
  lemma TrimLeadingWs(c: char, s: string)
    requires IsWs(c) && s != [] && Trimmed(s)
    ensures Trim([c] + s) == s
  {
    var t := [c] + s;
    assert t[0] == c && t[1..] == s;
    assert TrimStart(s) == s && TrimEnd(s) == s;
    assert TrimStart(t) == s;
  }

  /** A string of white space only trims to the empty string. */
  lemma TrimAllWs(s: string)
    requires AllWs(s)
    ensures Trim(s) == ""
  {
    assert TrimAt("", s, |s|, |s|) by {
      assert "" == s[|s|..|s|] && s[..|s|] == s && s[|s|..] == [];
    }
    TrimMeetsSpec(s);
    TrimUnique(Trim(s), "", s);
  }

  /** Trimming twice is trimming once. */
  lemma TrimIdempotent(s: string)
    ensures Trim(Trim(s)) == Trim(s)
  {
    TrimUntouched(Trim(s));
  }
}
