/** helpers.js: the path-name normaliser `cleanString` and the two first-match
    lookups over the item store. */
module Helpers {
  import opened Wrappers
  import opened Text
  import opened ItemStore

  // ---------------------------------------------------------------------------
  // cleanString
  // ---------------------------------------------------------------------------

  /** The literal three characters `%20` start at position `i` of `s`. */
  predicate At20(s: string, i: int)
    requires 0 <= i && i + 3 <= |s|
  {
    s[i] == '%' && s[i + 1] == '2' && s[i + 2] == '0'
  }

  ghost predicate Has20(s: string) {
    exists i :: 0 <= i && i + 3 <= |s| && At20(s, i)
  }

  /** `search("%20")` from position `from` on: the least match position, or -1. */
  function Search20From(s: string, from: nat): (k: int)
    requires from <= |s|
    ensures k == -1 <==> forall i :: from <= i && i + 3 <= |s| ==> !At20(s, i)
    ensures k != -1 ==>
              && from <= k && k + 3 <= |s| && At20(s, k)
              && forall i :: from <= i < k ==> !At20(s, i)
    decreases |s| - from
  {
    if from + 3 > |s| then -1
    else if At20(s, from) then from
    else Search20From(s, from + 1)
  }

  function Search20(s: string): (k: int)
    ensures k == -1 <==> !Has20(s)
    ensures k != -1 ==>
              && 0 <= k && k + 3 <= |s| && At20(s, k)
              && forall i :: 0 <= i < k ==> !At20(s, i)
  {
    Search20From(s, 0)
  }

  /** `replace("%20", " ")`: the first occurrence only, three characters become one. */
  function ReplaceFirst20(s: string): (r: string)
    requires Has20(s)
    ensures |r| == |s| - 2
    ensures var k := Search20(s); r[..k] == s[..k] && r[k] == ' ' && r[k + 1..] == s[k + 3..]
  {
    var k := Search20(s);
    s[..k] + " " + s[k + 3..]
  }

  /** The `while` loop of cleanString: replace the first `%20` until none is left.
      Each round shortens the string by two, which is why the loop stops. */
  function ReplaceLoop(s: string): (r: string)
    ensures !Has20(r)
    ensures !Has20(s) ==> r == s
    decreases |s|
  {
    if Search20(s) == -1 then s else ReplaceLoop(ReplaceFirst20(s))
  }

  /** cleanString: trim first, then turn every literal `%20` into a space.
      Trimming is not repeated after the substitution. */
  function CleanString(s: string): (r: string)
    ensures !Has20(r)
  {
    var t := Trim(s);
    TrimMeetsSpec(s);
    NoNew20InSlice(s, t);
    ReplaceLoop(t)
  }

  /** Without any `%20` in the input, cleanString is just the trim. */
  lemma CleanStringNo20IsTrim(s: string)
    requires !Has20(s)
    ensures CleanString(s) == Trim(s)
  {
    TrimMeetsSpec(s);
    NoNew20InSlice(s, Trim(s));
  }

  /** A slice of a string free of `%20` is free of `%20` too; so is its trim. */
  lemma NoNew20InSlice(s: string, t: string)
    requires IsTrimOf(t, s)
    ensures Has20(t) ==> Has20(s)
  {
    var i, j :| TrimAt(t, s, i, j);
    if Has20(t) {
      var k :| 0 <= k && k + 3 <= |t| && At20(t, k);
      assert At20(s, i + k);
    }
  }

  // ---------------------------------------------------------------------------
  // A single left-to-right pass, the reference meaning of "replace every %20"
  // ---------------------------------------------------------------------------

  function ReplaceAll20(s: string): string
    decreases |s|
  {
    if |s| < 3 then s
    else if At20(s, 0) then " " + ReplaceAll20(s[3..])
    else [s[0]] + ReplaceAll20(s[1..])
  }

  /** No `%20` starts before position `k` of `s`. */
  predicate NoMatchBefore(s: string, k: int) {
    forall i :: 0 <= i < k && i + 3 <= |s| ==> !At20(s, i)
  }

  /** A prefix without any match start is copied unchanged by the single pass. */
  lemma {:induction false} ReplaceAllSkips(s: string, k: nat)
    requires k <= |s| && NoMatchBefore(s, k)
    ensures ReplaceAll20(s) == s[..k] + ReplaceAll20(s[k..])
    decreases k
  {
    if k == 0 {
      assert s[..0] == [] && s[0..] == s;
    } else if |s| < 3 {
      ReplaceAllShort(s);
      ReplaceAllShort(s[k..]);
      assert s[..k] + s[k..] == s;
    } else {
      var t := s[1..];
      assert !At20(s, 0);
      NoMatchShift(s, k);
      ReplaceAllSkips(t, k - 1);
      ReplaceAllStep(s);
      SliceAfterHead(s, k);
      AppendAssoc([s[0]], t[..k - 1], ReplaceAll20(t[k - 1..]));
    }
  }

  lemma AppendAssoc(a: string, b: string, c: string)
    ensures a + (b + c) == a + b + c
  {
  }

  lemma SliceAfterHead(s: string, k: int)
    requires 0 < k <= |s|
    ensures [s[0]] + s[1..][..k - 1] == s[..k]
    ensures s[1..][k - 1..] == s[k..]
  {
  }

  lemma NoMatchShift(s: string, k: int)
    requires 0 < k <= |s| && NoMatchBefore(s, k)
    ensures NoMatchBefore(s[1..], k - 1)
  {
    var t := s[1..];
    forall i | 0 <= i < k - 1 && i + 3 <= |t|
      ensures !At20(t, i)
    {
      assert !At20(s, i + 1);
    }
  }

  lemma ReplaceAllStep(s: string)
    requires |s| >= 3 && !At20(s, 0)
    ensures ReplaceAll20(s) == [s[0]] + ReplaceAll20(s[1..])
  {
  }

  lemma ReplaceAllShort(s: string)
    requires |s| < 3
    ensures ReplaceAll20(s) == s
  {
  }

  /** A string with no `%20` is left alone by the single pass. */
  lemma ReplaceAllNoMatch(s: string)
    requires !Has20(s)
    ensures ReplaceAll20(s) == s
  {
    ReplaceAllSkips(s, |s|);
    assert s[..|s|] == s && s[|s|..] == [];
  }

  /** The single pass at the first `%20` of `s`. */
  lemma ReplaceAllAtFirst(s: string)
    requires Has20(s)
    ensures var k := Search20(s);
      ReplaceAll20(s) == s[..k] + " " + ReplaceAll20(s[k + 3..])
  {
    var k := Search20(s);
    ReplaceAllSkips(s, k);
    var u := s[k..];
    assert At20(u, 0);
    assert u[3..] == s[k + 3..];
  }

  /** A space after a prefix without `%20` leaves no match start up to and
      including that space. */
  lemma SpaceBlocksMatch(p: string, rest: string)
    requires NoMatchBefore(p, |p|)
    ensures NoMatchBefore(p + " " + rest, |p| + 1)
  {
    var s' := p + " " + rest;
    forall i | 0 <= i < |p| + 1 && i + 3 <= |s'|
      ensures !At20(s', i)
    {
      if i + 3 <= |p| {
        assert !At20(p, i);
        assert s'[i] == p[i] && s'[i + 1] == p[i + 1] && s'[i + 2] == p[i + 2];
      } else {
        assert s'[|p|] == ' ';
      }
    }
  }

  /** After a prefix without `%20` and a space, the single pass resumes on the rest. */
  lemma ReplaceAllAfterSpace(p: string, rest: string)
    requires NoMatchBefore(p, |p|)
    ensures ReplaceAll20(p + " " + rest) == p + " " + ReplaceAll20(rest)
  {
    var s' := p + " " + rest;
    SpaceBlocksMatch(p, rest);
    ReplaceAllSkips(s', |p| + 1);
    assert s'[..|p| + 1] == p + " ";
    assert s'[|p| + 1..] == rest;
  }

  /** Replacing the first `%20` by hand does not change what the single pass
      produces: the new space cannot be part of a new `%20`. */
  lemma ReplaceFirstKeepsReplaceAll(s: string)
    requires Has20(s)
    ensures ReplaceAll20(ReplaceFirst20(s)) == ReplaceAll20(s)
  {
    var k := Search20(s);
    var p := s[..k];
    assert NoMatchBefore(p, |p|) by {
      forall i | 0 <= i && i + 3 <= |p|
        ensures !At20(p, i)
      {
        assert !At20(s, i);
      }
    }
    ReplaceAllAtFirst(s);
    ReplaceAllAfterSpace(p, s[k + 3..]);
  }

  /** The repeat-first-replacement loop is the ordinary replace-all. */
  lemma {:induction false} ReplaceLoopIsReplaceAll(s: string)
    ensures ReplaceLoop(s) == ReplaceAll20(s)
    decreases |s|
  {
    if Search20(s) == -1 {
      ReplaceAllNoMatch(s);
    } else {
      ReplaceFirstKeepsReplaceAll(s);
      ReplaceLoopIsReplaceAll(ReplaceFirst20(s));
    }
  }

  /** cleanString is trim followed by a plain replace-all of `%20`. */
  lemma CleanStringIsTrimThenReplaceAll(s: string)
    ensures CleanString(s) == ReplaceAll20(Trim(s))
  {
    ReplaceLoopIsReplaceAll(Trim(s));
  }

  /** Two parts free of `%20` joined by a space are free of `%20`. */
  lemma SpaceJoinNo20(p: string, q: string)
    requires !Has20(p) && !Has20(q)
    ensures !Has20(p + " " + q)
  {
    var s' := p + " " + q;
    assert NoMatchBefore(p, |p|) by {
      assert forall i :: 0 <= i && i + 3 <= |p| ==> !At20(p, i);
    }
    SpaceBlocksMatch(p, q);
    forall i | 0 <= i && i + 3 <= |s'|
      ensures !At20(s', i)
    {
      if i > |p| {
        assert !At20(q, i - |p| - 1);
        assert s'[i] == q[i - |p| - 1] && s'[i + 1] == q[i - |p|] && s'[i + 2] == q[i - |p| + 1];
      }
    }
  }

  /** The first `%20` of `p + "%20" + q` is the one between the parts. */
  lemma FirstMatchBetween(p: string, q: string)
    requires !Has20(p)
    ensures Search20(p + "%20" + q) == |p|
    ensures ReplaceFirst20(p + "%20" + q) == p + " " + q
  {
    var s := p + "%20" + q;
    forall i | 0 <= i < |p| && i + 3 <= |s|
      ensures !At20(s, i)
    {
      if i + 3 <= |p| {
        assert !At20(p, i);
        assert s[i] == p[i] && s[i + 1] == p[i + 1] && s[i + 2] == p[i + 2];
      } else if i + 2 == |p| {
        assert s[i + 2] == '%';
      } else {
        assert s[i + 1] == '%';
      }
    }
    assert At20(s, |p|);
    var r := ReplaceFirst20(s);
    assert r == r[..|p|] + [r[|p|]] + r[|p| + 1..];
    assert s[..|p|] == p && s[|p| + 3..] == q;
  }

  /** A single encoded space between two parts free of `%20` decodes to a
      space, when trimming has nothing to remove. */
  lemma CleanStringDecodesOneSpace(p: string, q: string)
    requires !Has20(p) && !Has20(q)
    requires Trim(p + "%20" + q) == p + "%20" + q
    ensures CleanString(p + "%20" + q) == p + " " + q
  {
    FirstMatchBetween(p, q);
    SpaceJoinNo20(p, q);
  }

  /** Substitution runs after trimming only, so a leading `%20` survives as a
      leading space, and cleaning the result again removes it: cleanString is
      not idempotent. */
  lemma CleanStringNotIdempotent(q: string)
    requires q != [] && Trimmed(q) && !Has20(q)
    ensures CleanString("%20" + q) == " " + q
    ensures CleanString(CleanString("%20" + q)) == q
  {
    CleanEncodedLeadingSpace(q);
    CleanLeadingSpace(q);
  }

  lemma CleanEncodedLeadingSpace(q: string)
    requires q != [] && Trimmed(q) && !Has20(q)
    ensures CleanString("%20" + q) == " " + q
  {
    TrimEncodedLeading(q);
    CleanIsLoopOfTrim("%20" + q, "%20" + q);
    LoopDecodesLeading(q);
  }

  /** cleanString is the substitution loop applied to the trimmed input. */
  lemma CleanIsLoopOfTrim(s: string, t: string)
    requires Trim(s) == t
    ensures CleanString(s) == ReplaceLoop(t)
  {
  }

  lemma LoopDecodesLeading(q: string)
    requires !Has20(q)
    ensures ReplaceLoop("%20" + q) == " " + q
  {
    var e: string := [];
    assert "%20" + q == e + "%20" + q;
    FirstMatchBetween(e, q);
    SpaceJoinNo20(e, q);
    assert e + " " + q == " " + q;
  }

  lemma TrimEncodedLeading(q: string)
    requires q != [] && Trimmed(q)
    ensures Trim("%20" + q) == "%20" + q
  {
    var s := "%20" + q;
    assert s[0] == '%';
    assert s[|s| - 1] == q[|q| - 1];
    TrimUntouched(s);
  }

  lemma CleanLeadingSpace(q: string)
    requires q != [] && Trimmed(q) && !Has20(q)
    ensures CleanString(" " + q) == q
  {
    SpaceJoinNo20([], q);
    assert [] + " " + q == [' '] + q;
    TrimLeadingWs(' ', q);
  }

  // ---------------------------------------------------------------------------
  // retrieveItem / retrieveItemIndex
  // ---------------------------------------------------------------------------

  function FindIndexFrom(items: Store, name: string, from: nat): (r: int)
    requires from <= |items|
    ensures r == -1 <==> forall j :: from <= j < |items| ==> items[j].name != name
    ensures r != -1 ==>
              && from <= r < |items| && items[r].name == name
              && forall j :: from <= j < r ==> items[j].name != name
    decreases |items| - from
  {
    if from == |items| then -1
    else if items[from].name == name then from
    else FindIndexFrom(items, name, from + 1)
  }

  /** retrieveItemIndex: `findIndex` with exact name equality. */
  function RetrieveItemIndex(items: Store, name: string): (r: int)
    ensures r == -1 <==> !Named(items, name)
    ensures r != -1 ==>
              && 0 <= r < |items| && items[r].name == name
              && forall j :: 0 <= j < r ==> items[j].name != name
  {
    FindIndexFrom(items, name, 0)
  }

  /** retrieveItem: `find` with exact name equality; `undefined` is `None`. */
  function RetrieveItem(items: Store, name: string): (r: Option<Item>)
    ensures r.None? <==> !Named(items, name)
    ensures r.Some? ==> r.value.name == name && r.value in items
  {
    if |items| == 0 then None
    else if items[0].name == name then Some(items[0])
    else
      var r := RetrieveItem(items[1..], name);
      assert forall j :: 1 <= j < |items| ==> items[j] == items[1..][j - 1];
      r
  }

  /** Both lookups agree: the record `find` returns is the one at the index
      `findIndex` returns, which is the first record with that name. */
  lemma {:induction false} RetrieveAgrees(items: Store, name: string)
    ensures RetrieveItemIndex(items, name) == -1 ==> RetrieveItem(items, name) == None
    ensures RetrieveItemIndex(items, name) != -1 ==>
      RetrieveItem(items, name) == Some(items[RetrieveItemIndex(items, name)])
    decreases |items|
  {
    if |items| > 0 && items[0].name != name {
      RetrieveAgrees(items[1..], name);
      var i := RetrieveItemIndex(items[1..], name);
      var i' := RetrieveItemIndex(items, name);
      if i' != -1 {
        assert items[1..][i' - 1] == items[i'];
      }
      if i != -1 {
        assert items[i + 1] == items[1..][i];
      }
    }
  }

  /** A record appended under a name the store did not have is that name's first match. */
  lemma AppendedIsFirstMatch(store: Store, it: Item)
    requires !Named(store, it.name)
    ensures RetrieveItemIndex(store + [it], it.name) == |store|
  {
    var s1 := store + [it];
    forall j | 0 <= j < |store|
      ensures s1[j].name != it.name
    {
      assert s1[j] == store[j];
    }
    assert s1[|store|] == it;
  }

  /** In a store with unique names, the match is the only record with that name. */
  lemma UniqueMatch(items: Store, name: string, j: int)
    requires Unique(items) && 0 <= j < |items| && items[j].name == name
    ensures RetrieveItemIndex(items, name) == j
  {
  }
}
