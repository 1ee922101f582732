/**
 * Value-level specifications of the linked-list operations: what `delete`,
 * `find` and `reverse` do to the sequence of values held by the list.
 */
module SeqSpec {
  import opened Wrappers

  /** The values of `s` that the compare function does not call equal to `v`, in their original order. */
  function RemoveEqual<T>(s: seq<T>, v: T, cmp: (T, T) -> int): (r: seq<T>)
    ensures |r| <= |s|
  {
    if s == [] then []
    else
      var init, last := s[..|s| - 1], s[|s| - 1];
      assert s == init + [last];
      if cmp(last, v) == 0 then RemoveEqual(init, v, cmp) else RemoveEqual(init, v, cmp) + [last]
  }

  /** Exactly the values of `s` that differ from `v` survive. */
  lemma {:induction false} RemoveEqualMembers<T>(s: seq<T>, v: T, cmp: (T, T) -> int)
    ensures var r := RemoveEqual(s, v, cmp);
            forall i :: 0 <= i < |r| ==> r[i] in s && cmp(r[i], v) != 0
    ensures var r := RemoveEqual(s, v, cmp);
            forall i :: 0 <= i < |s| && cmp(s[i], v) != 0 ==> s[i] in r
  {
    if s != [] {
      var init, last := s[..|s| - 1], s[|s| - 1];
      assert s == init + [last];
      RemoveEqualMembers(init, v, cmp);
    }
  }

  /** Removing from a concatenation removes from each part. */
  lemma {:induction false} RemoveEqualAppend<T>(a: seq<T>, b: seq<T>, v: T, cmp: (T, T) -> int)
    ensures RemoveEqual(a + b, v, cmp) == RemoveEqual(a, v, cmp) + RemoveEqual(b, v, cmp)
    decreases |b|
  {
    if b != [] {
      var init, last := b[..|b| - 1], b[|b| - 1];
      assert a + b == (a + init) + [last];
      RemoveEqualAppend(a, init, v, cmp);
    } else {
      assert a + b == a;
    }
  }

  /** Removing what is already gone changes nothing: deleting a value twice equals deleting it once. */
  lemma {:induction false} RemoveEqualIdempotent<T>(s: seq<T>, v: T, cmp: (T, T) -> int)
    ensures RemoveEqual(RemoveEqual(s, v, cmp), v, cmp) == RemoveEqual(s, v, cmp)
  {
    var r := RemoveEqual(s, v, cmp);
    RemoveEqualMembers(s, v, cmp);
    RemoveEqualNoMatch(r, v, cmp);
  }

  /** When no value matches, nothing is removed. */
  lemma {:induction false} RemoveEqualNoMatch<T>(s: seq<T>, v: T, cmp: (T, T) -> int)
    requires forall i :: 0 <= i < |s| ==> cmp(s[i], v) != 0
    ensures RemoveEqual(s, v, cmp) == s
  {
    if s != [] {
      var init := s[..|s| - 1];
      RemoveEqualNoMatch(init, v, cmp);
    }
  }

  /** When every value matches, nothing survives. */
  lemma {:induction false} RemoveEqualAllMatch<T>(s: seq<T>, v: T, cmp: (T, T) -> int)
    requires forall i :: 0 <= i < |s| ==> cmp(s[i], v) == 0
    ensures RemoveEqual(s, v, cmp) == []
  {
    if s != [] {
      RemoveEqualAllMatch(s[..|s| - 1], v, cmp);
    }
  }

  /** Extending the prefix `s[..j]` by one value extends its survivors by that value unless it matches. */
  lemma RemoveEqualExtend<T>(s: seq<T>, j: nat, v: T, cmp: (T, T) -> int)
    requires j < |s|
    ensures RemoveEqual(s[..j + 1], v, cmp)
            == RemoveEqual(s[..j], v, cmp) + (if cmp(s[j], v) == 0 then [] else [s[j]])
  {
    assert s[..j + 1][..j] == s[..j];
  }

  /** The index of the last value of `s` equal to `v`, or -1 when there is none. */
  function LastEqual<T>(s: seq<T>, v: T, cmp: (T, T) -> int): (k: int)
    ensures -1 <= k < |s|
    ensures k >= 0 ==> cmp(s[k], v) == 0
    ensures forall i :: k < i < |s| ==> cmp(s[i], v) != 0
  {
    if s == [] then -1
    else if cmp(s[|s| - 1], v) == 0 then |s| - 1
    else LastEqual(s[..|s| - 1], v, cmp)
  }

  /** Extending the prefix `s[..j]` by a matching value makes it the last match. */
  lemma LastEqualExtend<T>(s: seq<T>, j: nat, v: T, cmp: (T, T) -> int)
    requires j < |s|
    ensures LastEqual(s[..j + 1], v, cmp) == if cmp(s[j], v) == 0 then j else LastEqual(s[..j], v, cmp)
  {
    assert s[..j + 1][..j] == s[..j];
  }

  /** The last match of a concatenation lies in its second part when that part has one. */
  lemma {:induction false} LastEqualAppend<T>(a: seq<T>, b: seq<T>, v: T, cmp: (T, T) -> int)
    ensures LastEqual(a + b, v, cmp)
            == if LastEqual(b, v, cmp) >= 0 then |a| + LastEqual(b, v, cmp) else LastEqual(a, v, cmp)
    decreases |b|
  {
    if b != [] {
      var init, last := b[..|b| - 1], b[|b| - 1];
      assert a + b == (a + init) + [last];
      LastEqualAppend(a, init, v, cmp);
    } else {
      assert a + b == a;
    }
  }

  /**
   * Splitting off a run of `h` leading matches: if they are all of `s`,
   * nothing survives; otherwise the first non-match `s[h]` survives in front
   * of the survivors of the rest.
   */
  lemma RemoveLeadingMatches<T>(s: seq<T>, h: nat, v: T, cmp: (T, T) -> int)
    requires h <= |s| && forall i :: 0 <= i < h ==> cmp(s[i], v) == 0
    requires h < |s| ==> cmp(s[h], v) != 0
    ensures RemoveEqual(s, v, cmp) == if h == |s| then [] else [s[h]] + RemoveEqual(s[h + 1..], v, cmp)
  {
    RemoveEqualAllMatch(s[..h], v, cmp);
    if h == |s| {
      assert s[..h] == s;
    } else {
      var a, b := s[..h + 1], s[h + 1..];
      assert s == a + b;
      assert a == s[..h] + [s[h]];
      RemoveEqualAppend(a, b, v, cmp);
      RemoveEqualAppend(s[..h], [s[h]], v, cmp);
    }
  }

  /**
   * After a run of `h` leading matches, the last match of `s` is the last
   * value when the run is all of `s`; otherwise it lies in the rest after the
   * first non-match `s[h]` or, failing that, ends the leading run.
   */
  lemma LastOfLeadingMatches<T>(s: seq<T>, h: nat, v: T, cmp: (T, T) -> int)
    requires h <= |s| && forall i :: 0 <= i < h ==> cmp(s[i], v) == 0
    requires h < |s| ==> cmp(s[h], v) != 0
    ensures LastEqual(s, v, cmp)
            == if h == |s| then h - 1
               else var k := LastEqual(s[h + 1..], v, cmp); if k >= 0 then h + 1 + k else h - 1
  {
    if h < |s| {
      var a, b := s[..h + 1], s[h + 1..];
      assert s == a + b;
      LastEqualAppend(a, b, v, cmp);
      assert a[..h] == s[..h];
    }
  }

  /**
   * The survivors among the first `j` values of `s`, collected from the front
   * as a walk along the list meets them.
   */
  function Survivors<T>(s: seq<T>, j: nat, v: T, cmp: (T, T) -> int): (r: seq<T>)
    requires j <= |s|
    ensures |r| <= j
  {
    if j == 0 then [] else Survivors(s, j - 1, v, cmp) + (if cmp(s[j - 1], v) == 0 then [] else [s[j - 1]])
  }

  /** Collecting survivors along a walk gives exactly the values `RemoveEqual` keeps of the prefix walked. */
  lemma {:induction false} SurvivorsPrefix<T>(s: seq<T>, j: nat, v: T, cmp: (T, T) -> int)
    requires j <= |s|
    ensures Survivors(s, j, v, cmp) == RemoveEqual(s[..j], v, cmp)
  {
    if j > 0 {
      SurvivorsPrefix(s, j - 1, v, cmp);
      RemoveEqualExtend(s, j - 1, v, cmp);
    }
  }

  /** The index of the last value among the first `j` of `s` equal to `v`, or -1, as a walk records it. */
  function LastBefore<T>(s: seq<T>, j: nat, v: T, cmp: (T, T) -> int): (k: int)
    requires j <= |s|
    ensures -1 <= k < j
  {
    if j == 0 then -1 else if cmp(s[j - 1], v) == 0 then j - 1 else LastBefore(s, j - 1, v, cmp)
  }

  /** The match a walk records last is the last match of the prefix walked. */
  lemma {:induction false} LastBeforePrefix<T>(s: seq<T>, j: nat, v: T, cmp: (T, T) -> int)
    requires j <= |s|
    ensures LastBefore(s, j, v, cmp) == LastEqual(s[..j], v, cmp)
  {
    if j > 0 {
      LastBeforePrefix(s, j - 1, v, cmp);
      LastEqualExtend(s, j - 1, v, cmp);
    }
  }

  /**
   * The search criterion of `find`: the callback, when given, accepts `x`, or
   * the value, when given, is equal to `x` under the compare function.
   */
  predicate Matches<T>(x: T, value: Option<T>, callback: Option<T -> bool>, cmp: (T, T) -> int)
    ensures callback.Some? && callback.value(x) ==> Matches(x, value, callback, cmp)
    ensures value.Some? && cmp(x, value.value) == 0 ==> Matches(x, value, callback, cmp)
    ensures Matches(x, value, callback, cmp) ==> callback.Some? || value.Some?
  {
    (callback.Some? && callback.value(x)) || (value.Some? && cmp(x, value.value) == 0)
  }

  /** The index of the first value of `s` meeting the criterion, or -1 when there is none. */
  function FirstMatch<T>(s: seq<T>, value: Option<T>, callback: Option<T -> bool>, cmp: (T, T) -> int): (k: int)
    ensures -1 <= k < |s|
    ensures k >= 0 ==> Matches(s[k], value, callback, cmp)
    ensures forall i :: 0 <= i < |s| && (k < 0 || i < k) ==> !Matches(s[i], value, callback, cmp)
  {
    if s == [] then -1
    else if Matches(s[0], value, callback, cmp) then 0
    else
      var k := FirstMatch(s[1..], value, callback, cmp);
      if k < 0 then -1 else k + 1
  }

  /** With no criterion at all nothing matches. */
  lemma NoCriterionNoMatch<T>(s: seq<T>, cmp: (T, T) -> int)
    ensures FirstMatch(s, None, None, cmp) == -1
  {
  }

  /** After every value equal to `v` is removed, a search for `v` finds nothing. */
  lemma FindAfterRemove<T>(s: seq<T>, v: T, cmp: (T, T) -> int)
    ensures FirstMatch(RemoveEqual(s, v, cmp), Some(v), None, cmp) == -1
  {
  }

  /** `s` read from its last value to its first. */
  function Reversed<T>(s: seq<T>): (r: seq<T>)
    ensures |r| == |s|
    ensures forall k :: 0 <= k < |s| ==> r[k] == s[|s| - 1 - k]
  {
    if s == [] then [] else [s[|s| - 1]] + Reversed(s[..|s| - 1])
  }

  /** Reversing twice gives back the original sequence. */
  lemma ReversedTwice<T>(s: seq<T>)
    ensures Reversed(Reversed(s)) == s
  {
  }
}
