/**
  The few Python built-ins the modelled scripts rely on: exceptions as error
  values, `None`, list indexing with negative indices, `str.isspace`,
  `str.strip`, `str.endswith` and the substring test `needle in haystack`.
 */
module Builtins {

  datatype Option<+T> = None | Some(value: T)

  /** The Python exceptions raised by the modelled code. */
  datatype PyError = TypeError | ValueError | IndexError | KeyError

  datatype Result<+T> = Ok(value: T) | Err(error: PyError)

  /** A value as Python's `isinstance` checks see it. */
  datatype Value = Int(i: int) | Float(x: real) | Other

  predicate IsNumber(v: Value) {
    v.Int? || v.Float?
  }

  // ---------------------------------------------------------------------------
  // Indexing `xs[num]` of a list of length `n`

  /** The position `xs[num]` addresses, or None where Python raises IndexError. */
  function ResolveIndex(num: int, n: nat): (r: Option<nat>)
    ensures r.Some? <==> -(n as int) <= num < n
    ensures r.Some? ==> r.value < n && (r.value == num || r.value == num + n)
  {
    if 0 <= num < n then Some(num)
    else if -(n as int) <= num < 0 then Some(num + n)
    else None
  }

  // ---------------------------------------------------------------------------
  // Characters and strings

  /** `str.isspace` for one character: the Unicode whitespace Python strips by default. */
  predicate IsSpace(c: char) {
    || '\U{0009}' <= c <= '\U{000D}'
    || '\U{001C}' <= c <= '\U{0020}'
    || c == '\U{0085}' || c == '\U{00A0}' || c == '\U{1680}'
    || '\U{2000}' <= c <= '\U{200A}'
    || c == '\U{2028}' || c == '\U{2029}' || c == '\U{202F}' || c == '\U{205F}'
    || c == '\U{3000}'
  }

  /** A string with no whitespace at either end. */
  predicate IsStripped(s: string) {
    s == [] || (!IsSpace(s[0]) && !IsSpace(s[|s| - 1]))
  }

  /** Where the text of `s` starts: the number of leading whitespace characters. */
  function StripStart(s: string): (i: nat)
    ensures i <= |s| && (i == |s| || !IsSpace(s[i]))
    ensures forall k :: 0 <= k < i ==> IsSpace(s[k])
  {
    if s != [] && IsSpace(s[0]) then 1 + StripStart(s[1..]) else 0
  }

  /** Where the text of `s` ends, searching back no further than `i`. */
  function StripEnd(s: string, i: nat): (j: nat)
    requires i <= |s|
    ensures i <= j <= |s| && (j == i || !IsSpace(s[j - 1]))
    ensures forall k :: j <= k < |s| ==> IsSpace(s[k])
  {
    if i < |s| && IsSpace(s[|s| - 1]) then StripEnd(s[..|s| - 1], i) else |s|
  }

  /**
    `str.strip()`: the longest run of `s` between leading and trailing
    whitespace; everything removed is whitespace.
   */
  function Strip(s: string): (r: string)
    ensures IsStripped(r)
    ensures exists i, j :: (0 <= i <= j <= |s| && r == s[i..j]
                             && (forall k :: 0 <= k < i ==> IsSpace(s[k]))
                             && (forall k :: j <= k < |s| ==> IsSpace(s[k])))
  {
    var i := StripStart(s);
    var j := StripEnd(s, i);
    s[i..j]
  }

  /** Stripping a string that has no whitespace at its ends changes nothing. */
  lemma StripStripped(s: string)
    requires IsStripped(s)
    ensures Strip(s) == s
  {
  }

  /** `str.strip` is idempotent. */
  lemma StripIdempotent(s: string)
    ensures Strip(Strip(s)) == Strip(s)
  {
    StripStripped(Strip(s));
  }

  /** `s.endswith(suffix)`. */
  predicate EndsWith(s: string, suffix: string) {
    |suffix| <= |s| && s[|s| - |suffix|..] == suffix
  }

  predicate StartsWith(s: string, prefix: string) {
    |prefix| <= |s| && s[..|prefix|] == prefix
  }

  /** `needle in haystack` for strings, as a left-to-right scan. */
  predicate Contains(haystack: string, needle: string)
    decreases |haystack|
  {
    StartsWith(haystack, needle) || (haystack != [] && Contains(haystack[1..], needle))
  }

  /** `needle` occurs in `haystack` at some position. */
  ghost predicate Occurs(haystack: string, needle: string) {
    exists i, j :: 0 <= i <= j <= |haystack| && haystack[i..j] == needle
  }

  /** The scan finds `needle` exactly when it occurs somewhere. */
  lemma {:induction false} ContainsIffOccurs(haystack: string, needle: string)
    ensures Contains(haystack, needle) <==> Occurs(haystack, needle)
    decreases |haystack|
  {
    if haystack == [] {
      OccursInEmpty(needle);
    } else {
      ContainsIffOccurs(haystack[1..], needle);
      OccursCons(haystack, needle);
    }
  }

  /** A witness for `Occurs`. */
  lemma OccursAt(haystack: string, needle: string, i: nat, j: nat)
    requires i <= j <= |haystack| && haystack[i..j] == needle
    ensures Occurs(haystack, needle)
  {
  }

  /** Slice step: `s[0..n]` and `s[..n]` are the same slice. */
  lemma PrefixSlice(s: string, n: nat)
    requires n <= |s|
    ensures s[0..n] == s[..n]
  {
  }

  lemma SliceShift(s: string, i: nat, j: nat)
    requires i <= j < |s|
    ensures s[1..][i..j] == s[i + 1..j + 1]
  {
    SliceOfSlice(s, 1, |s|, i, j);
  }

  /** Only the empty string occurs in the empty string. */
  lemma OccursInEmpty(needle: string)
    ensures Occurs([], needle) <==> StartsWith([], needle)
  {
    var empty: string := [];
    if Occurs(empty, needle) {
      var i, j :| 0 <= i <= j <= 0 && empty[i..j] == needle;
      assert needle == [];
    }
    if StartsWith([], needle) {
      OccursAt([], needle, 0, 0);
    }
  }

  /** An occurrence is either at the start or in the tail. */
  lemma OccursCons(haystack: string, needle: string)
    requires haystack != []
    ensures Occurs(haystack, needle) <==> StartsWith(haystack, needle) || Occurs(haystack[1..], needle)
  {
    if Occurs(haystack, needle) {
      OccursSplit(haystack, needle);
    }
    if StartsWith(haystack, needle) {
      OccursOfStart(haystack, needle);
    }
    if Occurs(haystack[1..], needle) {
      OccursOfTail(haystack, needle);
    }
  }

  lemma OccursSplit(haystack: string, needle: string)
    requires haystack != [] && Occurs(haystack, needle)
    ensures StartsWith(haystack, needle) || Occurs(haystack[1..], needle)
  {
    var i, j :| 0 <= i <= j <= |haystack| && haystack[i..j] == needle;
    if i == 0 {
      PrefixSlice(haystack, j);
    } else {
      SliceShift(haystack, i - 1, j - 1);
      OccursAt(haystack[1..], needle, i - 1, j - 1);
    }
  }

  lemma OccursOfStart(haystack: string, needle: string)
    requires StartsWith(haystack, needle)
    ensures Occurs(haystack, needle)
  {
    PrefixSlice(haystack, |needle|);
    OccursAt(haystack, needle, 0, |needle|);
  }

  lemma OccursOfTail(haystack: string, needle: string)
    requires haystack != [] && Occurs(haystack[1..], needle)
    ensures Occurs(haystack, needle)
  {
    var i, j :| 0 <= i <= j <= |haystack| - 1 && haystack[1..][i..j] == needle;
    SliceShift(haystack, i, j);
    OccursAt(haystack, needle, i + 1, j + 1);
  }

  /** The empty string is in every string. */
  lemma ContainsEmpty(haystack: string)
    ensures Contains(haystack, [])
  {
    assert StartsWith(haystack, []);
  }

  /** A one-character string is in `s` exactly when that character is. */
  lemma {:induction false} ContainsChar(s: string, c: char)
    ensures Contains(s, [c]) <==> c in s
    decreases |s|
  {
    if s != [] {
      ContainsChar(s[1..], c);
      assert c in s <==> s[0] == c || c in s[1..];
      assert StartsWith(s, [c]) <==> s[0] == c;
    }
  }

  lemma SliceOfSlice(s: string, i: nat, j: nat, k: nat, l: nat)
    requires i <= j <= |s| && k <= l <= j - i
    ensures s[i..j][k..l] == s[i + k..i + l]
  {
    assert forall t :: 0 <= t < l - k ==> s[i..j][k..l][t] == s[i + k..i + l][t];
  }

  /** `in` is transitive: a string inside a string inside `s` is inside `s`. */
  lemma ContainsTransitive(s: string, mid: string, small: string)
    requires Contains(s, mid) && Contains(mid, small)
    ensures Contains(s, small)
  {
    ContainsIffOccurs(s, mid);
    ContainsIffOccurs(mid, small);
    var i, j :| 0 <= i <= j <= |s| && s[i..j] == mid;
    var k, l :| 0 <= k <= l <= |mid| && mid[k..l] == small;
    SliceOfSlice(s, i, j, k, l);
    assert s[i + k..i + l] == small;
    ContainsIffOccurs(s, small);
  }
}
