/**
  `law_number`: the dictionary of law names and law numbers of one e-Gov
  category, and the lookup of the laws whose name contains a keyword.
  `get_law_dict` is memoised per category; the memo is an explicit map here.
 */
module LawNumber {
  import opened Builtins
  import opened EGov

  /** Law names (keys) to law numbers (values); an XML element without text gives None. */
  type LawDict = map<Option<string>, Option<string>>

  /** `[e.text for e in root.iter() if e.tag == tag]`: the texts of the elements with that tag, in document order. */
  function TextsTagged(elements: seq<Element>, tag: string): (r: seq<Option<string>>)
    ensures |r| <= |elements|
    ensures forall t :: t in r <==> exists k :: 0 <= k < |elements| && elements[k].tag == tag && elements[k].text == t
  {
    if elements == [] then []
    else
      var rest := TextsTagged(elements[1..], tag);
      assert forall k :: 1 <= k < |elements| ==> elements[k] == elements[1..][k - 1];
      if elements[0].tag == tag then [elements[0].text] + rest else rest
  }

  /** The texts of a document made of two parts are those of the first part, then those of the second. */
  lemma {:induction false} TextsTaggedAppend(a: seq<Element>, b: seq<Element>, tag: string)
    ensures TextsTagged(a + b, tag) == TextsTagged(a, tag) + TextsTagged(b, tag)
  {
    if a != [] {
      assert (a + b)[1..] == a[1..] + b;
      TextsTaggedAppend(a[1..], b, tag);
    } else {
      assert a + b == b;
    }
  }

  // ---------------------------------------------------------------------------
  // {name: num for (name, num) in zip(names, numbers)}

  /** The dictionary built from the first `n` pairs, later pairs overwriting earlier ones. */
  function ZipPrefix(names: seq<Option<string>>, numbers: seq<Option<string>>, n: nat): (r: LawDict)
    requires n <= |names| && n <= |numbers|
    ensures forall k :: k in r <==> k in names[..n]
  {
    if n == 0 then map[]
    else
      var d := ZipPrefix(names, numbers, n - 1);
      assert names[..n] == names[..n - 1] + [names[n - 1]];
      d[names[n - 1] := numbers[n - 1]]
  }

  function Min(a: nat, b: nat): nat {
    if a <= b then a else b
  }

  /** The dictionary comprehension over `zip(names, numbers)`, which stops at the shorter list. */
  function ZipToDict(names: seq<Option<string>>, numbers: seq<Option<string>>): (r: LawDict)
    ensures forall k :: k in r <==> k in names[..Min(|names|, |numbers|)]
  {
    ZipPrefix(names, numbers, Min(|names|, |numbers|))
  }

  /** Within the first `n` pairs, a name is mapped to the number paired with its last occurrence. */
  lemma {:induction false} ZipPrefixLastWins(names: seq<Option<string>>, numbers: seq<Option<string>>, n: nat, i: nat)
    requires i < n <= |names| && n <= |numbers|
    requires forall j :: i < j < n ==> names[j] != names[i]
    ensures ZipPrefix(names, numbers, n)[names[i]] == numbers[i]
  {
    if i < n - 1 {
      ZipPrefixLastWins(names, numbers, n - 1, i);
    }
  }

  /**
    `zip` pairs the i-th name with the i-th number, and a name that appears
    more than once keeps the number of its last appearance.
   */
  lemma ZipLastWins(names: seq<Option<string>>, numbers: seq<Option<string>>, i: nat)
    requires i < |names| && i < |numbers|
    requires forall j :: i < j < Min(|names|, |numbers|) ==> names[j] != names[i]
    ensures names[i] in ZipToDict(names, numbers)
    ensures ZipToDict(names, numbers)[names[i]] == numbers[i]
  {
    ZipPrefixLastWins(names, numbers, Min(|names|, |numbers|), i);
  }

  /** The names beyond the length of the numbers list are dropped by `zip`. */
  lemma ZipIgnoresExtraNames(names: seq<Option<string>>, extra: seq<Option<string>>, numbers: seq<Option<string>>)
    requires |names| == |numbers|
    ensures ZipToDict(names + extra, numbers) == ZipToDict(names, numbers)
  {
    ZipPrefixSame(names + extra, names, numbers, |names|);
  }

  lemma {:induction false} ZipPrefixSame(a: seq<Option<string>>, b: seq<Option<string>>, numbers: seq<Option<string>>, n: nat)
    requires n <= |a| && n <= |b| && n <= |numbers| && a[..n] == b[..n]
    ensures ZipPrefix(a, numbers, n) == ZipPrefix(b, numbers, n)
  {
    if n > 0 {
      assert a[n - 1] == a[..n][n - 1] == b[..n][n - 1] == b[n - 1];
      assert a[..n - 1] == a[..n][..n - 1] == b[..n][..n - 1] == b[..n - 1];
      ZipPrefixSame(a, b, numbers, n - 1);
    }
  }

  /** The body of `get_law_dict` after the fetch: the names and numbers of a law list, zipped. */
  function LawDictOf(elements: seq<Element>): (r: LawDict)
    ensures forall k :: k in r ==> exists i :: 0 <= i < |elements| && elements[i].tag == "LawName" && elements[i].text == k
    ensures |r| <= |elements|
  {
    var names := TextsTagged(elements, "LawName");
    var r := ZipToDict(names, TextsTagged(elements, "LawNo"));
    assert forall k :: k in r ==> k in names by {
      forall k | k in r ensures k in names {
        var m := Min(|names|, |TextsTagged(elements, "LawNo")|);
        assert k in names[..m];
        var j :| 0 <= j < m && names[..m][j] == k;
        assert names[j] == k;
      }
    }
    KeysAtMostNames(r, names);
    r
  }

  /** A dictionary whose keys are all among `names` has no more entries than `names`. */
  lemma KeysAtMostNames(r: LawDict, names: seq<Option<string>>)
    requires forall k :: k in r ==> k in names
    ensures |r| <= |names|
  {
    var all := set n | n in names;
    assert r.Keys <= all;
    SetOfSeqSize(names);
    assert all == r.Keys + (all - r.Keys);
    assert |all| == |r.Keys| + |all - r.Keys|;
  }

  lemma {:induction false} SetOfSeqSize(names: seq<Option<string>>)
    ensures |set n | n in names| <= |names|
  {
    if names != [] {
      SetOfSeqSize(names[1..]);
      assert (set n | n in names) == (set n | n in names[1..]) + {names[0]};
    }
  }

  // ---------------------------------------------------------------------------
  // {k: v for (k, v) in law_dict.items() if keyword in k}

  /**
    The laws whose name contains `keyword`, with their numbers. A name
    that is None makes `keyword in k` raise TypeError.
   */
  function FilterByKeyword(d: LawDict, keyword: string): (r: Result<LawDict>)
    ensures r.Err? <==> None in d
    ensures r.Err? ==> r.error == TypeError
    ensures r.Ok? ==> forall k :: k in r.value <==> k in d && k.Some? && Contains(k.value, keyword)
    ensures r.Ok? ==> forall k :: k in r.value ==> r.value[k] == d[k]
  {
    if None in d then Err(TypeError)
    else Ok(map k | k in d && k.Some? && Contains(k.value, keyword) :: d[k])
  }

  /** The result is a sub-dictionary: its names are names of `d`, with the same numbers. */
  lemma FilterSubMap(d: LawDict, keyword: string)
    requires FilterByKeyword(d, keyword).Ok?
    ensures FilterByKeyword(d, keyword).value.Keys <= d.Keys
    ensures forall k :: k in FilterByKeyword(d, keyword).value ==> FilterByKeyword(d, keyword).value[k] == d[k]
  {
  }

  /** The empty keyword is in every name, so it returns the whole dictionary. */
  lemma FilterEmptyKeyword(d: LawDict)
    requires None !in d
    ensures FilterByKeyword(d, []) == Ok(d)
  {
    var r := FilterByKeyword(d, []).value;
    forall k | k in d
      ensures k in r
    {
      ContainsEmpty(k.value);
    }
    assert r.Keys == d.Keys;
    assert forall k :: k in r ==> r[k] == d[k];
    assert r == d;
  }

  /** A keyword that is in no name gives the empty dictionary. */
  lemma FilterNoMatch(d: LawDict, keyword: string)
    requires None !in d
    requires forall k :: k in d ==> !Contains(k.value, keyword)
    ensures FilterByKeyword(d, keyword) == Ok(map[])
  {
  }

  /** A keyword that contains another selects no more laws than the other one does. */
  lemma FilterNarrows(d: LawDict, keyword: string, longer: string)
    requires None !in d && Contains(longer, keyword)
    ensures FilterByKeyword(d, longer).value.Keys <= FilterByKeyword(d, keyword).value.Keys
  {
    forall k | k in FilterByKeyword(d, longer).value
      ensures k in FilterByKeyword(d, keyword).value
    {
      ContainsTransitive(k.value, longer, keyword);
    }
  }

  // ---------------------------------------------------------------------------
  // The memo of `get_law_dict`

  /** The dictionaries `get_law_dict` has computed, by category. */
  type Memo = map<int, LawDict>

  /** Every memoised dictionary is the one the law list of its category gives. */
  predicate MemoCoherent(api: Api, memo: Memo) {
    forall c :: c in memo ==> memo[c] == LawDictOf(api.lawList(c))
  }

  /** What a call of `get_law_dict` returns, the memo after it, and whether it fetched. */
  datatype Lookup = Lookup(dict: LawDict, memo: Memo, fetched: bool)

  /**
    `get_law_dict(category)`: a repeated category is answered from the memo
    without a fetch, and the answer is the one a fetch would have given.
   */
  function GetLawDict(api: Api, memo: Memo, category: int): (r: Lookup)
    requires MemoCoherent(api, memo)
    ensures r.dict == LawDictOf(api.lawList(category))
    ensures r.fetched <==> category !in memo
    ensures !r.fetched ==> r.memo == memo
    ensures r.fetched ==> r.memo == memo[category := r.dict]
    ensures MemoCoherent(api, r.memo)
  {
    if category in memo then Lookup(memo[category], memo, false)
    else
      var d := LawDictOf(api.lawList(category));
      Lookup(d, memo[category := d], true)
  }

  /** Two calls with the same category: the second one does not fetch and returns the same dictionary. */
  lemma GetLawDictTwice(api: Api, memo: Memo, category: int)
    requires MemoCoherent(api, memo)
    ensures !GetLawDict(api, GetLawDict(api, memo, category).memo, category).fetched
    ensures GetLawDict(api, GetLawDict(api, memo, category).memo, category).dict
            == GetLawDict(api, memo, category).dict
  {
  }

  /**
    `get_law_number(keyword, category)`: the laws of the category whose name
    contains `keyword`, and the memo after the lookup.
   */
  function GetLawNumber(api: Api, memo: Memo, keyword: string, category: int): (r: (Result<LawDict>, Memo))
    requires MemoCoherent(api, memo)
    ensures MemoCoherent(api, r.1)
    ensures r.0 == FilterByKeyword(LawDictOf(api.lawList(category)), keyword)
    ensures r.0.Ok? ==> r.0.value.Keys <= LawDictOf(api.lawList(category)).Keys
  {
    var lookup := GetLawDict(api, memo, category);
    (FilterByKeyword(lookup.dict, keyword), lookup.memo)
  }
}
