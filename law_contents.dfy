/**
  The text pipeline that turns the contents of a law, as fetched from e-Gov,
  into one plain string: collect the stripped element texts, cut the list at
  Article 56, keep the sentences, join them, delete the 「 」 quotation marks
  and delete the parenthesised remarks.
 */
module LawContents {
  import opened Builtins
  import opened EGov

  // ---------------------------------------------------------------------------
  // get_raw: the element texts

  /** `if e.text`: the element has a text and it is not the empty string. */
  predicate HasText(e: Element) {
    e.text.Some? && e.text.value != []
  }

  /** `[e.text.strip() for e in elements if e.text]`. */
  function StrippedTexts(elements: seq<Element>): (r: seq<string>)
    ensures |r| <= |elements|
    ensures forall i :: 0 <= i < |r| ==> IsStripped(r[i])
    ensures forall t :: t in r <==> exists k :: 0 <= k < |elements| && HasText(elements[k]) && t == Strip(elements[k].text.value)
  {
    if elements == [] then []
    else
      var e := elements[0];
      var rest := StrippedTexts(elements[1..]);
      assert forall k :: 1 <= k < |elements| ==> elements[k] == elements[1..][k - 1];
      if HasText(e) then [Strip(e.text.value)] + rest else rest
  }

  /** `[t for t in texts if t]`. */
  function NonEmpty(texts: seq<string>): (r: seq<string>)
    ensures |r| <= |texts|
    ensures forall t :: t in r <==> t in texts && t != []
  {
    if texts == [] then []
    else if texts[0] != [] then [texts[0]] + NonEmpty(texts[1..])
    else NonEmpty(texts[1..])
  }

  /**
    `get_raw(number)` once the document is fetched: the texts of its elements,
    stripped, without the empty ones.
   */
  function RawContents(elements: seq<Element>): (r: seq<string>)
    ensures |r| <= |elements|
    ensures forall i :: 0 <= i < |r| ==> r[i] != [] && IsStripped(r[i])
  {
    var r := NonEmpty(StrippedTexts(elements));
    assert forall i :: 0 <= i < |r| ==> r[i] in r;
    r
  }

  /** The texts of a document split in two are those of the first part, then those of the second. */
  lemma {:induction false} RawContentsAppend(a: seq<Element>, b: seq<Element>)
    ensures RawContents(a + b) == RawContents(a) + RawContents(b)
  {
    StrippedTextsAppend(a, b);
    NonEmptyAppend(StrippedTexts(a), StrippedTexts(b));
  }

  lemma {:induction false} StrippedTextsAppend(a: seq<Element>, b: seq<Element>)
    ensures StrippedTexts(a + b) == StrippedTexts(a) + StrippedTexts(b)
  {
    if a != [] {
      assert (a + b)[1..] == a[1..] + b;
      StrippedTextsAppend(a[1..], b);
    } else {
      assert a + b == b;
    }
  }

  lemma {:induction false} NonEmptyAppend(a: seq<string>, b: seq<string>)
    ensures NonEmpty(a + b) == NonEmpty(a) + NonEmpty(b)
  {
    if a != [] {
      assert (a + b)[1..] == a[1..] + b;
      NonEmptyAppend(a[1..], b);
    } else {
      assert a + b == b;
    }
  }

  /** One element contributes its stripped text when it has a non-empty one, and nothing otherwise. */
  lemma StrippedTextsOne(e: Element)
    ensures StrippedTexts([e]) == if HasText(e) then [Strip(e.text.value)] else []
  {
    assert [e][1..] == [];
  }

  /**
    One element contributes to `get_raw` exactly its stripped text, unless
    it has none or the text is only whitespace.
   */
  lemma RawContentsOne(e: Element)
    ensures RawContents([e]) == if e.text.Some? && Strip(e.text.value) != [] then [Strip(e.text.value)] else []
  {
    StrippedTextsOne(e);
    if e.text.Some? && e.text.value == [] {
      assert Strip(e.text.value) == [];
    }
    var texts := StrippedTexts([e]);
    if texts != [] {
      assert texts[1..] == [];
    }
  }

  /** An element whose text is already stripped and non-empty contributes exactly that text. */
  lemma RawContentsOfCleanElement(e: Element)
    requires e.text.Some? && e.text.value != [] && IsStripped(e.text.value)
    ensures RawContents([e]) == [e.text.value]
  {
    StripStripped(e.text.value);
    assert [e][1..] == [];
  }

  /** `get_raw` is idempotent: the texts it returns, read as a document again, come back unchanged. */
  lemma {:induction false} RawContentsIdempotent(texts: seq<string>)
    requires forall i :: 0 <= i < |texts| ==> texts[i] != [] && IsStripped(texts[i])
    ensures RawContents(seq(|texts|, i requires 0 <= i < |texts| => Element("Sentence", Some(texts[i])))) == texts
  {
    var elements := seq(|texts|, i requires 0 <= i < |texts| => Element("Sentence", Some(texts[i])));
    if texts != [] {
      var tail := seq(|texts| - 1, i requires 0 <= i < |texts| - 1 => Element("Sentence", Some(texts[1..][i])));
      assert elements == [elements[0]] + tail;
      RawContentsIdempotent(texts[1..]);
      RawContentsOfCleanElement(elements[0]);
      RawContentsAppend([elements[0]], tail);
      assert texts == [texts[0]] + texts[1..];
    }
  }

  // ---------------------------------------------------------------------------
  // raw[: raw.index("第五十六条")]

  /** The element that opens Article 56. */
  const Article56: string := "第五十六条"

  /** `xs.index(x)`: the first position of `x`, or None where Python raises ValueError. */
  function IndexOf(xs: seq<string>, x: string): (r: Option<nat>)
    ensures r.None? <==> x !in xs
    ensures r.Some? ==> r.value < |xs| && xs[r.value] == x && x !in xs[..r.value]
  {
    if xs == [] then None
    else if xs[0] == x then Some(0)
    else
      var r := IndexOf(xs[1..], x);
      assert xs == [xs[0]] + xs[1..];
      if r.None? then None
      else
        assert xs[..r.value + 1] == [xs[0]] + xs[1..][..r.value];
        Some(r.value + 1)
  }

  /**
    `raw[: raw.index("第五十六条")]`: the elements strictly before the first
    Article 56 heading; ValueError when there is none.
   */
  function BeforeArticle56(raw: seq<string>): (r: Result<seq<string>>)
    ensures r.Err? <==> Article56 !in raw
    ensures r.Err? ==> r.error == ValueError
    ensures r.Ok? ==> |r.value| < |raw| && r.value == raw[..|r.value|]
                      && raw[|r.value|] == Article56 && Article56 !in r.value
  {
    match IndexOf(raw, Article56)
    case None => Err(ValueError)
    case Some(i) => Ok(raw[..i])
  }

  /** Whatever follows the first Article 56 heading plays no part in the cut. */
  lemma BeforeArticle56IgnoresTail(head: seq<string>, tail: seq<string>)
    requires Article56 !in head
    ensures BeforeArticle56(head + [Article56] + tail) == Ok(head)
  {
    var raw := head + [Article56] + tail;
    var r := BeforeArticle56(raw);
    assert raw[|head|] == Article56;
    assert raw[..|head|] == head;
  }

  // ---------------------------------------------------------------------------
  // pre_process: sentences, join, 「 」 and （…）

  /** The full stop that ends a sentence. */
  const FullStop: string := "。"

  /** `[s for s in raw if s.endswith("。")]`. */
  function Sentences(raw: seq<string>): (r: seq<string>)
    ensures |r| <= |raw|
    ensures forall s :: s in r <==> s in raw && EndsWith(s, FullStop)
  {
    if raw == [] then []
    else if EndsWith(raw[0], FullStop) then [raw[0]] + Sentences(raw[1..])
    else Sentences(raw[1..])
  }

  lemma {:induction false} SentencesNone(raw: seq<string>)
    requires forall i :: 0 <= i < |raw| ==> !EndsWith(raw[i], FullStop)
    ensures Sentences(raw) == []
  {
    if raw != [] {
      SentencesNone(raw[1..]);
    }
  }

  /** The sentences keep their order: those of a concatenation are those of each part, in turn. */
  lemma {:induction false} SentencesAppend(a: seq<string>, b: seq<string>)
    ensures Sentences(a + b) == Sentences(a) + Sentences(b)
  {
    if a != [] {
      assert (a + b)[1..] == a[1..] + b;
      SentencesAppend(a[1..], b);
    } else {
      assert a + b == b;
    }
  }

  /** `"".join(xs)`. */
  function Join(xs: seq<string>): (r: string)
    ensures xs == [] ==> r == []
    ensures |xs| == 1 ==> r == xs[0]
  {
    if xs == [] then [] else xs[0] + Join(xs[1..])
  }

  /** Joining keeps every element as a contiguous piece: joining a concatenation joins each part. */
  lemma {:induction false} JoinAppend(a: seq<string>, b: seq<string>)
    ensures Join(a + b) == Join(a) + Join(b)
  {
    if a != [] {
      assert (a + b)[1..] == a[1..] + b;
      JoinAppend(a[1..], b);
    } else {
      assert a + b == b;
    }
  }

  /** The joined text is made of the characters of the pieces and nothing else. */
  lemma {:induction false} JoinChars(xs: seq<string>, c: char)
    ensures c in Join(xs) <==> exists i :: 0 <= i < |xs| && c in xs[i]
  {
    if xs != [] {
      JoinChars(xs[1..], c);
      assert forall i :: 1 <= i < |xs| ==> xs[i] == xs[1..][i - 1];
      assert c in xs[0] + Join(xs[1..]) <==> c in xs[0] || c in Join(xs[1..]);
      if c in Join(xs[1..]) {
        var i :| 0 <= i < |xs[1..]| && c in xs[1..][i];
        assert c in xs[i + 1];
      }
    }
  }

  /**
    `r` is `s` with some characters deleted: the characters of `r` occur in
    `s` in the same order.
   */
  predicate SubsequenceOf(r: string, s: string)
    decreases |s|
  {
    r == [] || (s != [] && ((r[0] == s[0] && SubsequenceOf(r[1..], s[1..])) || SubsequenceOf(r, s[1..])))
  }

  /** Deleting a prefix of `s` as well still leaves a subsequence of `s`. */
  lemma {:induction false} SubsequenceDrop(r: string, s: string, m: nat)
    requires m <= |s| && SubsequenceOf(r, s[m..])
    ensures SubsequenceOf(r, s)
  {
    if m > 0 {
      assert s[1..][m - 1..] == s[m..];
      SubsequenceDrop(r, s[1..], m - 1);
    }
  }

  /** Two rounds of deletion are one round of deletion. */
  lemma {:induction false} SubsequenceTransitive(a: string, b: string, c: string)
    requires SubsequenceOf(a, b) && SubsequenceOf(b, c)
    ensures SubsequenceOf(a, c)
    decreases |c|
  {
    if a != [] {
      if SubsequenceOf(b, c[1..]) {
        SubsequenceTransitive(a, b, c[1..]);
      } else if a[0] == b[0] && SubsequenceOf(a[1..], b[1..]) {
        SubsequenceTransitive(a[1..], b[1..], c[1..]);
      } else {
        SubsequenceTransitive(a, b[1..], c[1..]);
      }
    }
  }

  /** The two quotation marks `pre_process` deletes. */
  predicate IsKagikakko(c: char) {
    c == '「' || c == '」'
  }

  /** `s.translate(str.maketrans({"「": "", "」": ""}))`. */
  function DeleteKagikakko(s: string): (r: string)
    ensures forall c :: c in r ==> c in s && !IsKagikakko(c)
    ensures forall c :: !IsKagikakko(c) ==> multiset(r)[c] == multiset(s)[c]
  {
    if s == [] then []
    else
      assert s == [s[0]] + s[1..];
      if IsKagikakko(s[0]) then DeleteKagikakko(s[1..])
      else [s[0]] + DeleteKagikakko(s[1..])
  }

  /** The deletion works character by character, so it keeps the order of what remains. */
  lemma {:induction false} DeleteKagikakkoAppend(a: string, b: string)
    ensures DeleteKagikakko(a + b) == DeleteKagikakko(a) + DeleteKagikakko(b)
  {
    if a != [] {
      assert (a + b)[1..] == a[1..] + b;
      DeleteKagikakkoAppend(a[1..], b);
    } else {
      assert a + b == b;
    }
  }

  /** The characters that remain keep their order. */
  lemma {:induction false} DeleteKagikakkoKeepsOrder(s: string)
    ensures SubsequenceOf(DeleteKagikakko(s), s)
  {
    if s != [] {
      DeleteKagikakkoKeepsOrder(s[1..]);
      if IsKagikakko(s[0]) {
        SubsequenceDrop(DeleteKagikakko(s), s, 1);
      } else {
        var r := DeleteKagikakko(s);
        assert r[0] == s[0] && r[1..] == DeleteKagikakko(s[1..]);
      }
    }
  }

  /** Text without 「 or 」 is left as it is. */
  lemma {:induction false} DeleteKagikakkoWithout(s: string)
    requires forall k :: 0 <= k < |s| ==> !IsKagikakko(s[k])
    ensures DeleteKagikakko(s) == s
  {
    if s != [] {
      DeleteKagikakkoWithout(s[1..]);
    }
  }

  /**
    A character that may stand inside a removable remark: the negated class
    `[^（|^）]` of the pattern, in which `|` and `^` are excluded literally.
   */
  predicate InRemark(c: char) {
    c != '（' && c != '）' && c != '|' && c != '^'
  }

  /** The length of the longest prefix of `s` made of characters allowed inside a remark. */
  function RemarkRun(s: string): (n: nat)
    ensures n <= |s| && (n == |s| || !InRemark(s[n]))
    ensures forall k :: 0 <= k < n ==> InRemark(s[k])
  {
    if s != [] && InRemark(s[0]) then 1 + RemarkRun(s[1..]) else 0
  }

  /**
    The length of the match of `（[^（|^）]*）` at the start of `s`, if there is
    one (the star is greedy and its class excludes `）`, so no other length
    can match).
   */
  function RemarkAt(s: string): (r: Option<nat>)
    ensures r.Some? ==> 2 <= r.value <= |s|
  {
    if s != [] && s[0] == '（' then
      var n := RemarkRun(s[1..]);
      if 1 + n < |s| && s[1 + n] == '）' then Some(n + 2) else None
    else None
  }

  /** The pattern matches at the start of `s` with length `m` exactly when `s[..m]` is `（`, allowed characters, `）`. */
  lemma RemarkAtMatches(s: string, m: nat)
    ensures RemarkAt(s) == Some(m) <==>
      (2 <= m <= |s| && s[0] == '（' && s[m - 1] == '）'
       && forall k :: 1 <= k < m - 1 ==> InRemark(s[k]))
  {
    if 2 <= m <= |s| && s[0] == '（' && s[m - 1] == '）'
       && (forall k :: 1 <= k < m - 1 ==> InRemark(s[k])) {
      var n := RemarkRun(s[1..]);
      assert forall k :: 0 <= k < m - 2 ==> InRemark(s[1..][k]);
      assert !InRemark(s[1..][m - 2]);
      assert n == m - 2;
    }
    if RemarkAt(s) == Some(m) {
      var n := RemarkRun(s[1..]);
      assert forall k :: 1 <= k < m - 1 ==> s[k] == s[1..][k - 1];
    }
  }

  /**
    `re.sub("（[^（|^）]*）", "", s)`: one left-to-right pass that deletes every
    non-overlapping match; the characters that remain are characters of `s`.
   */
  function DeleteRemarks(s: string): (r: string)
    ensures |r| <= |s|
    decreases |s|
  {
    if s == [] then []
    else match RemarkAt(s)
      case Some(m) => DeleteRemarks(s[m..])
      case None => [s[0]] + DeleteRemarks(s[1..])
  }

  /** The pass only deletes: every character it leaves was in `s`, no more often. */
  lemma {:induction false} DeleteRemarksOnlyDeletes(s: string)
    ensures multiset(DeleteRemarks(s)) <= multiset(s)
    decreases |s|
  {
    if s != [] {
      match RemarkAt(s)
      case Some(m) =>
        DeleteRemarksOnlyDeletes(s[m..]);
        assert s == s[..m] + s[m..];
      case None =>
        DeleteRemarksOnlyDeletes(s[1..]);
        assert s == [s[0]] + s[1..];
    }
  }

  /** The pass only deletes: the characters it leaves keep their order in `s`. */
  lemma {:induction false} DeleteRemarksKeepsOrder(s: string)
    ensures SubsequenceOf(DeleteRemarks(s), s)
    decreases |s|
  {
    if s != [] {
      match RemarkAt(s)
      case Some(m) =>
        DeleteRemarksKeepsOrder(s[m..]);
        SubsequenceDrop(DeleteRemarks(s), s, m);
      case None =>
        DeleteRemarksKeepsOrder(s[1..]);
        var r := DeleteRemarks(s);
        assert r[0] == s[0] && r[1..] == DeleteRemarks(s[1..]);
    }
  }

  /** Text with no `（` in it has nothing to delete. */
  lemma {:induction false} DeleteRemarksWithoutOpening(s: string)
    requires '（' !in s
    ensures DeleteRemarks(s) == s
  {
    if s != [] {
      assert '（' !in s[1..];
      DeleteRemarksWithoutOpening(s[1..]);
    }
  }

  /** A prefix with no `（` is copied as it is, and the pass carries on after it. */
  lemma {:induction false} DeleteRemarksPlainPrefix(a: string, b: string)
    requires '（' !in a
    ensures DeleteRemarks(a + b) == a + DeleteRemarks(b)
  {
    if a != [] {
      assert (a + b)[1..] == a[1..] + b;
      assert '（' !in a[1..];
      DeleteRemarksPlainPrefix(a[1..], b);
    } else {
      assert a + b == b;
    }
  }

  /**
    The first remark after a stretch of plain text is deleted whole, and the
    pass continues with what follows it.
   */
  lemma DeleteRemarksFirst(a: string, remark: string, b: string)
    requires '（' !in a
    requires forall k :: 0 <= k < |remark| ==> InRemark(remark[k])
    ensures DeleteRemarks(a + ['（'] + remark + ['）'] + b) == a + DeleteRemarks(b)
  {
    var group := ['（'] + remark + ['）'];
    var t := group + b;
    assert a + ['（'] + remark + ['）'] + b == a + t;
    DeleteRemarksPlainPrefix(a, t);
    RemarkAtMatches(t, |group|);
    assert t[|group|..] == b;
  }

  /** A run of allowed characters followed by one that is not has exactly the run's length. */
  lemma RemarkRunOf(a: string, b: string)
    requires forall k :: 0 <= k < |a| ==> InRemark(a[k])
    requires b != [] && !InRemark(b[0])
    ensures RemarkRun(a + b) == |a|
  {
    var n := RemarkRun(a + b);
    assert (a + b)[|a|] == b[0];
    assert forall k :: 0 <= k < |a| ==> (a + b)[k] == a[k];
  }

  /** A `（` whose run of allowed characters is cut short by anything but `）` opens no remark. */
  lemma NoRemarkAt(s: string, p: nat)
    requires 0 < p < |s| && s[0] == '（'
    requires forall k :: 1 <= k < p ==> InRemark(s[k])
    requires !InRemark(s[p]) && s[p] != '）'
    ensures RemarkAt(s) == None
  {
    var n := RemarkRun(s[1..]);
    assert forall k :: 0 <= k < p - 1 ==> InRemark(s[1..][k]);
    assert !InRemark(s[1..][p - 1]);
    assert n == p - 1;
  }

  /** Unfolding step of `DeleteRemarks` where no remark starts: the first character is copied. */
  lemma DeleteRemarksCopies(s: string)
    requires s != [] && RemarkAt(s).None?
    ensures DeleteRemarks(s) == [s[0]] + DeleteRemarks(s[1..])
  {
  }

  /** Unfolding step of `DeleteRemarks` where a remark starts: the remark is dropped. */
  lemma DeleteRemarksDrops(s: string, m: nat)
    requires RemarkAt(s) == Some(m)
    ensures DeleteRemarks(s) == DeleteRemarks(s[m..])
  {
  }

  lemma NoOpeningBetween(s: string, lo: nat, hi: nat)
    requires lo <= hi <= |s|
    requires forall k :: lo <= k < hi ==> s[k] != '（'
    ensures '（' !in s[lo..hi]
  {
    assert forall k :: 0 <= k < hi - lo ==> s[lo..hi][k] == s[lo + k];
  }

  /** The remark that starts at `s[i]` and ends at `s[j]` is what the pattern matches there. */
  lemma RemarkAtSlice(s: string, i: nat, j: nat)
    requires i < j < |s| && s[i] == '（' && s[j] == '）'
    requires forall k :: i < k < j ==> InRemark(s[k])
    ensures RemarkAt(s[i..]) == Some(j - i + 1)
  {
    var t := s[i..];
    assert forall k :: 1 <= k < j - i ==> t[k] == s[i + k];
    RemarkAtMatches(t, j - i + 1);
  }

  /** A remark followed by plain text leaves only the plain text. */
  lemma DeleteRemarksGroupThenPlain(s: string, i: nat, j: nat)
    requires i < j < |s| && s[i] == '（' && s[j] == '）'
    requires forall k :: i < k < j ==> InRemark(s[k])
    requires forall k :: j < k < |s| ==> s[k] != '（'
    ensures DeleteRemarks(s[i..]) == s[j + 1..]
  {
    RemarkAtSlice(s, i, j);
    DeleteRemarksDrops(s[i..], j - i + 1);
    assert s[i..][j - i + 1..] == s[j + 1..];
    NoOpeningBetween(s, j + 1, |s|);
    assert s[j + 1..|s|] == s[j + 1..];
    DeleteRemarksWithoutOpening(s[j + 1..]);
  }

  /** A `（` whose remark is interrupted by another `（` is copied with the text up to it. */
  lemma DeleteRemarksInterrupted(s: string, i: nat)
    requires 0 < i < |s| && s[0] == '（' && s[i] == '（'
    requires forall k :: 0 < k < i ==> InRemark(s[k])
    ensures DeleteRemarks(s) == s[..i] + DeleteRemarks(s[i..])
  {
    var head, rest := s[1..i], s[i..];
    SplitAfterFirst(s, i);
    assert DeleteRemarks(s) == [s[0]] + DeleteRemarks(s[1..]) by {
      NoRemarkAt(s, i);
      DeleteRemarksCopies(s);
    }
    assert DeleteRemarks(s[1..]) == head + DeleteRemarks(rest) by {
      NoOpeningBetween(s, 1, i);
      DeleteRemarksPlainPrefix(head, rest);
    }
  }

  lemma SplitAfterFirst(s: string, i: nat)
    requires 0 < i <= |s|
    ensures s[1..] == s[1..i] + s[i..]
    ensures forall t: string :: [s[0]] + (s[1..i] + t) == s[..i] + t
  {
    assert [s[0]] + s[1..i] == s[..i];
  }

  /**
    Nested remarks lose only their innermost group, in the one pass: in
    "（a（b）c）" the group from `i` to `j` goes and "（ac）" stays.
   */
  lemma DeleteRemarksNested(s: string, i: nat, j: nat)
    requires 0 < i < j < |s| - 1
    requires s[0] == '（' && s[i] == '（' && s[j] == '）' && s[|s| - 1] == '）'
    requires forall k :: 0 < k < |s| - 1 && k != i && k != j ==> InRemark(s[k])
    ensures DeleteRemarks(s) == s[..i] + s[j + 1..]
  {
    NoOpeningAfterGroup(s, i, j);
    DeleteRemarksInterrupted(s, i);
    DeleteRemarksGroupThenPlain(s, i, j);
  }

  lemma NoOpeningAfterGroup(s: string, i: nat, j: nat)
    requires 0 < i < j < |s| - 1 && s[|s| - 1] == '）'
    requires forall k :: 0 < k < |s| - 1 && k != i && k != j ==> InRemark(s[k])
    ensures forall k :: j < k < |s| ==> s[k] != '（'
  {
    forall k | j < k < |s| ensures s[k] != '（' {
      if k < |s| - 1 {
        assert InRemark(s[k]);
      }
    }
  }

  /**
    A `|` (or a `^`) inside parentheses keeps them from being deleted:
    "（a|b）" stays as it is.
   */
  lemma DeleteRemarksKeepsBar(s: string, p: nat)
    requires 0 < p < |s| - 1 && s[0] == '（' && s[|s| - 1] == '）'
    requires s[p] == '|' || s[p] == '^'
    requires forall k :: 0 < k < |s| - 1 && k != p ==> InRemark(s[k])
    ensures DeleteRemarks(s) == s
  {
    BarBlocksRemark(s, p);
    CopyFirstThenPlain(s);
  }

  /** With a `|` or `^` before the closing `）`, the `（` opens no remark and none follows it. */
  lemma BarBlocksRemark(s: string, p: nat)
    requires 0 < p < |s| - 1 && s[0] == '（' && s[|s| - 1] == '）'
    requires s[p] == '|' || s[p] == '^'
    requires forall k :: 0 < k < |s| - 1 && k != p ==> InRemark(s[k])
    ensures RemarkAt(s).None? && '（' !in s[1..]
  {
    NoRemarkAt(s, p);
    assert forall k :: 1 <= k < |s| ==> s[k] != '（' by {
      forall k | 1 <= k < |s| ensures s[k] != '（' {
        if k < |s| - 1 && k != p {
          assert InRemark(s[k]);
        }
      }
    }
    NoOpeningBetween(s, 1, |s|);
    assert s[1..|s|] == s[1..];
  }

  /** A text that opens no remark at its start and has no `（` after it is left as it is. */
  lemma CopyFirstThenPlain(s: string)
    requires s != [] && RemarkAt(s).None? && '（' !in s[1..]
    ensures DeleteRemarks(s) == s
  {
    DeleteRemarksCopies(s);
    DeleteRemarksWithoutOpening(s[1..]);
    ConsTail(s);
  }

  /** Sequence step: a non-empty string is its head followed by its tail. */
  lemma ConsTail(s: string)
    requires s != []
    ensures [s[0]] + s[1..] == s
  {
  }

  /**
    `LawLoader.pre_process(raw)`: keep the sentences, join them, delete 「 」,
    then delete the parenthesised remarks.
   */
  function PreProcess(raw: seq<string>): (r: string)
    ensures !('「' in r) && !('」' in r)
    ensures |r| <= |Join(Sentences(raw))|
    ensures multiset(r) <= multiset(Join(Sentences(raw)))
    ensures SubsequenceOf(r, Join(Sentences(raw)))
  {
    var joined := Join(Sentences(raw));
    var plain := DeleteKagikakko(joined);
    var r := DeleteRemarks(plain);
    DeleteKagikakkoKeepsOrder(joined);
    DeleteRemarksKeepsOrder(plain);
    SubsequenceTransitive(r, plain, joined);
    DeleteRemarksOnlyDeletes(plain);
    assert multiset(plain) <= multiset(joined) by {
      forall c ensures multiset(plain)[c] <= multiset(joined)[c] {
        if IsKagikakko(c) {
          assert c !in plain;
        }
      }
    }
    assert |multiset(r)| <= |multiset(joined)| by {
      MultisetSubsetSize(multiset(r), multiset(joined));
    }
    assert '「' !in r by { assert multiset(r)['「'] <= multiset(plain)['「']; }
    assert '」' !in r by { assert multiset(r)['」'] <= multiset(plain)['」']; }
    r
  }

  lemma MultisetSubsetSize(a: multiset<char>, b: multiset<char>)
    requires a <= b
    ensures |a| <= |b|
  {
    assert b == a + (b - a);
  }

  /** Elements that are not sentences contribute nothing. */
  lemma PreProcessWithoutSentences(raw: seq<string>)
    requires forall i :: 0 <= i < |raw| ==> !EndsWith(raw[i], FullStop)
    ensures PreProcess(raw) == []
  {
    SentencesNone(raw);
  }

  /**
    Sentences free of 「, 」 and （ come through `pre_process` whole: the
    result is exactly the sentences, joined in order.
   */
  lemma PreProcessKeepsCleanSentences(raw: seq<string>)
    requires forall i, k :: 0 <= i < |raw| && 0 <= k < |raw[i]| ==>
               raw[i][k] != '「' && raw[i][k] != '」' && raw[i][k] != '（'
    ensures PreProcess(raw) == Join(Sentences(raw))
  {
    var sentences := Sentences(raw);
    var joined := Join(sentences);
    forall c | c in joined
      ensures c != '「' && c != '」' && c != '（'
    {
      JoinChars(sentences, c);
      var i :| 0 <= i < |sentences| && c in sentences[i];
      assert sentences[i] in raw;
      var j :| 0 <= j < |raw| && raw[j] == sentences[i];
      var k :| 0 <= k < |raw[j]| && raw[j][k] == c;
    }
    assert forall k :: 0 <= k < |joined| ==> joined[k] in joined;
    DeleteKagikakkoWithout(joined);
    DeleteRemarksWithoutOpening(joined);
  }

  /**
    `preprocess_gcp(raw)`: the pre-processing of the elements before Article
    56; ValueError when the list has no Article 56 heading.
   */
  function PreprocessGcp(raw: seq<string>): (r: Result<string>)
    ensures r.Err? <==> Article56 !in raw
    ensures r.Err? ==> r.error == ValueError
    ensures r.Ok? ==> !('「' in r.value) && !('」' in r.value)
  {
    match BeforeArticle56(raw)
    case Err(e) => Err(e)
    case Ok(head) => Ok(PreProcess(head))
  }

  /**
    Only what comes before the first Article 56 heading is processed, in the
    same way `LawLoader.pre_process` processes it.
   */
  lemma PreprocessGcpOfHead(head: seq<string>, tail: seq<string>)
    requires Article56 !in head
    ensures PreprocessGcp(head + [Article56] + tail) == Ok(PreProcess(head))
  {
    BeforeArticle56IgnoresTail(head, tail);
  }
}
