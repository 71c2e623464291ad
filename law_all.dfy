/**
  `LawLoader`: the law dictionary of one e-Gov category, fetched once when
  the loader is made, and the contents of one law at a time, kept in a
  one-entry cache (`content_dict`) until another law is asked for.
 */
module LawAll {
  import opened Builtins
  import opened EGov
  import opened LawNumber
  import opened LawContents

  /** The contents of the laws fetched so far, by law number. */
  type ContentDict = map<Option<string>, seq<string>>

  /** How `f"{number}"` prints a law number in the request URL; a missing number prints as "None". */
  function Render(number: Option<string>): string
  {
    match number
    case None => "None"
    case Some(n) => n
  }

  /** The keyword `gcp` searches for, and the exact name of the GCP ordinance among the results. */
  const GcpKeyword: string := "医薬品の臨床試験"
  const GcpName: string := GcpKeyword + "の実施の基準に関する省令"

  /** The keyword is in the name, so the search keeps the ordinance whenever the dictionary has it. */
  lemma GcpNameHasKeyword()
    ensures Contains(GcpName, GcpKeyword)
  {
    assert GcpName[..|GcpKeyword|] == GcpKeyword;
  }

  /**
    The number `gcp` looks up: TypeError when a law name is None (the
    keyword search fails on it), KeyError when the ordinance is not among
    the laws, otherwise its number in the dictionary.
   */
  function GcpNumber(lawDict: LawDict): (r: Result<Option<string>>)
    ensures r == Err(TypeError) <==> None in lawDict
    ensures r == Err(KeyError) <==> None !in lawDict && Some(GcpName) !in lawDict
    ensures r.Ok? ==> Some(GcpName) in lawDict && r.value == lawDict[Some(GcpName)]
  {
    GcpNameHasKeyword();
    match FilterByKeyword(lawDict, GcpKeyword)
    case Err(e) => Err(e)
    case Ok(numbers) =>
      if Some(GcpName) in numbers then Ok(numbers[Some(GcpName)]) else Err(KeyError)
  }

  /**
    What `gcp` returns for a loader with this dictionary over this server:
    the number's error, or the pre-processing of the fetched contents before
    Article 56 (ValueError when they have no Article 56 heading).
   */
  function GcpOf(api: Api, lawDict: LawDict): (r: Result<string>)
    ensures GcpNumber(lawDict).Err? ==> r == Err(GcpNumber(lawDict).error)
    ensures GcpNumber(lawDict).Ok? ==>
      var raw := RawContents(api.lawData(Render(GcpNumber(lawDict).value)));
      (r == Err(ValueError) <==> Article56 !in raw) && (r.Ok? ==> '「' !in r.value && '」' !in r.value)
  {
    match GcpNumber(lawDict)
    case Err(e) => Err(e)
    case Ok(number) =>
      var raw := RawContents(api.lawData(Render(number)));
      match BeforeArticle56(raw)
      case Err(e) => Err(e)
      case Ok(head) => Ok(PreProcess(head))
  }

  /**
    `gcp` and `preprocess_gcp` agree: the loader's pipeline is the script's
    pipeline applied to the same contents.
   */
  lemma GcpOfIsPreprocessGcp(api: Api, lawDict: LawDict)
    requires GcpNumber(lawDict).Ok?
    ensures GcpOf(api, lawDict) == PreprocessGcp(RawContents(api.lawData(Render(GcpNumber(lawDict).value))))
  {
  }

  /** The contents before the first Article 56 heading are all `gcp` looks at. */
  lemma GcpOfHead(api: Api, lawDict: LawDict, head: seq<string>, tail: seq<string>)
    requires GcpNumber(lawDict).Ok?
    requires RawContents(api.lawData(Render(GcpNumber(lawDict).value))) == head + [Article56] + tail
    requires Article56 !in head
    ensures GcpOf(api, lawDict) == Ok(PreProcess(head))
  {
    BeforeArticle56IgnoresTail(head, tail);
  }

  class LawLoader {
    /** The e-Gov server the loader asks. */
    const api: Api
    /** `law_dict`: the law names and numbers of the category, fixed when the loader is made. */
    const lawDict: LawDict
    /** `content_dict`: the cached contents, of at most one law. */
    var contentDict: ContentDict

    /** The cache holds at most one law, and what it holds is what the server gives for that number. */
    ghost predicate Valid()
      reads this
    {
      && |contentDict| <= 1
      && forall n :: n in contentDict ==> contentDict[n] == RawContents(api.lawData(Render(n)))
    }

    /** `LawLoader(category)`: the dictionary of the category's law list, and an empty cache. */
    constructor(category: int, api: Api)
      ensures Valid()
      ensures this.api == api && lawDict == LawDictOf(api.lawList(category))
      ensures contentDict == map[]
    {
      this.api := api;
      lawDict := LawDictOf(api.lawList(category));
      contentDict := map[];
    }

    /**
      `get_law_number(keyword)`: exactly the laws of the dictionary whose
      name contains `keyword`, with their numbers; TypeError when a name is None.
     */
    function GetLawNumber(keyword: string): (r: Result<LawDict>)
      ensures r.Err? <==> None in lawDict
      ensures r.Err? ==> r.error == TypeError
      ensures r.Ok? ==> r.value.Keys <= lawDict.Keys
      ensures r.Ok? ==> forall k :: k in lawDict ==> (k in r.value <==> Contains(k.value, keyword))
      ensures r.Ok? ==> forall k :: k in r.value ==> r.value[k] == lawDict[k]
    {
      FilterByKeyword(lawDict, keyword)
    }

    /**
      `get_raw(number)`: the stripped, non-empty texts of the law, in
      document order. A cached law is answered without a fetch; after a
      fetch the cache holds that law alone.
     */
    method GetRaw(number: Option<string>) returns (raw: seq<string>, fetched: bool)
      requires Valid()
      modifies this
      ensures Valid()
      ensures raw == RawContents(api.lawData(Render(number)))
      ensures forall i :: 0 <= i < |raw| ==> raw[i] != [] && IsStripped(raw[i])
      ensures fetched <==> number !in old(contentDict)
      ensures !fetched ==> contentDict == old(contentDict)
      ensures fetched ==> contentDict == map[number := raw]
    {
      if number in contentDict {
        return contentDict[number], false;
      }
      var root := api.lawData(Render(number));
      raw := RawContents(root);
      contentDict := map[number := raw];
      fetched := true;
    }

    /**
      `gcp()`: the pre-processed text of the GCP ordinance, fetched through
      the cache. The cache is left alone when the number lookup fails, and
      holds the ordinance's contents otherwise.
     */
    method Gcp() returns (r: Result<string>)
      requires Valid()
      modifies this
      ensures Valid()
      ensures r == GcpOf(api, lawDict)
      ensures GcpNumber(lawDict).Err? ==> contentDict == old(contentDict)
      ensures GcpNumber(lawDict).Ok? ==> GcpNumber(lawDict).value in contentDict
    {
      GcpNameHasKeyword();
      var numbers := GetLawNumber(GcpKeyword);
      if numbers.Err? {
        return Err(numbers.error);
      }
      if Some(GcpName) !in numbers.value {
        return Err(KeyError);
      }
      var number := numbers.value[Some(GcpName)];
      var raw, _ := GetRaw(number);
      var head := BeforeArticle56(raw);
      if head.Err? {
        return Err(head.error);
      }
      r := Ok(PreProcess(head.value));
    }
  }
}
