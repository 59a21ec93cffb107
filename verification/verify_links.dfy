/** Link probing, site-type classification and candidate sampling shared by
    the automatic and the manual verification scripts
    (tools/validation/verify_links.py). */
module VerifyLinks {
  import opened Wrappers
  import opened Text
  import opened Seqs

  /** The site types the classifier can infer: a city hall (executive) or a
      city council (legislative) portal. */
  datatype SiteType = Prefeitura | Camara

  /** One row of the candidate-links table (`code`, `name`, `uf`, `link`,
      `link_type`); `link_type` may be missing. */
  datatype Candidate = Candidate(code: int, name: string, uf: string, link: string, linkType: Option<string>)

  /** The exceptions `requests.get` can raise. `ConnectionError` stands for
      its subclasses too (connect timeouts, SSL and proxy errors). */
  datatype RequestError =
    | ConnectionError
    | InvalidUrl
    | TooManyRedirects
    | ReadTimeout
    | OtherRequestError(name: string)

  /** A response after redirects: the final URL, the status code and the
      text of the page's `<title>` element, if it has one. */
  datatype Response = Response(url: string, status: int, titleTag: Option<string>)

  /** What one GET of a URL produced. The network is outside the model: a
      probe is a function from URL to its outcome. */
  datatype Fetch = Responded(response: Response) | Raised(error: RequestError)

  /** The four exception types `healthy_link` catches. */
  predicate Caught(e: RequestError)
  {
    !e.OtherRequestError?
  }

  /** `healthy_link`: the response when the GET succeeded with status 200,
      `None` when it failed with a caught exception or another status, and
      the exception itself when it is not one of the four caught ones. */
  function HealthyLink(f: Fetch): (r: Result<Option<Response>, Exception>)
    ensures r.Ok? && r.value.Some? <==> f.Responded? && f.response.status == 200
    ensures r.Ok? && r.value.Some? ==> r.value.value == f.response
    ensures r.Err? <==> f.Raised? && !Caught(f.error)
  {
    match f
    case Raised(e) =>
      if Caught(e) then Ok(None) else Err(UncaughtRequestError(e.name))
    case Responded(resp) =>
      // `if response` is `response.ok`, i.e. status below 400; status 200
      // implies it.
      if resp.status < 400 && resp.status == 200 then Ok(Some(resp)) else Ok(None)
  }

  /** `c` matches the ASCII letter whose two cases are `lower` and `upper`
      under `re.IGNORECASE`. */
  predicate IgnoreCaseEq(c: char, lower: char, upper: char)
  {
    c == lower || c == upper
  }

  /** `re.match(r'c.{0,3}mara', t, re.IGNORECASE)` with exactly `k` characters
      matched by `.{0,3}`. */
  predicate CamaraAt(t: string, k: int)
  {
    && 0 <= k <= 3
    && k + 5 <= |t|
    && IgnoreCaseEq(t[0], 'c', 'C')
    && (forall j | 1 <= j <= k :: t[j] != '\n')
    && IgnoreCaseEq(t[k + 1], 'm', 'M') && IgnoreCaseEq(t[k + 2], 'a', 'A')
    && IgnoreCaseEq(t[k + 3], 'r', 'R') && IgnoreCaseEq(t[k + 4], 'a', 'A')
  }

  /** `re.match(r'c.{0,3}mara', t, re.IGNORECASE)`: the pattern is anchored at
      the start of the title. */
  predicate MatchesCamara(t: string)
  {
    exists k | 0 <= k <= 3 :: CamaraAt(t, k)
  }

  /** The title shows an anthem or coat-of-arms page. */
  predicate Ceremonial(title: string)
  {
    Contains(title, "hino") || Contains(title, "brasao")
  }

  /** The title names the city hall directly. */
  predicate NamesCityHall(title: string)
  {
    Contains(title, "prefeitura") || Contains(title, "municipio")
  }

  /** The weaker executive markers, tried only after the câmara pattern. */
  predicate NamesExecutive(title: string)
  {
    Contains(title, "poder executivo") || Contains(title, "governo municipal") || Contains(title, "pref.")
  }

  /** The decision chain of `get_title_and_type` on the normalised title:
      hints first, then the ceremonial exclusion, the city-hall words, the
      câmara pattern and finally the weaker executive words. */
  function ClassifyTitle(title: string, hints: set<string>): (r: Option<SiteType>)
    ensures r == Some(Prefeitura) <==>
      || "prefeitura" in hints
      || ("camara" !in hints && !Ceremonial(title)
          && (NamesCityHall(title) || (!MatchesCamara(title) && NamesExecutive(title))))
    ensures r == Some(Camara) <==>
      && "prefeitura" !in hints
      && ("camara" in hints || (!Ceremonial(title) && !NamesCityHall(title) && MatchesCamara(title)))
    ensures r == None <==>
      && "prefeitura" !in hints && "camara" !in hints
      && (Ceremonial(title) || (!NamesCityHall(title) && !MatchesCamara(title) && !NamesExecutive(title)))
  {
    if "prefeitura" in hints then Some(Prefeitura)
    else if "camara" in hints then Some(Camara)
    else if Contains(title, "hino") then None
    else if Contains(title, "brasao") then None
    else if Contains(title, "prefeitura") then Some(Prefeitura)
    else if Contains(title, "municipio") then Some(Prefeitura)
    else if MatchesCamara(title) then Some(Camara)
    else if Contains(title, "poder executivo") then Some(Prefeitura)
    else if Contains(title, "governo municipal") then Some(Prefeitura)
    else if Contains(title, "pref.") then Some(Prefeitura)
    else None
  }

  /** The page title as found (the raw tag text) and the inferred site type. */
  datatype TitleAndType = TitleAndType(title: Option<string>, siteType: Option<SiteType>)

  /** `get_title_and_type`: a page without a `<title>` yields `(None, None)`;
      otherwise the raw title text is returned together with the
      classification of its lower-cased, transliterated form. `translit`
      stands for `unidecode`. */
  function GetTitleAndType(titleTag: Option<string>, translit: string -> string, hints: set<string>): (r: TitleAndType)
    ensures titleTag.None? ==> r == TitleAndType(None, None)
    ensures titleTag.Some? ==> r.title == titleTag
    ensures titleTag.Some? ==> r.siteType == ClassifyTitle(translit(Lower(titleTag.value)), hints)
  {
    match titleTag
    case None => TitleAndType(None, None)
    case Some(text) => TitleAndType(Some(text), ClassifyTitle(translit(Lower(text)), hints))
  }

  /** A `prefeitura` hint wins over everything, and a `camara` hint over every
      title test. */
  lemma HintPrecedence(title: string, hints: set<string>)
    ensures "prefeitura" in hints ==> ClassifyTitle(title, hints) == Some(Prefeitura)
    ensures "prefeitura" !in hints && "camara" in hints ==> ClassifyTitle(title, hints) == Some(Camara)
  {
  }

  /** Without hints, an anthem or coat-of-arms title is never classified, even
      when it also mentions the prefeitura. */
  lemma CeremonialExcluded(title: string)
    requires Ceremonial(title)
    ensures ClassifyTitle(title, {}) == None
  {
  }

  /** The city-hall words beat the câmara pattern: a title that starts like
      "câmara" but also mentions the município is the city hall. */
  lemma CityHallBeforeCamara(title: string)
    requires !Ceremonial(title) && NamesCityHall(title) && MatchesCamara(title)
    ensures ClassifyTitle(title, {}) == Some(Prefeitura)
  {
  }

  /** The câmara pattern only looks at the start of the title. */
  lemma CamaraAnchored(t: string)
    requires MatchesCamara(t)
    ensures t[0] == 'c' || t[0] == 'C'
  {
  }

  /** Worked titles: "Câmara Municipal" and its common misspellings are
      legislative, while a title that merely contains "câmara" later on is
      not matched by the pattern. */
  lemma CamaraExamples()
    ensures MatchesCamara("camara municipal de exemplo")
    ensures MatchesCamara("Cmara")
    ensures MatchesCamara("c^amara")
    ensures !MatchesCamara("a camara")
  {
    assert CamaraAt("camara municipal de exemplo", 1);
    assert CamaraAt("Cmara", 0);
    assert CamaraAt("c^amara", 2);
  }

  /** The candidate links of the rows whose code is `code`. */
  function Codes(candidates: seq<Candidate>): (r: seq<int>)
    ensures |r| == |candidates|
    ensures forall i :: 0 <= i < |r| ==> r[i] == candidates[i].code
  {
    seq(|candidates|, i requires 0 <= i < |candidates| => candidates[i].code)
  }

  /** `candidates.code.unique()`: the distinct codes in first-occurrence
      order. */
  function DistinctCodes(candidates: seq<Candidate>): (r: seq<int>)
    ensures NoDup(r)
    ensures forall c :: c in r <==> exists x :: x in candidates && x.code == c
  {
    var r := Distinct(Codes(candidates));
    assert forall x :: x in candidates ==> x.code in Codes(candidates) by {
      forall x | x in candidates ensures x.code in Codes(candidates) {
        var i :| 0 <= i < |candidates| && candidates[i] == x;
        assert Codes(candidates)[i] == x.code;
      }
    }
    r
  }

  /** `order` is a reordering of `codes`: what `random.shuffle` may produce. */
  predicate IsShuffleOf(order: seq<int>, codes: seq<int>)
  {
    multiset(order) == multiset(codes)
  }

  /** The codes kept by `if max_quantity: codes = codes[:max_quantity]`. */
  function ChosenCodes(order: seq<int>, maxQuantity: int): seq<int>
  {
    if maxQuantity != 0 then SliceTo(order, maxQuantity) else order
  }

  /** `get_candidate_links` after reading the file: shuffles the distinct
      codes (`order` is the shuffle), keeps the first `max_quantity` of them
      when it is non-zero, and returns the rows with a kept code, in file
      order. */
  function GetCandidateLinks(candidates: seq<Candidate>, order: seq<int>, maxQuantity: int): (r: seq<Candidate>)
    requires IsShuffleOf(order, DistinctCodes(candidates))
    ensures maxQuantity == 0 ==> r == candidates
    ensures IsSubseq(r, candidates)
    ensures forall c :: c in r ==> c in candidates && c.code in ChosenCodes(order, maxQuantity)
    ensures forall c :: c in candidates && c.code in ChosenCodes(order, maxQuantity) ==> c in r
    ensures forall c :: multiset(r)[c] == if c.code in ChosenCodes(order, maxQuantity) then multiset(candidates)[c] else 0
  {
    var chosen := ChosenCodes(order, maxQuantity);
    var r := Filter(candidates, (c: Candidate) => c.code in chosen);
    FilterMultiplicity(candidates, (c: Candidate) => c.code in chosen);
    if maxQuantity == 0 then
      FilterKeepsAll(candidates, order);
      r
    else r
  }

  /** With no limit every row is kept: every code is in the shuffle. */
  lemma FilterKeepsAll(candidates: seq<Candidate>, order: seq<int>)
    requires IsShuffleOf(order, DistinctCodes(candidates))
    ensures Filter(candidates, (c: Candidate) => c.code in order) == candidates
  {
    var keep := (c: Candidate) => c.code in order;
    forall c | c in candidates
      ensures keep(c)
    {
      assert c.code in DistinctCodes(candidates);
      assert c.code in multiset(DistinctCodes(candidates));
    }
    FilterAllTrue(candidates, keep);
  }

  lemma FilterAllTrue<T>(s: seq<T>, keep: T -> bool)
    requires forall x :: x in s ==> keep(x)
    ensures Filter(s, keep) == s
  {
  }

  /** With a positive limit the sample covers exactly `min(max_quantity, M)`
      municipalities, `M` being the number of distinct codes. */
  lemma {:induction false} SampleSize(candidates: seq<Candidate>, order: seq<int>, maxQuantity: int)
    requires IsShuffleOf(order, DistinctCodes(candidates))
    requires maxQuantity > 0
    ensures |set c | c in GetCandidateLinks(candidates, order, maxQuantity) :: c.code|
      == if maxQuantity <= |DistinctCodes(candidates)| then maxQuantity else |DistinctCodes(candidates)|
  {
    var chosen := ChosenCodes(order, maxQuantity);
    ChosenCodesDistinct(candidates, order, maxQuantity);
    NoDupCardinality(chosen);
    SampleCodes(candidates, order, maxQuantity);
  }

  /** The kept codes are distinct, and there are `min(max_quantity, M)` of
      them. */
  lemma ChosenCodesDistinct(candidates: seq<Candidate>, order: seq<int>, maxQuantity: int)
    requires IsShuffleOf(order, DistinctCodes(candidates))
    requires maxQuantity > 0
    ensures NoDup(ChosenCodes(order, maxQuantity))
    ensures |ChosenCodes(order, maxQuantity)| == if maxQuantity <= |DistinctCodes(candidates)| then maxQuantity else |DistinctCodes(candidates)|
  {
    var chosen := ChosenCodes(order, maxQuantity);
    assert |order| == |DistinctCodes(candidates)| by {
      assert |multiset(order)| == |multiset(DistinctCodes(candidates))|;
    }
    NoDupPermutation(order, DistinctCodes(candidates));
    assert chosen == order[..|chosen|];
  }

  /** The codes of the sample are exactly the kept codes. */
  lemma SampleCodes(candidates: seq<Candidate>, order: seq<int>, maxQuantity: int)
    requires IsShuffleOf(order, DistinctCodes(candidates))
    requires maxQuantity > 0
    ensures (set c | c in GetCandidateLinks(candidates, order, maxQuantity) :: c.code)
      == set x | x in ChosenCodes(order, maxQuantity)
  {
    var r := GetCandidateLinks(candidates, order, maxQuantity);
    var chosen := ChosenCodes(order, maxQuantity);
    var codes := set c | c in r :: c.code;
    forall x | x in chosen
      ensures x in codes
    {
      assert x in order;
      assert x in multiset(order);
      assert x in DistinctCodes(candidates);
      var c :| c in candidates && c.code == x;
      assert c in r;
    }
  }

  /** The hints of a link: every `link_type` of a candidate row with that
      link, from any municipality. */
  function CandidateHints(candidates: seq<Candidate>, link: string): (r: set<string>)
    ensures forall c :: c in candidates && c.link == link && c.linkType.Some? ==> c.linkType.value in r
    ensures forall h :: h in r ==> exists c :: c in candidates && c.link == link && c.linkType == Some(h)
  {
    set c | c in candidates && c.link == link && c.linkType.Some? :: c.linkType.value
  }

  /** A label of a pandas Series. The candidate table comes from `read_csv`,
      so its rows are labelled by their integer position in the file. */
  datatype Label = IntLabel(position: int) | StrLabel(text: string)

  /** The index labels of `candidates[candidates.link == link]`. */
  function IndexLabels(candidates: seq<Candidate>, link: string): set<Label>
  {
    set i | 0 <= i < |candidates| && candidates[i].link == link :: IntLabel(i)
  }

  /** The hints as the scripts compute them: `'prefeitura' in link_types`
      tests membership among the Series' index labels, not its values. */
  function HintsAsWritten(candidates: seq<Candidate>, link: string): set<string>
  {
    set h | h in {"prefeitura", "camara"} && StrLabel(h) in IndexLabels(candidates, link)
  }

  /** As written, the hint tests never succeed: integer labels never equal a
      string. */
  lemma HintsAsWrittenAreEmpty(candidates: seq<Candidate>, link: string)
    ensures HintsAsWritten(candidates, link) == {}
  {
    assert forall l :: l in IndexLabels(candidates, link) ==> l.IntLabel?;
  }

  /** A row hinting `prefeitura` for a page titled "Câmara Municipal": as
      written the title decides (câmara), while the value reading that the
      model uses gives the intended prefeitura. */
  lemma HintIgnoredAsWritten()
    ensures var cs := [Candidate(1, "Exemplo", "SP", "http://x.sp.gov.br", Some("prefeitura"))];
      && ClassifyTitle("camara municipal", HintsAsWritten(cs, "http://x.sp.gov.br")) == Some(Camara)
      && ClassifyTitle("camara municipal", CandidateHints(cs, "http://x.sp.gov.br")) == Some(Prefeitura)
  {
    var cs := [Candidate(1, "Exemplo", "SP", "http://x.sp.gov.br", Some("prefeitura"))];
    HintsAsWrittenAreEmpty(cs, "http://x.sp.gov.br");
    CamaraTitleWithoutHints();
    assert cs[0] in cs;
    HintedRowForcesPrefeitura(cs, "http://x.sp.gov.br", "camara municipal");
  }

  /** Without hints, the title "camara municipal" is a câmara's. */
  lemma CamaraTitleWithoutHints()
    ensures ClassifyTitle("camara municipal", {}) == Some(Camara)
  {
    assert CamaraAt("camara municipal", 1);
    MissingCharNotContained("camara municipal", "hino", 0);
    MissingCharNotContained("camara municipal", "brasao", 0);
    MissingCharNotContained("camara municipal", "prefeitura", 3);
    MissingCharNotContained("camara municipal", "municipio", 8);
  }

  /** Using the hint values, a row of the same link hinting `prefeitura`
      forces the city-hall classification whatever the title says. */
  lemma HintedRowForcesPrefeitura(candidates: seq<Candidate>, link: string, title: string)
    requires exists c :: c in candidates && c.link == link && c.linkType == Some("prefeitura")
    ensures ClassifyTitle(title, CandidateHints(candidates, link)) == Some(Prefeitura)
  {
    var c :| c in candidates && c.link == link && c.linkType == Some("prefeitura");
    assert "prefeitura" in CandidateHints(candidates, link);
  }
}
