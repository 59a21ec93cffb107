/** The automatic verification run (tools/validation/auto_verify_links.py):
    probe every candidate link of the sampled municipalities, classify the
    live ones by page title, and merge the findings into the reference
    table. */
module AutoVerify {
  import opened Wrappers
  import opened Text
  import opened Values
  import opened Seqs
  import opened VerifyLinks
  import opened Reconcile

  /** One verified link (`code`, `link`, `link_type`, `name`, `uf`,
      `last_checked`). */
  datatype VerifiedLink = VerifiedLink(
    code: int, link: string, linkType: SiteType, name: string, uf: string, lastChecked: string)

  /** The outside world of a run: the network probe, the transliteration
      done by `unidecode`, and the clock, read once per recorded link (its
      arguments are the municipality code and the candidate link). */
  datatype World = World(probe: string -> Fetch, translit: string -> string, clock: (int, string) -> string)

  /** The links of `rows`, in order. */
  function LinksOf(rows: seq<Candidate>): (r: seq<string>)
    ensures |r| == |rows|
    ensures forall i :: 0 <= i < |r| ==> r[i] == rows[i].link
  {
    if |rows| == 0 then [] else [rows[0].link] + LinksOf(rows[1..])
  }

  /** The rows of municipality `code`, in file order. */
  function CityRows(candidates: seq<Candidate>, code: int): seq<Candidate>
  {
    Filter(candidates, (c: Candidate) => c.code == code)
  }

  /** The record for `link` when it is healthy and its type can be inferred;
      the exception when the probe raised one that is not caught. */
  function CheckLink(candidates: seq<Candidate>, first: Candidate, code: int, link: string, w: World): (r: Result<Option<VerifiedLink>, Exception>)
    ensures r.Err? <==> w.probe(link).Raised? && !Caught(w.probe(link).error)
    ensures r.Ok? && r.value.Some? <==>
      && w.probe(link).Responded? && w.probe(link).response.status == 200
      && GetTitleAndType(w.probe(link).response.titleTag, w.translit, CandidateHints(candidates, link)).siteType.Some?
    ensures r.Ok? && r.value.Some? ==> r.value.value == VerifiedLink(
      code, w.probe(link).response.url,
      GetTitleAndType(w.probe(link).response.titleTag, w.translit, CandidateHints(candidates, link)).siteType.value,
      first.name, first.uf, w.clock(code, link))
  {
    match HealthyLink(w.probe(link))
    case Err(e) => Err(e)
    case Ok(None) => Ok(None)
    case Ok(Some(resp)) =>
      var tt := GetTitleAndType(resp.titleTag, w.translit, CandidateHints(candidates, link));
      match tt.siteType
      case None => Ok(None)
      case Some(t) => Ok(Some(VerifiedLink(code, resp.url, t, first.name, first.uf, w.clock(code, link))))
  }

  /** The link yields a record. */
  predicate Emits(candidates: seq<Candidate>, first: Candidate, code: int, link: string, w: World)
  {
    CheckLink(candidates, first, code, link, w).Ok? && CheckLink(candidates, first, code, link, w).value.Some?
  }

  /** The records `links` yield when none of them raises: one for each link
      that emits, in link order. */
  function Yielded(candidates: seq<Candidate>, first: Candidate, code: int, links: seq<string>, w: World): seq<VerifiedLink>
  {
    if |links| == 0 then []
    else
      (if Emits(candidates, first, code, links[0], w) then [CheckLink(candidates, first, code, links[0], w).value.value] else [])
      + Yielded(candidates, first, code, links[1..], w)
  }

  /** The records of a concatenation are those of its halves, in turn: the
      output follows link order. */
  lemma {:induction false} YieldedConcat(candidates: seq<Candidate>, first: Candidate, code: int, a: seq<string>, b: seq<string>, w: World)
    ensures Yielded(candidates, first, code, a + b, w) == Yielded(candidates, first, code, a, w) + Yielded(candidates, first, code, b, w)
  {
    if |a| == 0 {
      assert a + b == b;
    } else {
      TailOfConcat(a, b);
      assert (a + b)[0] == a[0];
      YieldedConcat(candidates, first, code, a[1..], b, w);
      var h := if Emits(candidates, first, code, a[0], w) then [CheckLink(candidates, first, code, a[0], w).value.value] else [];
      AppendAssoc(h, Yielded(candidates, first, code, a[1..], w), Yielded(candidates, first, code, b, w));
    }
  }

  /** A single link yields its record exactly when it emits. */
  lemma YieldedOne(candidates: seq<Candidate>, first: Candidate, code: int, l: string, w: World)
    ensures Yielded(candidates, first, code, [l], w) ==
      if Emits(candidates, first, code, l, w) then [CheckLink(candidates, first, code, l, w).value.value] else []
  {
    assert [l][1..] == [];
  }

  /** The loop of `verify_city_links` over the given links. */
  function CheckLinks(candidates: seq<Candidate>, first: Candidate, code: int, links: seq<string>, w: World): (r: Result<seq<VerifiedLink>, Exception>)
    ensures r.Err? <==> exists i :: 0 <= i < |links| && CheckLink(candidates, first, code, links[i], w).Err?
    ensures r.Ok? ==> |r.value| <= |links|
    ensures r.Ok? ==> forall v :: v in r.value ==>
      exists l :: l in links && CheckLink(candidates, first, code, l, w) == Ok(Some(v))
    ensures r.Ok? ==> forall l :: l in links && Emits(candidates, first, code, l, w) ==>
      CheckLink(candidates, first, code, l, w).value.value in r.value
    ensures r.Ok? ==> r.value == Yielded(candidates, first, code, links, w)
  {
    if |links| == 0 then Ok([])
    else
      var head := CheckLink(candidates, first, code, links[0], w);
      var tail := CheckLinks(candidates, first, code, links[1..], w);
      assert forall l :: l in links ==> l == links[0] || l in links[1..];
      if head.Err? then Err(head.error)
      else if tail.Err? then
        assert exists i :: 1 <= i < |links| && CheckLink(candidates, first, code, links[i], w).Err? by {
          var i :| 0 <= i < |links[1..]| && CheckLink(candidates, first, code, links[1..][i], w).Err?;
          assert links[1..][i] == links[i + 1];
        }
        tail
      else
        assert forall i :: 1 <= i < |links| ==> links[i] == links[1..][i - 1];
        match head.value
        case None => tail
        case Some(v) => Ok([v] + tail.value)
  }

  /** `verify_city_links(candidates, code)`: the distinct links of the city's
      rows, checked in first-occurrence order. Name and uf come from the
      city's first row; the hints from every row with the same link. */
  function VerifyCityLinks(candidates: seq<Candidate>, code: int, w: World): (r: Result<seq<VerifiedLink>, Exception>)
    ensures r.Ok? ==> forall v :: v in r.value ==> v.code == code
    ensures r.Ok? ==> forall v :: v in r.value ==>
      (|CityRows(candidates, code)| > 0 &&
       v.name == CityRows(candidates, code)[0].name && v.uf == CityRows(candidates, code)[0].uf)
    ensures r.Ok? ==> |r.value| <= |Distinct(LinksOf(CityRows(candidates, code)))|
    ensures |CityRows(candidates, code)| == 0 ==> r == Ok([])
    ensures |CityRows(candidates, code)| > 0 ==>
      (r.Err? <==> exists l :: l in Distinct(LinksOf(CityRows(candidates, code))) &&
                     CheckLink(candidates, CityRows(candidates, code)[0], code, l, w).Err?)
    ensures r.Ok? && |CityRows(candidates, code)| > 0 ==>
      r.value == Yielded(candidates, CityRows(candidates, code)[0], code, Distinct(LinksOf(CityRows(candidates, code))), w)
  {
    var rows := CityRows(candidates, code);
    if |rows| == 0 then Ok([])
    else CheckLinks(candidates, rows[0], code, Distinct(LinksOf(rows)), w)
  }

  /** `in_chunks(seq, size)`: consecutive slices of `size` elements, the last
      one possibly shorter. */
  function InChunks<T>(s: seq<T>, size: int): (r: seq<seq<T>>)
    requires size > 0
    ensures Flatten(r) == s
    ensures forall i :: 0 <= i < |r| ==> 0 < |r[i]| <= size
    ensures forall i :: 0 <= i < |r| - 1 ==> |r[i]| == size
    ensures |r| == 0 <==> |s| == 0
    ensures |r| > 0 ==> (|r| - 1) * size < |s| <= |r| * size
    decreases |s|
  {
    if |s| == 0 then []
    else if |s| <= size then [s]
    else
      var rest := InChunks(s[size..], size);
      assert (|rest| + 1) * size == |rest| * size + size;
      assert |rest| * size == (|rest| - 1) * size + size;
      assert s == s[..size] + s[size..];
      assert ([s[..size]] + rest)[1..] == rest;
      [s[..size]] + rest
  }

  /** Two steps in turn: the first exception wins, otherwise the results are
      concatenated. */
  function Then<T>(x: Result<seq<T>, Exception>, y: Result<seq<T>, Exception>): (r: Result<seq<T>, Exception>)
    ensures r.Err? <==> x.Err? || y.Err?
    ensures x.Err? ==> r == x
    ensures r.Ok? ==> r.value == x.value + y.value
  {
    if x.Err? then x else if y.Err? then y else Ok(x.value + y.value)
  }

  lemma ThenAssociative<T>(x: Result<seq<T>, Exception>, y: Result<seq<T>, Exception>, z: Result<seq<T>, Exception>)
    ensures Then(x, Then(y, z)) == Then(Then(x, y), z)
  {
    if x.Ok? && y.Ok? && z.Ok? {
      assert x.value + (y.value + z.value) == (x.value + y.value) + z.value;
    }
  }

  /** Verifying the links of city `code` raises. */
  predicate CityFails(candidates: seq<Candidate>, code: int, w: World)
  {
    VerifyCityLinks(candidates, code, w).Err?
  }

  /** One city's verification, as a function of its code. */
  function CityRun(candidates: seq<Candidate>, w: World): int -> Result<seq<VerifiedLink>, Exception>
  {
    code => VerifyCityLinks(candidates, code, w)
  }

  /** The per-city results for `codes`, one city after the other: what a
      sequential map computes. The first failing city's exception is the
      run's. */
  function RunCodes<T>(codes: seq<int>, city: int -> Result<seq<T>, Exception>): (r: Result<seq<T>, Exception>)
    ensures r.Err? <==> exists i :: 0 <= i < |codes| && city(codes[i]).Err?
    ensures r.Ok? ==> forall v :: v in r.value ==> exists c :: c in codes && city(c).Ok? && v in city(c).value
  {
    if |codes| == 0 then Ok([])
    else
      var tail := RunCodes(codes[1..], city);
      ExistsShift(codes, c => city(c).Err?);
      HeadTail(codes);
      if city(codes[0]).Err? then city(codes[0])
      else if tail.Err? then tail
      else
        FromSomeCity(codes, city, tail.value);
        Ok(city(codes[0]).value + tail.value)
  }

  /** The results of the first city and of the later ones all come from
      some city of `codes`. */
  lemma FromSomeCity<T>(codes: seq<int>, city: int -> Result<seq<T>, Exception>, later: seq<T>)
    requires |codes| > 0 && city(codes[0]).Ok?
    requires forall v :: v in later ==> exists c :: c in codes[1..] && city(c).Ok? && v in city(c).value
    ensures forall v :: v in city(codes[0]).value + later ==> exists c :: c in codes && city(c).Ok? && v in city(c).value
  {
    forall v | v in city(codes[0]).value + later
      ensures exists c :: c in codes && city(c).Ok? && v in city(c).value
    {
      var c := codes[0];
      if v !in city(c).value {
        c :| c in codes[1..] && city(c).Ok? && v in city(c).value;
      }
      assert c in codes && city(c).Ok? && v in city(c).value;
    }
  }

  /** The results for `codes`, one city after the other. */
  function VerifyCodes(candidates: seq<Candidate>, codes: seq<int>, w: World): (r: Result<seq<VerifiedLink>, Exception>)
    ensures r.Err? <==> exists i :: 0 <= i < |codes| && CityFails(candidates, codes[i], w)
    ensures r.Ok? ==> forall v :: v in r.value ==> v.code in codes
  {
    var r := RunCodes(codes, CityRun(candidates, w));
    if r.Ok? then
      forall v | v in r.value
        ensures v.code in codes
      {
        var c :| c in codes && CityRun(candidates, w)(c).Ok? && v in CityRun(candidates, w)(c).value;
        assert v in VerifyCityLinks(candidates, c, w).value;
      }
      r
    else r
  }

  /** The chunked loop with `pool.map` per chunk: each chunk's results are
      collected in code order and appended after the earlier chunks'. */
  function VerifyChunks(candidates: seq<Candidate>, chunks: seq<seq<int>>, w: World): Result<seq<VerifiedLink>, Exception>
  {
    if |chunks| == 0 then Ok([])
    else Then(VerifyCodes(candidates, chunks[0], w), VerifyChunks(candidates, chunks[1..], w))
  }

  /** Running a concatenation is running the two halves in turn. */
  lemma {:induction false} RunCodesConcat<T>(a: seq<int>, b: seq<int>, city: int -> Result<seq<T>, Exception>)
    ensures RunCodes(a + b, city) == Then(RunCodes(a, city), RunCodes(b, city))
  {
    if |a| == 0 {
      assert a + b == b;
      var y := RunCodes(b, city);
      if y.Ok? {
        assert [] + y.value == y.value;
      }
    } else {
      TailOfConcat(a, b);
      assert (a + b)[0] == a[0];
      RunCodesConcat(a[1..], b, city);
      ThenAssociative(city(a[0]), RunCodes(a[1..], city), RunCodes(b, city));
    }
  }

  /** Sequential processing of a concatenation is the two halves in turn. */
  lemma VerifyCodesConcat(candidates: seq<Candidate>, a: seq<int>, b: seq<int>, w: World)
    ensures VerifyCodes(candidates, a + b, w) == Then(VerifyCodes(candidates, a, w), VerifyCodes(candidates, b, w))
  {
    RunCodesConcat(a, b, CityRun(candidates, w));
  }

  /** The pool changes nothing but the timing: processing the chunks gives
      exactly what a sequential loop over all codes gives. */
  lemma {:induction false} ChunksAreSequential(candidates: seq<Candidate>, chunks: seq<seq<int>>, w: World)
    ensures VerifyChunks(candidates, chunks, w) == VerifyCodes(candidates, Flatten(chunks), w)
  {
    if |chunks| > 0 {
      ChunksAreSequential(candidates, chunks[1..], w);
      VerifyCodesConcat(candidates, chunks[0], Flatten(chunks[1..]), w);
    }
  }

  /** `link_type` renamed to `branch`: `prefeitura` becomes `executive` and
      `camara` becomes `legislative`. */
  function BranchOf(t: SiteType): (b: string)
    ensures b == "executive" <==> t == Prefeitura
    ensures b == "legislative" <==> t == Camara
  {
    match t
    case Prefeitura => "executive"
    case Camara => "legislative"
  }

  /** A verified link with the table's column names, its branch mapped and
      `sphere` set to `municipal`. */
  function ToRecord(v: VerifiedLink): (r: NewRecord)
    ensures r.municipalityCode == v.code && r.url == v.link && r.verified == v.lastChecked
    ensures r.stateCode == v.uf && r.municipality == v.name
    ensures r.sphere == "municipal" && r.branch == BranchOf(v.linkType)
  {
    NewRecord(v.uf, v.code, v.name, "municipal", BranchOf(v.linkType), v.link, v.lastChecked)
  }

  function ToRecords(vs: seq<VerifiedLink>): (rs: seq<NewRecord>)
    ensures |rs| == |vs|
    ensures forall i :: 0 <= i < |vs| ==> rs[i] == ToRecord(vs[i])
  {
    if |vs| == 0 then [] else [ToRecord(vs[0])] + ToRecords(vs[1..])
  }

  /** `auto_verify`: sample the candidates (`order` is the shuffle of the
      distinct codes), verify the sampled cities in chunks of `size`, then
      merge into `table`, deduplicate by URL and sort. */
  function AutoVerifyRun(candidates: seq<Candidate>, order: seq<int>, maxQuantity: int, size: int,
                         w: World, table: seq<WebsiteRow>): (r: Result<seq<WebsiteRow>, Exception>)
    requires IsShuffleOf(order, DistinctCodes(candidates))
    requires size > 0
    ensures r.Ok? ==> KeysUnique(r.value, UrlOf) && Sorted(r.value, SortKey(Auto))
    ensures var sample := GetCandidateLinks(candidates, order, maxQuantity);
      var v := VerifyCodes(sample, DistinctCodes(sample), w);
      && (r.Ok? <==> v.Ok?)
      && (r.Ok? ==> r.value == MergeVerified(Auto, table, ToRecords(v.value)))
  {
    var sample := GetCandidateLinks(candidates, order, maxQuantity);
    var codes := DistinctCodes(sample);
    ChunksAreSequential(sample, InChunks(codes, size), w);
    match VerifyChunks(sample, InChunks(codes, size), w)
    case Err(e) => Err(e)
    case Ok(verified) => Ok(MergeVerified(Auto, table, ToRecords(verified)))
  }

  /** Every link verified in the run is in the output, with the run's
      timestamp for it, unless a later verified link has the same URL. */
  lemma NewestVerifiedInOutput(candidates: seq<Candidate>, order: seq<int>, maxQuantity: int, size: int,
                               w: World, table: seq<WebsiteRow>, j: int)
    requires IsShuffleOf(order, DistinctCodes(candidates))
    requires size > 0
    requires var sample := GetCandidateLinks(candidates, order, maxQuantity);
      var v := VerifyCodes(sample, DistinctCodes(sample), w);
      v.Ok? && 0 <= j < |v.value| && forall k :: j < k < |v.value| ==> v.value[k].link != v.value[j].link
    ensures var sample := GetCandidateLinks(candidates, order, maxQuantity);
      var v := VerifyCodes(sample, DistinctCodes(sample), w).value;
      var r := AutoVerifyRun(candidates, order, maxQuantity, size, w, table);
      && r.Ok?
      && exists row :: row in r.value && row.url == Str(v[j].link) && row.lastVerifiedAuto == Str(v[j].lastChecked)
  {
    var sample := GetCandidateLinks(candidates, order, maxQuantity);
    var codes := DistinctCodes(sample);
    var v := VerifyCodes(sample, codes, w).value;
    ChunksAreSequential(sample, InChunks(codes, size), w);
    var records := ToRecords(v);
    NewestRecordWins(Auto, table, records, j);
    var t := ReconcileAll(Auto, table, records);
    var row := AppendedRow(Auto, t[..|table| + j], records[j]);
    assert row in MergeVerified(Auto, table, records);
  }
}
