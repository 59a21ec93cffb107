/** The interactive verification session
    (tools/validation/manually_verify_links.py): each live candidate link is
    shown to the user, whose keystrokes decide whether and as which branch
    it is recorded. */
module ManualVerify {
  import opened Wrappers
  import opened Text
  import opened Seqs
  import opened VerifyLinks
  import opened Reconcile
  import AutoVerify

  /** A line is accepted when, lower-cased, it is a substring of the
      lower-cased options. */
  predicate Accepts(options: string, line: string)
  {
    Contains(Lower(options), Lower(line))
  }

  /** `inputs[i]` is the first accepted line. */
  predicate FirstAcceptedAt(inputs: seq<string>, options: string, i: int)
  {
    && 0 <= i < |inputs|
    && Accepts(options, inputs[i])
    && forall k :: 0 <= k < i ==> !Accepts(options, inputs[k])
  }

  /** `choose(text, options)`: reads lines until one is accepted, and returns
      it lower-cased with the lines not yet read. Running out of input is
      `EOFError`. */
  function Choose(inputs: seq<string>, options: string): (r: Result<(string, seq<string>), Exception>)
    ensures r.Err? <==> forall i :: 0 <= i < |inputs| ==> !Accepts(options, inputs[i])
    ensures r.Err? ==> r.error == EOFError
    ensures r.Ok? ==> exists i :: FirstAcceptedAt(inputs, options, i) && r.value == (Lower(inputs[i]), inputs[i + 1..])
  {
    if |inputs| == 0 then Err(EOFError)
    else if Accepts(options, inputs[0]) then
      assert FirstAcceptedAt(inputs, options, 0);
      Ok((Lower(inputs[0]), inputs[1..]))
    else
      var r := Choose(inputs[1..], options);
      ChooseRejectsHead(inputs, options);
      if r.Ok? then
        var i :| FirstAcceptedAt(inputs[1..], options, i) && r.value == (Lower(inputs[1..][i]), inputs[1..][i + 1..]);
        ChooseShift(inputs, options, i);
        r
      else r
  }

  /** With the first line rejected, no line is accepted exactly when none of
      the rest is. */
  lemma ChooseRejectsHead(inputs: seq<string>, options: string)
    requires |inputs| > 0 && !Accepts(options, inputs[0])
    ensures (forall i :: 0 <= i < |inputs| ==> !Accepts(options, inputs[i])) <==>
      (forall i :: 0 <= i < |inputs[1..]| ==> !Accepts(options, inputs[1..][i]))
  {
    assert forall i :: 1 <= i < |inputs| ==> inputs[i] == inputs[1..][i - 1];
  }

  /** The first accepted line of the rest, after a rejected first line, is
      the first accepted line of the whole input. */
  lemma ChooseShift(inputs: seq<string>, options: string, i: int)
    requires |inputs| > 0 && !Accepts(options, inputs[0])
    requires FirstAcceptedAt(inputs[1..], options, i)
    ensures FirstAcceptedAt(inputs, options, i + 1)
    ensures inputs[1..][i] == inputs[i + 1] && inputs[1..][i + 1..] == inputs[i + 2..]
  {
    forall k | 0 <= k < i + 1
      ensures !Accepts(options, inputs[k])
    {
      if k > 0 {
        assert inputs[k] == inputs[1..][k - 1];
      }
    }
  }

  /** The empty line and multi-letter substrings of the options are accepted
      as choices, and the answer is returned lower-cased. */
  lemma ChooseAcceptsSubstrings(rest: seq<string>)
    ensures Choose([""] + rest, "pctynsq") == Ok(("", rest))
    ensures Choose(["CT"] + rest, "pctynsq") == Ok(("ct", rest))
    ensures Choose(["x", "P"] + rest, "pctynsq") == Ok(("p", rest))
  {
    ChooseEmptyLine(rest);
    ChooseTwoLetters(rest);
    ChooseAfterRejection(rest);
  }

  /** The options of the link prompt are already lower case. */
  lemma OptionsLowerCase()
    ensures Lower("pctynsq") == "pctynsq"
  {
    var o := "pctynsq";
    assert forall i :: 0 <= i < |o| ==> 'a' <= o[i] <= 'z';
    LowerKeepsAsciiLower(o);
  }

  lemma ChooseEmptyLine(rest: seq<string>)
    ensures Choose([""] + rest, "pctynsq") == Ok(("", rest))
  {
    OptionsLowerCase();
    assert OccursAt("pctynsq", "", 0);
    assert ([""] + rest)[1..] == rest;
  }

  lemma ChooseTwoLetters(rest: seq<string>)
    ensures Choose(["CT"] + rest, "pctynsq") == Ok(("ct", rest))
  {
    OptionsLowerCase();
    assert Lower("CT") == "ct";
    assert OccursAt("pctynsq", "ct", 1);
    assert (["CT"] + rest)[1..] == rest;
  }

  lemma ChooseAfterRejection(rest: seq<string>)
    ensures Choose(["x", "P"] + rest, "pctynsq") == Ok(("p", rest))
  {
    OptionsLowerCase();
    assert Lower("x") == "x";
    MissingCharNotContained("pctynsq", "x", 0);
    assert Lower("P") == "p";
    assert OccursAt("pctynsq", "p", 0);
    assert (["x", "P"] + rest)[1..] == ["P"] + rest;
    assert (["P"] + rest)[1..] == rest;
  }

  /** The decision chain of `title_and_type` on the lower-cased title. */
  function ManualClassify(title: string, hints: set<string>): (r: Option<SiteType>)
    ensures r == Some(Prefeitura) <==>
      "prefeitura" in hints || ("camara" !in hints && NamesCityHall(title))
    ensures r == Some(Camara) <==>
      && "prefeitura" !in hints
      && ("camara" in hints
          || (!NamesCityHall(title) && (Contains(title, "camara municipal") || Contains(title, "camara de"))))
  {
    if "prefeitura" in hints then Some(Prefeitura)
    else if "camara" in hints then Some(Camara)
    else if Contains(title, "prefeitura") then Some(Prefeitura)
    else if Contains(title, "municipio") then Some(Prefeitura)
    else if Contains(title, "camara municipal") then Some(Camara)
    else if Contains(title, "camara de") then Some(Camara)
    else None
  }

  /** `title_and_type`: a page without a title gets the empty title and is
      still classified; otherwise the transliterated (not lower-cased) text
      is returned and its lower-cased form classified. */
  function ManualTitleAndType(titleTag: Option<string>, translit: string -> string, hints: set<string>): (r: (string, Option<SiteType>))
    ensures titleTag.None? ==> r.0 == ""
    ensures titleTag.Some? ==> r.0 == translit(titleTag.value)
    ensures r.1 == ManualClassify(Lower(r.0), hints)
  {
    var title := if titleTag.None? then "" else translit(titleTag.value);
    (title, ManualClassify(Lower(title), hints))
  }

  /** The two classifiers agree on city-hall titles, except that the
      automatic one drops anthem and coat-of-arms pages. */
  lemma ClassifiersAgreeOnCityHall(title: string)
    requires NamesCityHall(title)
    ensures ManualClassify(title, {}) == Some(Prefeitura)
    ensures ClassifyTitle(title, {}) == (if Ceremonial(title) then None else Some(Prefeitura))
  {
  }

  /** What the loop body does with a choice: skip the link, quit the city,
      record it under a branch, or fail because `branch` was never
      assigned. */
  datatype Step = Skip | Quit | Record(branch: string) | Unbound

  /** The choice dispatch of `verify_city_links`. Choices other than `n`, `s`,
      `q`, `p` and `c` (`t`, `y`, the empty line, `ct`, …) assign nothing, so
      the branch of an earlier link of the same city is reused. */
  function Dispatch(choice: string, branch: Option<string>): (s: Step)
    ensures s == Skip <==> choice == "n" || choice == "s"
    ensures s == Quit <==> choice == "q"
    ensures choice == "p" ==> s == Record("executive")
    ensures choice == "c" ==> s == Record("legislative")
    ensures choice !in {"n", "s", "q", "p", "c"} ==>
      s == (if branch.Some? then Record(branch.value) else Unbound)
  {
    if choice == "n" || choice == "s" then Skip
    else if choice == "q" then Quit
    else if choice == "p" then Record("executive")
    else if choice == "c" then Record("legislative")
    else if branch.Some? then Record(branch.value)
    else Unbound
  }

  /** A branch the session can record. */
  predicate ValidBranch(b: Option<string>)
  {
    b.None? || b.value == "executive" || b.value == "legislative"
  }

  /** The outside world of a session: the network probe and the clock read
      when a record is made (from the municipality code and the link). */
  datatype Session = Session(probe: string -> Fetch, clock: (int, string) -> string)

  /** The state threaded through the links of one city. */
  datatype CityState = CityState(inputs: seq<string>, branch: Option<string>, records: seq<NewRecord>)

  /** How the loop over a city's links ended: normally, or by `q`. Both carry
      the unread input and the records accepted so far. */
  datatype CityOutcome =
    | Finished(inputs: seq<string>, records: seq<NewRecord>)
    | Quitted(inputs: seq<string>, records: seq<NewRecord>)

  /** A record the session makes for `first`'s municipality. */
  predicate RecordFor(first: Candidate, code: int, r: NewRecord)
  {
    && r.municipalityCode == code && r.stateCode == first.uf && r.municipality == first.name
    && r.sphere == "municipal" && (r.branch == "executive" || r.branch == "legislative")
  }

  /** A record made for `first`'s municipality from a healthy link among
      `links`, under its post-redirect URL. */
  predicate FromLinks(first: Candidate, code: int, links: seq<string>, w: Session, r: NewRecord)
  {
    && RecordFor(first, code, r)
    && exists l :: l in links && w.probe(l).Responded? && w.probe(l).response.status == 200
         && r.url == w.probe(l).response.url
  }

  /** How one link ended: the loop goes on with a new state, or `q` stops
      it. */
  datatype LinkOutcome = Continue(next: CityState) | Stop(inputs: seq<string>, records: seq<NewRecord>)

  /** `next` follows `st` after one link of `links`: the branch stays
      valid, input is only consumed, and at most one record is added, made
      from one of `links`. */
  predicate ContinuesFrom(first: Candidate, code: int, links: seq<string>, w: Session, st: CityState, next: CityState)
  {
    && ValidBranch(next.branch)
    && |next.inputs| <= |st.inputs|
    && (|| next.records == st.records
        || (&& |next.records| == |st.records| + 1
            && next.records[..|st.records|] == st.records
            && FromLinks(first, code, links, w, next.records[|st.records|])))
  }

  /** The link is healthy and the user gave an accepted line. */
  predicate Prompted(link: string, w: Session, st: CityState)
  {
    && HealthyLink(w.probe(link)).Ok? && HealthyLink(w.probe(link)).value.Some?
    && Choose(st.inputs, "pctynsq").Ok?
  }

  /** The link is healthy and the user's first accepted line is `choice`. */
  predicate Answered(link: string, w: Session, st: CityState, choice: string)
  {
    Prompted(link, w, st) && Choose(st.inputs, "pctynsq").value.0 == choice
  }

  /** The state after the healthy `link` is recorded under branch `b`: the
      prompt's input consumed, `b` remembered, and a record with the
      post-redirect URL appended. */
  function Recorded(first: Candidate, code: int, link: string, w: Session, st: CityState, b: string): CityState
    requires w.probe(link).Responded? && Choose(st.inputs, "pctynsq").Ok?
  {
    CityState(Choose(st.inputs, "pctynsq").value.1, Some(b),
              st.records + [NewRecord(first.uf, code, first.name, "municipal", b, w.probe(link).response.url, w.clock(code, link))])
  }

  /** One iteration of the loop of `verify_city_links`: an unhealthy link is
      passed over without a prompt; a healthy one prompts for a choice, which
      is dispatched. */
  function VisitLink(first: Candidate, code: int, link: string, w: Session, st: CityState): (r: Result<LinkOutcome, Exception>)
    requires ValidBranch(st.branch)
    ensures HealthyLink(w.probe(link)) == Ok(None) ==> r == Ok(Continue(st))
    ensures r.Ok? && r.value.Stop? ==> r.value.records == st.records && |r.value.inputs| <= |st.inputs|
    ensures r.Ok? && r.value.Continue? ==> ContinuesFrom(first, code, [link], w, st, r.value.next)
    ensures HealthyLink(w.probe(link)).Err? ==> r == Err(HealthyLink(w.probe(link)).error)
  {
    match HealthyLink(w.probe(link))
    case Err(e) => Err(e)
    case Ok(None) => Ok(Continue(st))
    case Ok(Some(resp)) =>
      match Choose(st.inputs, "pctynsq")
      case Err(e) => Err(e)
      case Ok((choice, rest)) =>
        match Dispatch(choice, st.branch)
        case Unbound => Err(UnboundLocalError("branch"))
        case Quit => Ok(Stop(rest, st.records))
        case Skip => Ok(Continue(st.(inputs := rest)))
        case Record(b) =>
          var rec := NewRecord(first.uf, code, first.name, "municipal", b, resp.url, w.clock(code, link));
          RecordContinues(first, code, link, w, st, rest, b, rec);
          Ok(Continue(CityState(rest, Some(b), st.records + [rec])))
  }

  /** Running out of input at the prompt raises `EOFError`; `n` and `s`
      pass the link over, and `q` ends the city keeping its earlier
      records. */
  lemma VisitLinkSkipsOrQuits(first: Candidate, code: int, link: string, w: Session, st: CityState)
    requires ValidBranch(st.branch)
    ensures HealthyLink(w.probe(link)).Ok? && HealthyLink(w.probe(link)).value.Some? && Choose(st.inputs, "pctynsq").Err? ==>
      VisitLink(first, code, link, w, st) == Err(EOFError)
    ensures Answered(link, w, st, "n") || Answered(link, w, st, "s") ==>
      VisitLink(first, code, link, w, st) == Ok(Continue(st.(inputs := Choose(st.inputs, "pctynsq").value.1)))
    ensures Answered(link, w, st, "q") ==>
      VisitLink(first, code, link, w, st) == Ok(Stop(Choose(st.inputs, "pctynsq").value.1, st.records))
  {
  }

  /** `p` and `c` record the link as executive or legislative. */
  lemma VisitLinkRecords(first: Candidate, code: int, link: string, w: Session, st: CityState)
    requires ValidBranch(st.branch)
    ensures Answered(link, w, st, "p") ==>
      VisitLink(first, code, link, w, st) == Ok(Continue(Recorded(first, code, link, w, st, "executive")))
    ensures Answered(link, w, st, "c") ==>
      VisitLink(first, code, link, w, st) == Ok(Continue(Recorded(first, code, link, w, st, "legislative")))
  {
  }

  /** Any other accepted line reuses the branch of an earlier link of the
      city, raising `UnboundLocalError` when there is none. */
  lemma VisitLinkReusesBranch(first: Candidate, code: int, link: string, w: Session, st: CityState)
    requires ValidBranch(st.branch)
    ensures Prompted(link, w, st) && Choose(st.inputs, "pctynsq").value.0 !in {"n", "s", "q", "p", "c"} ==>
      VisitLink(first, code, link, w, st) ==
        if st.branch.None? then Err(UnboundLocalError("branch"))
        else Ok(Continue(Recorded(first, code, link, w, st, st.branch.value)))
  {
  }

  /** Recording the branch for a healthy link adds one record made from it. */
  lemma RecordContinues(first: Candidate, code: int, link: string, w: Session, st: CityState,
                        rest: seq<string>, b: string, rec: NewRecord)
    requires w.probe(link).Responded? && w.probe(link).response.status == 200
    requires |rest| <= |st.inputs|
    requires b == "executive" || b == "legislative"
    requires rec == NewRecord(first.uf, code, first.name, "municipal", b, w.probe(link).response.url, w.clock(code, link))
    ensures ContinuesFrom(first, code, [link], w, st, CityState(rest, Some(b), st.records + [rec]))
  {
    assert link in [link];
    assert (st.records + [rec])[..|st.records|] == st.records;
    assert FromLinks(first, code, [link], w, rec);
  }

  /** The loop of `verify_city_links` over `links`. */
  function CityLoop(first: Candidate, code: int, links: seq<string>, w: Session, st: CityState): (r: Result<CityOutcome, Exception>)
    requires ValidBranch(st.branch)
    ensures r.Ok? ==> |r.value.inputs| <= |st.inputs|
    ensures r.Ok? ==> |st.records| <= |r.value.records| <= |st.records| + |links|
    ensures r.Ok? ==> r.value.records[..|st.records|] == st.records
    ensures r.Ok? ==> forall i :: |st.records| <= i < |r.value.records| ==>
      FromLinks(first, code, links, w, r.value.records[i])
  {
    if |links| == 0 then Ok(Finished(st.inputs, st.records))
    else
      match VisitLink(first, code, links[0], w, st)
      case Err(e) => Err(e)
      case Ok(Stop(rest, recs)) => Ok(Quitted(rest, recs))
      case Ok(Continue(next)) =>
        var r := CityLoop(first, code, links[1..], w, next);
        if r.Ok? then
          CityLoopStep(first, code, links, w, st, next, r.value.records);
          r
        else r
  }

  /** The records of the rest of the loop, after those of the first link,
      still come from `links`. */
  lemma CityLoopStep(first: Candidate, code: int, links: seq<string>, w: Session, st: CityState, next: CityState, recs: seq<NewRecord>)
    requires |links| > 0
    requires ContinuesFrom(first, code, [links[0]], w, st, next)
    requires |next.records| <= |recs| && recs[..|next.records|] == next.records
    requires forall i :: |next.records| <= i < |recs| ==> FromLinks(first, code, links[1..], w, recs[i])
    ensures recs[..|st.records|] == st.records
    ensures forall i :: |st.records| <= i < |recs| ==> FromLinks(first, code, links, w, recs[i])
  {
    assert recs[..|st.records|] == next.records[..|st.records|];
    forall i | |st.records| <= i < |recs|
      ensures FromLinks(first, code, links, w, recs[i])
    {
      if i < |next.records| {
        assert |next.records| == |st.records| + 1 && i == |st.records|;
        assert recs[i] == next.records[i];
        FromLinksWiden(first, code, [links[0]], links, w, recs[i]);
      } else {
        FromLinksWiden(first, code, links[1..], links, w, recs[i]);
      }
    }
  }

  /** A record from some of the links is a record from all of them. */
  lemma FromLinksWiden(first: Candidate, code: int, some: seq<string>, links: seq<string>, w: Session, r: NewRecord)
    requires FromLinks(first, code, some, w, r)
    requires forall l :: l in some ==> l in links
    ensures FromLinks(first, code, links, w, r)
  {
    var l :| l in some && w.probe(l).Responded? && w.probe(l).response.status == 200 && r.url == w.probe(l).response.url;
    assert l in links;
  }

  /** An unhealthy link costs no keystroke and yields no record. */
  lemma {:induction false} UnhealthyLinksAreSilent(first: Candidate, code: int, links: seq<string>, w: Session, st: CityState)
    requires ValidBranch(st.branch)
    requires forall l :: l in links ==> HealthyLink(w.probe(l)) == Ok(None)
    ensures CityLoop(first, code, links, w, st) == Ok(Finished(st.inputs, st.records))
  {
    if |links| > 0 {
      assert links[0] in links;
      assert forall l :: l in links[1..] ==> l in links;
      assert VisitLink(first, code, links[0], w, st) == Ok(Continue(st));
      UnhealthyLinksAreSilent(first, code, links[1..], w, st);
    }
  }

  /** `verify_city_links` in manual mode: the city's first row names it, its
      distinct links are visited in first-occurrence order, and `branch`
      starts unassigned. */
  function VerifyCity(candidates: seq<Candidate>, code: int, w: Session, inputs: seq<string>): (r: Result<CityOutcome, Exception>)
    ensures |AutoVerify.CityRows(candidates, code)| == 0 ==> r == Err(IndexError)
    ensures r.Ok? ==> |r.value.inputs| <= |inputs|
    ensures r.Ok? ==> forall x :: x in r.value.records ==>
      RecordFor(AutoVerify.CityRows(candidates, code)[0], code, x)
  {
    var rows := AutoVerify.CityRows(candidates, code);
    if |rows| == 0 then Err(IndexError)
    else
      var links := Distinct(AutoVerify.LinksOf(rows));
      var r := CityLoop(rows[0], code, links, w, CityState(inputs, None, []));
      if r.Ok? then
        RecordsFromLinks(rows[0], code, links, w, r.value.records);
        r
      else r
  }

  /** Records made from links are records for the city. */
  lemma RecordsFromLinks(first: Candidate, code: int, links: seq<string>, w: Session, recs: seq<NewRecord>)
    requires forall i :: 0 <= i < |recs| ==> FromLinks(first, code, links, w, recs[i])
    ensures forall x :: x in recs ==> RecordFor(first, code, x)
  {
    forall x | x in recs
      ensures RecordFor(first, code, x)
    {
      var i :| 0 <= i < |recs| && recs[i] == x;
      assert FromLinks(first, code, links, w, recs[i]);
    }
  }

  /** The cities `codes` visited in turn while each ends normally, the unread
      input passing from one to the next: the input left after the last and
      all their records, city by city; None when one raises or quits. */
  function FinishAll(candidates: seq<Candidate>, codes: seq<int>, w: Session, inputs: seq<string>): Option<(seq<string>, seq<NewRecord>)>
    decreases |codes|
  {
    if |codes| == 0 then Some((inputs, []))
    else
      match VerifyCity(candidates, codes[0], w, inputs)
      case Ok(Finished(rest, recs)) =>
        (match FinishAll(candidates, codes[1..], w, rest)
         case None => None
         case Some((last, more)) => Some((last, recs + more)))
      case _ => None
  }

  /** The records `recs` in front of the outcome of the later cities. */
  function Prefixed(recs: seq<NewRecord>, later: Result<seq<NewRecord>, Exception>): Result<seq<NewRecord>, Exception>
  {
    if later.Err? then later else Ok(recs + later.value)
  }

  /** The loop of `manual_verify` over the chosen codes: a city that ends
      normally contributes its records; `q` stops the session and discards
      the quitting city's records, keeping the earlier cities'. */
  function SessionLoop(candidates: seq<Candidate>, codes: seq<int>, w: Session, inputs: seq<string>): (r: Result<seq<NewRecord>, Exception>)
    ensures r.Ok? ==> forall x :: x in r.value ==> x.municipalityCode in codes && x.sphere == "municipal"
    ensures FinishAll(candidates, codes, w, inputs).Some? ==> r == Ok(FinishAll(candidates, codes, w, inputs).value.1)
    decreases |codes|
  {
    if |codes| == 0 then Ok([])
    else
      match VerifyCity(candidates, codes[0], w, inputs)
      case Err(e) => Err(e)
      case Ok(Quitted(_, _)) => Ok([])
      case Ok(Finished(rest, recs)) =>
        match SessionLoop(candidates, codes[1..], w, rest)
        case Err(e) => Err(e)
        case Ok(more) =>
          assert forall x :: x in more ==> x.municipalityCode in codes;
          Ok(recs + more)
  }

  /** After `k` cities that end normally, the session is their records in
      front of whatever the remaining cities give, from the input they left. */
  lemma {:induction false} SessionAfterFinished(candidates: seq<Candidate>, codes: seq<int>, w: Session, inputs: seq<string>, k: nat)
    requires k <= |codes| && FinishAll(candidates, codes[..k], w, inputs).Some?
    ensures SessionLoop(candidates, codes, w, inputs) ==
      Prefixed(FinishAll(candidates, codes[..k], w, inputs).value.1,
               SessionLoop(candidates, codes[k..], w, FinishAll(candidates, codes[..k], w, inputs).value.0))
  {
    if k == 0 {
      SessionAfterNone(candidates, codes, w, inputs);
    } else {
      var o := FinishAllStep(candidates, codes, w, inputs, k);
      SessionAfterFinished(candidates, codes[1..], w, o.inputs, k - 1);
      SessionStep(candidates, codes, w, inputs, o.inputs, o.records);
      var more := FinishAll(candidates, codes[1..][..k - 1], w, o.inputs).value;
      PrefixedTwice(o.records, more.1, SessionLoop(candidates, codes[k..], w, more.0));
    }
  }

  /** No finished city puts nothing in front. */
  lemma SessionAfterNone(candidates: seq<Candidate>, codes: seq<int>, w: Session, inputs: seq<string>)
    ensures FinishAll(candidates, codes[..0], w, inputs) == Some((inputs, []))
    ensures SessionLoop(candidates, codes, w, inputs) == Prefixed([], SessionLoop(candidates, codes[0..], w, inputs))
  {
    assert codes[..0] == [] && codes[0..] == codes;
    var x := SessionLoop(candidates, codes, w, inputs);
    if x.Ok? {
      assert [] + x.value == x.value;
    }
  }

  /** The first of `k > 0` finished cities, and the other `k - 1` after it. */
  lemma FinishAllStep(candidates: seq<Candidate>, codes: seq<int>, w: Session, inputs: seq<string>, k: nat) returns (o: CityOutcome)
    requires 0 < k <= |codes| && FinishAll(candidates, codes[..k], w, inputs).Some?
    ensures VerifyCity(candidates, codes[0], w, inputs) == Ok(o) && o.Finished?
    ensures codes[1..][k - 1..] == codes[k..]
    ensures FinishAll(candidates, codes[1..][..k - 1], w, o.inputs).Some?
    ensures FinishAll(candidates, codes[..k], w, inputs).value ==
      (FinishAll(candidates, codes[1..][..k - 1], w, o.inputs).value.0,
       o.records + FinishAll(candidates, codes[1..][..k - 1], w, o.inputs).value.1)
  {
    PrefixShift(codes, k);
    o := FinishAllHead(candidates, codes[..k], w, inputs);
  }

  /** Slicing the first `k` codes and dropping the first one commute. */
  lemma PrefixShift(codes: seq<int>, k: nat)
    requires 0 < k <= |codes|
    ensures codes[..k][0] == codes[0]
    ensures codes[..k][1..] == codes[1..][..k - 1]
    ensures codes[1..][k - 1..] == codes[k..]
  {
  }

  /** The first city of a run where every city finishes, and the rest. */
  lemma FinishAllHead(candidates: seq<Candidate>, codes: seq<int>, w: Session, inputs: seq<string>) returns (o: CityOutcome)
    requires |codes| > 0 && FinishAll(candidates, codes, w, inputs).Some?
    ensures VerifyCity(candidates, codes[0], w, inputs) == Ok(o) && o.Finished?
    ensures FinishAll(candidates, codes[1..], w, o.inputs).Some?
    ensures FinishAll(candidates, codes, w, inputs).value ==
      (FinishAll(candidates, codes[1..], w, o.inputs).value.0,
       o.records + FinishAll(candidates, codes[1..], w, o.inputs).value.1)
  {
    o := VerifyCity(candidates, codes[0], w, inputs).value;
  }

  /** A first city that ends normally puts its records in front of the
      rest of the session. */
  lemma SessionStep(candidates: seq<Candidate>, codes: seq<int>, w: Session, inputs: seq<string>,
                    rest: seq<string>, recs: seq<NewRecord>)
    requires |codes| > 0
    requires VerifyCity(candidates, codes[0], w, inputs) == Ok(Finished(rest, recs))
    ensures SessionLoop(candidates, codes, w, inputs) == Prefixed(recs, SessionLoop(candidates, codes[1..], w, rest))
  {
  }

  lemma PrefixedTwice(a: seq<NewRecord>, b: seq<NewRecord>, later: Result<seq<NewRecord>, Exception>)
    ensures Prefixed(a, Prefixed(b, later)) == Prefixed(a + b, later)
  {
    if later.Ok? {
      AppendAssoc(a, b, later.value);
    }
  }

  /** Quitting after `k` cities that ended normally keeps exactly their
      records and loses the quitting city's. */
  lemma QuitKeepsEarlierCities(candidates: seq<Candidate>, codes: seq<int>, w: Session, inputs: seq<string>, k: nat)
    requires k < |codes| && FinishAll(candidates, codes[..k], w, inputs).Some?
    requires var rest := FinishAll(candidates, codes[..k], w, inputs).value.0;
      VerifyCity(candidates, codes[k], w, rest).Ok? && VerifyCity(candidates, codes[k], w, rest).value.Quitted?
    ensures SessionLoop(candidates, codes, w, inputs) == Ok(FinishAll(candidates, codes[..k], w, inputs).value.1)
  {
    var done := FinishAll(candidates, codes[..k], w, inputs).value;
    SessionAfterFinished(candidates, codes, w, inputs, k);
    assert codes[k..][0] == codes[k];
    QuitEndsLoop(candidates, codes[k..], w, done.0);
    assert done.1 + [] == done.1;
  }

  /** A city that raises after `k` cities that ended normally ends the
      session with its exception. */
  lemma FailureEndsSession(candidates: seq<Candidate>, codes: seq<int>, w: Session, inputs: seq<string>, k: nat)
    requires k < |codes| && FinishAll(candidates, codes[..k], w, inputs).Some?
    requires VerifyCity(candidates, codes[k], w, FinishAll(candidates, codes[..k], w, inputs).value.0).Err?
    ensures SessionLoop(candidates, codes, w, inputs) ==
      Err(VerifyCity(candidates, codes[k], w, FinishAll(candidates, codes[..k], w, inputs).value.0).error)
  {
    var done := FinishAll(candidates, codes[..k], w, inputs).value;
    SessionAfterFinished(candidates, codes, w, inputs, k);
    assert codes[k..][0] == codes[k];
  }

  /** A session whose first city quits yields no records. */
  lemma QuitEndsLoop(candidates: seq<Candidate>, codes: seq<int>, w: Session, inputs: seq<string>)
    requires |codes| > 0
    requires VerifyCity(candidates, codes[0], w, inputs).Ok? && VerifyCity(candidates, codes[0], w, inputs).value.Quitted?
    ensures SessionLoop(candidates, codes, w, inputs) == Ok([])
  {
  }

  /** `manual_verify`: the shuffled distinct codes (`order`), truncated to
      `max_quantity` when it is non-zero, are visited in turn, and the
      accepted links are merged with the `last-verified-manual` column, then
      deduplicated by URL and sorted by `(state_code, municipality)`. */
  function ManualVerifyRun(candidates: seq<Candidate>, order: seq<int>, maxQuantity: int,
                           w: Session, inputs: seq<string>, table: seq<WebsiteRow>): (r: Result<seq<WebsiteRow>, Exception>)
    requires IsShuffleOf(order, DistinctCodes(candidates))
    ensures r.Ok? ==> KeysUnique(r.value, UrlOf) && Sorted(r.value, SortKey(Manual))
    ensures var session := SessionLoop(candidates, ChosenCodes(order, maxQuantity), w, inputs);
      && (r.Err? ==> session.Err? && r.error == session.error)
      && (r.Ok? ==> session.Ok? && r.value == MergeVerified(Manual, table, session.value))
  {
    match SessionLoop(candidates, ChosenCodes(order, maxQuantity), w, inputs)
    case Err(e) => Err(e)
    case Ok(records) => Ok(MergeVerified(Manual, table, records))
  }
}
