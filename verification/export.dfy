/** The Markdown export of the portal tables for the Colaboradados list
    (exporta-colaboradados.py): the choice between the state and the
    municipal layout, and both layouts. */
module Export {
  import opened Wrappers
  import opened Text
  import opened Values
  import opened Seqs

  // ---------------------------------------------------------------------
  // Mode

  /** The parsed switches `-e`/`--estaduais` and `-m`/`--municipais`. */
  datatype Args = Args(estaduais: bool, municipais: bool)

  /** The switches once parsed and once `-e` has switched the municipal
      layout off. `-m` stores `True` over a default of `True`, so whether
      it is given makes no difference. */
  function ParseArgs(e: bool, m: bool): (a: Args)
    ensures a.estaduais == e
    ensures a.municipais != a.estaduais
  {
    var parsed := Args(e, true);
    if parsed.estaduais then parsed.(municipais := false) else parsed
  }

  // ---------------------------------------------------------------------
  // Portal types

  /** `portal_type`: the link text of each portal type code. */
  function PortalTypes(code: string): Option<string>
  {
    if code == "SPT" then Some("Portal da Transparência")
    else if code == "PTDAG" then Some("Portal da Transparência e Dados Abertos")
    else if code == "PEDAG" then Some("Portal de Dados Abertos")
    else None
  }

  /** `portal_type[tipo.strip()]`: a code outside the three raises
      `KeyError`. */
  function PortalName(tipo: string): (r: Result<string, Exception>)
    ensures r.Ok? <==> Strip(tipo) in {"SPT", "PTDAG", "PEDAG"}
    ensures r.Err? ==> r.error == KeyError(Strip(tipo))
    ensures r.Ok? ==> r.value in {"Portal da Transparência", "Portal da Transparência e Dados Abertos", "Portal de Dados Abertos"}
  {
    var code := Strip(tipo);
    match PortalTypes(code)
    case Some(name) => Ok(name)
    case None => Err(KeyError(code))
  }

  // ---------------------------------------------------------------------
  // Rendering a sequence of entries

  /** Item `i` is the first whose rendering fails, and it fails with `e`. */
  predicate FirstFailure<T>(items: seq<T>, render: T -> Result<string, Exception>, i: int, e: Exception)
  {
    && 0 <= i < |items|
    && render(items[i]) == Err(e)
    && forall k :: 0 <= k < i ==> render(items[k]).Ok?
  }

  /** The text of `items` rendered one after the other, as the script's
      `output +=` loops build it; the first failure ends the script before
      anything is printed. */
  function Emit<T>(items: seq<T>, render: T -> Result<string, Exception>): (r: Result<string, Exception>)
    ensures r.Ok? <==> forall i :: 0 <= i < |items| ==> render(items[i]).Ok?
    ensures r.Err? ==> exists i :: FirstFailure(items, render, i, r.error)
    ensures r.Ok? && |items| > 0 ==> StartsWith(r.value, render(items[0]).value)
  {
    if |items| == 0 then Ok("")
    else
      match render(items[0])
      case Err(e) =>
        assert FirstFailure(items, render, 0, e);
        Err(e)
      case Ok(piece) =>
        match Emit(items[1..], render)
        case Err(e) =>
          assert exists i :: FirstFailure(items, render, i, e) by {
            var i :| FirstFailure(items[1..], render, i, e);
            assert FirstFailure(items, render, i + 1, e);
          }
          Err(e)
        case Ok(rest) =>
          assert forall i :: 0 <= i < |items| ==> render(items[i]).Ok? by {
            forall i | 0 < i < |items|
              ensures render(items[i]).Ok?
            {
              assert items[i] == items[1..][i - 1];
            }
          }
          assert (piece + rest)[..|piece|] == piece;
          Ok(piece + rest)
  }

  /** Gluing two results, the first failure winning. */
  function Then(a: Result<string, Exception>, b: Result<string, Exception>): Result<string, Exception>
  {
    match a
    case Err(e) => Err(e)
    case Ok(x) =>
      match b
      case Err(e) => Err(e)
      case Ok(y) => Ok(x + y)
  }

  /** Rendering a concatenation renders the parts in order; with
      `EmitOne` this says that the output is the entries' texts in input
      order. */
  lemma {:induction false} EmitConcat<T>(a: seq<T>, b: seq<T>, render: T -> Result<string, Exception>)
    ensures Emit(a + b, render) == Then(Emit(a, render), Emit(b, render))
  {
    if |a| == 0 {
      assert a + b == b;
      if Emit(b, render).Ok? {
        assert "" + Emit(b, render).value == Emit(b, render).value;
      }
    } else {
      assert (a + b)[0] == a[0];
      TailOfConcat(a, b);
      EmitConcat(a[1..], b, render);
      if render(a[0]).Ok? && Emit(a[1..], render).Ok? && Emit(b, render).Ok? {
        var x := render(a[0]).value;
        var y := Emit(a[1..], render).value;
        var z := Emit(b, render).value;
        assert x + (y + z) == (x + y) + z;
      }
    }
  }

  /** One entry renders as itself. */
  lemma EmitOne<T>(x: T, render: T -> Result<string, Exception>)
    ensures Emit([x], render) == render(x)
  {
    assert [x][1..] == [];
    if render(x).Ok? {
      assert render(x).value + "" == render(x).value;
    }
  }

  /** `-  **[name](url)**: url` and a blank line. */
  function LinkLine(name: string, url: string): (r: string)
    ensures |r| == |name| + 2 * |url| + 15
    ensures StartsWith(r, "-  **[" + name + "](" + url + ")**: ")
    ensures EndsWith(r, url + "\n\n")
  {
    var head := "-  **[" + name + "](" + url + ")**: ";
    var tail := url + "\n\n";
    StartsWithConcat(head, tail);
    assert EndsWith(tail, tail);
    EndsWithConcat(head, tail, tail);
    head + tail
  }

  /** A link line ends with its URL and a blank line. */
  lemma LinkLineEnds(name: string, url: string)
    ensures EndsWith(LinkLine(name, url), ")**: " + url + "\n\n")
  {
    var tail := ")**: " + url + "\n\n";
    assert LinkLine(name, url) == ("-  **[" + name + "](" + url) + tail;
    EndsWithConcat("-  **[" + name + "](" + url, tail, tail);
  }

  // ---------------------------------------------------------------------
  // State layout

  /** A row of the state table as the export reads it. */
  datatype StateRow = StateRow(ufNome: string, tipo: string, url: string)

  /** The entry of one state: its name as a heading, then the link line
      naming the portal type and the state. */
  function StateEntry(s: StateRow): (r: Result<string, Exception>)
    ensures r.Err? <==> PortalName(s.tipo).Err?
    ensures r.Err? ==> r.error == KeyError(Strip(s.tipo))
    ensures r.Ok? ==> StartsWith(r.value, "## " + s.ufNome + "\n\n")
    ensures r.Ok? ==> EndsWith(r.value, ")**: " + s.url + "\n\n")
    ensures r.Ok? ==>
      r.value == "## " + s.ufNome + "\n\n" + LinkLine(PortalName(s.tipo).value + " do Estado de " + s.ufNome, s.url)
  {
    match PortalName(s.tipo)
    case Err(e) => Err(e)
    case Ok(portal) =>
      var head := "## " + s.ufNome + "\n\n";
      var link := LinkLine(portal + " do Estado de " + s.ufNome, s.url);
      LinkLineEnds(portal + " do Estado de " + s.ufNome, s.url);
      StartsWithConcat(head, link);
      EndsWithConcat(head, link, ")**: " + s.url + "\n\n");
      Ok(head + link)
  }

  /** The state layout: one entry per row, in file order. */
  function RenderStates(states: seq<StateRow>): (r: Result<string, Exception>)
    ensures r.Ok? <==> forall i :: 0 <= i < |states| ==> PortalName(states[i].tipo).Ok?
    ensures r.Err? ==> exists i :: FirstFailure(states, StateEntry, i, r.error)
  {
    Emit(states, StateEntry)
  }

  /** The state layout of two files one after the other is the two
      layouts one after the other. */
  lemma RenderStatesConcat(a: seq<StateRow>, b: seq<StateRow>)
    ensures RenderStates(a + b) == Then(RenderStates(a), RenderStates(b))
  {
    EmitConcat(a, b, StateEntry);
  }

  // ---------------------------------------------------------------------
  // Municipal layout

  /** A row of the municipal table as the export reads it. */
  datatype CityRow = CityRow(uf: string, municipio: string, tipo: string, url: string, observacao: string)

  /** The note line, present only for a note that is not blank. */
  function Note(c: CityRow): string
  {
    if Strip(c.observacao) != "" then "*Observação:* " + Strip(c.observacao) + "\n\n" else ""
  }

  /** The entry of one city: its name as a sub-heading, the link line
      naming the portal type and the city, and the note when there is
      one. */
  function CityEntry(c: CityRow): (r: Result<string, Exception>)
    ensures r.Err? <==> PortalName(c.tipo).Err?
    ensures r.Err? ==> r.error == KeyError(Strip(c.tipo))
    ensures r.Ok? ==> StartsWith(r.value, "### " + c.municipio + "\n\n")
    ensures r.Ok? && Strip(c.observacao) != "" ==> EndsWith(r.value, "*Observação:* " + Strip(c.observacao) + "\n\n")
    ensures r.Ok? && Strip(c.observacao) == "" ==> EndsWith(r.value, ")**: " + c.url + "\n\n")
    ensures r.Ok? ==>
      r.value == "### " + c.municipio + "\n\n" + LinkLine(PortalName(c.tipo).value + " do Município de " + c.municipio, c.url) + Note(c)
  {
    match PortalName(c.tipo)
    case Err(e) => Err(e)
    case Ok(portal) =>
      var head := "### " + c.municipio + "\n\n";
      var link := LinkLine(portal + " do Município de " + c.municipio, c.url);
      LinkLineEnds(portal + " do Município de " + c.municipio, c.url);
      EntryShape(head, link, Note(c), ")**: " + c.url + "\n\n");
      Ok(head + link + Note(c))
  }

  /** An entry made of a head, a link line and an optional note starts
      with the head and ends with the note, or with the link line when
      there is no note. */
  lemma EntryShape(head: string, link: string, note: string, tail: string)
    requires EndsWith(link, tail)
    ensures StartsWith(head + link + note, head)
    ensures note != "" ==> EndsWith(head + link + note, note)
    ensures note == "" ==> EndsWith(head + link + note, tail)
  {
    assert head + link + note == head + (link + note);
    StartsWithConcat(head, link + note);
    if note == "" {
      assert head + link + note == head + link;
      EndsWithConcat(head, link, tail);
    } else {
      assert EndsWith(note, note);
      EndsWithConcat(head + link, note, note);
    }
  }

  /** The sort key of a heading: Python's string order. */
  function HeadingKey(h: string): seq<Val>
  {
    [Str(h)]
  }

  /** Some city's state, upper-cased, is `h`. */
  predicate SomeUf(cities: seq<CityRow>, h: string)
  {
    exists i :: 0 <= i < |cities| && Upper(cities[i].uf) == h
  }

  /** Each city's state, upper-cased. */
  function Ufs(cities: seq<CityRow>): (ufs: seq<string>)
    ensures |ufs| == |cities| && forall i :: 0 <= i < |cities| ==> ufs[i] == Upper(cities[i].uf)
    ensures forall h :: h in ufs <==> SomeUf(cities, h)
  {
    var ufs := seq(|cities|, i requires 0 <= i < |cities| => Upper(cities[i].uf));
    forall h | SomeUf(cities, h)
      ensures h in ufs
    {
      var i :| 0 <= i < |cities| && Upper(cities[i].uf) == h;
      assert ufs[i] == h;
    }
    ufs
  }

  /** `sorted(set(city.uf.upper() for city in cities))`: the distinct
      upper-cased states in string order. */
  function Headings(cities: seq<CityRow>): (hs: seq<string>)
    ensures NoDup(hs) && Sorted(hs, HeadingKey)
    ensures forall h :: h in hs <==> SomeUf(cities, h)
  {
    var distinct := Distinct(Ufs(cities));
    var hs := SortBy(distinct, HeadingKey);
    NoDupPermutation(hs, distinct);
    forall h
      ensures h in hs <==> h in distinct
    {
      assert h in hs <==> h in multiset(hs);
      assert h in distinct <==> h in multiset(distinct);
    }
    hs
  }

  /** City `c` is listed under heading `h`: same state, written exactly
      so, and a URL that is not blank. */
  predicate ListedUnder(h: string, c: CityRow)
  {
    c.uf == h && Strip(c.url) != ""
  }

  /** The cities listed under heading `h`, in file order. */
  function Listed(cities: seq<CityRow>, h: string): (r: seq<CityRow>)
    ensures IsSubseq(r, cities)
    ensures forall c :: c in r <==> c in cities && ListedUnder(h, c)
    ensures forall c :: multiset(r)[c] == if ListedUnder(h, c) then multiset(cities)[c] else 0
  {
    FilterMultiplicity(cities, c => ListedUnder(h, c));
    Filter(cities, c => ListedUnder(h, c))
  }

  /** The section of heading `h`: the heading, its cities' entries and a
      blank line. */
  function Section(cities: seq<CityRow>, h: string): (r: Result<string, Exception>)
    ensures r.Ok? <==> forall c :: c in Listed(cities, h) ==> PortalName(c.tipo).Ok?
    ensures r.Ok? ==> StartsWith(r.value, "## " + h + "\n\n") && EndsWith(r.value, "\n")
    ensures r.Ok? ==>
      Emit(Listed(cities, h), CityEntry).Ok? &&
      r.value == "## " + h + "\n\n" + Emit(Listed(cities, h), CityEntry).value + "\n"
  {
    var listed := Listed(cities, h);
    ListedEntriesOk(listed);
    match Emit(listed, CityEntry)
    case Err(e) => Err(e)
    case Ok(body) =>
      var head := "## " + h + "\n\n";
      var tail := body + "\n";
      StartsWithConcat(head, tail);
      EndsWithConcat(body, "\n", "\n");
      EndsWithConcat(head, tail, "\n");
      AppendAssoc(head, body, "\n");
      Ok(head + tail)
  }

  /** The entries of some cities all render exactly when all their portal
      types are known. */
  lemma ListedEntriesOk(listed: seq<CityRow>)
    ensures (forall i :: 0 <= i < |listed| ==> CityEntry(listed[i]).Ok?) <==>
      forall c :: c in listed ==> PortalName(c.tipo).Ok?
  {
    if forall i :: 0 <= i < |listed| ==> CityEntry(listed[i]).Ok? {
      forall c | c in listed
        ensures PortalName(c.tipo).Ok?
      {
        var i :| 0 <= i < |listed| && listed[i] == c;
        assert CityEntry(listed[i]).Ok?;
      }
    }
  }

  /** The section of the `i`-th heading is the first to fail, with `e`. */
  predicate SectionFails(cities: seq<CityRow>, i: int, e: Exception)
  {
    FirstFailure(Headings(cities), SectionOf(cities), i, e)
  }

  /** `Section` for the cities of one file. */
  function SectionOf(cities: seq<CityRow>): string -> Result<string, Exception>
  {
    h => Section(cities, h)
  }

  /** The municipal layout: one section per heading, in heading order. */
  function RenderMunicipalities(cities: seq<CityRow>): (r: Result<string, Exception>)
    ensures r.Err? ==> exists i :: SectionFails(cities, i, r.error)
  {
    var hs := Headings(cities);
    var r := Emit(hs, SectionOf(cities));
    assert r.Err? ==> exists i :: SectionFails(cities, i, r.error) by {
      if r.Err? {
        var i :| FirstFailure(hs, SectionOf(cities), i, r.error);
        assert SectionFails(cities, i, r.error);
      }
    }
    r
  }

  /** A city is printed under some heading exactly when its state is
      already upper-case and its URL is not blank, and then under its own
      state: a city whose state is written in lower case never appears. */
  lemma ListedIff(cities: seq<CityRow>, c: CityRow)
    requires c in cities
    ensures (exists h :: h in Headings(cities) && c in Listed(cities, h)) <==>
      (Upper(c.uf) == c.uf && Strip(c.url) != "")
    ensures Upper(c.uf) == c.uf && Strip(c.url) != "" ==> c.uf in Headings(cities) && c in Listed(cities, c.uf)
  {
    var i :| 0 <= i < |cities| && cities[i] == c;
    assert SomeUf(cities, Upper(c.uf));
    forall h | h in Headings(cities) && c in Listed(cities, h)
      ensures Upper(c.uf) == c.uf && Strip(c.url) != ""
    {
      var k :| 0 <= k < |cities| && Upper(cities[k].uf) == h;
      UpperIdempotent(cities[k].uf);
    }
    if Upper(c.uf) == c.uf && Strip(c.url) != "" {
      assert c.uf in Headings(cities) && c in Listed(cities, c.uf);
    }
  }

  /** The municipal layout fails exactly when a printed city has an
      unknown portal type; a city that is not printed cannot make it
      fail. */
  lemma RenderMunicipalitiesFails(cities: seq<CityRow>)
    ensures RenderMunicipalities(cities).Ok? <==>
      forall c :: c in cities && Upper(c.uf) == c.uf && Strip(c.url) != "" ==> PortalName(c.tipo).Ok?
  {
    if RenderMunicipalities(cities).Ok? {
      forall c | c in cities && Upper(c.uf) == c.uf && Strip(c.url) != ""
        ensures PortalName(c.tipo).Ok?
      {
        PrintedCityRenders(cities, c);
      }
    } else {
      var i :| SectionFails(cities, i, RenderMunicipalities(cities).error);
      var h := Headings(cities)[i];
      var c :| c in Listed(cities, h) && PortalName(c.tipo).Err?;
      ListedIff(cities, c);
    }
  }

  /** A printed city's entry renders in a layout that renders. */
  lemma PrintedCityRenders(cities: seq<CityRow>, c: CityRow)
    requires RenderMunicipalities(cities).Ok?
    requires c in cities && Upper(c.uf) == c.uf && Strip(c.url) != ""
    ensures PortalName(c.tipo).Ok?
  {
    ListedIff(cities, c);
    var hs := Headings(cities);
    var k :| 0 <= k < |hs| && hs[k] == c.uf;
    assert Section(cities, hs[k]).Ok?;
  }

  // ---------------------------------------------------------------------
  // The whole script

  /** What the script prints: the layout `args` selects, followed by the
      newline of `print`. Both layouts read the same file, here already
      read as state rows and as city rows. */
  function Export(args: Args, states: seq<StateRow>, cities: seq<CityRow>): (r: Result<string, Exception>)
    ensures r.Ok? ==> EndsWith(r.value, "\n")
    ensures !args.estaduais && !args.municipais ==> r == Ok("\n")
  {
    var output := if args.estaduais then RenderStates(states)
      else if args.municipais then RenderMunicipalities(cities)
      else Ok("");
    match output
    case Err(e) => Err(e)
    case Ok(text) =>
      assert (text + "\n")[|text + "\n"| - 1..] == "\n";
      Ok(text + "\n")
  }

  /** `-e` prints the state layout and anything else the municipal one;
      `-m` changes nothing. */
  lemma ModeSelection(e: bool, m: bool, states: seq<StateRow>, cities: seq<CityRow>)
    ensures Export(ParseArgs(e, m), states, cities) ==
      Then(if e then RenderStates(states) else RenderMunicipalities(cities), Ok("\n"))
  {
  }
}
