/** The clean-up of municipality website links harvested from DBPedia
    (tools/harvest/dbpedia/step_02_dbpedia_website_links.py): the name
    clean-up `remove_parenthesis`, the removal filters and rewrites of
    `clean_dbpedia_links`, and the merge of `store_dbpedia_links`. */
module DbpediaLinks {
  import opened Wrappers
  import opened Text
  import opened Values
  import opened Seqs

  /** Neither an opening parenthesis nor a comma. */
  predicate NameChar(c: char)
  {
    c != '(' && c != ','
  }

  /** What `re.match(r'[^(,]+', text)` consumes: the longest prefix free of
      `(` and `,` (empty when there is no match). */
  function NameHead(text: string): (h: string)
    ensures |h| <= |text| && h == text[..|h|]
    ensures forall i :: 0 <= i < |h| ==> NameChar(h[i])
    ensures |h| < |text| ==> !NameChar(text[|h|])
  {
    if |text| == 0 || !NameChar(text[0]) then ""
    else [text[0]] + NameHead(text[1..])
  }

  /** `remove_parenthesis`: the empty string stays empty; a text that begins
      with `(` or `,` has no match and is only stripped; any other text is cut
      before its first `(` or `,` and stripped. */
  function RemoveParenthesis(text: string): (r: string)
    ensures text == "" ==> r == ""
    ensures text != "" && !NameChar(text[0]) ==> r == Strip(text)
    ensures text != "" && NameChar(text[0]) ==> r == Strip(NameHead(text)) && |NameHead(text)| > 0
  {
    if text == "" then text
    else
      var h := NameHead(text);
      if h == "" then Strip(text) else Strip(h)
  }

  /** The result keeps no `(` or `,` unless the text began with one. */
  lemma RemoveParenthesisCutsAll(text: string)
    requires text == "" || NameChar(text[0])
    ensures forall i :: 0 <= i < |RemoveParenthesis(text)| ==> NameChar(RemoveParenthesis(text)[i])
  {
    if text != "" {
      var h := NameHead(text);
      StripSubset(h);
      forall i | 0 <= i < |Strip(h)|
        ensures NameChar(Strip(h)[i])
      {
        assert Strip(h)[i] in Strip(h);
      }
    }
  }

  /** Applying `remove_parenthesis` twice is applying it once. */
  lemma {:induction false} RemoveParenthesisIdempotent(text: string)
    ensures RemoveParenthesis(RemoveParenthesis(text)) == RemoveParenthesis(text)
  {
    var r := RemoveParenthesis(text);
    if text != "" {
      if NameChar(text[0]) {
        RemoveParenthesisCutsAll(text);
        var h := NameHead(text);
        StripIdempotent(h);
        if r != "" {
          assert NameHead(r) == r by {
            NameHeadWhole(r);
          }
        }
      } else {
        StripIdempotent(text);
        StripShape(text);
        assert r != "" && r[0] == text[0] by {
          assert !IsSpace(text[0]);
          assert TrimStart(text) == text;
        }
      }
    }
  }

  /** A text free of `(` and `,` is its own head. */
  lemma {:induction false} NameHeadWhole(s: string)
    requires forall i :: 0 <= i < |s| ==> NameChar(s[i])
    ensures NameHead(s) == s
  {
    if |s| > 0 {
      NameHeadWhole(s[1..]);
    }
  }

  // ---------------------------------------------------------------------
  // Removal filters

  /** `\.(?:pdf|png|jpg|gif|bmp)$`: a link to a file. */
  predicate FileLink(s: string)
  {
    || EndsWithDollar(s, ".pdf") || EndsWithDollar(s, ".png") || EndsWithDollar(s, ".jpg")
    || EndsWithDollar(s, ".gif") || EndsWithDollar(s, ".bmp")
  }

  /** The generic hosts whose links are removed: IBGE, Blogspot, Facebook,
      Yahoo, Google, the Wikimedia projects and DBPedia itself. (The
      optional `\/?` after each name never changes whether there is a
      match.) */
  predicate GenericHost(s: string)
  {
    || Contains(s, "ibge.gov.br")
    || Contains(s, "blogspot.com")
    || Contains(s, "facebook.com")
    || Contains(s, "yahoo.com")
    || Contains(s, "googleusercontent.com") || Contains(s, "google.com.br")
    || Contains(s, "wikimedia.org") || Contains(s, "wikipedia.org") || Contains(s, "wikisource.org")
    || Contains(s, "dbpedia.org")
  }

  /** `//www\.\w{2}\.gov\.br\/?$` matches starting at index `i`. */
  predicate StateSiteAt(s: string, i: int)
  {
    && OccursAt(s, "//www.", i)
    && i + 15 <= |s|
    && IsWordChar(s[i + 6]) && IsWordChar(s[i + 7])
    && OccursAt(s, ".gov.br", i + 8)
    && (DollarAt(s, i + 15) || (OccursAt(s, "/", i + 15) && DollarAt(s, i + 16)))
  }

  /** A generic link to a state government website. */
  predicate StateSite(s: string)
  {
    exists i | 0 <= i <= |s| :: StateSiteAt(s, i)
  }

  /** A link one of the nine removal filters drops. */
  predicate Unwanted(s: string)
  {
    FileLink(s) || GenericHost(s) || StateSite(s)
  }

  /** A cell the removal filters drop: `str.contains(..., na=False)` is false
      for a missing or non-string link, so those are kept. */
  predicate UnwantedCell(link: Val)
  {
    link.Str? && Unwanted(link.s)
  }

  // ---------------------------------------------------------------------
  // Rewrites

  /** `google\.com(?:\.br)?/url`: a Google redirect that has to be unwrapped. */
  predicate Tracker(s: string)
  {
    Contains(s, "google.com/url") || Contains(s, "google.com.br/url")
  }

  /** The unwrap of a Google redirect. Parsing the query string is outside the
      model: `unwrap` returns the first `url` parameter, or `None` when there
      is none, which makes the lookup `['url']` raise `KeyError`. */
  function UnwrapTracker(unwrap: string -> Option<string>, s: string): (r: Result<string, Exception>)
    ensures r.Err? <==> Tracker(s) && unwrap(s).None?
    ensures r.Err? ==> r.error == KeyError("url")
    ensures r.Ok? && Tracker(s) ==> Some(r.value) == unwrap(s)
    ensures !Tracker(s) ==> r == Ok(s)
  {
    if !Tracker(s) then Ok(s)
    else match unwrap(s)
      case Some(u) => Ok(u)
      case None => Err(KeyError("url"))
  }

  /** `^[^\s]+\s`: the link starts with a non-space character and contains
      whitespace. */
  predicate TrailingJunk(s: string)
  {
    |s| > 0 && !IsSpace(s[0]) && exists i | 0 < i < |s| :: IsSpace(s[i])
  }

  /** The longest prefix of `s` without whitespace. */
  function FirstWord(s: string): (w: string)
    ensures |w| <= |s| && w == s[..|w|]
    ensures forall i :: 0 <= i < |w| ==> !IsSpace(w[i])
    ensures |w| < |s| ==> IsSpace(s[|w|])
  {
    if |s| == 0 || IsSpace(s[0]) then "" else [s[0]] + FirstWord(s[1..])
  }

  /** `thing.split()[0]` on a link with trailing junk: its first word. */
  function CutAtSpace(s: string): (r: string)
    ensures TrailingJunk(s) ==> 0 < |r| < |s| && r == s[..|r|] && IsSpace(s[|r|])
    ensures TrailingJunk(s) ==> forall i :: 0 <= i < |r| ==> !IsSpace(r[i])
    ensures !TrailingJunk(s) ==> r == s
  {
    if TrailingJunk(s) then FirstWord(s) else s
  }

  /** `^\(.+\)$`: an opening parenthesis, at least one character other than a
      newline, a closing parenthesis, then the end or a final newline. */
  predicate Parenthesized(s: string)
  {
    && |s| >= 3 && s[0] == '('
    && ((s[|s| - 1] == ')' && forall i :: 1 <= i < |s| - 1 ==> s[i] != '\n')
        || (|s| >= 4 && s[|s| - 2] == ')' && s[|s| - 1] == '\n'
            && forall i :: 1 <= i < |s| - 2 ==> s[i] != '\n'))
  }

  /** `thing[1:-1]` on a parenthesized link: the first and the last character
      go. */
  function StripParens(s: string): (r: string)
    ensures Parenthesized(s) && s[|s| - 1] == ')' ==> s == "(" + r + ")" && |r| > 0
    ensures Parenthesized(s) && s[|s| - 1] == '\n' ==> s == "(" + r + "\n" && EndsWith(r, ")")
    ensures !Parenthesized(s) ==> r == s
  {
    if Parenthesized(s) then s[1..|s| - 1] else s
  }

  /** `\w+(?:\.\w+)+`: at least two runs of word characters joined by single
      dots. */
  predicate DottedWords(a: string)
  {
    && |a| >= 3
    && IsWordChar(a[0]) && IsWordChar(a[|a| - 1])
    && (forall i :: 0 <= i < |a| ==> IsWordChar(a[i]) || a[i] == '.')
    && (forall i :: 0 <= i < |a| - 1 && a[i] == '.' ==> a[i + 1] != '.')
    && (exists i :: 0 <= i < |a| && a[i] == '.')
  }

  /** `\.` + `tld` + `[\w/]*` covers `t` from index `i` to its end. */
  predicate SuffixAt(t: string, i: int, tld: string)
  {
    && 0 <= i && OccursAt(t, "." + tld, i)
    && forall j :: i + 1 + |tld| <= j < |t| ==> IsWordChar(t[j]) || t[j] == '/'
  }

  /** `t` is entirely `\w+(?:\.\w+)+\.(?:br|com|net)[\w/]*`, the dotted part
      ending at index `i`. */
  predicate SchemelessAt(t: string, i: int)
  {
    && 0 <= i <= |t|
    && DottedWords(t[..i])
    && (SuffixAt(t, i, "br") || SuffixAt(t, i, "com") || SuffixAt(t, i, "net"))
  }

  /** `^\w+(?:\.\w+)+\.(?:br|com|net)[\w/]*$`, searched: the whole link, or
      the link without a final newline, has that shape. */
  predicate Schemeless(s: string)
  {
    || SchemelessWhole(s)
    || (|s| > 0 && s[|s| - 1] == '\n' && SchemelessWhole(s[..|s| - 1]))
  }

  /** `t` is entirely `\w+(?:\.\w+)+\.(?:br|com|net)[\w/]*`. */
  predicate SchemelessWhole(t: string)
  {
    exists i | 0 <= i <= |t| :: SchemelessAt(t, i)
  }

  /** A scheme-less link is made into an `http://` one. */
  function AddScheme(s: string): (r: string)
    ensures Schemeless(s) ==> r == "http://" + s
    ensures !Schemeless(s) ==> r == s
  {
    if Schemeless(s) then "http://" + s else s
  }

  /** A scheme-less link holds only word characters, dots and slashes (and
      perhaps a final newline). */
  lemma SchemelessAtChars(t: string, i: int)
    requires SchemelessAt(t, i)
    ensures forall j :: 0 <= j < |t| ==> IsWordChar(t[j]) || t[j] == '.' || t[j] == '/'
  {
    if SuffixAt(t, i, "br") {
      SuffixAtChars(t, i, "br");
    } else if SuffixAt(t, i, "com") {
      SuffixAtChars(t, i, "com");
    } else {
      SuffixAtChars(t, i, "net");
    }
    forall j | 0 <= j < i
      ensures IsWordChar(t[j]) || t[j] == '.'
    {
      assert t[j] == t[..i][j];
    }
  }

  /** The suffix of a scheme-less link holds only word characters, dots and
      slashes. */
  lemma SuffixAtChars(t: string, i: int, tld: string)
    requires tld == "br" || tld == "com" || tld == "net"
    requires SuffixAt(t, i, tld)
    ensures forall j :: i <= j < |t| ==> IsWordChar(t[j]) || t[j] == '.' || t[j] == '/'
  {
    assert forall k :: 0 <= k < |tld| ==> 'a' <= tld[k] <= 'z';
    forall j | i <= j < |t|
      ensures IsWordChar(t[j]) || t[j] == '.' || t[j] == '/'
    {
      if j < i + 1 + |tld| {
        assert t[j] == t[i..i + 1 + |tld|][j - i] == ("." + tld)[j - i];
        if j > i {
          assert t[j] == tld[j - i - 1];
        }
      }
    }
  }

  /** A link with a colon or a hyphen is never taken for a scheme-less one;
      in particular a link that already has a scheme is left alone. */
  lemma SchemelessExcludesColonAndHyphen(s: string)
    requires Schemeless(s)
    ensures ':' !in s && '-' !in s
  {
    if SchemelessWhole(s) {
      var i :| 0 <= i <= |s| && SchemelessAt(s, i);
      SchemelessAtChars(s, i);
    } else {
      var t := s[..|s| - 1];
      var i :| 0 <= i <= |t| && SchemelessAt(t, i);
      SchemelessAtChars(t, i);
      forall j | 0 <= j < |s|
        ensures s[j] != ':' && s[j] != '-'
      {
        if j < |s| - 1 {
          assert s[j] == t[j];
        }
      }
    }
  }

  /** `a.b.com` is scheme-less and becomes `http://a.b.com`. */
  lemma SchemelessExample()
    ensures AddScheme("a.b.com") == "http://a.b.com"
  {
    var t := "a.b.com";
    assert t[..3] == "a.b";
    assert DottedWords(t[..3]) by {
      assert "a.b"[1] == '.';
    }
    assert OccursAt(t, ".com", 3) by {
      assert t[3..7] == ".com";
    }
    assert SchemelessAt(t, 3);
  }

  /** The three rewrites that follow the tracker unwrap, in order. */
  function Tidy(s: string): string
  {
    AddScheme(StripParens(CutAtSpace(s)))
  }

  /** The whole rewrite of one link: unwrap, cut, unparenthesize, add a
      scheme. */
  function RewriteLink(unwrap: string -> Option<string>, s: string): (r: Result<string, Exception>)
    ensures r.Err? <==> UnwrapTracker(unwrap, s).Err?
    ensures r.Ok? ==> r.value == Tidy(UnwrapTracker(unwrap, s).value)
  {
    match UnwrapTracker(unwrap, s)
    case Ok(u) => Ok(Tidy(u))
    case Err(e) => Err(e)
  }

  /** After the whitespace cut, a link that the parenthesis rewrite changes
      has no whitespace left, so the `)\n` form of the pattern is never met
      there. */
  lemma CutLinksHaveNoNewline(s: string)
    requires |s| > 0 && !IsSpace(s[0])
    ensures forall i :: 0 <= i < |CutAtSpace(s)| ==> !IsSpace(CutAtSpace(s)[i])
  {
    if !TrailingJunk(s) {
      forall i | 0 <= i < |s|
        ensures !IsSpace(s[i])
      {
        if i > 0 {
          assert !IsSpace(s[i]);
        }
      }
    }
  }

  // ---------------------------------------------------------------------
  // The table

  /** One row of the links table: the city's `code`, `name` and `uf`, the
      DBPedia property the link came from (`link_type`) and the `link`. */
  datatype LinkRow = LinkRow(code: Val, name: Val, uf: Val, linkType: Val, link: Val)

  /** The final renaming of `link_type` values; only whole values are
      replaced. */
  function RenameLinkType(v: Val): (r: Val)
    ensures v == Str("link_camara") ==> r == Str("camara")
    ensures v == Str("link_prefeitura") || v == Str("link_site_oficial") ==> r == Str("prefeitura")
    ensures v == Str("external_link") ==> r == Str("external")
    ensures v == Str("link_site") ==> r == Str("link")
    ensures v !in {Str("link_camara"), Str("link_prefeitura"), Str("link_site_oficial"), Str("external_link"), Str("link_site")} ==> r == v
  {
    if v == Str("link_camara") then Str("camara")
    else if v == Str("link_prefeitura") then Str("prefeitura")
    else if v == Str("external_link") then Str("external")
    else if v == Str("link_site") then Str("link")
    else if v == Str("link_site_oficial") then Str("prefeitura")
    else v
  }

  /** The link rewrites on one row; missing links are left alone. */
  function RewriteRow(unwrap: string -> Option<string>, row: LinkRow): Result<LinkRow, Exception>
  {
    if row.link.Str? then
      match RewriteLink(unwrap, row.link.s)
      case Ok(u) => Ok(row.(link := Str(u)))
      case Err(e) => Err(e)
    else Ok(row)
  }

  /** The rewrites on every row. Each rewrite runs over the whole column
      before the next, and only the first (the unwrap) can fail. */
  function RewriteRows(unwrap: string -> Option<string>, rows: seq<LinkRow>): (r: Result<seq<LinkRow>, Exception>)
    ensures r.Err? <==> exists i :: 0 <= i < |rows| && RewriteRow(unwrap, rows[i]).Err?
    ensures r.Ok? ==> |r.value| == |rows|
    ensures r.Ok? ==> forall i :: 0 <= i < |rows| ==> RewriteRow(unwrap, rows[i]) == Ok(r.value[i])
  {
    if |rows| == 0 then Ok([])
    else
      match RewriteRow(unwrap, rows[0])
      case Err(e) => Err(e)
      case Ok(head) =>
        match RewriteRows(unwrap, rows[1..])
        case Err(e) => Err(e)
        case Ok(tail) =>
          assert forall i :: 1 <= i < |rows| ==> rows[i] == rows[1..][i - 1];
          Ok([head] + tail)
  }

  /** A row that survives the removal filters. */
  predicate Wanted(row: LinkRow)
  {
    !UnwantedCell(row.link)
  }

  /** A row whose link is not missing. */
  predicate HasLink(row: LinkRow)
  {
    row.link.Str?
  }

  /** A row that survives the removal filters and has a link. */
  predicate Kept(row: LinkRow)
  {
    Wanted(row) && HasLink(row)
  }

  /** The link types renamed on every row. */
  function RenameAll(rows: seq<LinkRow>): (r: seq<LinkRow>)
    ensures |r| == |rows|
    ensures forall i :: 0 <= i < |rows| ==> r[i] == rows[i].(linkType := RenameLinkType(rows[i].linkType))
  {
    seq(|rows|, i requires 0 <= i < |rows| => rows[i].(linkType := RenameLinkType(rows[i].linkType)))
  }

  /** What becomes of a kept row whose rewrite succeeded. */
  function Finish(unwrap: string -> Option<string>, row: LinkRow): LinkRow
    requires RewriteRow(unwrap, row).Ok?
  {
    var w := RewriteRow(unwrap, row).value;
    w.(linkType := RenameLinkType(w.linkType))
  }

  /** `clean_dbpedia_links`: remove unwanted links, rewrite the others, drop
      missing links and duplicate rows, rename the link types. It fails when
      a kept Google redirect has no `url` parameter. Every output row is a
      finished kept row and every kept row is finished into the output. The
      filters look only at the links as harvested: a rewritten link is not
      filtered again. */
  function CleanDbpediaLinks(unwrap: string -> Option<string>, rows: seq<LinkRow>): (r: Result<seq<LinkRow>, Exception>)
    ensures r.Err? <==> exists i :: 0 <= i < |rows| && !UnwantedCell(rows[i].link) && RewriteRow(unwrap, rows[i]).Err?
    ensures r.Err? ==> r.error == KeyError("url")
    ensures r.Ok? ==> forall x :: x in r.value ==>
      x.link.Str? && exists i :: 0 <= i < |rows| && Kept(rows[i]) && RewriteRow(unwrap, rows[i]).Ok? && x == Finish(unwrap, rows[i])
    ensures r.Ok? ==> forall i :: 0 <= i < |rows| && Kept(rows[i]) ==>
      RewriteRow(unwrap, rows[i]).Ok? && Finish(unwrap, rows[i]) in r.value
  {
    var filtered := Filter(rows, Wanted);
    match RewriteRows(unwrap, filtered)
    case Err(e) =>
      FilteredFailure(unwrap, rows, filtered);
      Err(e)
    case Ok(rewritten) =>
      var present := Filter(rewritten, HasLink);
      var unique := KeepFirst(present, Self);
      var out := RenameAll(unique);
      CleanedRowsFromKept(unwrap, rows, filtered, rewritten, present, unique, out);
      KeptRowsCleaned(unwrap, rows, filtered, rewritten, present, unique, out);
      WantedRowsRewrite(unwrap, rows, filtered, rewritten);
      Ok(out)
  }

  /** The error of the rewrite comes from a row the filters kept. */
  lemma FilteredFailure(unwrap: string -> Option<string>, rows: seq<LinkRow>, filtered: seq<LinkRow>)
    requires filtered == Filter(rows, Wanted)
    requires RewriteRows(unwrap, filtered).Err?
    ensures exists i :: 0 <= i < |rows| && !UnwantedCell(rows[i].link) && RewriteRow(unwrap, rows[i]).Err?
    ensures RewriteRows(unwrap, filtered).error == KeyError("url")
  {
    var k :| 0 <= k < |filtered| && RewriteRow(unwrap, filtered[k]).Err?;
    assert filtered[k] in filtered;
    var i :| 0 <= i < |rows| && rows[i] == filtered[k];
    RewriteRowsError(unwrap, filtered);
  }

  /** The only error a rewrite raises is the `KeyError` of the unwrap. */
  lemma {:induction false} RewriteRowsError(unwrap: string -> Option<string>, rows: seq<LinkRow>)
    requires RewriteRows(unwrap, rows).Err?
    ensures RewriteRows(unwrap, rows).error == KeyError("url")
  {
    if RewriteRow(unwrap, rows[0]).Ok? {
      RewriteRowsError(unwrap, rows[1..]);
    }
  }

  /** Every row of the cleaned table is a kept row, finished. */
  lemma CleanedRowsFromKept(unwrap: string -> Option<string>, rows: seq<LinkRow>, filtered: seq<LinkRow>,
                    rewritten: seq<LinkRow>, present: seq<LinkRow>, unique: seq<LinkRow>, out: seq<LinkRow>)
    requires filtered == Filter(rows, Wanted)
    requires RewriteRows(unwrap, filtered) == Ok(rewritten)
    requires present == Filter(rewritten, HasLink)
    requires unique == KeepFirst(present, Self)
    requires out == RenameAll(unique)
    ensures forall x :: x in out ==>
      x.link.Str? && exists i :: 0 <= i < |rows| && Kept(rows[i]) && RewriteRow(unwrap, rows[i]).Ok? && x == Finish(unwrap, rows[i])
  {
    forall x | x in out
      ensures x.link.Str? && exists i :: 0 <= i < |rows| && Kept(rows[i]) && RewriteRow(unwrap, rows[i]).Ok? && x == Finish(unwrap, rows[i])
    {
      var a :| 0 <= a < |out| && out[a] == x;
      var i := OutRowFromKept(unwrap, rows, filtered, rewritten, present, unique[a]);
      assert x == Finish(unwrap, rows[i]);
    }
  }

  /** Every kept row, finished, is in the cleaned table. */
  lemma KeptRowsCleaned(unwrap: string -> Option<string>, rows: seq<LinkRow>, filtered: seq<LinkRow>,
                    rewritten: seq<LinkRow>, present: seq<LinkRow>, unique: seq<LinkRow>, out: seq<LinkRow>)
    requires filtered == Filter(rows, Wanted)
    requires RewriteRows(unwrap, filtered) == Ok(rewritten)
    requires present == Filter(rewritten, HasLink)
    requires unique == KeepFirst(present, Self)
    requires out == RenameAll(unique)
    ensures forall i :: 0 <= i < |rows| && Kept(rows[i]) ==>
      RewriteRow(unwrap, rows[i]).Ok? && Finish(unwrap, rows[i]) in out
  {
    forall i | 0 <= i < |rows| && Kept(rows[i])
      ensures RewriteRow(unwrap, rows[i]).Ok? && Finish(unwrap, rows[i]) in out
    {
      KeptRowCleaned(unwrap, rows, filtered, rewritten, present, unique, out, i);
    }
  }

  /** One kept row, finished, is in the cleaned table. */
  lemma KeptRowCleaned(unwrap: string -> Option<string>, rows: seq<LinkRow>, filtered: seq<LinkRow>,
                       rewritten: seq<LinkRow>, present: seq<LinkRow>, unique: seq<LinkRow>, out: seq<LinkRow>, i: int)
    requires filtered == Filter(rows, Wanted)
    requires RewriteRows(unwrap, filtered) == Ok(rewritten)
    requires present == Filter(rewritten, HasLink)
    requires unique == KeepFirst(present, Self)
    requires out == RenameAll(unique)
    requires 0 <= i < |rows| && Kept(rows[i])
    ensures RewriteRow(unwrap, rows[i]).Ok? && Finish(unwrap, rows[i]) in out
  {
    var u := KeptRowRewritten(unwrap, rows, filtered, rewritten, i);
    assert HasLink(u);
    assert u in present;
    var a := KeptInUnique(present, u);
    assert out[a] == Finish(unwrap, rows[i]);
  }

  /** Every row the filters keep is rewritten without error. */
  lemma WantedRowsRewrite(unwrap: string -> Option<string>, rows: seq<LinkRow>, filtered: seq<LinkRow>, rewritten: seq<LinkRow>)
    requires filtered == Filter(rows, Wanted)
    requires RewriteRows(unwrap, filtered) == Ok(rewritten)
    ensures forall i :: 0 <= i < |rows| && !UnwantedCell(rows[i].link) ==> RewriteRow(unwrap, rows[i]).Ok?
  {
    forall i | 0 <= i < |rows| && !UnwantedCell(rows[i].link)
      ensures RewriteRow(unwrap, rows[i]).Ok?
    {
      var _ := KeptRowRewritten(unwrap, rows, filtered, rewritten, i);
    }
  }

  /** Whole-row deduplication keeps one copy of every row. */
  lemma KeptInUnique<T>(s: seq<T>, x: T) returns (a: int)
    requires x in s
    ensures 0 <= a < |KeepFirst(s, Self)| && KeepFirst(s, Self)[a] == x
  {
    var u := KeepFirst(s, Self);
    assert Self(x) in Keys(s, Self);
    assert Self(x) in Keys(u, Self);
    var y :| y in u && Self(y) == Self(x);
    a :| 0 <= a < |u| && u[a] == y;
  }

  /** A row the filters keep is rewritten without error. */
  lemma KeptRowRewritten(unwrap: string -> Option<string>, rows: seq<LinkRow>, filtered: seq<LinkRow>,
                         rewritten: seq<LinkRow>, i: int) returns (u: LinkRow)
    requires filtered == Filter(rows, Wanted)
    requires RewriteRows(unwrap, filtered) == Ok(rewritten)
    requires 0 <= i < |rows| && !UnwantedCell(rows[i].link)
    ensures u in rewritten && RewriteRow(unwrap, rows[i]) == Ok(u)
  {
    assert rows[i] in filtered;
    var k :| 0 <= k < |filtered| && filtered[k] == rows[i];
    u := rewritten[k];
  }

  /** A row that survives to the deduplicated table is a kept row
      rewritten. */
  lemma OutRowFromKept(unwrap: string -> Option<string>, rows: seq<LinkRow>, filtered: seq<LinkRow>,
                       rewritten: seq<LinkRow>, present: seq<LinkRow>, u: LinkRow) returns (i: int)
    requires filtered == Filter(rows, Wanted)
    requires RewriteRows(unwrap, filtered) == Ok(rewritten)
    requires present == Filter(rewritten, HasLink)
    requires u in KeepFirst(present, Self)
    ensures u.link.Str?
    ensures 0 <= i < |rows| && Kept(rows[i]) && RewriteRow(unwrap, rows[i]) == Ok(u)
  {
    assert Self(u) in Keys(KeepFirst(present, Self), Self);
    assert u in present;
    var k :| 0 <= k < |rewritten| && rewritten[k] == u;
    var f := filtered[k];
    assert f in filtered;
    i :| 0 <= i < |rows| && rows[i] == f;
    assert RewriteRow(unwrap, f) == Ok(u);
    assert f.link.Str? || f == u;
  }

  /** `store_dbpedia_links`: the rows already recorded (if the output file
      exists) followed by the new ones, with exact duplicate rows removed.
      Nothing recorded is lost and nothing is stored twice. */
  function StoreDbpediaLinks(recorded: Option<seq<LinkRow>>, generated: seq<LinkRow>): (r: seq<LinkRow>)
    ensures forall x :: x in r <==> (recorded.Some? && x in recorded.value) || x in generated
    ensures NoDup(r)
    ensures IsSubseq(r, (if recorded.Some? then recorded.value else []) + generated)
    ensures r == FirstsOf((if recorded.Some? then recorded.value else []) + generated, Self)
  {
    var all := (if recorded.Some? then recorded.value else []) + generated;
    var r := KeepFirst(all, Self);
    KeepFirstIsFirstsOf(all, Self);
    forall x | x in all
      ensures x in r
    {
      assert Self(x) in Keys(r, Self);
    }
    r
  }

  /** Storing the same links twice changes nothing the second time. */
  lemma StoreTwiceIsStoreOnce(recorded: Option<seq<LinkRow>>, generated: seq<LinkRow>)
    ensures StoreDbpediaLinks(Some(StoreDbpediaLinks(recorded, generated)), generated)
      == StoreDbpediaLinks(recorded, generated)
  {
    var once := StoreDbpediaLinks(recorded, generated);
    KeepFirstNoDupPrefix(once, generated);
  }

  /** Removing duplicates from a duplicate-free sequence followed by some of
      its own elements gives back the sequence. */
  lemma KeepFirstNoDupPrefix<T>(a: seq<T>, b: seq<T>)
    requires NoDup(a)
    requires forall x :: x in b ==> x in a
    ensures KeepFirst(a + b, Self) == a
  {
    KeepFirstFromNoDup(a, b, {});
  }

  /** The step behind `KeepFirstNoDupPrefix`, with the keys already seen. */
  lemma {:induction false} KeepFirstFromNoDup<T>(a: seq<T>, b: seq<T>, seen: set<T>)
    requires NoDup(a)
    requires forall x :: x in a ==> x !in seen
    requires forall x :: x in b ==> x in a || x in seen
    ensures KeepFirstFrom(a + b, Self, seen) == a
    decreases |a| + |b|
  {
    if |a| == 0 {
      assert a + b == b;
      KeepFirstFromSeen(b, seen);
    } else {
      KeepFirstFromCons(a, b, seen);
      NoDupTail(a, b, seen);
      KeepFirstFromNoDup(a[1..], b, seen + {Self(a[0])});
      HeadTail(a);
    }
  }

  /** One step of `KeepFirstFrom` on an unseen head. */
  lemma KeepFirstFromCons<T>(a: seq<T>, b: seq<T>, seen: set<T>)
    requires |a| > 0 && a[0] !in seen
    ensures KeepFirstFrom(a + b, Self, seen) == [a[0]] + KeepFirstFrom(a[1..] + b, Self, seen + {Self(a[0])})
  {
    var ab := a + b;
    assert ab[0] == a[0] && ab[1..] == a[1..] + b;
  }

  /** The tail of a duplicate-free sequence is duplicate-free and avoids the
      head, and `b` stays covered once the head counts as seen. */
  lemma NoDupTail<T>(a: seq<T>, b: seq<T>, seen: set<T>)
    requires |a| > 0 && NoDup(a)
    requires forall x :: x in a ==> x !in seen
    requires forall x :: x in b ==> x in a || x in seen
    ensures NoDup(a[1..])
    ensures forall x :: x in a[1..] ==> x !in seen + {Self(a[0])}
    ensures forall x :: x in b ==> x in a[1..] || x in seen + {Self(a[0])}
  {
    forall i, j | 0 <= i < j < |a[1..]|
      ensures a[1..][i] != a[1..][j]
    {
      assert a[1..][i] == a[i + 1] && a[1..][j] == a[j + 1];
    }
    forall x | x in a[1..]
      ensures x !in seen + {Self(a[0])}
    {
      var j :| 0 <= j < |a[1..]| && a[1..][j] == x;
      assert x == a[j + 1];
    }
    HeadTail(a);
  }

  /** Every key already seen: nothing is kept. */
  lemma KeepFirstFromSeen<T>(b: seq<T>, seen: set<T>)
    requires forall x :: x in b ==> x in seen
    ensures KeepFirstFrom(b, Self, seen) == []
  {
    assert Keys(b, Self) <= seen;
  }
}
