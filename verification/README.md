# Brazilian transparency portals: a verified model of the data pipeline

This project is a Dafny model of the data-processing core of
*transparencia-dados-abertos-brasil*. That repository keeps a table of the
websites, transparency portals and open-data portals of Brazilian states and
municipalities, and this model covers six of its parts:

- **Link validation** (`VerifyLinks`, `AutoVerify`, `ManualVerify`, `Reconcile`):
  - the health check of a candidate link;
  - the classification of a page as city hall (`prefeitura`) or city council (`câmara`) from its title and the candidate hints;
  - the sampling of municipalities;
  - the automatic run, whose pool of processes is modelled as a sequential map over chunks of codes;
  - the interactive run, where keystrokes are an input sequence;
  - the reconciliation of the verified links with the published table: append, keep the last row per URL, sort.
- **DBPedia harvesting** (`DbpediaLinks`, `DbpediaUris`):
  - the removal filters and link rewrites of `clean_dbpedia_links`;
  - the merge with recorded links;
  - `remove_parenthesis`, the URI type of a city, the dedup steps and `update_column`.
- **IBGE municipality table** (`Ibge`): the column clean-up and the merge with the published table.
- **Klein 2017 import** (`Klein`): the state and municipal frames, their concatenation under the schema, the code lookup and the keyed merge with the published data.
- **Harvester base class** (`Scrapers`): accent removal, the initial table, `append`, and `fill_municipal_codes`.
- **Markdown export** (`Export`): the state and municipal layouts of `exporta-colaboradados.py`.

Shared modules:

- `Wrappers`: `Option`, `Result` and the Python exceptions the scripts raise.
- `Text`: `strip`, `lower`/`upper`, substring tests and the regex classes `\s` and `\w`.
- `Values`: cells that are missing, an integer or a string, and their sort order.
- `Seqs`: filter, dedup with first or last kept, a stable sort, distinct values.
- `Frames`: a small model of the pandas operations used. It covers drop, rename, select, reindex, assign, concat, inner and left merges, and keyed `update`.

Pandas cells are modelled explicitly:

- A missing cell (NaN or None) is the value `Null`.
- `==` masks never match a missing cell.
- Missing keys match each other in merges and in `drop_duplicates`.
- Missing values sort last.

Randomness, the clock, HTTP responses, HTML titles, `unidecode`, Unicode NFD and `unicodedata.combining` are parameters of the functions that use them.

## Model

| member | source | states |
|---|---|---|
| VerifyLinks.HealthyLink | tools/validation/verify_links.py:28-43 | The response is returned exactly when the GET answered with status 200. A caught request exception or another status gives `None`, and any other exception propagates. |
| VerifyLinks.ClassifyTitle | tools/validation/verify_links.py:64-88 | Gives each of the three outcomes (city hall, council, none) as an if-and-only-if over the hints, the anthem/coat-of-arms words, the city-hall words, the anchored `c.{0,3}mara` pattern and the weaker executive words. |
| VerifyLinks.GetTitleAndType | tools/validation/verify_links.py:59-89 | A page without a title tag gives `(None, None)`. Otherwise the raw title is returned, and the type is the classification of its lower-cased, transliterated text. |
| VerifyLinks.HintPrecedence | tools/validation/verify_links.py:65-68 | A `prefeitura` hint forces city hall, and failing that a `camara` hint forces council, whatever the title says. |
| VerifyLinks.CeremonialExcluded | tools/validation/verify_links.py:69-72 | Without hints, an anthem or coat-of-arms title is left unclassified, even when it names the prefeitura. |
| VerifyLinks.CityHallBeforeCamara | tools/validation/verify_links.py:73-78 | A title naming the prefeitura or município is city hall even when it also matches the câmara pattern. |
| VerifyLinks.CamaraAnchored | tools/validation/verify_links.py:77 | The câmara pattern is anchored: a matching title starts with `c` or `C`. |
| VerifyLinks.CamaraExamples | tools/validation/verify_links.py:77-78 | Misspellings such as `Cmara` and `c^amara` match the pattern, while `a camara` does not. |
| VerifyLinks.DistinctCodes | tools/validation/verify_links.py:105 | `unique()` gives codes without repetition, and exactly the codes of the file. |
| VerifyLinks.GetCandidateLinks | tools/validation/verify_links.py:103-109 | The result keeps file order and holds exactly the rows whose code is among the first `max_quantity` shuffled codes. A limit of 0 keeps every row. |
| VerifyLinks.FilterKeepsAll | tools/validation/verify_links.py:107-109 | With no limit, the `isin` filter keeps the whole file. |
| VerifyLinks.SampleSize | tools/validation/verify_links.py:105-109 | A positive limit samples exactly `min(max_quantity, M)` municipalities, where M is the number of distinct codes. |
| VerifyLinks.CandidateHints | tools/validation/auto_verify_links.py:55-58 | The intended reading of the hints passed for a link: exactly the link types of the candidate rows with that link. |
| VerifyLinks.HintsAsWrittenAreEmpty | tools/validation/verify_links.py:64-68 | As written, `'prefeitura' in link_types` tests the Series' integer index, so no hint ever fires. |
| VerifyLinks.HintIgnoredAsWritten | tools/validation/verify_links.py:64-68 | A row hinting `prefeitura` for a page titled "camara municipal": as written the title wins (council), while the hint reading gives city hall. |
| VerifyLinks.HintedRowForcesPrefeitura | tools/validation/verify_links.py:65-66 | With hints read from the values, a row of the same link hinting `prefeitura` forces city hall. |
| AutoVerify.CheckLink | tools/validation/auto_verify_links.py:53-68 | A link yields a record exactly when it is healthy and its type is inferred. The record carries the post-redirect URL, the type, and the city's first name and state. An uncaught probe exception is the result's error. |
| AutoVerify.CheckLinks | tools/validation/auto_verify_links.py:52-68 | Fails exactly when some link's check raises. Otherwise the output is exactly the records the links yield, one per yielding link, in link order. |
| AutoVerify.YieldedConcat | tools/validation/auto_verify_links.py:52-68 | The records of two runs of links in turn are the records of the first run followed by those of the second. |
| AutoVerify.VerifyCityLinks | tools/validation/auto_verify_links.py:38-69 | A code without rows gives no record. Otherwise it fails exactly when checking one of the city's distinct links raises. The records are those of the distinct links in first-occurrence order that are healthy and classified, each with the post-redirect URL, the type, the code, and the first row's name and state. |
| AutoVerify.InChunks | tools/validation/auto_verify_links.py:159-169 | The chunks concatenate back to the input. All are non-empty, all but the last have exactly `size` elements, and their number is the ceiling of length over size. |
| AutoVerify.Then | tools/validation/auto_verify_links.py:176-179 | Two steps in turn: the first error wins, otherwise the results are concatenated. |
| AutoVerify.ThenAssociative | tools/validation/auto_verify_links.py:175-179 | Sequencing steps does not depend on grouping. |
| AutoVerify.VerifyCodes | tools/validation/auto_verify_links.py:175-179 | The run fails exactly when some city's verification fails, and every record belongs to a processed code. |
| AutoVerify.VerifyCodesConcat | tools/validation/auto_verify_links.py:175-179 | Processing two lists of codes in turn is processing their concatenation. |
| AutoVerify.ChunksAreSequential | tools/validation/auto_verify_links.py:173-180 | Chunked processing with `pool.map` per chunk gives exactly the sequential result over all codes. |
| AutoVerify.BranchOf | tools/validation/auto_verify_links.py:196-197 | `prefeitura` maps to `executive` and `camara` to `legislative`, both ways. |
| AutoVerify.ToRecord | tools/validation/auto_verify_links.py:185-198 | Each verified field lands in its renamed column, with the branch mapped and the sphere `municipal`. |
| AutoVerify.AutoVerifyRun | tools/validation/auto_verify_links.py:152-221 | Succeeds exactly when the sequential verification of the sampled codes does, and is then the merge of its records into the table. The output has one row per URL and is sorted by sphere, state, municipality and branch. |
| AutoVerify.NewestVerifiedInOutput | tools/validation/auto_verify_links.py:215-218 | A link verified in the run, with no later verified link for the same URL, is in the output with the run's timestamp. |
| ManualVerify.Choose | tools/validation/manually_verify_links.py:95-111 | Returns the first input line whose lower case is a substring of the options, lower-cased, together with the unread lines. Running out of input is `EOFError`. |
| ManualVerify.ChooseAcceptsSubstrings | tools/validation/manually_verify_links.py:107-111 | The empty line and `CT` are accepted as choices, and a rejected line is skipped. |
| ManualVerify.ManualClassify | tools/validation/manually_verify_links.py:148-164 | City hall exactly on a hint or a city-hall word. Council exactly on a `camara` hint or the two câmara phrases, failing those. |
| ManualVerify.ManualTitleAndType | tools/validation/manually_verify_links.py:140-165 | A page without a title gets the empty title and is still classified. Otherwise the transliterated text is returned, and its lower case is classified. |
| ManualVerify.ClassifiersAgreeOnCityHall | tools/validation/manually_verify_links.py:153-156 | Both classifiers call a city-hall title city hall, except that the automatic one drops anthem and coat-of-arms pages. |
| ManualVerify.Dispatch | tools/validation/manually_verify_links.py:199-207 | `n`/`s` skip, `q` quits, `p`/`c` record executive/legislative. Any other choice reuses the branch of an earlier link of the same city, or fails when there is none. |
| ManualVerify.VisitLink | tools/validation/manually_verify_links.py:175-219 | An uncaught probe exception propagates and an unhealthy link changes nothing. Otherwise the branch stays valid, input is only consumed, and at most one record is appended, made from this link; `q` keeps the records. |
| ManualVerify.VisitLinkSkipsOrQuits | tools/validation/manually_verify_links.py:180-203 | Running out of input at the prompt raises `EOFError`. `n` and `s` pass the link over having consumed the answer, and `q` stops the city with its records so far. |
| ManualVerify.VisitLinkRecords | tools/validation/manually_verify_links.py:204-219 | `p` and `c` append a record with branch `executive` or `legislative`, the post-redirect URL and the clock's timestamp, and remember the branch. |
| ManualVerify.VisitLinkReusesBranch | tools/validation/manually_verify_links.py:199-219 | Any other accepted answer records the link under the branch of an earlier link of the city, and raises `UnboundLocalError` when there is none. |
| ManualVerify.CityLoop | tools/validation/manually_verify_links.py:175-220 | Earlier records are kept. Each new record comes from one of the city's links, and there are at most as many as links. |
| ManualVerify.UnhealthyLinksAreSilent | tools/validation/manually_verify_links.py:177-178 | A city whose links are all unhealthy consumes no input and yields no record. |
| ManualVerify.VerifyCity | tools/validation/manually_verify_links.py:167-220 | A code without rows raises `IndexError`. Every record names the city's first row. |
| ManualVerify.SessionLoop | tools/validation/manually_verify_links.py:256-263 | Every record belongs to a visited code and has sphere `municipal`. When every city ends normally, the result is their records city by city, each city reading the input the previous one left. |
| ManualVerify.SessionAfterFinished | tools/validation/manually_verify_links.py:256-263 | After any number of cities that end normally, the session is their records in front of whatever the remaining cities give. |
| ManualVerify.QuitKeepsEarlierCities | tools/validation/manually_verify_links.py:258-263 | A quit after any number of cities that ended normally keeps exactly their records and discards the quitting city's. |
| ManualVerify.FailureEndsSession | tools/validation/manually_verify_links.py:256-263 | A city that raises after any number of finished cities ends the session with its exception. |
| ManualVerify.ManualVerifyRun | tools/validation/manually_verify_links.py:222-292 | Fails exactly with the session's exception. Otherwise it is the merge of the session's records into the table, with one row per URL, sorted by state and municipality. |
| Reconcile.FirstMatch | tools/validation/auto_verify_links.py:203-208 | Finds the first row with the record's code and branch, or reports that none matches. |
| Reconcile.FreshRow | tools/validation/auto_verify_links.py:212-213 | A record appended as is matches its own code and branch. |
| Reconcile.AppendedRow | tools/validation/auto_verify_links.py:207-213 | The appended row has the record's sphere, branch, URL and timestamp. It carries the other columns of the first match, or is the fresh row when nothing matches. |
| Reconcile.ReconcileAll | tools/validation/auto_verify_links.py:201-213 | Rows are only appended. The published table is a prefix, and the row for record j is computed against the table as it stood then. |
| Reconcile.MergeVerified | tools/validation/auto_verify_links.py:201-221 | The output is a sorted permutation of the last row per URL of the reconciled table. |
| Reconcile.LastRowPerUrl | tools/validation/auto_verify_links.py:218 | Every URL of the reconciled table survives as its last row. |
| Reconcile.LastAppendedIsLast | tools/validation/auto_verify_links.py:211-218 | The row appended for the last record with a URL is the last row with that URL. |
| Reconcile.NewestRecordWins | tools/validation/auto_verify_links.py:215-218 | For the last record of a URL, the output holds exactly one row with that URL, carrying that record's timestamp. |
| Reconcile.UnclaimedUrlKept | tools/validation/auto_verify_links.py:218 | A published URL that no record claims keeps its last published row. |
| DbpediaLinks.NameHead | tools/harvest/dbpedia/step_02_dbpedia_website_links.py:28 | What `[^(,]+` consumes: the longest prefix free of `(` and `,`. |
| DbpediaLinks.RemoveParenthesis | tools/harvest/dbpedia/step_02_dbpedia_website_links.py:62-67 | Empty text stays empty. Text starting with `(` or `,` is only stripped. Other text is cut before its first `(` or `,` and stripped. |
| DbpediaLinks.RemoveParenthesisCutsAll | tools/harvest/dbpedia/step_02_dbpedia_website_links.py:64-67 | Unless the text starts with `(` or `,`, the result has no `(` or `,`. |
| DbpediaLinks.RemoveParenthesisIdempotent | tools/harvest/dbpedia/step_02_dbpedia_website_links.py:62-67 | Removing the parenthesis twice is removing it once. |
| DbpediaLinks.UnwrapTracker | tools/harvest/dbpedia/step_02_dbpedia_website_links.py:188-198 | Google redirects become their `url` parameter, and one without it raises `KeyError('url')`. Other links are untouched. |
| DbpediaLinks.CutAtSpace | tools/harvest/dbpedia/step_02_dbpedia_website_links.py:200-208 | A link with trailing junk becomes its first whitespace-free word. Other links are untouched. |
| DbpediaLinks.StripParens | tools/harvest/dbpedia/step_02_dbpedia_website_links.py:210-218 | A parenthesized link loses its first and last character, and a final newline counts as the last. Other links are untouched. |
| DbpediaLinks.AddScheme | tools/harvest/dbpedia/step_02_dbpedia_website_links.py:220-229 | Exactly the scheme-less links get `http://` in front. |
| DbpediaLinks.SchemelessExcludesColonAndHyphen | tools/harvest/dbpedia/step_02_dbpedia_website_links.py:221-225 | A link with a colon or a hyphen, so any link with a scheme, is never prefixed. |
| DbpediaLinks.SchemelessExample | tools/harvest/dbpedia/step_02_dbpedia_website_links.py:221-229 | `a.b.com` becomes `http://a.b.com`. |
| DbpediaLinks.RewriteLink | tools/harvest/dbpedia/step_02_dbpedia_website_links.py:188-229 | The rewrite fails only through the unwrap. Otherwise it is cut, unparenthesize and add-scheme applied to the unwrapped link. |
| DbpediaLinks.CutLinksHaveNoNewline | tools/harvest/dbpedia/step_02_dbpedia_website_links.py:200-218 | After the cut, a link has no whitespace left. |
| DbpediaLinks.RenameLinkType | tools/harvest/dbpedia/step_02_dbpedia_website_links.py:235-240 | The five whole values are renamed and every other value is kept. |
| DbpediaLinks.RewriteRows | tools/harvest/dbpedia/step_02_dbpedia_website_links.py:188-229 | Fails exactly when some row's rewrite fails. Otherwise each row is rewritten in place. |
| DbpediaLinks.CleanDbpediaLinks | tools/harvest/dbpedia/step_02_dbpedia_website_links.py:143-242 | Fails, with `KeyError('url')`, exactly when a row surviving the filters is a redirect without `url`. Otherwise every output row is a kept row rewritten and renamed, and every kept row appears. |
| DbpediaLinks.FilteredFailure | tools/harvest/dbpedia/step_02_dbpedia_website_links.py:143-198 | A rewrite failure comes from a row the filters kept. |
| DbpediaLinks.RewriteRowsError | tools/harvest/dbpedia/step_02_dbpedia_website_links.py:194-198 | The only error of the rewrites is the unwrap's `KeyError('url')`. |
| DbpediaLinks.StoreDbpediaLinks | tools/harvest/dbpedia/step_02_dbpedia_website_links.py:264-275 | The stored rows are exactly the recorded and the new ones, without duplicates, each at its first occurrence and in that order. |
| DbpediaLinks.StoreTwiceIsStoreOnce | tools/harvest/dbpedia/step_02_dbpedia_website_links.py:266-273 | Storing the same links again changes nothing. |
| DbpediaUris.RemoveParenthesis | tools/harvest/dbpedia/01-dbpedia-municipality-uris.py:62-66 | Non-strings pass through. A string with nothing before its first `(` or `,` raises `AttributeError`. Other strings lose everything from the first `(` or `,`. |
| DbpediaUris.RemoveParenthesisVersionsAgree | tools/harvest/dbpedia/01-dbpedia-municipality-uris.py:62-66 | Where this version succeeds it agrees with the links script's version. Where it raises, the other one only strips. |
| DbpediaUris.UriType | tools/harvest/dbpedia/01-dbpedia-municipality-uris.py:123-129 | `dbpedia` for main-DBPedia URIs, `dbpedia_pt` for Portuguese ones, missing otherwise. A missing URI raises. |
| DbpediaUris.UriPrefixesExclusive | tools/harvest/dbpedia/01-dbpedia-municipality-uris.py:123-129 | No URI has both prefixes, so the order of the tests does not matter. |
| DbpediaUris.OneUriPerType | tools/harvest/dbpedia/01-dbpedia-municipality-uris.py:136-138 | One row per city and URI type, covering every such pair: the least in (uf, name, URI) order. |
| DbpediaUris.OneRowPerCity | tools/harvest/dbpedia/01-dbpedia-municipality-uris.py:170-175 | One row per name and state, the first row of each, in input order. The size assertion fails exactly when that count differs from the municipality table's. |
| DbpediaUris.UpdateColumn | tools/harvest/dbpedia/01-dbpedia-municipality-uris.py:68-80 | Without a recorded column, the harvested one. Otherwise it covers both indexes, and a harvested value wins unless it is empty or missing. |
| DbpediaUris.UpdateKeepsValues | tools/harvest/dbpedia/01-dbpedia-municipality-uris.py:77-80 | A recorded URI is never erased. |
| DbpediaUris.UpdateColumnIdempotent | tools/harvest/dbpedia/01-dbpedia-municipality-uris.py:182-184 | Updating twice with the same harvest is updating once. |
| Ibge.RemoveAndRenameColumns | tools/harvest/ibge/ibge_municipalities.py:132-141 | Fails exactly when a table column is missing after the rename. Otherwise it gives one municipality per spreadsheet row, a permutation sorted by code. |
| Ibge.SpreadsheetColumnsSuffice | tools/harvest/ibge/ibge_municipalities.py:132-141 | A spreadsheet with the three IBGE columns is cleaned without error, and each code comes from `Código Município Completo`. |
| Ibge.MergeExisting | tools/harvest/ibge/ibge_municipalities.py:145-173 | Without a published table, the new one. Otherwise the published rows come first, followed exactly by the new rows whose code is new. It raises `ValueError` exactly when a code repeats in the new table. |
| Ibge.MergeExistingIdempotent | tools/harvest/ibge/ibge_municipalities.py:170-173 | Merging the same new table again adds nothing. |
| Klein.GetStateDataframe | tools/harvest/archive/klein_2017/klein_2017.py:51-58 | Fails exactly when `uf_nome` is missing (a `KeyError`) or the renamed columns clash. Otherwise every other column is kept under its new name, with sphere `state` and branch `executive`. |
| Klein.GetMunicipalityDataframe | tools/harvest/archive/klein_2017/klein_2017.py:73-85 | The same for the municipal file, dropping `população`, with sphere `municipal`. |
| Klein.ConcatenateSources | tools/harvest/archive/klein_2017/klein_2017.py:101-106 | The schema columns come first and every source column is included. The rows are the sources' rows in order, each cell at its offset. |
| Klein.CodeFrame | tools/harvest/archive/klein_2017/klein_2017.py:121-128 | The IBGE table under the portal table's column names. |
| Klein.SetMunicipalCodes | tools/harvest/archive/klein_2017/klein_2017.py:130-139 | Gives each error condition. Otherwise the output has the schema's columns. Every output row is a portal row with the code of a municipality it matches, or with no code. Every match, and every row matching none, gives a row. |
| Klein.SaveAndMergeExistingData | tools/harvest/archive/klein_2017/klein_2017.py:152-164 | Without published data, the table under the schema. With published data: one row per published row, keys unchanged. Matched cells are updated by non-missing new values, unmatched rows are unchanged, and the error cases are exact. |
| Klein.NewPortalsNotAdded | tools/harvest/archive/klein_2017/klein_2017.py:159-162 | A portal whose key is not published does not appear in the saved table. |
| Scrapers.RemoveAccents | tools/harvest/scrapers.py:22-26 | The result has no combining character, keeps NFD order, and keeps every non-combining character as many times as NFD has it. |
| Scrapers.RemoveAccentsKeepsPlain | tools/harvest/scrapers.py:22-26 | Text whose decomposition has no combining character is unchanged. |
| Scrapers.NormalizeIgnoresCase | tools/harvest/scrapers.py:111-116 | For Latin-1 names without `µ`, `ß` and `ÿ`, the normalized name does not depend on case. |
| Scrapers.NormalizeIgnoresAccents | tools/harvest/scrapers.py:111-116 | `São` and `SAO` normalize alike. |
| Scrapers.InitialTableAsWritten | tools/harvest/scrapers.py:49-63 | The initial table as written: a schema preset on the class, with none passed, raises `AttributeError`. |
| Scrapers.InitialTable | tools/harvest/scrapers.py:49-63 | The intended initial table: an empty frame with the effective schema's fields, empty for a falsy schema, `AttributeError` when none is set. |
| Scrapers.PresetSchemaCounterexample | tools/harvest/scrapers.py:51-53 | A class schema with field `url` and no argument: as written `AttributeError`, intended an empty table with column `url`. |
| Scrapers.InitialTableRefines | tools/harvest/scrapers.py:49-63 | The intended table agrees wherever the written one succeeds, and exists whenever a schema is set. |
| Scrapers.NewHarvester | tools/harvest/scrapers.py:38-64 | Truthy arguments override the class title and description. An argument schema fixes the columns, and the table starts empty. It fails exactly when no schema is set, neither as argument nor on the class. |
| Scrapers.Append | tools/harvest/scrapers.py:76-78 | A frame without columns raises `ValueError`. Otherwise earlier rows are unchanged, and the new last row holds the keyword values, missing where not given. |
| Scrapers.AppendToFresh | tools/harvest/scrapers.py:76-78 | Appending to a fresh harvester's table gives one row. |
| Scrapers.FillMunicipalCodes | tools/harvest/scrapers.py:111-127 | Fails exactly on each listed error, with the first one's exception. Otherwise the output has the schema's columns. Every output row is a portal row plus a municipality of its state with the same normalized name, and every such pair gives a row. |
| Scrapers.MergeSucceeds | tools/harvest/scrapers.py:124 | The merge fails only for want of `state_code`. |
| Scrapers.KeyIsNameMatch | tools/harvest/scrapers.py:111-124 | The merge keys match exactly when the state agrees and the normalized names agree. |
| Export.ParseArgs | exporta-colaboradados.py:10-24 | `-e` selects the state layout and switches the municipal one off. `-m` has no effect. |
| Export.PortalName | exporta-colaboradados.py:26-30 | The three stripped codes give their link text, and any other code raises `KeyError`. |
| Export.Emit | exporta-colaboradados.py:38-53 | Succeeds exactly when every entry renders, and otherwise fails with the first failing entry's error. |
| Export.EmitConcat | exporta-colaboradados.py:38-53 | Rendering a concatenation renders the parts in order. |
| Export.LinkLine | exporta-colaboradados.py:40-41 | The bold Markdown link with the given name and URL, followed by the URL and a blank line. |
| Export.StateEntry | exporta-colaboradados.py:39-41 | Fails exactly for an unknown portal type. Otherwise it is the state heading followed by the link line named `<portal> do Estado de <state>`. |
| Export.RenderStates | exporta-colaboradados.py:36-41 | Fails exactly when some row has an unknown type, with the first such row's error. |
| Export.RenderStatesConcat | exporta-colaboradados.py:38-41 | Rows are rendered in file order, independently of each other. |
| Export.CityEntry | exporta-colaboradados.py:48-52 | Fails exactly for an unknown type. Otherwise it is the city heading, the link line named `<portal> do Município de <city>`, and the note line exactly when the stripped note is not blank. |
| Export.Headings | exporta-colaboradados.py:44-45 | The headings are distinct, sorted, and exactly the upper-cased states. |
| Export.Listed | exporta-colaboradados.py:47 | Under a heading, exactly the cities whose state equals it and whose URL is not blank, in file order and with their multiplicity. |
| Export.Section | exporta-colaboradados.py:46-53 | Fails exactly when a listed city has an unknown type. Otherwise it is the heading, the entries of the listed cities in file order, and the extra newline. |
| Export.ListedIff | exporta-colaboradados.py:44-47 | A city is printed exactly when its state is already upper-case and its URL is not blank, and then under its own state. A lower-case state never prints. |
| Export.RenderMunicipalitiesFails | exporta-colaboradados.py:42-53 | The municipal layout fails exactly when a printed city has an unknown type. Unprinted cities cannot make it fail. |
| Export.Export | exporta-colaboradados.py:36-55 | The printed text ends with `print`'s newline. |
| Frames.Drop | tools/harvest/scrapers.py:114 | `drop(columns)`: `KeyError` for a missing column. Otherwise the other columns keep their order and cells. |
| Frames.Rename | tools/harvest/archive/klein_2017/klein_2017.py:54 | `rename`: every cell moves to its renamed column, and clashing names are refused. |
| Frames.Select | tools/harvest/archive/klein_2017/klein_2017.py:139 | `table[columns]`: a missing column is a `KeyError`. Otherwise exactly those columns, with their cells. |
| Frames.Reindex | tools/harvest/scrapers.py:125-127 | `reindex(columns=...)`: exactly those columns, missing where the frame lacks them. |
| Frames.Concat | tools/harvest/ibge/ibge_municipalities.py:173 | `concat`: the first frame's columns, then the new ones. The rows of both in order, missing where a frame lacks a column. |
| Frames.Merge | tools/harvest/archive/klein_2017/klein_2017.py:130-136 | `merge(on=...)`: fails on a missing key or an overlapping non-key column. Every output row joins a matching pair, and every matching pair is in the output. A left merge keeps unmatched rows with missing right columns. |
| Frames.UpdateByKey | tools/harvest/archive/klein_2017/klein_2017.py:159-162 | Keyed `update`: keys and row count are unchanged. A matched cell takes the other frame's non-missing value, and duplicate keys in the other frame raise `ValueError`. |
| Seqs.KeepFirst | tools/harvest/dbpedia/01-dbpedia-municipality-uris.py:138 | `drop_duplicates(keep='first')`: one element per key, the first, in order. |
| Seqs.KeepLast | tools/validation/auto_verify_links.py:218 | `drop_duplicates(keep='last')`: one element per key, the last, in order. |
| Seqs.FilterMultiplicity | tools/validation/verify_links.py:107-109 | A boolean mask keeps each kept value exactly as often as the input has it, and drops the others. |
| Seqs.KeepFirstIsFirstsOf | tools/harvest/dbpedia/01-dbpedia-municipality-uris.py:138 | Keeping the first element per key, front to back, equals appending each element whose key is new, back to front. |
| Seqs.SortBy | tools/validation/auto_verify_links.py:219-221 | `sort_values`: a permutation in non-decreasing key order. |
| Text.StripIdempotent | exporta-colaboradados.py:47 | Stripping twice is stripping once. |

## Left out

- HTTP, FTP, SPARQL downloads and CSV/YAML file I/O are outside the model. Each fetch is a function parameter, such as the probe result of a link or the page's title tag. File existence is an `Option`.
- BeautifulSoup, `unidecode`, Unicode NFD and `unicodedata.combining` are uninterpreted function parameters. `str.lower`/`str.upper` are exact for U+0000..U+00FF except `ß` (U+00DF), which Python upper-cases to `SS` and the model leaves unchanged. `\w` is exact only up to U+00FF.
- `multiprocessing.Pool` and `tqdm` are modelled as a sequential, order-preserving map per chunk. `random.shuffle` is a permutation parameter, `datetime.utcnow` a clock parameter, and `webbrowser.open` and `input()` an input sequence.
- AutoVerify.InChunks: requires `size > 0`. `multiprocessing.Pool` raises for fewer than one process before any chunk is formed, and `parse_cli` replaces 0 with the default.
- The Google tracker unwrap parses a query string with `urllib`. The parse is a parameter that returns the first `url` value or none.
- The pivot and the three merges of `update_from_dbpedia` (tools/harvest/dbpedia/01-dbpedia-municipality-uris.py:141-165) are not modelled. The steps before and after them are.
- Frames.Merge: duplicate column labels, the `_x`/`_y` suffixes of merges with overlapping columns, and the row order of an inner merge are not modelled. The model refuses the first two as `Unsupported`, and claims only membership for merged rows.
- Frames.UpdateByKey: the pandas version is not pinned. Recent versions skip the duplicate check when both indexes are identical, and the model always raises `ValueError` for duplicate keys in the other frame.
- Missing key cells match each other in merges and updates, as in pandas for object columns.
- Scrapers.FillMunicipalCodes: the source also writes the `normalized_name` column into the caller's frame. That in-place mutation is not modelled.
- Scrapers.StrError: an all-missing `municipality` column of type object gives `TypeError` in pandas. The model gives `AttributeError`, as for a column without strings.
- `get_schema`, the `astype('Int64')` cast and `to_csv` are not modelled. The schema is a parameter, and integers are unbounded.
- The truthiness of a frictionless `Schema` object is a three-valued attribute: unset, falsy, or its field names.
- Export: the CSV reader `rows` is assumed to give every field as a string. Numeric type detection and a missing column, which raise `AttributeError` on first use, are not modelled. State and city rows are two readings of the same input file.
- AutoVerify.CheckLink: classifies with the intended hints, the link types of the rows with the link (`VerifyLinks.CandidateHints`). As written the hints never fire (`VerifyLinks.HintsAsWrittenAreEmpty`, see Findings), so for a row hinting `prefeitura` whose page is titled "Câmara Municipal" the program records `legislative` and the model `executive`. `CheckLinks`, `VerifyCityLinks`, `VerifyCodes` and `AutoVerifyRun` inherit this.
- Scrapers.NewHarvester: builds the table with the intended `InitialTable`. As written, a class-level schema with no `schema` argument raises `AttributeError` (`Scrapers.InitialTableAsWritten`, see Findings), where the model succeeds.
- Export.RenderMunicipalities: its own contract gives only the first-failure error. The exact failure condition is stated by `Export.RenderMunicipalitiesFails`.

## Findings

| source | as written | input that shows it | evidently intended | confidence | as-written member | corrected member |
|---|---|---|---|---|---|---|
| tools/validation/verify_links.py:64-68 | `'prefeitura' in link_types` tests the Series' index labels, which are integers, so hints never fire | a candidate row for the link with `link_type == 'prefeitura'` and a page titled "Câmara Municipal": the result is `camara` | the candidates' link types decide first | not executed | VerifyLinks.HintIgnoredAsWritten | VerifyLinks.HintedRowForcesPrefeitura |
| tools/harvest/scrapers.py:51-53 | the initial frame reads `schema.fields` from the argument even when the schema came from the class attribute | a subclass with a class-level schema with field `url`, constructed without a `schema` argument: `AttributeError` on `None.fields` | the frame takes its columns from `self.schema` | not executed | Scrapers.PresetSchemaCounterexample | Scrapers.InitialTable |
