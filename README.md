# DelhiMetroRouteBot: station and route core

The bot answers "how do I get from A to B on the Delhi Metro" by scraping the
fare form of delhimetrorail.com. This project models its core, in Dafny:

- `StationScraper` (scraper.py) reads the station catalog from the form's
  `<select>` element, keyed two ways: name -> Station and value -> name.
  It also reads the hidden ASP.NET form fields.
  It builds the POST body for a pair of stations.
  It extracts a `Route` from the result page: the two fares, the station
  list with an INTERCHANGE marker after each change point, and the time,
  station count and interchange count.
  Each route is cached per origin station, as `frm.routes[to.name]`.
  Warm-up loops fetch every missing ordered pair.
- `DelhiMetroWrapper` (wrapper.py) lists the station names, looks routes up
  by station name and renders a route as the chat message text.

Modules:

- `Wrappers` (wrappers.dfy): Option, Result with the `:-` operator, and
  Outcome. The Python exception kinds the core can raise are error values:
  KeyError, IndexError, ValueError, and a missing HTML element.
- `PyStr` (pystr.dfy): the pieces of Python's str the core relies on:
  strip/rstrip, upper, `in`/find, split, join, `str(int)` and `int(str)`.
  Each comes with lemmas saying what it computes.
- `Scraper` (scraper.dfy): `Station`, `Route` and `StationScraper` are
  classes, because the source updates their fields in place. Every loop of
  the source is a method with a `for` loop. Each method is proved against a
  pure specification function: ParseOptions/NameIndex/ValueIndex,
  ReadFormVars, PostData, Fares, Resolve, ApplyExtra, ExtractRoute,
  MissingRow/MissingPairs.
  The network is a parameter: `server` maps a POST body to the parsed
  result page. A ghost `fetchLog` records the (from, to) names of every POST.
  BeautifulSoup is replaced by its parsed result:
  - a `LandingPage` holds the option list and the input tags;
  - a `Page` holds the fare div texts, the station-list tree and the
    extra-data item texts;
  - the station-list tree is `Li(text, hasBold) | Ul(items) | Other`.
- `ScraperLemmas` (scraper_lemmas.dfy): the properties of those
  specification functions, covering:
  - catalog maps;
  - form-field reading;
  - flattening of the station list, its counts and its ordering;
  - `split(' - ')` field extraction;
  - which pairs the warm-up fetches.
- `MetroWrapper` (wrapper.dfy): the wrapper class and the renderer. The
  rendered text is read back line by line in the RenderLines lemma.

Python dicts iterate in insertion order. The catalog therefore keeps that
order in a field `names`, which the warm-up loops and `get_all_stations`
follow. `asyncio.gather` starts its coroutines in list order. The catalog
and form-field extractors await nothing that suspends, so each runs to its
end before the next starts. The model runs them one after the other, and the
first exception ends the operation. A route fetch is different:
`_extract_route_info` awaits a nested `gather` (scraper.py:208-210), and the
fetch suspends there, right after its POST. So in the warm-up loops every
fetch sends its POST before any route is extracted or stored. The model
fetches, extracts and stores one pair at a time (see "Left out").

Where the code and its description differ, the model follows the code:

- A station-list item whose name is not in the catalog raises KeyError. It is
  not skipped (scraper.py:166, 169).
- A fare that `int()` rejects raises ValueError. It does not become zero
  (scraper.py:155-156).
- An extractor takes `text.split(' - ')[1]`. That is the text between the
  first and the second separator, not all the text after the first
  (scraper.py:184-190).
- An item marked only by "Change Here", without a `<b>` element, fails,
  because `item.b.decompose()` runs unconditionally (scraper.py:164-165).
- A failed `get_route` can still change the cache. When `frm` is not the
  catalog's station of that name, the scraped route is stored in the
  catalog's station, replacing any route it held to `to`. Then
  `frm.routes[to.name]` raises KeyError (scraper.py:235, 239). A failure
  leaves `frm`'s own routes unchanged, and a catalog `frm` only gains routes.
- `route.time`, `route.stations` and `route.interchange` hold the extracted
  strings. Until an extractor runs they hold the integer 0, which renders as
  "0"; the model starts them at the string "0".

## Model

| member | source | states |
|---|---|---|
| `Scraper.Station.constructor` | scraper.py:31-36 | a new station has the given name and value and no cached routes |
| `Scraper.Route.constructor` | scraper.py:40-48 | a new route joins the two stations; fares are 0, time, station and interchange counts "0", no stations |
| `Scraper.StationScraper.constructor` | scraper.py:91-101 | a fresh scraper has an empty catalog, no form vars and has fetched nothing; the INTERCHANGE sentinel (value -1) is outside the catalog |
| `Scraper.StationScraper.NewStations` | scraper.py:130-131 | one fresh Station per option, named by its stripped text and valued by `int()` of its value, in option order; or the error of the first option that fails: KeyError("value") when it has no value attribute, ValueError when int() rejects its value |
| `Scraper.StationScraper.ExtractStations` | scraper.py:126-135 | fails exactly when some option has no value attribute or a value that is not an integer, with the first such option's error; otherwise the catalog has one key per option name, the value of the last option with that name, and value->name is the last name written per value |
| `Scraper.StationScraper.Insert` | scraper.py:133-135 | the insertion loop leaves name->Station, value->name and the key order as inserting the stations one by one defines them |
| `Scraper.StationScraper.CatalogOfStations` | scraper.py:133-135 | the catalog that loop builds keeps the scraper's invariant: every station is stored under its own name, the key order lists each key once |
| `Scraper.FirstOrderKeys` | scraper.py:133-134 | the insertion order lists each catalog key exactly once |
| `Scraper.StationIndexMatches` | scraper.py:133-134 | the stored stations have the same keys as the name->value map, each under its own name with that value |
| `ScraperLemmas.CollectOk` | scraper.py:131 | a list comprehension whose expression may raise succeeds exactly when it succeeds on every element |
| `ScraperLemmas.CollectFails` | scraper.py:131 | when it fails, the error is that of the first failing element |
| `ScraperLemmas.CollectEntries` | scraper.py:131 | when it succeeds, it yields one result per element, in order |
| `ScraperLemmas.ParseOptionsAll` | scraper.py:131 | the options parse exactly when every option has a value attribute and it is an integer; entry i is option i's stripped text and int value |
| `ScraperLemmas.NameIndexKeys` | scraper.py:134 | the name map's keys are exactly the option names |
| `ScraperLemmas.NameIndexLastWins` | scraper.py:134 | a name maps to the value of its last option |
| `ScraperLemmas.NameIndexEntry` | scraper.py:134 | every stored name/value pair is one of the options |
| `ScraperLemmas.ValueIndexKeys` | scraper.py:135 | the value map's keys are exactly the option values |
| `ScraperLemmas.ValueIndexLastWins` | scraper.py:135 | a value maps to the name of its last option |
| `ScraperLemmas.ValueIndexEntry` | scraper.py:135 | every stored value/name pair is one of the options |
| `ScraperLemmas.CatalogInverse` | scraper.py:133-135 | with unique names and values, name->value and value->name are mutually inverse |
| `Scraper.FindInput` | scraper.py:142 | `soup.find('input', {'name': n})` finds an input with that name, and finds none only when no input has it |
| `ScraperLemmas.FindInputFirst` | scraper.py:142 | it finds the first input with that name |
| `Scraper.StationScraper.ExtractFormVars` | scraper.py:137-143 | reads every field of FORM_VARS_EXTRACT in order into the form vars, or fails with the first missing input or value attribute |
| `ScraperLemmas.ReadFormVarsAll` | scraper.py:137-143 | reading succeeds exactly when every listed field can be read; each field then maps to its input's value |
| `Scraper.StationScraper.ScrapeInit` | scraper.py:108-124 | the catalog, then the form vars, from the landing page; success exactly when the select element exists, every option has an integer value attribute and every form field can be read |
| `Scraper.RouteVars` | scraper.py:145-149 | exactly two keys: the from field holds frm.value, the to field holds to.value |
| `Scraper.PostData` | scraper.py:213-216 | the POST body has the form vars' keys plus the two station fields; the station fields win over same-named form vars, every other form var passes through unchanged |
| `Scraper.Fares` | scraper.py:151-159 | succeeds exactly when both fare divs exist and `int()` accepts both texts, and then yields those two integers; otherwise the missing-div or ValueError failure of the normal fare, else of the concessional fare |
| `Scraper.StationScraper.ExtractRouteFare` | scraper.py:151-159 | sets both fares from the page, or fails with the first missing div or non-integer text and leaves them unchanged |
| `Scraper.StationScraper.AppendItem` | scraper.py:163-169 | one list item appends its catalog station (looked up by upper-cased, right-stripped text), plus INTERCHANGE when bold; KeyError for an unknown name; fails on "Change Here" without `<b>` |
| `Scraper.StationScraper.ResolveStationList` | scraper.py:161-171 | only appends: the old station list stays a prefix and the stations of the items follow, nested lists spliced in place, other nodes contributing nothing; or the first failure |
| `Scraper.StationScraper.ExtractRouteList` | scraper.py:173-177 | the station list of the page appended to the route, or the first failure |
| `Scraper.StationScraper.ExtractRouteExtra` | scraper.py:179-199 | item i of the extra-data list sets field i (time, station count, interchange count); fields without an item keep their value |
| `Scraper.StationScraper.ExtractRouteInfo` | scraper.py:201-210 | fare, station list and extra data are applied to the route in that order; the first failure stops it |
| `Scraper.StationScraper.ScrapeRoute` | scraper.py:212-226 | one POST for (frm, to); a fresh Route between the two stations holding what the page yields |
| `Scraper.StationScraper.StoreRoute` | scraper.py:235 | stores the route under `to.name` in the catalog station named frm.name, changing no other key; KeyError when there is none |
| `Scraper.StationScraper.FetchRoute` | scraper.py:228-235 | no POST when frm already holds a route to `to`; otherwise exactly one POST and the new route, between frm and `to` and holding what the page yields, stored under `to.name`; on failure no routes change, frm's included; for catalog stations every key added is the route scraped for its pair, and the held routes are kept |
| `Scraper.StationScraper.FetchMissing` | scraper.py:232-235 | the miss path: one POST; success exactly when the scrape succeeds and frm.name is in the catalog; the stored route is the one scraped for (frm, to); a failure changes no routes, frm's included |
| `Scraper.StationScraper.StoreScraped` | scraper.py:235 | storing a just-scraped route changes only key `to.name`, KeyError when frm.name is not in the catalog, and keeps every added key the route scraped for its pair |
| `Scraper.StationScraper.GetRoute` | scraper.py:237-241 | returns the held `frm.routes[to.name]` without fetching when present; otherwise fetches once, stores and returns the new route; afterwards frm holds the returned route under `to.name`; a failure leaves frm's routes as they were, and a catalog frm only gains routes |
| `Scraper.StationScraper.WarmRoute` | scraper.py:247-250 | the loop step: skips the self-pair, otherwise fetches only a pair not yet held; held routes are kept, and every route added since a baseline is the route scraped for its pair |
| `Scraper.StationScraper.WarmNext` | scraper.py:262-265 | one pass of the inner loop extends the fetch log and the held keys by the next catalog station, keeping every added route the one scraped for its pair |
| `Scraper.StationScraper.BuildStationRouteCache` | scraper.py:259-269 | fetches, in catalog order, exactly the other stations the origin does not hold yet; afterwards it holds a route to every other station, each new entry being the route scraped for origin -> that catalog station; held routes and other stations unchanged |
| `Scraper.StationScraper.WarmOrigin` | scraper.py:246-250 | one origin of the outer loop extends the fetch log by that origin's missing row; every route it adds is the one scraped for its pair |
| `Scraper.StationScraper.VisitOrigin` | scraper.py:246-250 | the same step, keeping for every station that each route added since the warm-up began is the one scraped for its pair |
| `Scraper.StationScraper.BuildRouteCache` | scraper.py:243-254 | fetches exactly the missing ordered pairs, origin by origin in catalog order; afterwards every station holds routes to all other stations and adds no self-route, with the routes it held before unchanged and each new entry the route scraped for that station -> the catalog station of its key |
| `Scraper.StationScraper.WarmedStep` | scraper.py:246-250 | one origin step preserves the warm-up invariant and adds that origin to the warmed ones |
| `Scraper.StationScraper.CollectFirstError` | scraper.py:131 | the comprehension fails with the first failing element's error |
| `Scraper.StationScraper.ReadFormVarsFirstError` | scraper.py:141-143 | reading the form vars fails with the first field that cannot be read |
| `Scraper.StationScraper.ResolvePrefixError` | scraper.py:162-171 | a failure on an item stops the walk with that failure |
| `Scraper.StationScraper.ApplyExtraPrefixError` | scraper.py:198-199 | a failing extractor stops the extra-data loop with its failure |
| `ScraperLemmas.ResolveFlatten` | scraper.py:161-171 | resolving a nested list is resolving its leaf items in document order |
| `ScraperLemmas.ResolveLeavesAppend` | scraper.py:162-171 | resolving two runs of items is resolving the first, then the second |
| `ScraperLemmas.ItemResolves` | scraper.py:164-169 | an item resolves exactly when its name is in the catalog and it is not a "Change Here" item without `<b>`; it yields its station, then INTERCHANGE when bold |
| `ScraperLemmas.ResolveLeavesOk` | scraper.py:161-171 | the station list resolves exactly when every item does |
| `ScraperLemmas.ResolveLeavesError` | scraper.py:161-171 | otherwise the failure is the first failing item's |
| `ScraperLemmas.ResolveParts` | scraper.py:164-169 | the resolved list is item by item the item's station, followed by INTERCHANGE for a bold item |
| `ScraperLemmas.ResolveLeavesShape` | scraper.py:164-169 | the resolved length is the items plus the bold items, and every INTERCHANGE directly follows a catalog station |
| `ScraperLemmas.ResolveLeavesStops` | scraper.py:164-169 | the number of INTERCHANGE entries equals the number of bold items, and with them removed, entry k is item k's catalog station |
| `ScraperLemmas.FieldValueSpec` | scraper.py:187 | `text.split(' - ')[1]` exists exactly when the text contains ' - ', and is the text after the first separator up to the next one or the end |
| `ScraperLemmas.TimeValueSpec` | scraper.py:184 | the time is that field up to its first space |
| `ScraperLemmas.ApplyExtraAll` | scraper.py:183-199 | the extra data applies exactly when there are at most three items, each with a ' - ' field; items set time, station count and interchange count in that order; every failure is IndexError |
| `ScraperLemmas.MissingRowMembers` | scraper.py:262-265 | an origin's row fetches exactly the other stations it does not hold |
| `ScraperLemmas.MissingRowDistinct` | scraper.py:262-265 | with distinct names, a row fetches each destination once |
| `ScraperLemmas.MissingPairsMembers` | scraper.py:246-250 | the warm-up fetches exactly the uncached ordered pairs of distinct stations; (A, B) and (B, A) separately, never a self-pair |
| `ScraperLemmas.MissingPairsDistinct` | scraper.py:246-250 | with distinct names, every pair is fetched at most once |
| `PyStr.RStrip` | scraper.py:166 | `rstrip()` returns a prefix that does not end in whitespace |
| `PyStr.RStripRemovesSpace` | scraper.py:166 | `rstrip()` removes only whitespace |
| `PyStr.LStripRemovesSpace` | scraper.py:131 | `strip()` removes only leading and trailing whitespace |
| `PyStr.Strip` | scraper.py:131 | the stripped name neither starts nor ends with whitespace |
| `PyStr.StripUnchanged` | scraper.py:131 | stripping a string without outer whitespace leaves it unchanged |
| `PyStr.UpperPointwise` | scraper.py:166 | `upper()` maps each character on its own |
| `PyStr.FindFromFirst` | scraper.py:164 | the search finds the first occurrence at or after an index, and no occurrence means none exists |
| `PyStr.FindFirst` | scraper.py:164 | `find()` returns the first occurrence |
| `PyStr.ContainsOccurs` | scraper.py:164 | `'Change Here' in text` holds whenever it occurs at some index |
| `PyStr.Split` | scraper.py:184 | `split()` returns at least one piece |
| `PyStr.SplitJoin` | scraper.py:184-190 | joining the pieces with the separator gives the text back |
| `PyStr.SplitPiecesFree` | scraper.py:184-190 | no piece contains the separator |
| `PyStr.SplitHead` | scraper.py:184-190 | the first piece is the text before the first separator; the rest are the pieces after it |
| `PyStr.IntToString` | wrapper.py:29-30 | `str(n)` is non-empty, has no outer whitespace, and starts with '-' exactly for negative n |
| `PyStr.ParseIntOfIntToString` | scraper.py:155-156 | `int(str(n)) == n` |
| `PyStr.ContainsChar` | wrapper.py:37-43 | a one-character string occurs in s exactly when s has that character |
| `PyStr.SplitCons` | wrapper.py:37-43 | splitting "x\nrest" with x newline-free gives x, then the lines of rest |
| `PyStr.TerminatedAppend` | wrapper.py:37-43 | writing two runs of newline-ended lines writes all of them in order |
| `PyStr.SplitTerminated` | wrapper.py:37-43 | newline-free lines, each ended by a newline, split back into those lines |
| `MetroWrapper.DelhiMetroWrapper.constructor` | wrapper.py:9-10 | the wrapper holds the scraper it is given |
| `MetroWrapper.DelhiMetroWrapper.GetAllStations` | wrapper.py:12-14 | the catalog's names, each once, in insertion order |
| `MetroWrapper.DelhiMetroWrapper.GetRouteObject` | wrapper.py:23-25 | KeyError for an unknown `frm`, then for an unknown `to`, before any fetch; otherwise get_route on the two catalog stations, a failure leaving the origin's routes as they were |
| `MetroWrapper.DelhiMetroWrapper.RenderRoute` | wrapper.py:27-45 | the text is the header followed by the text of each station in order; with no stations it is exactly the header |
| `MetroWrapper.DelhiMetroWrapper.AppendStations` | wrapper.py:37-43 | the loop appends the text of each station in list order |
| `MetroWrapper.DelhiMetroWrapper.AppendStation` | wrapper.py:38-43 | an INTERCHANGE entry appends "\nINTERCHANGE\n\n", any other station its name and "\n" |
| `MetroWrapper.DelhiMetroWrapper.GetRoute` | wrapper.py:47-50 | unknown names fail with KeyError and fetch nothing; a held route is rendered without a fetch; otherwise exactly one POST, success exactly when the scrape succeeds, and the text renders the scraped route between the two names; a failure leaves the origin's routes as they were |
| `MetroWrapper.BodyAppend` | wrapper.py:37-43 | rendering two runs of stations renders each run in turn |
| `MetroWrapper.EntryTerminated` | wrapper.py:38-43 | a station's text is its lines each ended by a newline: its name, or INTERCHANGE between empty lines |
| `MetroWrapper.BodyTerminated` | wrapper.py:37-43 | the station part is the lines of all stations, each ended by a newline |
| `MetroWrapper.RenderLines` | wrapper.py:27-45 | read back line by line, a rendered route gives the header lines (endpoints, fares, time, station count, interchange count, empty line), then one line per station with INTERCHANGE alone between empty lines at each change point |
| `MetroWrapper.IntToStringChars` | wrapper.py:29-30 | a rendered fare holds no newline |

## Left out

- HTTP: the session, the GET of the landing page and the POST of the form
  (scraper.py:102-106, 114, 218-221). The server is the `server` parameter,
  a function from POST body to result page. Logging is not modelled.
- BeautifulSoup: parsing, `find`, and `decompose` (scraper.py:115, 130, 142,
  152-153, 174-175, 180-181). The model takes the parsed elements as input.
  - Option children that are the string '\n' are assumed already dropped.
  - A list item's text arrives with its `<b>` element already removed; an
    item with several `<b>` elements is not modelled.
- asyncio: `run` and `gather` run the coroutines one after the other. With
  `gather`, a failing coroutine does not cancel the others; the model stops
  at the first failure instead.
- Scraper.StationScraper.BuildRouteCache: does not model the order of the
  warm-up's effects. In `_async_build_route_cache` and
  `_async_build_station_route_cache` (scraper.py:243-254, 259-269) each fetch
  suspends at the nested `gather` right after its POST (scraper.py:218), so
  every POST is sent, in list order, before any route is extracted or stored
  (scraper.py:235). The model fetches, extracts and stores one pair at a
  time. The POSTs and their order agree, because the pairs are distinct and
  no store changes another pair's hit check. On a failure, which other
  routes the source has stored depends on the event loop's scheduling; the
  model has stored the routes of the pairs before the failing one.
- Scraper.StationScraper.BuildStationRouteCache: the same reordering, for one
  origin.
- `build_station_route_cache` (scraper.py:271-272) calls
  `_async_build_station_route_cache()` without the station, so it always
  raises TypeError. Only the coroutine itself is modelled.
- `get_station_by_key` (wrapper.py:16-21) reads a `route` attribute that
  Station does not have, so it always raises AttributeError. It is not
  modelled.
- The wrapper's constructor builds its own scraper over the network; here
  it is given an initialised one.
- The Telegram front end, the chat database, message texts and fuzzy
  station-name matching are outside the core.
- PyStr.UpperChar: upper-cases ASCII letters only, not the rest of Unicode.
- PyStr.ParseInt: accepts ASCII digits only. It rejects the underscores and
  non-ASCII digits that Python's `int()` accepts.
- PyStr.IsSpace: the characters Python's `str.isspace()` accepts, as a fixed list.
- Scraper.StationScraper.ExtractStations: requires an empty catalog, because
  it is only ever called once, from the constructor.
- MetroWrapper.DelhiMetroWrapper.GetAllStations: returns the names as a
  sequence, not as a live view of the dict's keys.
