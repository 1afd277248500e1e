/** The station and route logic of StationScraper: the station catalog read
    from the fare form's select element, the hidden form fields replayed on
    every POST, the extraction of a Route from the page the server returns,
    and the per-station route cache with its warm-up loops.

    HTTP and HTML parsing are abstracted: the landing page arrives already
    parsed (a LandingPage), and the server is a function from the POST body
    to the parsed result page (a Page). */
module Scraper {
  import opened Wrappers
  import opened PyStr

  /** The hidden ASP.NET form fields read from the landing page. */
  const FormVarsExtract: seq<string> := [
    "__VIEWSTATE",
    "__VIEWSTATEGENERATOR",
    "__VIEWSTATEENCRYPTED",
    "__EVENTVALIDATION",
    "ctl00$headerMenu$rptProUpdate$ctl00$hdnID",
    "ctl00$headerMenu$rptProUpdate$ctl01$hdnID",
    "ctl00$headerMenu$rptProUpdate$ctl02$hdnID",
    "ctl00$headerMenu$rptProUpdate$ctl03$hdnID",
    "ctl00$headerMenu$rptProUpdate$ctl04$hdnID",
    "ctl00$headerMenu$rptProUpdate$ctl05$hdnID",
    "ctl00$MainContent$btnShowFare"
  ]

  /** The form fields that select the two stations of a route. */
  const FromField := "ctl00$MainContent$ddlFrom"
  const ToField := "ctl00$MainContent$ddlTo"

  const NormalFareDivClass := "fare_new_nor_right"
  const ConcessionalFareDivClass := "fare_new_right_right"

  const InterchangeName := "INTERCHANGE"
  const ChangeHere := "Change Here"
  /** Separates a label from its value in the route's extra data ("Timing - 53 Min"). */
  const FieldSep := " - "

  /** A metro station. `routes` caches the routes scraped from it, by destination name. */
  class Station {
    const name: string
    const value: int
    var routes: map<string, Route>

    constructor (name: string, value: int)
      ensures this.name == name && this.value == value && routes == map[]
    {
      this.name := name;
      this.value := value;
      routes := map[];
    }
  }

  /** The data of a route as the extractors leave it. Time, station count and
      interchange count are the texts cut out of the page ("0" until set). */
  datatype RouteView = RouteView(
    normalFare: int,
    concessionalFare: int,
    time: string,
    stations: string,
    interchange: string,
    legs: seq<Station>)

  /** A route as constructed, before any extractor runs. */
  const Unscraped: RouteView := RouteView(0, 0, "0", "0", "0", [])

  /** The three values of the extra-data list. */
  datatype Extra = Extra(time: string, stations: string, interchange: string)

  /** A route between two stations; the extractors fill in its fields. */
  class Route {
    const frm: Station
    const to: Station
    var normalFare: int
    var concessionalFare: int
    var time: string
    var stations: string
    var interchange: string
    /** The stations passed, in order, with the INTERCHANGE station after each change point. */
    var legs: seq<Station>

    constructor (frm: Station, to: Station)
      ensures this.frm == frm && this.to == to && View() == Unscraped
    {
      this.frm := frm;
      this.to := to;
      normalFare, concessionalFare := 0, 0;
      time, stations, interchange := "0", "0", "0";
      legs := [];
    }

    ghost function View(): RouteView
      reads this
    {
      RouteView(normalFare, concessionalFare, time, stations, interchange, legs)
    }

    ghost function ExtraView(): Extra
      reads this
    {
      Extra(time, stations, interchange)
    }
  }

  // ---------------------------------------------------------------------------
  // The parsed HTML the scraper works on

  /** An option of the station select element: its text and its value
      attribute, if it has one. */
  datatype OptionTag = OptionTag(text: string, value: Option<string>)

  /** An input element: its name and its value attribute, if it has one. */
  datatype InputTag = InputTag(name: string, value: Option<string>)

  /** The fare form as first fetched: the children of the station select
      element (None if there is no such element) and the page's inputs. */
  datatype LandingPage = LandingPage(options: Option<seq<OptionTag>>, inputs: seq<InputTag>)

  /** A child of the route's station list. For a list item, `text` is its text
      with its <b> element (present when `hasBold`) removed. */
  datatype Node = Li(text: string, hasBold: bool) | Ul(items: seq<Node>) | Other

  /** The result page of one POST: the texts of the two fare divs, the children
      of the station list, and the texts of the extra-data list's children;
      None where the element is missing. */
  datatype Page = Page(
    normalFare: Option<string>,
    concessionalFare: Option<string>,
    stationList: Option<seq<Node>>,
    extra: Option<seq<string>>)

  datatype FormValue = Text(text: string) | Number(number: int)

  /** The body of a POST to the fare form. */
  type FormData = map<string, FormValue>

  // ---------------------------------------------------------------------------
  // Station catalog

  /** The station an option describes: its stripped text and its value, the
      KeyError of option['value'] when it has no value attribute, or the
      ValueError int() raises on the value. */
  function ParseOption(option: OptionTag): Result<(string, int)> {
    match option.value
    case None => Err(KeyError("value"))
    case Some(text) =>
      match ParseInt(text)
      case None => Err(ValueError(text))
      case Some(v) => Ok((Strip(option.text), v))
  }

  /** A list comprehension whose expression may raise: the result for every
      element in order, or the first element's error. */
  function Collect<A, B>(xs: seq<A>, f: A -> Result<B>): Result<seq<B>> {
    if xs == [] then Ok([])
    else
      var init :- Collect(xs[..|xs| - 1], f);
      var last :- f(xs[|xs| - 1]);
      Ok(init + [last])
  }

  /** The (name, value) pair of every option, or the error of the first option
      that has no value attribute or whose value int() rejects. */
  function ParseOptions(options: seq<OptionTag>): Result<seq<(string, int)>> {
    Collect(options, ParseOption)
  }

  /** The name -> value map built by inserting every entry in order. */
  function NameIndex<N, V>(entries: seq<(N, V)>): map<N, V> {
    if entries == [] then map[]
    else
      var last := entries[|entries| - 1];
      NameIndex(entries[..|entries| - 1])[last.0 := last.1]
  }

  /** The value -> name map built by inserting every entry in order. */
  function ValueIndex<N, V>(entries: seq<(N, V)>): map<V, N> {
    if entries == [] then map[]
    else
      var last := entries[|entries| - 1];
      ValueIndex(entries[..|entries| - 1])[last.1 := last.0]
  }

  /** The elements of a sequence, as a set. */
  function Elems<T>(s: seq<T>): set<T> {
    set x | x in s
  }

  predicate Distinct<T(==)>(s: seq<T>) {
    forall i, j :: 0 <= i < j < |s| ==> s[i] != s[j]
  }

  /** The names in the order a dict first sees them. */
  function FirstOrder<N(==), V>(entries: seq<(N, V)>): seq<N> {
    if entries == [] then []
    else
      var init := entries[..|entries| - 1];
      var last := entries[|entries| - 1];
      if last.0 in NameIndex(init) then FirstOrder(init) else FirstOrder(init) + [last.0]
  }

  /** The insertion order lists every key of the dict once. */
  lemma {:induction false} FirstOrderKeys<N, V>(entries: seq<(N, V)>)
    ensures Distinct(FirstOrder(entries))
    ensures forall n :: n in FirstOrder(entries) <==> n in NameIndex(entries)
  {
    if entries != [] {
      FirstOrderKeys(entries[..|entries| - 1]);
    }
  }

  /** The name -> Station dict built by inserting every station in order. */
  function StationIndex(created: seq<Station>): map<string, Station> {
    if created == [] then map[]
    else
      var last := created[|created| - 1];
      StationIndex(created[..|created| - 1])[last.name := last]
  }

  /** Inserting the stations made from `entries` keys them as NameIndex does,
      and every stored station is one of them, under its own name. */
  lemma {:induction false} StationIndexMatches(created: seq<Station>, entries: seq<(string, int)>)
    requires |created| == |entries|
    requires forall k :: 0 <= k < |created| ==> (created[k].name, created[k].value) == entries[k]
    ensures StationIndex(created).Keys == NameIndex(entries).Keys
    ensures forall n :: n in StationIndex(created) ==>
      && StationIndex(created)[n].name == n
      && StationIndex(created)[n].value == NameIndex(entries)[n]
      && StationIndex(created)[n] in created
  {
    if created != [] {
      var init, last := created[..|created| - 1], created[|created| - 1];
      StationIndexMatches(init, entries[..|entries| - 1]);
      forall n | n in StationIndex(created) && n != last.name
        ensures StationIndex(created)[n] in created
      {
        assert StationIndex(created)[n] in init;
      }
    }
  }

  // ---------------------------------------------------------------------------
  // Form variables

  /** soup.find('input', {'name': name}): the first input with that name. */
  function FindInput(inputs: seq<InputTag>, name: string): (r: Option<InputTag>)
    ensures r.Some? ==> r.value in inputs && r.value.name == name
    ensures r.None? <==> forall i :: 0 <= i < |inputs| ==> inputs[i].name != name
  {
    if inputs == [] then None
    else if inputs[0].name == name then Some(inputs[0])
    else FindInput(inputs[1..], name)
  }

  /** inp_el['value'] for the input named `name`. */
  function InputValue(inputs: seq<InputTag>, name: string): Result<string> {
    match FindInput(inputs, name)
    case None => Err(MissingElement("input"))
    case Some(input) =>
      match input.value
      case None => Err(KeyError("value"))
      case Some(v) => Ok(v)
  }

  /** The form vars named in `names`, read in order, or the first failure. */
  function ReadFormVars(inputs: seq<InputTag>, names: seq<string>): Result<map<string, string>> {
    if names == [] then Ok(map[])
    else
      var last := names[|names| - 1];
      var m :- ReadFormVars(inputs, names[..|names| - 1]);
      var v :- InputValue(inputs, last);
      Ok(m[last := v])
  }

  /** generate_route_vars: the two fields that select the stations. */
  function RouteVars(frm: Station, to: Station): (r: FormData)
    ensures r.Keys == {FromField, ToField}
    ensures r[FromField] == Number(frm.value) && r[ToField] == Number(to.value)
  {
    map[FromField := Number(frm.value), ToField := Number(to.value)]
  }

  /** The POST body of _scrape_route: the hidden form vars, with the two
      station fields added over them. */
  function PostData(formVars: map<string, string>, frm: Station, to: Station): (r: FormData)
    ensures r.Keys == formVars.Keys + {FromField, ToField}
    ensures r[FromField] == Number(frm.value) && r[ToField] == Number(to.value)
    ensures forall k :: k in formVars && k != FromField && k != ToField ==> r[k] == Text(formVars[k])
  {
    (map k | k in formVars :: Text(formVars[k])) + RouteVars(frm, to)
  }

  // ---------------------------------------------------------------------------
  // Route extraction

  /** int() of a fare div's text. */
  function ParseFare(div: Option<string>, divClass: string): Result<int> {
    match div
    case None => Err(MissingElement(divClass))
    case Some(text) =>
      match ParseInt(text)
      case None => Err(ValueError(text))
      case Some(v) => Ok(v)
  }

  /** The normal and the concessional fare. */
  function Fares(page: Page): (r: Result<(int, int)>)
    ensures r.Ok? <==>
      && page.normalFare.Some? && ParseInt(page.normalFare.value).Some?
      && page.concessionalFare.Some? && ParseInt(page.concessionalFare.value).Some?
    ensures r.Ok? ==> r.value == (ParseInt(page.normalFare.value).value, ParseInt(page.concessionalFare.value).value)
    ensures page.normalFare.None? ==> r == Err(MissingElement(NormalFareDivClass))
    ensures page.normalFare.Some? && ParseInt(page.normalFare.value).None? ==> r == Err(ValueError(page.normalFare.value))
    ensures page.normalFare.Some? && ParseInt(page.normalFare.value).Some? ==>
      && (page.concessionalFare.None? ==> r == Err(MissingElement(ConcessionalFareDivClass)))
      && (page.concessionalFare.Some? && ParseInt(page.concessionalFare.value).None? ==>
            r == Err(ValueError(page.concessionalFare.value)))
  {
    var normal :- ParseFare(page.normalFare, NormalFareDivClass);
    var concessional :- ParseFare(page.concessionalFare, ConcessionalFareDivClass);
    Ok((normal, concessional))
  }

  /** The catalog key a list item's station is looked up under. */
  function LegKey(text: string): string {
    Upper(RStrip(text))
  }

  /** Whether a list item marks a change of line. */
  predicate IsMarked(text: string, hasBold: bool) {
    hasBold || Contains(text, ChangeHere)
  }

  /** What one list item appends to the route. A marked item without a <b>
      element fails, because the code removes `item.b` unconditionally. */
  function ResolveItem(text: string, hasBold: bool, catalog: map<string, Station>, interchange: Station): Result<seq<Station>> {
    var key := LegKey(text);
    if IsMarked(text, hasBold) && !hasBold then Err(MissingElement("b"))
    else if key !in catalog then Err(KeyError(key))
    else if hasBold then Ok([catalog[key], interchange])
    else Ok([catalog[key]])
  }

  /** The stations resolve_station_list_ul appends for `items`, or the first failure. */
  function Resolve(items: seq<Node>, catalog: map<string, Station>, interchange: Station): Result<seq<Station>>
    decreases items
  {
    if items == [] then Ok([])
    else
      var last := items[|items| - 1];
      var init :- Resolve(items[..|items| - 1], catalog, interchange);
      var tail :- match last
        case Li(text, hasBold) => ResolveItem(text, hasBold, catalog, interchange)
        case Ul(children) => Resolve(children, catalog, interchange)
        case Other => Ok([]);
      Ok(init + tail)
  }

  /** item.text.split(' - ')[1], or None where Python raises IndexError. */
  function FieldValue(text: string): Option<string> {
    var parts := Split(text, FieldSep);
    if |parts| >= 2 then Some(parts[1]) else None
  }

  /** The time extractor: the first space-separated word of the field value. */
  function TimeValue(text: string): Option<string> {
    match FieldValue(text)
    case None => None
    case Some(f) => Some(Split(f, " ")[0])
  }

  /** data_extractors[i](item, route) */
  function ApplyExtractor(i: nat, text: string, e: Extra): Result<Extra> {
    if i == 0 then
      match TimeValue(text)
      case None => Err(IndexError)
      case Some(t) => Ok(e.(time := t))
    else if i == 1 then
      match FieldValue(text)
      case None => Err(IndexError)
      case Some(f) => Ok(e.(stations := f))
    else if i == 2 then
      match FieldValue(text)
      case None => Err(IndexError)
      case Some(f) => Ok(e.(interchange := f))
    else Err(IndexError)
  }

  /** The extra data after the i-th extractor has been applied to item i, for every i. */
  function ApplyExtra(items: seq<string>, e: Extra): Result<Extra> {
    if items == [] then Ok(e)
    else
      var e' :- ApplyExtra(items[..|items| - 1], e);
      ApplyExtractor(|items| - 1, items[|items| - 1], e')
  }

  /** The stations listed in the route's station list, or the failure. */
  function Legs(page: Page, catalog: map<string, Station>, interchange: Station): Result<seq<Station>> {
    match page.stationList
    case None => Err(MissingElement("ul"))
    case Some(items) => Resolve(items, catalog, interchange)
  }

  /** The extra data of the route, starting from `e`, or the failure. */
  function ExtraData(page: Page, e: Extra): Result<Extra> {
    match page.extra
    case None => Err(MissingElement("ul"))
    case Some(items) => ApplyExtra(items, e)
  }

  /** What the three extractors make of route `start` on a result page, in the
      order fare, station list, extra data; or the first failure. The fares are
      overwritten, the stations appended, and the extra fields set item by item. */
  function ExtractRoute(page: Page, start: RouteView, catalog: map<string, Station>, interchange: Station): Result<RouteView> {
    var fares :- Fares(page);
    var legs :- Legs(page, catalog, interchange);
    var extra :- ExtraData(page, Extra(start.time, start.stations, start.interchange));
    Ok(RouteView(fares.0, fares.1, extra.time, extra.stations, extra.interchange, start.legs + legs))
  }

  /** The pairs _async_build_route_cache fetches for origin `f`: every other
      station of `order`, in order, that `have` does not hold yet. */
  function MissingRow(f: string, order: seq<string>, have: set<string>): seq<(string, string)> {
    if order == [] then []
    else
      var t := order[|order| - 1];
      MissingRow(f, order[..|order| - 1], have) + (if t != f && t !in have then [(f, t)] else [])
  }

  /** The destinations station f already holds routes to. */
  function Held(cached: map<string, set<string>>, f: string): set<string> {
    if f in cached then cached[f] else {}
  }

  /** The pairs fetched for the origins `frms`, one row after the other. */
  function MissingPairs(frms: seq<string>, order: seq<string>, cached: map<string, set<string>>): seq<(string, string)> {
    if frms == [] then []
    else
      var f := frms[|frms| - 1];
      MissingPairs(frms[..|frms| - 1], order, cached) + MissingRow(f, order, Held(cached, f))
  }

  // ---------------------------------------------------------------------------
  // The scraper

  class StationScraper {
    /** The fare form's server: the result page for a POST body. */
    const server: FormData -> Page
    /** The INTERCHANGE sentinel station. */
    const interchange: Station
    /** The station catalog, by name. */
    var stations: map<string, Station>
    var valueToName: map<int, string>
    /** The keys of `stations` in insertion order, the order a dict iterates in. */
    var names: seq<string>
    /** The hidden form fields replayed on every POST. */
    var formVars: map<string, string>
    /** Every POST made so far, as (from name, to name). */
    ghost var fetchLog: seq<(string, string)>

    ghost predicate Valid()
      reads this, stations.Values
    {
      && interchange.name == InterchangeName && interchange.value == -1
      && interchange !in stations.Values
      && (forall n :: n in stations ==> stations[n].name == n)
      && Distinct(names)
      && (forall n :: n in stations <==> n in names)
      && CacheKeyed()
    }

    /** Every cached route is stored under its own endpoints. */
    ghost predicate CacheKeyed()
      reads this, stations.Values
    {
      forall f, t :: f in stations && t in stations[f].routes ==>
        stations[f].routes[t].frm.name == f && stations[f].routes[t].to.name == t
    }

    /** The catalog station named `name`, as a frame. */
    function CatalogEntry(name: string): set<Station>
      reads this
    {
      if name in stations then {stations[name]} else {}
    }

    /** The destination names cached for each catalog station. */
    ghost function CachedKeys(): map<string, set<string>>
      reads this, stations.Values
    {
      map f | f in stations :: stations[f].routes.Keys
    }

    /** What scraping the route frm -> to yields, given the current form vars and catalog. */
    ghost function Scrape(frm: Station, to: Station): Result<RouteView>
      reads this`formVars, this`stations
    {
      ExtractRoute(server(PostData(formVars, frm, to)), Unscraped, stations, interchange)
    }

    /** Every route `s` holds that `before` did not hold is the route scraped
        for s -> the catalog station of that name. */
    ghost predicate Scraped(s: Station, before: map<string, Route>)
      reads this`formVars, this`stations, s, s.routes.Values
    {
      ScrapedIn(s, s.routes, before)
    }

    /** Scraped, for a given map of routes held by `s`. */
    ghost predicate ScrapedIn(s: Station, routes: map<string, Route>, before: map<string, Route>)
      reads this`formVars, this`stations, routes.Values
    {
      forall t :: t in routes && t !in before ==> ScrapedAs(s, t, routes[t])
    }

    /** Storing the route scraped for a key keeps the routes scraped. */
    lemma ScrapedPut(s: Station, routes: map<string, Route>, before: map<string, Route>, t: string, r: Route)
      requires ScrapedIn(s, routes, before) && ScrapedAs(s, t, r)
      ensures ScrapedIn(s, routes[t := r], before)
    {
    }

    /** Route r is the one scraped for s -> the catalog station named t. */
    ghost predicate ScrapedAs(s: Station, t: string, r: Route)
      reads this`formVars, this`stations, r
    {
      && t in stations
      && r.frm == s && r.to == stations[t]
      && Scrape(s, stations[t]).Ok? && r.View() == Scrape(s, stations[t]).value
    }

    constructor (server: FormData -> Page)
      ensures Valid() && this.server == server
      ensures stations == map[] && valueToName == map[] && names == [] && formVars == map[]
      ensures fetchLog == []
    {
      this.server := server;
      interchange := new Station(InterchangeName, -1);
      stations, valueToName, names, formVars := map[], map[], [], map[];
      fetchLog := [];
    }

    /** The list comprehension of _extract_stations: a new Station for every
        option, or the error of the first option ParseOption rejects. */
    static method NewStations(options: seq<OptionTag>) returns (r: Result<seq<Station>>)
      ensures r.Ok? <==> ParseOptions(options).Ok?
      ensures r.Err? ==> r.error == ParseOptions(options).error
      ensures r.Ok? ==> |r.value| == |ParseOptions(options).value|
      ensures r.Ok? ==> forall k :: 0 <= k < |r.value| ==>
        && fresh(r.value[k]) && r.value[k].routes == map[]
        && (r.value[k].name, r.value[k].value) == ParseOptions(options).value[k]
    {
      var created: seq<Station> := [];
      ghost var entries: seq<(string, int)> := [];
      for i := 0 to |options|
        invariant |created| == |entries| == i
        invariant ParseOptions(options[..i]) == Ok(entries)
        invariant forall k :: 0 <= k < i ==>
          && fresh(created[k]) && created[k].routes == map[]
          && (created[k].name, created[k].value) == entries[k]
      {
        if options[i].value.None? {
          CollectFirstError(options, ParseOption, i);
          return Err(KeyError("value"));
        }
        var value := ParseInt(options[i].value.value);
        if value.None? {
          CollectFirstError(options, ParseOption, i);
          return Err(ValueError(options[i].value.value));
        }
        CollectSnoc(options, ParseOption, i);
        var station := new Station(Strip(options[i].text), value.value);
        created := created + [station];
        entries := entries + [(station.name, station.value)];
      }
      assert options[..|options|] == options;
      r := Ok(created);
    }

    /** _extract_stations: fill the catalog from the select element's options. */
    method ExtractStations(options: seq<OptionTag>) returns (o: Outcome)
      requires Valid()
      requires stations == map[] && valueToName == map[] && names == []
      modifies this`stations, this`valueToName, this`names
      ensures Valid()
      ensures o.Pass? <==> ParseOptions(options).Ok?
      ensures o.Fail? ==> o == Fail(ParseOptions(options).error) && stations == map[] && valueToName == map[] && names == []
      ensures o.Pass? ==>
        var entries := ParseOptions(options).value;
        && names == FirstOrder(entries)
        && valueToName == ValueIndex(entries)
        && stations.Keys == NameIndex(entries).Keys
        && forall n :: n in stations ==> stations[n].value == NameIndex(entries)[n] && stations[n].routes == map[]
    {
      var created := NewStations(options);
      if created.Err? {
        return Fail(created.error);
      }
      ghost var entries := ParseOptions(options).value;
      Insert(created.value, entries);
      CatalogOfStations(created.value, entries);
      o := Pass;
    }

    /** The loop of _extract_stations: store every station under its name, and
        its name under its value; a later station replaces an earlier one. */
    method Insert(created: seq<Station>, ghost entries: seq<(string, int)>)
      requires stations == map[] && valueToName == map[] && names == []
      requires |created| == |entries|
      requires forall k :: 0 <= k < |created| ==> (created[k].name, created[k].value) == entries[k]
      modifies this`stations, this`valueToName, this`names
      ensures names == FirstOrder(entries)
      ensures valueToName == ValueIndex(entries)
      ensures stations == StationIndex(created)
    {
      for j := 0 to |created|
        invariant names == FirstOrder(entries[..j])
        invariant valueToName == ValueIndex(entries[..j])
        invariant stations == StationIndex(created[..j])
        invariant stations.Keys == NameIndex(entries[..j]).Keys
      {
        IndexSnoc(entries, j);
        StationIndexSnoc(created, j);
        var station := created[j];
        assert station.name == entries[j].0 && station.value == entries[j].1;
        assert station.name in stations <==> entries[j].0 in NameIndex(entries[..j]);
        if station.name !in stations {
          names := names + [station.name];
        }
        stations := stations[station.name := station];
        valueToName := valueToName[station.value := station.name];
      }
      assert entries[..|entries|] == entries && created[..|created|] == created;
    }

    /** The catalog Insert leaves is valid and matches the entries. */
    lemma CatalogOfStations(created: seq<Station>, entries: seq<(string, int)>)
      requires interchange.name == InterchangeName && interchange.value == -1
      requires |created| == |entries|
      requires forall k :: 0 <= k < |created| ==>
        && created[k] != interchange && created[k].routes == map[]
        && (created[k].name, created[k].value) == entries[k]
      requires names == FirstOrder(entries)
      requires stations == StationIndex(created)
      ensures Valid()
      ensures stations.Keys == NameIndex(entries).Keys
      ensures forall n :: n in stations ==> stations[n].value == NameIndex(entries)[n] && stations[n].routes == map[]
    {
      FirstOrderKeys(entries);
      StationIndexMatches(created, entries);
    }

    /** _extract_form_vars: read every hidden form field named in FormVarsExtract. */
    method ExtractFormVars(inputs: seq<InputTag>) returns (o: Outcome)
      modifies this`formVars
      ensures o.Pass? <==> ReadFormVars(inputs, FormVarsExtract).Ok?
      ensures o.Pass? ==> formVars == old(formVars) + ReadFormVars(inputs, FormVarsExtract).value
      ensures o.Fail? ==> o == Fail(ReadFormVars(inputs, FormVarsExtract).error)
    {
      for i := 0 to |FormVarsExtract|
        invariant ReadFormVars(inputs, FormVarsExtract[..i]).Ok?
        invariant formVars == old(formVars) + ReadFormVars(inputs, FormVarsExtract[..i]).value
      {
        var name := FormVarsExtract[i];
        var value := InputValue(inputs, name);
        if value.Err? {
          ReadFormVarsFirstError(inputs, FormVarsExtract, i);
          return Fail(value.error);
        }
        ReadFormVarsSnoc(inputs, FormVarsExtract, i);
        MergeUpdate(old(formVars), ReadFormVars(inputs, FormVarsExtract[..i]).value, name, value.value);
        formVars := formVars[name := value.value];
      }
      assert FormVarsExtract[..|FormVarsExtract|] == FormVarsExtract;
      o := Pass;
    }

    /** _scrape_init: the catalog, then the form vars; the first failure stops it. */
    method ScrapeInit(landing: LandingPage) returns (o: Outcome)
      requires Valid()
      requires stations == map[] && valueToName == map[] && names == []
      modifies this`stations, this`valueToName, this`names, this`formVars
      ensures Valid()
      ensures o.Pass? <==>
        && landing.options.Some?
        && ParseOptions(landing.options.value).Ok?
        && ReadFormVars(landing.inputs, FormVarsExtract).Ok?
      ensures o.Pass? ==>
        var entries := ParseOptions(landing.options.value).value;
        && names == FirstOrder(entries)
        && valueToName == ValueIndex(entries)
        && stations.Keys == NameIndex(entries).Keys
        && (forall n :: n in stations ==> stations[n].value == NameIndex(entries)[n] && stations[n].routes == map[])
        && formVars == old(formVars) + ReadFormVars(landing.inputs, FormVarsExtract).value
    {
      if landing.options.None? {
        return Fail(MissingElement("select"));
      }
      o := ExtractStations(landing.options.value);
      if o.Fail? {
        return;
      }
      o := ExtractFormVars(landing.inputs);
    }

    /** _extract_route_fare */
    method ExtractRouteFare(page: Page, route: Route) returns (o: Outcome)
      modifies route`normalFare, route`concessionalFare
      ensures o.Pass? <==> Fares(page).Ok?
      ensures o.Fail? ==> o == Fail(Fares(page).error)
      ensures o.Pass? ==> (route.normalFare, route.concessionalFare) == Fares(page).value
      ensures o.Fail? ==> route.normalFare == old(route.normalFare) && route.concessionalFare == old(route.concessionalFare)
    {
      var normal := ParseFare(page.normalFare, NormalFareDivClass);
      if normal.Err? {
        return Fail(normal.error);
      }
      var concessional := ParseFare(page.concessionalFare, ConcessionalFareDivClass);
      if concessional.Err? {
        return Fail(concessional.error);
      }
      route.normalFare := normal.value;
      route.concessionalFare := concessional.value;
      o := Pass;
    }

    /** One list item of resolve_station_list_ul: its station, and INTERCHANGE after a marked item. */
    method AppendItem(text: string, hasBold: bool, route: Route) returns (o: Outcome)
      modifies route`legs
      ensures o.Pass? <==> ResolveItem(text, hasBold, stations, interchange).Ok?
      ensures o.Pass? ==> route.legs == old(route.legs) + ResolveItem(text, hasBold, stations, interchange).value
      ensures o.Fail? ==> o == Fail(ResolveItem(text, hasBold, stations, interchange).error) && route.legs == old(route.legs)
    {
      var key := LegKey(text);
      if hasBold || Contains(text, ChangeHere) {
        if !hasBold {
          return Fail(MissingElement("b"));
        }
        if key !in stations {
          return Fail(KeyError(key));
        }
        route.legs := route.legs + [stations[key]];
        route.legs := route.legs + [interchange];
      } else {
        if key !in stations {
          return Fail(KeyError(key));
        }
        route.legs := route.legs + [stations[key]];
      }
      o := Pass;
    }

    /** resolve_station_list_ul: append the stations of `items` to the route, in
        document order, splicing nested lists in place. */
    method ResolveStationList(items: seq<Node>, route: Route) returns (o: Outcome)
      modifies route`legs
      ensures o.Pass? <==> Resolve(items, stations, interchange).Ok?
      ensures o.Pass? ==> route.legs == old(route.legs) + Resolve(items, stations, interchange).value
      ensures o.Fail? ==> o == Fail(Resolve(items, stations, interchange).error)
      decreases items
    {
      ghost var catalog, start := stations, route.legs;
      ghost var done: seq<Station> := [];
      for i := 0 to |items|
        invariant Resolve(items[..i], catalog, interchange) == Ok(done)
        invariant route.legs == start + done
      {
        ghost var tail: Result<seq<Station>>;
        match items[i] {
          case Li(text, hasBold) =>
            tail := ResolveItem(text, hasBold, catalog, interchange);
            o := AppendItem(text, hasBold, route);
          case Ul(children) =>
            tail := Resolve(children, catalog, interchange);
            o := ResolveStationList(children, route);
          case Other =>
            tail := Ok([]);
            o := Pass;
        }
        ResolveSnoc(items, i, catalog, interchange, tail);
        if o.Fail? {
          ResolvePrefixError(items, i + 1, catalog, interchange);
          return;
        }
        done := done + tail.value;
      }
      assert items[..|items|] == items;
      o := Pass;
    }

    /** _extract_route_list */
    method ExtractRouteList(page: Page, route: Route) returns (o: Outcome)
      modifies route`legs
      ensures o.Pass? <==> Legs(page, stations, interchange).Ok?
      ensures o.Pass? ==> route.legs == old(route.legs) + Legs(page, stations, interchange).value
      ensures o.Fail? ==> o == Fail(Legs(page, stations, interchange).error)
    {
      if page.stationList.None? {
        return Fail(MissingElement("ul"));
      }
      o := ResolveStationList(page.stationList.value, route);
    }

    /** _extract_route_extra: item i of the extra-data list goes to extractor i. */
    method ExtractRouteExtra(page: Page, route: Route) returns (o: Outcome)
      modifies route`time, route`stations, route`interchange
      ensures o.Pass? <==> ExtraData(page, old(route.ExtraView())).Ok?
      ensures o.Pass? ==> route.ExtraView() == ExtraData(page, old(route.ExtraView())).value
      ensures o.Fail? ==> o == Fail(ExtraData(page, old(route.ExtraView())).error)
    {
      if page.extra.None? {
        return Fail(MissingElement("ul"));
      }
      var items := page.extra.value;
      ghost var start := route.ExtraView();
      for i := 0 to |items|
        invariant ApplyExtra(items[..i], start) == Ok(route.ExtraView())
      {
        assert items[..i + 1][..i] == items[..i];
        var field: Option<string>;
        if i == 0 {
          field := TimeValue(items[i]);
        } else if i < 3 {
          field := FieldValue(items[i]);
        } else {
          field := None;
        }
        if field.None? {
          ApplyExtraPrefixError(items, i + 1, start);
          return Fail(IndexError);
        }
        if i == 0 {
          route.time := field.value;
        } else if i == 1 {
          route.stations := field.value;
        } else {
          route.interchange := field.value;
        }
      }
      assert items[..|items|] == items;
      o := Pass;
    }

    /** _extract_route_info: the fare, station-list and extra-data extractors on
        one result page, in that order; the first failure stops it. */
    method ExtractRouteInfo(page: Page, route: Route) returns (o: Outcome)
      modifies route`normalFare, route`concessionalFare, route`legs, route`time, route`stations, route`interchange
      ensures o.Pass? <==> ExtractRoute(page, old(route.View()), stations, interchange).Ok?
      ensures o.Fail? ==> o == Fail(ExtractRoute(page, old(route.View()), stations, interchange).error)
      ensures o.Pass? ==> route.View() == ExtractRoute(page, old(route.View()), stations, interchange).value
    {
      o := ExtractRouteFare(page, route);
      if o.Fail? {
        return;
      }
      o := ExtractRouteList(page, route);
      if o.Fail? {
        return;
      }
      o := ExtractRouteExtra(page, route);
    }

    /** _scrape_route: one POST with the form vars and the two station values,
        then the extractors on a new Route. */
    method ScrapeRoute(frm: Station, to: Station) returns (r: Result<Route>)
      modifies this`fetchLog
      ensures fetchLog == old(fetchLog) + [(frm.name, to.name)]
      ensures r.Ok? <==> Scrape(frm, to).Ok?
      ensures r.Err? ==> r == Err(Scrape(frm, to).error)
      ensures r.Ok? ==> fresh(r.value) && r.value.frm == frm && r.value.to == to
      ensures r.Ok? ==> r.value.View() == Scrape(frm, to).value
    {
      var page := server(PostData(formVars, frm, to));
      fetchLog := fetchLog + [(frm.name, to.name)];
      var route := new Route(frm, to);
      var o := ExtractRouteInfo(page, route);
      if o.Fail? {
        return Err(o.error);
      }
      r := Ok(route);
    }

    /** The store of _async_get_route: self.stations[name].routes[to.name] = route. */
    method StoreRoute(name: string, route: Route) returns (o: Outcome)
      requires Valid() && route.frm.name == name
      modifies CatalogEntry(name)
      ensures Valid()
      ensures o.Pass? <==> name in stations
      ensures o.Fail? ==> o == Fail(KeyError(name))
      ensures o.Pass? ==> stations[name].routes == old(stations[name].routes)[route.to.name := route]
    {
      if name !in stations {
        return Fail(KeyError(name));
      }
      var st := stations[name];
      st.routes := st.routes[route.to.name := route];
      o := Pass;
    }

    /** StoreRoute for a route just scraped: a key whose route was scraped
        stays so. */
    method StoreScraped(frm: Station, to: Station, route: Route, ghost before: map<string, Route>) returns (o: Outcome)
      requires Valid() && route.frm == frm && route.to == to && Scraped(frm, before)
      requires Scrape(frm, to).Ok? && route.View() == Scrape(frm, to).value
      modifies CatalogEntry(frm.name)
      ensures Valid()
      ensures o.Pass? <==> frm.name in stations
      ensures o.Fail? ==> o == Fail(KeyError(frm.name))
      ensures o.Pass? ==> stations[frm.name].routes == old(stations[frm.name].routes)[to.name := route]
      ensures frm.name in stations && stations[frm.name] == frm && to.name in stations && stations[to.name] == to ==>
        Scraped(frm, before)
    {
      ghost var held := frm.routes;
      o := StoreRoute(frm.name, route);
      if o.Pass? && stations[frm.name] == frm && to.name in stations && stations[to.name] == to {
        ScrapedPut(frm, held, before, to.name, route);
      }
    }

    /** _async_get_route: scrape frm -> to unless frm already holds a route to
        `to`, and store it in the catalog station named frm.name. */
    method FetchRoute(frm: Station, to: Station, ghost before: map<string, Route>) returns (o: Outcome)
      requires Valid() && Scraped(frm, before)
      modifies this`fetchLog, CatalogEntry(frm.name)
      ensures Valid()
      ensures frm.name in stations && stations[frm.name] == frm && to.name in stations && stations[to.name] == to ==>
        Scraped(frm, before)
      ensures to.name in old(frm.routes) ==> o == Pass && fetchLog == old(fetchLog)
      ensures to.name !in old(frm.routes) ==> fetchLog == old(fetchLog) + [(frm.name, to.name)]
      ensures to.name !in old(frm.routes) ==> (o.Pass? <==> Scrape(frm, to).Ok? && frm.name in stations)
      ensures to.name !in old(frm.routes) && Scrape(frm, to).Err? ==> o == Fail(Scrape(frm, to).error)
      ensures to.name !in old(frm.routes) && Scrape(frm, to).Ok? && frm.name !in stations ==> o == Fail(KeyError(frm.name))
      ensures to.name !in old(frm.routes) && o.Pass? ==>
        var st := stations[frm.name];
        && to.name in st.routes
        && fresh(st.routes[to.name])
        && st.routes == old(st.routes)[to.name := st.routes[to.name]]
        && st.routes[to.name].frm == frm && st.routes[to.name].to == to
        && st.routes[to.name].View() == Scrape(frm, to).value
      ensures to.name in old(frm.routes) || o.Fail? ==> forall s :: s in old(CatalogEntry(frm.name)) ==> s.routes == old(s.routes)
      ensures frm.name in stations && stations[frm.name] == frm ==>
        && Extends(old(frm.routes), frm.routes)
        && (o.Pass? ==> frm.routes.Keys == old(frm.routes).Keys + {to.name})
      ensures o.Fail? ==> frm.routes == old(frm.routes)
    {
      if to.name in frm.routes {
        return Pass;
      }
      o := FetchMissing(frm, to, before);
    }

    /** The miss path of _async_get_route: one POST, then the store. */
    method FetchMissing(frm: Station, to: Station, ghost before: map<string, Route>) returns (o: Outcome)
      requires Valid() && Scraped(frm, before)
      modifies this`fetchLog, CatalogEntry(frm.name)
      ensures Valid()
      ensures frm.name in stations && stations[frm.name] == frm && to.name in stations && stations[to.name] == to ==>
        Scraped(frm, before)
      ensures fetchLog == old(fetchLog) + [(frm.name, to.name)]
      ensures o.Pass? <==> Scrape(frm, to).Ok? && frm.name in stations
      ensures Scrape(frm, to).Err? ==> o == Fail(Scrape(frm, to).error)
      ensures Scrape(frm, to).Ok? && frm.name !in stations ==> o == Fail(KeyError(frm.name))
      ensures o.Pass? ==>
        var st := stations[frm.name];
        && to.name in st.routes
        && fresh(st.routes[to.name])
        && st.routes == old(st.routes)[to.name := st.routes[to.name]]
        && st.routes[to.name].frm == frm && st.routes[to.name].to == to
        && st.routes[to.name].View() == Scrape(frm, to).value
      ensures o.Fail? ==> forall s :: s in old(CatalogEntry(frm.name)) ==> s.routes == old(s.routes)
      ensures o.Fail? ==> frm.routes == old(frm.routes)
    {
      ghost var held := frm.routes;
      var scraped := ScrapeRoute(frm, to);
      assert frm.routes == held && ScrapedIn(frm, held, before);
      if scraped.Err? {
        return Fail(scraped.error);
      }
      o := StoreScraped(frm, to, scraped.value, before);
    }

    /** get_route: the route frm -> to, scraped only when frm does not hold it yet. */
    method GetRoute(frm: Station, to: Station) returns (r: Result<Route>)
      requires Valid()
      modifies this`fetchLog, CatalogEntry(frm.name)
      ensures Valid()
      ensures to.name in old(frm.routes) ==> r == Ok(old(frm.routes)[to.name]) && fetchLog == old(fetchLog)
      ensures to.name in old(frm.routes) ==> forall s :: s in old(CatalogEntry(frm.name)) ==> s.routes == old(s.routes)
      ensures to.name !in old(frm.routes) ==> fetchLog == old(fetchLog) + [(frm.name, to.name)]
      ensures to.name !in old(frm.routes) ==>
        (r.Ok? <==> Scrape(frm, to).Ok? && frm.name in stations && stations[frm.name] == frm)
      ensures to.name !in old(frm.routes) && Scrape(frm, to).Err? ==> r == Err(Scrape(frm, to).error)
      ensures to.name !in old(frm.routes) && r.Ok? ==>
        && fresh(r.value) && r.value.frm == frm && r.value.to == to
        && r.value.View() == Scrape(frm, to).value
        && frm.routes == old(frm.routes)[to.name := r.value]
      ensures r.Ok? ==> to.name in frm.routes && frm.routes[to.name] == r.value
      ensures r.Err? ==> frm.routes == old(frm.routes)
      ensures frm.name in stations && stations[frm.name] == frm ==> Extends(old(frm.routes), frm.routes)
    {
      if to.name !in frm.routes {
        var o := FetchRoute(frm, to, frm.routes);
        if o.Fail? {
          return Err(o.error);
        }
      }
      if to.name !in frm.routes {
        return Err(KeyError(to.name));
      }
      r := Ok(frm.routes[to.name]);
    }

    /** One step of the warm-up loops: skip the station itself, else get_route's
        fetch, which does nothing when the route is already held. */
    method WarmRoute(station: Station, to: Station, ghost before: map<string, Route>) returns (o: Outcome)
      requires Valid() && station.name in stations && stations[station.name] == station
      requires to.name in stations && stations[to.name] == to
      requires Scraped(station, before)
      modifies this`fetchLog, station
      ensures Valid()
      ensures Scraped(station, before)
      ensures o.Pass? ==>
        fetchLog == old(fetchLog) + (if to.name != station.name && to.name !in old(station.routes) then [(station.name, to.name)] else [])
      ensures o.Pass? ==> station.routes.Keys == old(station.routes).Keys + (if to.name != station.name then {to.name} else {})
      ensures forall t :: t in old(station.routes) ==> t in station.routes && station.routes[t] == old(station.routes)[t]
    {
      if station.name == to.name {
        return Pass;
      }
      o := FetchRoute(station, to, before);
    }

    /** _async_build_station_route_cache: fetch the route from `station` to every
        other catalog station it does not hold yet, in catalog order. */
    method BuildStationRouteCache(station: Station, ghost have: set<string>) returns (o: Outcome)
      requires Valid() && station.name in stations && stations[station.name] == station
      requires have == station.routes.Keys
      modifies this`fetchLog, station
      ensures Valid()
      ensures o.Pass? ==> fetchLog == old(fetchLog) + MissingRow(station.name, names, have)
      ensures o.Pass? ==> station.routes.Keys == have + (stations.Keys - {station.name})
      ensures forall t :: t in old(station.routes) ==> t in station.routes && station.routes[t] == old(station.routes)[t]
      ensures Scraped(station, old(station.routes))
      ensures unchanged(stations.Values - {station})
    {
      for j := 0 to |names|
        invariant Valid() && stations[station.name] == station
        invariant fetchLog == old(fetchLog) + MissingRow(station.name, names[..j], have)
        invariant station.routes.Keys == have + (Elems(names[..j]) - {station.name})
        invariant Extends(old(station.routes), station.routes) && Scraped(station, old(station.routes))
      {
        o := WarmNext(station, j, have, old(station.routes), old(fetchLog));
        if o.Fail? {
          return;
        }
      }
      assert names[..|names|] == names;
      assert Elems(names) == stations.Keys;
      o := Pass;
    }

    /** One pass of that loop: the route to the j-th catalog station, keeping
        what the loop knows of the routes held before it. */
    method WarmNext(station: Station, j: nat, ghost have: set<string>, ghost before: map<string, Route>,
                    ghost start: seq<(string, string)>)
      returns (o: Outcome)
      requires Valid() && station.name in stations && stations[station.name] == station && j < |names|
      requires fetchLog == start + MissingRow(station.name, names[..j], have)
      requires station.routes.Keys == have + (Elems(names[..j]) - {station.name})
      requires Extends(before, station.routes) && Scraped(station, before)
      modifies this`fetchLog, station
      ensures Valid() && Extends(before, station.routes) && Scraped(station, before)
      ensures o.Pass? ==> fetchLog == start + MissingRow(station.name, names[..j + 1], have)
      ensures o.Pass? ==> station.routes.Keys == have + (Elems(names[..j + 1]) - {station.name})
    {
      RowStep(station.name, names, j, have, start);
      o := WarmRoute(station, stations[names[j]], before);
    }

    /** _async_build_route_cache: fetch every ordered pair of distinct catalog
        stations that is not cached yet, origin by origin in catalog order. */
    method BuildRouteCache() returns (o: Outcome)
      requires Valid()
      modifies this`fetchLog, stations.Values
      ensures Valid()
      ensures o.Pass? ==> fetchLog == old(fetchLog) + MissingPairs(names, names, old(CachedKeys()))
      ensures o.Pass? ==> forall s :: s in stations.Values ==>
        s.routes.Keys == old(s.routes.Keys) + (stations.Keys - {s.name})
      ensures forall s :: s in stations.Values ==> Extends(old(s.routes), s.routes)
      ensures forall s :: s in stations.Values ==> Scraped(s, old(s.routes))
    {
      ghost var cached := CachedKeys();
      ghost var held: map<Station, map<string, Route>> := map s | s in stations.Values :: s.routes;
      WarmedStart(stations, cached, held);
      assert names[..0] == [];
      for i := 0 to |names|
        invariant Valid()
        invariant AllScraped(held)
        invariant fetchLog == old(fetchLog) + MissingPairs(names[..i], names, cached)
        invariant Warmed(stations, names[..i], cached, held)
      {
        o := VisitOrigin(i, cached, held, old(fetchLog));
        if o.Fail? {
          return;
        }
      }
      assert names[..|names|] == names;
      o := Pass;
    }

    /** One origin of _async_build_route_cache, with the routes it stores. */
    method VisitOrigin(i: nat, ghost cached: map<string, set<string>>, ghost held: map<Station, map<string, Route>>,
                       ghost start: seq<(string, string)>)
      returns (o: Outcome)
      requires Valid() && i < |names| && Warmed(stations, names[..i], cached, held)
      requires fetchLog == start + MissingPairs(names[..i], names, cached)
      requires AllScraped(held)
      modifies this`fetchLog, stations[names[i]]
      ensures Valid()
      ensures AllScraped(held)
      ensures o.Pass? ==> fetchLog == start + MissingPairs(names[..i + 1], names, cached)
      ensures o.Pass? ==> Warmed(stations, names[..i + 1], cached, held)
      ensures forall s :: s in stations.Values ==> Extends(held[s], s.routes)
    {
      o := WarmOrigin(i, cached, held, start);
      ScrapedStep(old(stations[names[i]]), held);
    }

    /** One origin of _async_build_route_cache: the routes from the i-th
        catalog station to every other one. */
    method WarmOrigin(i: nat, ghost cached: map<string, set<string>>, ghost held: map<Station, map<string, Route>>,
                      ghost start: seq<(string, string)>)
      returns (o: Outcome)
      requires Valid() && i < |names| && Warmed(stations, names[..i], cached, held)
      requires fetchLog == start + MissingPairs(names[..i], names, cached)
      modifies this`fetchLog, stations[names[i]]
      ensures Valid()
      ensures Extends(old(stations[names[i]].routes), stations[names[i]].routes)
      ensures Scraped(stations[names[i]], old(stations[names[i]].routes))
      ensures o.Pass? ==> fetchLog == start + MissingPairs(names[..i + 1], names, cached)
      ensures o.Pass? ==> Warmed(stations, names[..i + 1], cached, held)
      ensures forall s :: s in stations.Values ==> Extends(held[s], s.routes)
    {
      MissingPairsSnoc(names, i, names, cached);
      DistinctFresh(names, i);
      var frm := stations[names[i]];
      o := BuildStationRouteCache(frm, cached[frm.name]);
      WarmedStep(stations, names, i, cached, held);
      if o.Pass? {
        Associative(start, MissingPairs(names[..i], names, cached), MissingRow(names[i], names, cached[names[i]]));
      }
    }

    /** Every catalog station holds scraped routes beyond those in `held`. */
    ghost predicate AllScraped(held: map<Station, map<string, Route>>)
      reads this`formVars, this`stations, stations.Values, RoutesOf(stations.Values)
    {
      forall s :: s in stations.Values ==> s in held && Scraped(s, held[s])
    }

    /** The routes the stations `ss` hold. */
    static ghost function RoutesOf(ss: set<Station>): set<Route>
      reads ss
    {
      set s, r | s in ss && r in s.routes.Values :: r
    }

    /** One origin of the warm-up: the routes the other stations hold are
        untouched, and those `frm` gained were scraped for their pair. */
    twostate lemma ScrapedStep(new frm: Station, new held: map<Station, map<string, Route>>)
      requires old(allocated(frm)) && old(allocated(held))
      requires formVars == old(formVars) && stations == old(stations) && frm in stations.Values
      requires old(AllScraped(held))
      requires unchanged(stations.Values - {frm})
      requires unchanged(old(RoutesOf(stations.Values)))
      requires Extends(old(frm.routes), frm.routes) && Scraped(frm, old(frm.routes))
      ensures AllScraped(held)
    {
      forall s | s in stations.Values
        ensures s in held && Scraped(s, held[s])
      {
        assert old(s in held && Scraped(s, held[s]));
        if s == frm {
          ScrapedGrow(s, held[s]);
        }
      }
    }

    /** A station that gains scraped routes, keeping the ones it held, still
        holds scraped routes beyond `before`. */
    twostate lemma ScrapedGrow(new s: Station, new before: map<string, Route>)
      requires old(allocated(s)) && old(allocated(before))
      requires formVars == old(formVars) && stations == old(stations)
      requires old(Scraped(s, before)) && Scraped(s, old(s.routes))
      requires Extends(old(s.routes), s.routes) && unchanged(old(s.routes).Values)
      ensures Scraped(s, before)
    {
      forall t | t in s.routes && t !in before
        ensures t in stations && s.routes[t].frm == s && s.routes[t].to == stations[t]
        ensures Scrape(s, stations[t]).Ok? && s.routes[t].View() == Scrape(s, stations[t]).value
      {
        if t in old(s.routes) {
          var r := old(s.routes)[t];
          assert old(r.View()) == r.View();
        }
      }
    }

    /** Map b holds every entry of map a. */
    static ghost predicate Extends<K, V>(a: map<K, V>, b: map<K, V>)
    {
      forall k :: k in a ==> k in b && b[k] == a[k]
    }

    /** The loop state of the route-cache warm-up after the origins `done`:
        every station keeps its original routes `held`, and an origin already
        visited holds a route to every other catalog station. */
    static ghost predicate Warmed(cat: map<string, Station>, done: seq<string>,
                                  cached: map<string, set<string>>, held: map<Station, map<string, Route>>)
      reads cat.Values
    {
      forall s :: s in cat.Values ==>
        && s.name in cached && s in held
        && s.routes.Keys == cached[s.name] + (if s.name in done then cat.Keys - {s.name} else {})
        && Extends(held[s], s.routes)
    }

    /** Before the warm-up, no origin has been visited and every station holds
        what it held. */
    static lemma WarmedStart(cat: map<string, Station>, cached: map<string, set<string>>, held: map<Station, map<string, Route>>)
      requires forall n :: n in cat ==> cat[n].name == n
      requires forall f :: f in cat ==> f in cached && cached[f] == cat[f].routes.Keys
      requires forall s :: s in cat.Values ==> s in held && held[s] == s.routes
      ensures Warmed(cat, [], cached, held)
    {
      forall s | s in cat.Values
        ensures s.name in cached && s in held && s.routes.Keys == cached[s.name] && Extends(held[s], s.routes)
      {
        var n :| n in cat && cat[n] == s;
      }
    }

    /** One origin of the warm-up: if it fails, the original routes are still
        held; if it passes, the visited origins grow by one. */
    static twostate lemma WarmedStep(new cat: map<string, Station>, new order: seq<string>, new i: nat,
                                     new cached: map<string, set<string>>, new held: map<Station, map<string, Route>>)
      requires old(allocated(cat)) && old(allocated(held))
      requires i < |order| && order[i] in cat && order[i] !in order[..i]
      requires forall n :: n in cat ==> cat[n].name == n
      requires old(Warmed(cat, order[..i], cached, held))
      requires unchanged(cat.Values - {cat[order[i]]})
      requires Extends(old(cat[order[i]].routes), cat[order[i]].routes)
      ensures forall s :: s in cat.Values ==> Extends(held[s], s.routes)
      ensures cat[order[i]].routes.Keys == cached[order[i]] + (cat.Keys - {order[i]}) ==>
        Warmed(cat, order[..i + 1], cached, held)
    {
      var frm := cat[order[i]];
      assert order[..i + 1] == order[..i] + [order[i]];
      forall s | s in cat.Values
        ensures Extends(held[s], s.routes)
      {
        if s == frm {
          assert Extends(held[s], old(s.routes));
        }
      }
    }

    static lemma MissingRowSnoc(f: string, order: seq<string>, j: nat, have: set<string>)
      requires j < |order|
      ensures MissingRow(f, order[..j + 1], have) ==
        MissingRow(f, order[..j], have) + (if order[j] != f && order[j] !in have then [(f, order[j])] else [])
    {
      assert order[..j + 1][..j] == order[..j];
    }

    /** The bookkeeping of one pass of the per-station loop: the j-th name
        adds its pair to the log exactly when it is another station whose
        route is not held yet, and adds its key. */
    static lemma RowStep(f: string, order: seq<string>, j: nat, have: set<string>, start: seq<(string, string)>)
      requires j < |order| && Distinct(order)
      ensures var t, keys := order[j], have + (Elems(order[..j]) - {f});
        && start + MissingRow(f, order[..j + 1], have) ==
             (start + MissingRow(f, order[..j], have)) + (if t != f && t !in keys then [(f, t)] else [])
        && have + (Elems(order[..j + 1]) - {f}) == keys + (if t != f then {t} else {})
    {
      var t := order[j];
      MissingRowSnoc(f, order, j, have);
      ElemsSnoc(order, j);
      DistinctFresh(order, j);
      AddKey(have, Elems(order[..j]), f, t);
      Associative(start, MissingRow(f, order[..j], have), if t != f && t !in have then [(f, t)] else []);
    }

    static lemma MissingPairsSnoc(frms: seq<string>, i: nat, order: seq<string>, cached: map<string, set<string>>)
      requires i < |frms|
      ensures MissingPairs(frms[..i + 1], order, cached) ==
        MissingPairs(frms[..i], order, cached) + MissingRow(frms[i], order, Held(cached, frms[i]))
    {
      assert frms[..i + 1][..i] == frms[..i];
    }

    static lemma ElemsSnoc<T>(s: seq<T>, j: nat)
      requires j < |s|
      ensures Elems(s[..j + 1]) == Elems(s[..j]) + {s[j]}
    {
      assert s[..j + 1] == s[..j] + [s[j]];
    }

    static lemma Associative<T>(a: seq<T>, b: seq<T>, c: seq<T>)
      ensures (a + b) + c == a + (b + c)
    {
    }

    /** Adding destination t to the keys held for origin f. */
    static lemma AddKey<T>(have: set<T>, seen: set<T>, f: T, t: T)
      ensures have + (seen - {f}) + (if t != f then {t} else {}) == have + ((seen + {t}) - {f})
      ensures t !in seen && t != f ==> (t in have + (seen - {f}) <==> t in have)
    {
    }

    /** In a sequence without repeats, an element does not occur before its index. */
    static lemma DistinctFresh<T>(s: seq<T>, i: nat)
      requires Distinct(s) && i < |s|
      ensures s[i] !in s[..i]
    {
    }

    // -------------------------------------------------------------------------
    // The first failure decides the error: a failing prefix fails the whole.

    /** One more entry: how the dict and the insertion order grow. */
    static lemma IndexSnoc(entries: seq<(string, int)>, j: nat)
      requires j < |entries|
      ensures NameIndex(entries[..j + 1]) == NameIndex(entries[..j])[entries[j].0 := entries[j].1]
      ensures ValueIndex(entries[..j + 1]) == ValueIndex(entries[..j])[entries[j].1 := entries[j].0]
      ensures FirstOrder(entries[..j + 1]) ==
        if entries[j].0 in NameIndex(entries[..j]) then FirstOrder(entries[..j]) else FirstOrder(entries[..j]) + [entries[j].0]
    {
      assert entries[..j + 1][..j] == entries[..j];
    }

    static lemma StationIndexSnoc(created: seq<Station>, j: nat)
      requires j < |created|
      ensures StationIndex(created[..j + 1]) == StationIndex(created[..j])[created[j].name := created[j]]
    {
      assert created[..j + 1][..j] == created[..j];
    }

    /** Collect stops at the first element whose result is an error. */
    static lemma CollectSnoc<A, B>(xs: seq<A>, f: A -> Result<B>, i: nat)
      requires i < |xs| && Collect(xs[..i], f).Ok? && f(xs[i]).Ok?
      ensures Collect(xs[..i + 1], f) == Ok(Collect(xs[..i], f).value + [f(xs[i]).value])
    {
      assert xs[..i + 1][..i] == xs[..i];
    }

    static lemma {:induction false} CollectFirstError<A, B>(xs: seq<A>, f: A -> Result<B>, i: nat)
      requires i < |xs|
      requires Collect(xs[..i], f).Ok? && f(xs[i]).Err?
      ensures Collect(xs, f) == Err(f(xs[i]).error)
      decreases |xs|
    {
      if |xs| > i + 1 {
        var init := xs[..|xs| - 1];
        assert init[..i] == xs[..i];
        CollectFirstError(init, f, i);
      } else {
        assert xs[..|xs| - 1] == xs[..i];
      }
    }

    /** Updating a merged map updates its right-hand side. */
    static lemma MergeUpdate<K, V>(a: map<K, V>, b: map<K, V>, k: K, v: V)
      ensures (a + b)[k := v] == a + b[k := v]
    {
    }

    static lemma ReadFormVarsSnoc(inputs: seq<InputTag>, names: seq<string>, i: nat)
      requires i < |names|
      requires ReadFormVars(inputs, names[..i]).Ok? && InputValue(inputs, names[i]).Ok?
      ensures ReadFormVars(inputs, names[..i + 1]) ==
        Ok(ReadFormVars(inputs, names[..i]).value[names[i] := InputValue(inputs, names[i]).value])
    {
      assert names[..i + 1][..i] == names[..i];
    }

    static lemma {:induction false} ReadFormVarsFirstError(inputs: seq<InputTag>, names: seq<string>, i: nat)
      requires i < |names|
      requires ReadFormVars(inputs, names[..i]).Ok? && InputValue(inputs, names[i]).Err?
      ensures ReadFormVars(inputs, names) == Err(InputValue(inputs, names[i]).error)
      decreases |names|
    {
      if |names| > i + 1 {
        var init := names[..|names| - 1];
        assert init[..i] == names[..i];
        ReadFormVarsFirstError(inputs, init, i);
      } else {
        assert names[..|names| - 1] == names[..i];
      }
    }

    static lemma ResolveSnoc(items: seq<Node>, i: nat, catalog: map<string, Station>, interchange: Station, tail: Result<seq<Station>>)
      requires i < |items| && Resolve(items[..i], catalog, interchange).Ok?
      requires tail ==
        if items[i].Li? then ResolveItem(items[i].text, items[i].hasBold, catalog, interchange)
        else if items[i].Ul? then Resolve(items[i].items, catalog, interchange)
        else Ok([])
      ensures tail.Ok? ==> Resolve(items[..i + 1], catalog, interchange) == Ok(Resolve(items[..i], catalog, interchange).value + tail.value)
      ensures tail.Err? ==> Resolve(items[..i + 1], catalog, interchange) == Err(tail.error)
    {
      assert items[..i + 1][..i] == items[..i];
    }

    static lemma {:induction false} ResolvePrefixError(items: seq<Node>, i: nat, catalog: map<string, Station>, interchange: Station)
      requires i <= |items|
      requires Resolve(items[..i], catalog, interchange).Err?
      ensures Resolve(items, catalog, interchange) == Resolve(items[..i], catalog, interchange)
      decreases |items|
    {
      if i < |items| {
        var init := items[..|items| - 1];
        assert init[..i] == items[..i];
        ResolvePrefixError(init, i, catalog, interchange);
      } else {
        assert items[..i] == items;
      }
    }

    static lemma {:induction false} ApplyExtraPrefixError(items: seq<string>, i: nat, e: Extra)
      requires i <= |items|
      requires ApplyExtra(items[..i], e).Err?
      ensures ApplyExtra(items, e) == ApplyExtra(items[..i], e)
      decreases |items|
    {
      if i < |items| {
        var init := items[..|items| - 1];
        assert init[..i] == items[..i];
        ApplyExtraPrefixError(init, i, e);
      } else {
        assert items[..i] == items;
      }
    }
  }
}
