/** DelhiMetroWrapper: station names, route lookup by station name, and the
    plain-text rendering of a route for the chat bot. */
module MetroWrapper {
  import opened Wrappers
  import opened PyStr
  import opened Scraper

  const Rupee: string := "\U{20B9}"

  /** The header block of a rendered route, each line ended by a newline:
      endpoints, both fares, the travel time, the station count and the
      interchange count, then an empty line. */
  function Header(frm: string, to: string, v: RouteView): string {
    Terminated(HeaderLines(frm, to, v), "\n")
  }

  /** The text one station of the route adds: its name on a line, or, for a
      station named INTERCHANGE, that word between blank lines. */
  function EntryText(name: string): string {
    if name == InterchangeName then "\n" + InterchangeName + "\n\n" else name + "\n"
  }

  /** The station part of a rendered route. */
  function Body(legs: seq<Station>): string {
    if legs == [] then "" else Body(legs[..|legs| - 1]) + EntryText(legs[|legs| - 1].name)
  }

  /** The rendered route. */
  function Render(frm: string, to: string, v: RouteView): string {
    Header(frm, to, v) + Body(v.legs)
  }

  /** The lines of the header block, as a reader of the message sees them. */
  function HeaderLines(frm: string, to: string, v: RouteView): seq<string> {
    [ "Route from " + frm + " to " + to,
      "Normal Fare: " + Rupee + IntToString(v.normalFare),
      "Concessional Fare: " + Rupee + IntToString(v.concessionalFare),
      "Time: " + v.time + " minutes",
      "Stations: " + v.stations,
      "Interchanges: " + v.interchange,
      "" ]
  }

  /** The lines of the station part: one line per station, and a line reading
      INTERCHANGE between two empty lines at every change point. */
  function Lines(legs: seq<Station>): seq<string> {
    if legs == [] then []
    else Lines(legs[..|legs| - 1]) + EntryLines(legs[|legs| - 1].name)
  }

  class DelhiMetroWrapper {
    const scraper: StationScraper

    constructor (scraper: StationScraper)
      ensures this.scraper == scraper
    {
      this.scraper := scraper;
    }

    /** get_all_stations: the station names, in the order the catalog was built. */
    method GetAllStations() returns (r: seq<string>)
      requires scraper.Valid()
      ensures r == scraper.names
      ensures Distinct(r) && forall n :: n in r <==> n in scraper.stations
    {
      r := scraper.names;
    }

    /** _get_route: looks both names up in the catalog, `frm` first, and a
        missing one raises KeyError before anything is fetched; then get_route
        on the two stations. */
    method GetRouteObject(frm: string, to: string) returns (r: Result<Route>)
      requires scraper.Valid()
      modifies scraper`fetchLog, scraper.CatalogEntry(frm)
      ensures scraper.Valid()
      ensures frm !in scraper.stations ==> r == Err(KeyError(frm)) && scraper.fetchLog == old(scraper.fetchLog)
      ensures frm in scraper.stations && to !in scraper.stations ==>
        r == Err(KeyError(to)) && scraper.fetchLog == old(scraper.fetchLog)
      ensures frm in scraper.stations && to in scraper.stations ==>
        var f, t := scraper.stations[frm], scraper.stations[to];
        && (to in old(f.routes) ==> r == Ok(old(f.routes)[to]) && scraper.fetchLog == old(scraper.fetchLog))
        && (to !in old(f.routes) ==>
              && scraper.fetchLog == old(scraper.fetchLog) + [(frm, to)]
              && (r.Ok? <==> scraper.Scrape(f, t).Ok?)
              && (r.Err? ==> r.error == scraper.Scrape(f, t).error)
              && (r.Ok? ==> r.value.frm == f && r.value.to == t && r.value.View() == scraper.Scrape(f, t).value))
        && (r.Ok? ==> to in f.routes && f.routes[to] == r.value)
      ensures r.Err? && frm in scraper.stations ==> scraper.stations[frm].routes == old(scraper.stations[frm].routes)
    {
      if frm !in scraper.stations {
        return Err(KeyError(frm));
      }
      if to !in scraper.stations {
        return Err(KeyError(to));
      }
      r := scraper.GetRoute(scraper.stations[frm], scraper.stations[to]);
    }

    /** _render_route: the header, then each station of the route in order. */
    method RenderRoute(route: Route) returns (text: string)
      ensures text == Render(route.frm.name, route.to.name, route.View())
      ensures route.legs == [] ==> text == Header(route.frm.name, route.to.name, route.View())
    {
      var view := RouteView(route.normalFare, route.concessionalFare, route.time, route.stations, route.interchange, route.legs);
      text := Header(route.frm.name, route.to.name, view);
      text := AppendStations(text, route.legs);
    }

    /** The loop of _render_route: appends the text of each station in turn. */
    method AppendStations(start: string, legs: seq<Station>) returns (text: string)
      ensures text == start + Body(legs)
    {
      text := start;
      for i := 0 to |legs|
        invariant text == start + Body(legs[..i])
      {
        assert legs[..i + 1][..i] == legs[..i];
        assert Body(legs[..i + 1]) == Body(legs[..i]) + EntryText(legs[i].name);
        text := AppendStation(text, legs[i]);
        assert text == start + (Body(legs[..i]) + EntryText(legs[i].name));
      }
      assert legs[..|legs|] == legs;
    }

    /** One pass of that loop: INTERCHANGE between blank lines, any other
        station's name on a line of its own. */
    method AppendStation(start: string, station: Station) returns (text: string)
      ensures text == start + EntryText(station.name)
    {
      text := start;
      if station.name == InterchangeName {
        text := text + "\n";
        text := text + InterchangeName;
        text := text + "\n\n";
      } else {
        text := text + station.name + "\n";
      }
    }

    /** get_route: the rendered route between two stations given by name. */
    method GetRoute(frm: string, to: string) returns (r: Result<string>)
      requires scraper.Valid()
      modifies scraper`fetchLog, scraper.CatalogEntry(frm)
      ensures scraper.Valid()
      ensures frm !in scraper.stations ==> r == Err(KeyError(frm))
      ensures frm in scraper.stations && to !in scraper.stations ==> r == Err(KeyError(to))
      ensures frm !in scraper.stations || to !in scraper.stations ==> scraper.fetchLog == old(scraper.fetchLog)
      ensures frm in scraper.stations && to in scraper.stations && to in old(scraper.stations[frm].routes) ==>
        && scraper.fetchLog == old(scraper.fetchLog)
        && r.Ok?
        && r.value == old(var route := scraper.stations[frm].routes[to]; Render(route.frm.name, route.to.name, route.View()))
      ensures frm in scraper.stations && to in scraper.stations && to !in old(scraper.stations[frm].routes) ==>
        var f, t := scraper.stations[frm], scraper.stations[to];
        && scraper.fetchLog == old(scraper.fetchLog) + [(frm, to)]
        && (r.Ok? <==> scraper.Scrape(f, t).Ok?)
        && (r.Err? ==> r.error == scraper.Scrape(f, t).error)
        && (r.Ok? ==> r.value == Render(frm, to, scraper.Scrape(f, t).value))
      ensures r.Ok? ==>
        && frm in scraper.stations && to in scraper.stations[frm].routes
        && var route := scraper.stations[frm].routes[to];
        r.value == Render(route.frm.name, route.to.name, route.View())
      ensures r.Err? && frm in scraper.stations ==> scraper.stations[frm].routes == old(scraper.stations[frm].routes)
    {
      var route :- GetRouteObject(frm, to);
      var text := RenderRoute(route);
      return Ok(text);
    }
  }

  /** Rendering the stations one after the other renders each part in turn. */
  lemma {:induction false} BodyAppend(a: seq<Station>, b: seq<Station>)
    ensures Body(a + b) == Body(a) + Body(b)
  {
    if b != [] {
      var init := b[..|b| - 1];
      BodyAppend(a, init);
      assert (a + b)[..|a + b| - 1] == a + init;
      assert (a + b)[|a + b| - 1] == b[|b| - 1];
    } else {
      assert a + b == a;
    }
  }

  /** The lines a station contributes. */
  function EntryLines(name: string): seq<string> {
    if name == InterchangeName then ["", InterchangeName, ""] else [name]
  }

  /** A station's text is its lines, each ended by a newline. */
  lemma EntryTerminated(name: string)
    ensures EntryText(name) == Terminated(EntryLines(name), "\n")
  {
    var lines := EntryLines(name);
    if name == InterchangeName {
      assert lines[1..][1..][1..] == [];
      assert Terminated(lines[1..][1..], "\n") == "\n";
      assert Terminated(lines[1..], "\n") == InterchangeName + "\n\n";
    } else {
      assert lines[1..] == [];
    }
  }

  /** The station part is the lines of its stations, each ended by a newline. */
  lemma {:induction false} BodyTerminated(legs: seq<Station>)
    ensures Body(legs) == Terminated(Lines(legs), "\n")
  {
    if legs != [] {
      var init, name := legs[..|legs| - 1], legs[|legs| - 1].name;
      BodyTerminated(init);
      EntryTerminated(name);
      assert Lines(legs) == Lines(init) + EntryLines(name);
      TerminatedAppend(Lines(init), EntryLines(name), "\n");
    }
  }

  /** Read back line by line, a rendered route gives the header lines, then
      one line per station in order with INTERCHANGE on a line of its own
      between empty lines at every change point, then nothing after the final
      newline. */
  lemma RenderLines(frm: string, to: string, v: RouteView)
    requires '\n' !in frm && '\n' !in to
    requires '\n' !in v.time && '\n' !in v.stations && '\n' !in v.interchange
    requires forall k :: 0 <= k < |v.legs| ==> '\n' !in v.legs[k].name
    ensures Split(Render(frm, to, v), "\n") == HeaderLines(frm, to, v) + Lines(v.legs) + [""]
  {
    var head, body := HeaderLines(frm, to, v), Lines(v.legs);
    IntToStringChars(v.normalFare);
    IntToStringChars(v.concessionalFare);
    BodyTerminated(v.legs);
    TerminatedAppend(head, body, "\n");
    forall k | 0 <= k < |head + body|
      ensures !Contains((head + body)[k], "\n")
    {
      ContainsChar((head + body)[k], '\n');
      if k >= |head| {
        LinesFree(v.legs, k - |head|);
      }
    }
    SplitTerminated(head + body, "\n", "");
    assert Render(frm, to, v) == Terminated(head + body, "\n") + "";
  }

  /** No line of the station part holds a newline when no station name does. */
  lemma {:induction false} LinesFree(legs: seq<Station>, k: nat)
    requires forall j :: 0 <= j < |legs| ==> '\n' !in legs[j].name
    requires k < |Lines(legs)|
    ensures '\n' !in Lines(legs)[k]
  {
    var init := legs[..|legs| - 1];
    if k < |Lines(init)| {
      LinesFree(init, k);
    }
  }

  /** str(n) is a sign and digits: no newline. */
  lemma IntToStringChars(n: int)
    ensures '\n' !in IntToString(n)
  {
    var s := IntToString(n);
    if n < 0 {
      assert s == "-" + NatToString(-n);
      assert forall i :: 1 <= i < |s| ==> s[i] == NatToString(-n)[i - 1];
    }
  }
}
