/** The address endpoints of api/views.py: AddressReverseView (reverse
    geocoding, the 502 path and the working-area decision) and
    AddressSearchView (projection of search results). */
module AddressViews {
  import opened Wrappers
  import opened Json
  import opened Text
  import opened Nominatim

  /** The areas used when the settings name none. */
  const DefaultWorkingAreas: seq<string> := ["Самара", "Самарская область"]
  const NoAddressMessage: string := "Не удалось определить адрес по координатам"
  const NotServedMessage: string := "В данном районе проект пока не работает"

  /** `any(area.lower() in place for area in areas if area)`. */
  predicate AnyAreaIn(areas: seq<string>, place: string)
    decreases |areas|
  {
    areas != [] && ((areas[0] != "" && Contains(place, Lower(areas[0]))) || AnyAreaIn(areas[1..], place))
  }

  /** The point is in the working area when some non-empty configured area,
      lower-cased, occurs in the lower-cased "city state". */
  predicate InWorkingArea(areas: seq<string>, city: string, state: string) {
    AnyAreaIn(areas, Lower(city + " " + state))
  }

  lemma {:induction false} AnyAreaInIff(areas: seq<string>, place: string)
    ensures AnyAreaIn(areas, place) <==>
      exists i :: 0 <= i < |areas| && areas[i] != "" && Contains(place, Lower(areas[i]))
    decreases |areas|
  {
    if areas != [] {
      AnyAreaInIff(areas[1..], place);
      if AnyAreaIn(areas[1..], place) {
        var j :| 0 <= j < |areas[1..]| && areas[1..][j] != "" && Contains(place, Lower(areas[1..][j]));
        assert areas[j + 1] == areas[1..][j];
      }
      if exists i :: 0 <= i < |areas| && areas[i] != "" && Contains(place, Lower(areas[i])) {
        var i :| 0 <= i < |areas| && areas[i] != "" && Contains(place, Lower(areas[i]));
        if i > 0 { assert areas[1..][i - 1] == areas[i]; }
      }
    }
  }

  /** Empty area names never match, whatever the place: a list made only of
      them puts no point in the working area. */
  lemma EmptyAreasNeverMatch(areas: seq<string>, place: string)
    requires forall i :: 0 <= i < |areas| ==> areas[i] == ""
    ensures !AnyAreaIn(areas, place)
  {
    AnyAreaInIff(areas, place);
  }

  /** `parsed.get(k) or ''` as text: the empty string for a falsy value,
      None for a truthy value that is not a string (joining it with " "
      then fails). */
  function TextOr(v: Json): (r: Option<string>)
    ensures !Truthy(v) ==> r == Some("")
    ensures v.JStr? ==> r == Some(v.s)
    ensures r.None? <==> Truthy(v) && !v.JStr?
  {
    if !Truthy(v) then Some("") else if v.JStr? then Some(v.s) else None
  }

  /** Reply of POST /address/reverse. ServerError stands for an exception
      the view does not catch (a reply that is not a dict, or a non-text
      city or state). */
  datatype ReverseReply =
    | BadGateway(error: Json)
    | ServerError
    | Located(inWorkingArea: bool, message: Option<string>, address: Json, latitude: Json,
              longitude: Json, city: Json, street: Json, house: Json)

  function ReverseView(f: Fetch, areas: seq<string>): ReverseReply {
    var g := ReverseGeocode(f);
    if !Truthy(g.result) then BadGateway(if Truthy(g.err) then g.err else JStr(NoAddressMessage))
    else match ParseReverse(g.result)
      case EmptyParse => assert false; ServerError
      case ParseFailure => ServerError
      case Parsed(fl) =>
        match (TextOr(fl.city), TextOr(fl.state))
        case (Some(c), Some(s)) =>
          var inArea := InWorkingArea(areas, c, s);
          Located(inArea, if inArea then None else Some(NotServedMessage),
                  fl.address, fl.latitude, fl.longitude, fl.city, fl.street, fl.house)
        case _ => ServerError
  }

  /** Without data the view answers 502 with the upstream error, or the
      default message when there is none; the working areas play no part. */
  lemma NoDataIsBadGateway(f: Fetch, areas: seq<string>)
    requires !Truthy(ReverseGeocode(f).result)
    ensures ReverseView(f, areas) == BadGateway(
      if Truthy(ReverseGeocode(f).err) then ReverseGeocode(f).err else JStr(NoAddressMessage))
  {
  }

  /** A transport failure with a message reaches the client as that message. */
  lemma TransportFailureIsBadGateway(msg: string, areas: seq<string>)
    requires msg != ""
    ensures ReverseView(Failed(msg), areas) == BadGateway(JStr(msg))
  {
  }

  /** The three outcomes of the view: 502 exactly when there is no data; a
      located reply exactly when the data parses and its city and state are
      text (or empty), carrying the parsed address, coordinates, city, street
      and house unchanged; a server error in every other case. */
  lemma {:induction false} ReverseViewOutcome(f: Fetch, areas: seq<string>)
    ensures var g := ReverseGeocode(f);
      var p := ParseReverse(g.result);
      var r := ReverseView(f, areas);
      && (r.BadGateway? <==> !Truthy(g.result))
      && (r.Located? <==> Truthy(g.result) && p.Parsed? && TextOr(p.fields.city).Some? && TextOr(p.fields.state).Some?)
      && (r == ServerError <==> Truthy(g.result) && !r.Located?)
      && (r.Located? ==>
            && r.address == p.fields.address
            && r.latitude == p.fields.latitude
            && r.longitude == p.fields.longitude
            && r.city == p.fields.city
            && r.street == p.fields.street
            && r.house == p.fields.house)
  {
  }

  /** The working areas decide only the flag and the message: the address
      fields of the reply are the same for any two area lists. */
  lemma {:induction false} FieldsIndependentOfAreas(f: Fetch, areas1: seq<string>, areas2: seq<string>)
    ensures ReverseView(f, areas1).Located? <==> ReverseView(f, areas2).Located?
    ensures ReverseView(f, areas1).Located? ==>
      var r1, r2 := ReverseView(f, areas1), ReverseView(f, areas2);
      r1.(inWorkingArea := false, message := None) == r2.(inWorkingArea := false, message := None)
    ensures !ReverseView(f, areas1).Located? ==> ReverseView(f, areas1) == ReverseView(f, areas2)
  {
  }

  /** A located reply is flagged in the working area exactly when some
      non-empty configured area occurs in "city state" (both lower-cased),
      and carries the "not served" message exactly when it is not. */
  lemma {:induction false} LocatedFlag(f: Fetch, areas: seq<string>)
    requires ReverseView(f, areas).Located?
    ensures var r := ReverseView(f, areas);
      var g := ReverseGeocode(f);
      && ParseReverse(g.result).Parsed?
      && var fl := ParseReverse(g.result).fields;
      && TextOr(fl.city).Some? && TextOr(fl.state).Some?
      && var place := Lower(TextOr(fl.city).value + " " + TextOr(fl.state).value);
      && (r.inWorkingArea <==> exists i :: 0 <= i < |areas| && areas[i] != "" && Contains(place, Lower(areas[i])))
      && (r.message.Some? <==> !r.inWorkingArea)
  {
    var g := ReverseGeocode(f);
    var fl := ParseReverse(g.result).fields;
    AnyAreaInIff(areas, Lower(TextOr(fl.city).value + " " + TextOr(fl.state).value));
  }

  /** The reply used in the examples below: Nominatim names the city "Самара". */
  function SamaraFetch(): Fetch {
    Decoded(JDict(map["address" := JDict(map["city" := JStr("Самара")]),
                      "lat" := JStr("53.2"), "lon" := JStr("50.15")]))
  }

  lemma SamaraReply(areas: seq<string>)
    ensures ReverseView(SamaraFetch(), areas).Located?
    ensures ReverseView(SamaraFetch(), areas).inWorkingArea == InWorkingArea(areas, "Самара", "")
    ensures ReverseView(SamaraFetch(), areas).city == JStr("Самара")
  {
    var addr := map["city" := JStr("Самара")];
    var d := map["address" := JDict(addr), "lat" := JStr("53.2"), "lon" := JStr("50.15")];
    assert !HasErrorKey(JDict(d));
    assert ReverseGeocode(SamaraFetch()) == Reply(JDict(d), JNull);
    assert AddressObject(d) == Some(addr);
    assert CityOf(addr) == JStr("Самара");
    assert StateOf(addr) == JNull;
  }

  lemma SamaraPlaceLower()
    ensures Lower("Самара" + " " + "") == "самара "
  {
    assert "Самара" + " " + "" == "Самара ";
  }

  lemma SamaraPlaceHasNoMoscow()
    ensures !Contains("самара ", "москва")
  {
    var place := "самара ";
    ContainsIff(place, "москва");
    forall i | 0 <= i <= |place| ensures !("москва" <= place[i..]) {
      if i + 6 <= |place| { assert place[i..][0] != 'м'; }
    }
  }

  lemma LowerSamara()
    ensures Lower("Самара") == "самара"
  {
  }

  lemma LowerMoscow()
    ensures Lower("Москва") == "москва"
  {
  }

  lemma SamaraInSamara()
    ensures InWorkingArea(["Самара"], "Самара", "")
  {
    SamaraPlaceLower();
    LowerSamara();
    assert "самара" <= "самара ";
  }

  lemma SamaraNotInMoscow()
    ensures !InWorkingArea(["Москва"], "Самара", "")
  {
    SamaraPlaceLower();
    LowerMoscow();
    SamaraPlaceHasNoMoscow();
    assert !AnyAreaIn(["Москва"][1..], "самара ");
  }

  /** With the default working areas, a point in the city Самара is served. */
  lemma SamaraInDefaultAreas()
    ensures InWorkingArea(DefaultWorkingAreas, "Самара", "")
  {
    SamaraPlaceLower();
    LowerSamara();
    assert DefaultWorkingAreas[0] == "Самара";
    assert "самара" <= "самара ";
  }

  /** A reply naming the city "Самара": in the working area with the areas
      ["Самара"], outside it with ["Москва"], with the same city either way. */
  lemma SamaraExample()
    ensures ReverseView(SamaraFetch(), ["Самара"]).Located?
    ensures ReverseView(SamaraFetch(), ["Самара"]).inWorkingArea
    ensures ReverseView(SamaraFetch(), ["Москва"]).Located?
    ensures !ReverseView(SamaraFetch(), ["Москва"]).inWorkingArea
    ensures ReverseView(SamaraFetch(), ["Москва"]).message == Some(NotServedMessage)
    ensures ReverseView(SamaraFetch(), ["Москва"]).city == ReverseView(SamaraFetch(), ["Самара"]).city
  {
    SamaraReply(["Самара"]);
    SamaraReply(["Москва"]);
    SamaraInSamara();
    SamaraNotInMoscow();
  }

  /** One row of the search reply. */
  datatype SearchItem = SearchItem(displayName: Json, latitude: Json, longitude: Json,
                                   city: Json, street: Json, house: Json)

  /** The projection of one search result; None when the result or its
      address is not a dict (the `.get` then fails). */
  function Project(r: Json): (item: Option<SearchItem>)
    ensures item.Some? <==> r.JDict? && AddressObject(r.fields).Some?
    ensures item.Some? ==>
      var addr := AddressObject(r.fields).value;
      && item.value.displayName == GetOr(r.fields, "display_name", JStr(""))
      && item.value.latitude == GetOr(r.fields, "lat", JInt(0))
      && item.value.longitude == GetOr(r.fields, "lon", JInt(0))
      && item.value.city == CityOf(addr)
      && item.value.street == Get(addr, "road")
      && item.value.house == Get(addr, "house_number")
  {
    if !r.JDict? then None
    else match AddressObject(r.fields)
      case None => None
      case Some(addr) =>
        var d := r.fields;
        Some(SearchItem(GetOr(d, "display_name", JStr("")), GetOr(d, "lat", JInt(0)),
                        GetOr(d, "lon", JInt(0)), CityOf(addr), Get(addr, "road"), Get(addr, "house_number")))
  }

  datatype SearchReply = Results(items: seq<SearchItem>) | SearchServerError

  /** GET /address/search: one projected row per search result, in order. */
  method SearchView(f: Fetch) returns (reply: SearchReply)
    ensures !(f.Decoded? && f.body.JList?) ==> reply == Results([])
    ensures reply.Results? ==>
      && |reply.items| == |Search(f)|
      && forall i :: 0 <= i < |Search(f)| ==> Project(Search(f)[i]) == Some(reply.items[i])
    ensures reply == SearchServerError <==> exists i :: 0 <= i < |Search(f)| && Project(Search(f)[i]).None?
  {
    var results := Search(f);
    var out: seq<SearchItem> := [];
    var i := 0;
    while i < |results|
      invariant 0 <= i <= |results|
      invariant |out| == i
      invariant forall j :: 0 <= j < i ==> Project(results[j]) == Some(out[j])
    {
      var item := Project(results[i]);
      if item.None? {
        return SearchServerError;
      }
      out := out + [item.value];
      i := i + 1;
    }
    reply := Results(out);
  }
}
