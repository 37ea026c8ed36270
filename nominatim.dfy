/** Normalisation of replies from the Nominatim geocoding service
    (api/utils/nominatim.py). The HTTP round trip itself is a parameter:
    a Fetch says what it produced. */
module Nominatim {
  import opened Wrappers
  import opened Json
  import opened Text

  /** Outcome of the HTTP round trip made by `_request`: the decoded body
      (JNull for an empty body) or the text of a transport, HTTP or
      decoding failure. */
  datatype Fetch = Decoded(body: Json) | Failed(message: string)

  /** The pair (data, error) that `_request`, `reverse_geocode` return;
      JNull stands for None. */
  datatype Reply = Reply(result: Json, err: Json)

  const EmptyReplyMessage: string := "Пустой ответ от Nominatim"

  /** The keys of an OSM address object that make up a street address, in order. */
  const OsmKeys: seq<string> := ["house_number", "road", "city", "state", "country"]

  predicate HasErrorKey(v: Json) {
    v.JDict? && "error" in v.fields
  }

  /** `_request`: a decoded dict carrying an "error" key becomes an error
      (its value); any other decoded value is the result; a failure is an
      error message. */
  function Request(f: Fetch): (r: Reply)
    ensures r.result == JNull || (f.Decoded? && r.result == f.body)
    ensures !HasErrorKey(r.result)
    ensures r.result != JNull ==> r.err == JNull
    ensures f.Decoded? && HasErrorKey(f.body) ==> r == Reply(JNull, f.body.fields["error"])
    ensures f.Decoded? && !HasErrorKey(f.body) ==> r == Reply(f.body, JNull)
    ensures f.Failed? ==> r == Reply(JNull, JStr(f.message))
  {
    match f
    case Failed(msg) => Reply(JNull, JStr(msg))
    case Decoded(v) => if HasErrorKey(v) then Reply(JNull, v.fields["error"]) else Reply(v, JNull)
  }

  /** `reverse_geocode`: classifies the shape of the reply. A truthy error is
      passed on, a dict is the data, a non-empty list gives its first element,
      anything else is the "empty reply" error. */
  function ReverseGeocode(f: Fetch): (r: Reply)
    // never both data and error
    ensures r.result == JNull || r.err == JNull
    ensures f.Failed? && f.message != "" ==> r == Reply(JNull, JStr(f.message))
    ensures f.Decoded? && HasErrorKey(f.body) && Truthy(f.body.fields["error"]) ==>
              r == Reply(JNull, f.body.fields["error"])
    ensures f.Decoded? && f.body.JDict? && !HasErrorKey(f.body) ==> r == Reply(f.body, JNull)
    ensures f.Decoded? && f.body.JList? && f.body.items != [] ==> r == Reply(f.body.items[0], JNull)
    // every remaining shape: a failure with an empty message, an error key
    // with a falsy value, an empty list, a scalar or an empty body
    ensures !(f.Failed? && f.message != "")
         && !(f.Decoded? && HasErrorKey(f.body) && Truthy(f.body.fields["error"]))
         && !(f.Decoded? && f.body.JDict? && !HasErrorKey(f.body))
         && !(f.Decoded? && f.body.JList? && f.body.items != [])
         ==> r == Reply(JNull, JStr(EmptyReplyMessage))
  {
    var rep := Request(f);
    if Truthy(rep.err) then Reply(JNull, rep.err)
    else if rep.result.JDict? && "error" !in rep.result.fields then Reply(rep.result, JNull)
    else if rep.result.JList? && rep.result.items != [] then Reply(rep.result.items[0], JNull)
    else Reply(JNull, JStr(EmptyReplyMessage))
  }

  /** `search`: the decoded list itself, or [] on any error or other shape. */
  function Search(f: Fetch): (r: seq<Json>)
    ensures r == (if f.Decoded? && f.body.JList? then f.body.items else [])
  {
    var rep := Request(f);
    if Truthy(rep.err) || !rep.result.JList? then [] else rep.result.items
  }

  /** The str() of the truthy values among `keys`, in the order of `keys`. */
  function Components(m: map<string, Json>, keys: seq<string>): (r: seq<string>)
    ensures |r| <= |keys|
    decreases |keys|
  {
    if keys == [] then []
    else
      var k := keys[|keys| - 1];
      Components(m, keys[..|keys| - 1]) + Part(m, k)
  }

  /** The component a single key contributes: [str(value)] when its value is truthy. */
  function Part(m: map<string, Json>, k: string): seq<string> {
    if Truthy(Get(m, k)) then [Str(Get(m, k))] else []
  }

  /** `build_address_from_osm` as a value: "" for an empty dict, the
      ", "-joined components when there are any, else the dict's own
      "display_name" entry (or ""). */
  function AddressFromOsm(m: map<string, Json>): Json {
    if m == map[] then JStr("")
    else
      var parts := Components(m, OsmKeys);
      if parts != [] then JStr(Join(", ", parts)) else GetOr(m, "display_name", JStr(""))
  }

  /** Adding one key at the end adds that key's component at the end. */
  lemma ComponentsSnoc(m: map<string, Json>, keys: seq<string>, k: string)
    ensures Components(m, keys + [k]) == Components(m, keys) + Part(m, k)
  {
    assert (keys + [k])[..|keys|] == keys;
  }

  /** The components are the truthy ones among house_number, road, city,
      state and country, in exactly that order. */
  lemma {:induction false} ComponentsInOrder(m: map<string, Json>)
    ensures Components(m, OsmKeys) ==
      Part(m, "house_number") + Part(m, "road") + Part(m, "city") + Part(m, "state") + Part(m, "country")
  {
    var k1: seq<string> := ["house_number"];
    var k2 := k1 + ["road"];
    var k3 := k2 + ["city"];
    var k4 := k3 + ["state"];
    var k5 := k4 + ["country"];
    var h, r, c, s, n := Part(m, "house_number"), Part(m, "road"), Part(m, "city"), Part(m, "state"), Part(m, "country");
    ComponentsSnoc(m, [], "house_number");
    assert [] + ["house_number"] == k1;
    assert Components(m, k1) == h;
    ComponentsSnoc(m, k1, "road");
    assert Components(m, k2) == h + r;
    ComponentsSnoc(m, k2, "city");
    assert Components(m, k3) == h + r + c;
    ComponentsSnoc(m, k3, "state");
    assert Components(m, k4) == h + r + c + s;
    ComponentsSnoc(m, k4, "country");
    assert Components(m, k5) == h + r + c + s + n;
    assert k5 == OsmKeys;
  }

  /** Every component is non-empty. */
  lemma {:induction false} ComponentsNonEmpty(m: map<string, Json>, keys: seq<string>)
    ensures forall i :: 0 <= i < |Components(m, keys)| ==> Components(m, keys)[i] != ""
    decreases |keys|
  {
    if keys != [] { ComponentsNonEmpty(m, keys[..|keys| - 1]); }
  }

  /** There are no components exactly when none of the five keys holds a truthy value. */
  lemma {:induction false} ComponentsEmptyIff(m: map<string, Json>)
    ensures Components(m, OsmKeys) == [] <==> forall k :: k in OsmKeys ==> !Truthy(Get(m, k))
  {
    ComponentsInOrder(m);
  }

  /** An empty dict gives "". */
  lemma AddressFromEmpty()
    ensures AddressFromOsm(map[]) == JStr("")
  {
  }

  /** When some address key holds a truthy value the result is the non-empty
      join, starting with the first such component; otherwise it is the
      dict's "display_name" entry, or "". */
  lemma {:induction false} AddressFromOsmShape(m: map<string, Json>)
    ensures var parts := Components(m, OsmKeys);
      && (m != map[] && parts != [] ==>
            AddressFromOsm(m).JStr? && AddressFromOsm(m).s != "" && parts[0] <= AddressFromOsm(m).s)
      && (m != map[] && parts == [] ==> AddressFromOsm(m) == GetOr(m, "display_name", JStr("")))
  {
    var parts := Components(m, OsmKeys);
    if parts != [] {
      ComponentsNonEmpty(m, OsmKeys);
      JoinStartsWithFirst(", ", parts);
    }
  }

  /** `build_address_from_osm` as the source writes it: a loop that appends
      str(value) for each truthy address key, then joins. */
  method BuildAddress(m: map<string, Json>) returns (r: Json)
    ensures r == AddressFromOsm(m)
  {
    if m == map[] {
      return JStr("");
    }
    var parts: seq<string> := [];
    var i := 0;
    while i < |OsmKeys|
      invariant 0 <= i <= |OsmKeys|
      invariant parts == Components(m, OsmKeys[..i])
    {
      var val := Get(m, OsmKeys[i]);
      if Truthy(val) {
        parts := parts + [Str(val)];
      }
      assert OsmKeys[..i + 1][..i] == OsmKeys[..i];
      i := i + 1;
    }
    assert OsmKeys[..i] == OsmKeys;
    if parts != [] {
      r := JStr(Join(", ", parts));
    } else {
      r := GetOr(m, "display_name", JStr(""));
    }
  }

  /** `data.get("address", {}) or {}`: the address dict of a reply dict, or
      None when it is something other than a dict (the source then fails
      with an attribute error at the first `.get`). */
  function AddressObject(d: map<string, Json>): (r: Option<map<string, Json>>)
    ensures !Truthy(Get(d, "address")) ==> r == Some(map[])
    ensures Get(d, "address").JDict? ==> r == Some(Get(d, "address").fields)
    ensures r.None? <==> Truthy(Get(d, "address")) && !Get(d, "address").JDict?
  {
    var a := Or(GetOr(d, "address", JDict(map[])), JDict(map[]));
    if a.JDict? then Some(a.fields) else None
  }

  /** city → town → village, as `a or b or c`. */
  function CityOf(addr: map<string, Json>): (r: Json)
    ensures Truthy(Get(addr, "city")) ==> r == Get(addr, "city")
    ensures !Truthy(Get(addr, "city")) && Truthy(Get(addr, "town")) ==> r == Get(addr, "town")
    ensures !Truthy(Get(addr, "city")) && !Truthy(Get(addr, "town")) ==> r == Get(addr, "village")
  {
    Or(Or(Get(addr, "city"), Get(addr, "town")), Get(addr, "village"))
  }

  /** state → region, as `a or b`. */
  function StateOf(addr: map<string, Json>): (r: Json)
    ensures Truthy(Get(addr, "state")) ==> r == Get(addr, "state")
    ensures !Truthy(Get(addr, "state")) ==> r == Get(addr, "region")
  {
    Or(Get(addr, "state"), Get(addr, "region"))
  }

  /** The dict `parse_reverse_response` builds. Latitude and longitude are
      the raw reply values (the float conversion is not modelled). */
  datatype Fields = Fields(latitude: Json, longitude: Json, address: Json,
                           city: Json, street: Json, house: Json, state: Json)

  /** Result of `parse_reverse_response`: {} for falsy data, the parsed
      fields, or a failure when the data or its address is not a dict. */
  datatype Parse = EmptyParse | Parsed(fields: Fields) | ParseFailure

  function ParseReverse(data: Json): (r: Parse)
    ensures !Truthy(data) <==> r == EmptyParse
    ensures r == ParseFailure <==>
      Truthy(data) && (!data.JDict? || AddressObject(data.fields).None?)
    ensures r.Parsed? ==> (data.JDict? && AddressObject(data.fields).Some? &&
      var d, addr := data.fields, AddressObject(data.fields).value;
      var built := AddressFromOsm(addr);
      && r.fields.address == (if Truthy(built) then built else GetOr(d, "display_name", JStr("")))
      && r.fields.city == CityOf(addr)
      && r.fields.state == StateOf(addr)
      && r.fields.street == Get(addr, "road")
      && r.fields.house == Get(addr, "house_number")
      && r.fields.latitude == GetOr(d, "lat", JInt(0))
      && r.fields.longitude == GetOr(d, "lon", JInt(0)))
  {
    if !Truthy(data) then EmptyParse
    else if !data.JDict? then ParseFailure
    else match AddressObject(data.fields)
      case None => ParseFailure
      case Some(addr) =>
        var d := data.fields;
        Parsed(Fields(
          GetOr(d, "lat", JInt(0)),
          GetOr(d, "lon", JInt(0)),
          Or(AddressFromOsm(addr), GetOr(d, "display_name", JStr(""))),
          CityOf(addr),
          Get(addr, "road"),
          Get(addr, "house_number"),
          StateOf(addr)))
  }

  /** The parsed address is the built address string whenever some address
      component is truthy, and otherwise the address dict's own display_name
      when truthy, else the reply's top-level display_name (or ""). */
  lemma {:induction false} ParsedAddressFallback(d: map<string, Json>, addr: map<string, Json>)
    requires Truthy(JDict(d)) && AddressObject(d) == Some(addr)
    ensures ParseReverse(JDict(d)).Parsed?
    ensures var a := ParseReverse(JDict(d)).fields.address;
      && (Components(addr, OsmKeys) != [] ==> a.JStr? && a.s == Join(", ", Components(addr, OsmKeys)) && a.s != "")
      && (Components(addr, OsmKeys) == [] && Truthy(Get(addr, "display_name")) ==> a == Get(addr, "display_name"))
      && (Components(addr, OsmKeys) == [] && !Truthy(Get(addr, "display_name")) ==> a == GetOr(d, "display_name", JStr("")))
  {
    AddressFromOsmShape(addr);
    ComponentsEmptyIff(addr);
  }
}
