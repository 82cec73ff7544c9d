/**
 * The dynamic cost modifier: a global weather condition plus per-tile
 * overrides, and the rule that scales an edge's base weight by the mean of
 * its two endpoints' multipliers. Java doubles are modelled as reals.
 */
module WeatherSystem {

  datatype Weather = Clear | Rain | Snow | Storm | Fog | Muddy

  /** The movement penalty of each condition. */
  function Multiplier(w: Weather): (m: real)
    ensures m >= 1.0
    ensures m == 1.0 <==> w == Clear
  {
    match w
    case Clear => 1.0
    case Rain => 1.5
    case Snow => 2.0
    case Storm => 2.5
    case Fog => 1.3
    case Muddy => 1.8
  }

  /** The largest penalty in the table. */
  const MaxMultiplier: real := 2.5

  /** `tiles` holds the per-tile overrides, `global` the weather everywhere else. */
  datatype WeatherSystem = WeatherSystem(tiles: map<int, Weather>, global: Weather)

  /** The weather a tile experiences: its override if it has one, else the global weather. */
  function GetWeather(ws: WeatherSystem, tile: int): (w: Weather)
    ensures tile in ws.tiles ==> w == ws.tiles[tile]
    ensures tile !in ws.tiles ==> w == ws.global
  {
    if tile in ws.tiles then ws.tiles[tile] else ws.global
  }

  function GetWeatherMultiplier(ws: WeatherSystem, tile: int): (m: real)
    ensures 1.0 <= m <= MaxMultiplier
    ensures m == 1.0 <==> GetWeather(ws, tile) == Clear
  {
    Multiplier(GetWeather(ws, tile))
  }

  /**
   * Some non-clear condition is in force, globally or on an override; that is,
   * some tile experiences non-clear weather.
   */
  predicate HasActiveWeather(ws: WeatherSystem): (b: bool)
    ensures b <==> exists t :: GetWeather(ws, t) != Clear
  {
    SomeTileFeelsIt(ws);
    ws.global != Clear || exists t :: t in ws.tiles && ws.tiles[t] != Clear
  }

  /** Clear weather everywhere. */
  function New(): (ws: WeatherSystem)
    ensures forall t :: GetWeather(ws, t) == Clear && GetWeatherMultiplier(ws, t) == 1.0
    ensures !HasActiveWeather(ws)
  {
    WeatherSystem(map[], Clear)
  }

  /** Sets the global weather and discards every tile override. */
  function SetGlobalWeather(ws: WeatherSystem, w: Weather): (r: WeatherSystem)
    ensures forall t :: GetWeather(r, t) == w && GetWeatherMultiplier(r, t) == Multiplier(w)
    ensures HasActiveWeather(r) <==> w != Clear
  {
    WeatherSystem(map[], w)
  }

  /** Overrides one tile; every other tile keeps what it had. */
  function SetTileWeather(ws: WeatherSystem, tile: int, w: Weather): (r: WeatherSystem)
    ensures GetWeather(r, tile) == w
    ensures forall t :: t != tile ==> GetWeather(r, t) == GetWeather(ws, t)
    ensures r.global == ws.global
  {
    ws.(tiles := ws.tiles[tile := w])
  }

  /** Overrides each listed tile in turn. */
  function ApplyWeatherFront(ws: WeatherSystem, affected: seq<int>, w: Weather): (r: WeatherSystem)
    ensures forall t :: t in affected ==> GetWeather(r, t) == w
    ensures forall t :: t !in affected ==> GetWeather(r, t) == GetWeather(ws, t)
    ensures r.global == ws.global
    decreases |affected|
  {
    if affected == [] then ws
    else ApplyWeatherFront(SetTileWeather(ws, affected[0], w), affected[1..], w)
  }

  /** Back to clear weather everywhere. */
  function ClearAllWeather(ws: WeatherSystem): (r: WeatherSystem)
    ensures r == New()
    ensures forall t :: GetWeather(r, t) == Clear
    ensures !HasActiveWeather(r)
  {
    WeatherSystem(map[], Clear)
  }

  /** The base weight scaled by the mean of the two endpoints' multipliers. */
  function ApplyWeatherToEdge(ws: WeatherSystem, baseWeight: real, source: int, target: int): (r: real)
    ensures GetWeather(ws, source) == Clear && GetWeather(ws, target) == Clear ==> r == baseWeight
    ensures baseWeight >= 0.0 ==> baseWeight <= r <= MaxMultiplier * baseWeight
  {
    var sm := GetWeatherMultiplier(ws, source);
    var tm := GetWeatherMultiplier(ws, target);
    baseWeight * ((sm + tm) / 2.0)
  }

  // ---------------------------------------------------------------------------
  // Properties

  lemma ApplyWeatherToEdgeSymmetric(ws: WeatherSystem, b: real, s: int, t: int)
    ensures ApplyWeatherToEdge(ws, b, s, t) == ApplyWeatherToEdge(ws, b, t, s)
  {
  }

  /** Under one uniform condition every edge costs its base weight times that condition's penalty. */
  lemma UniformWeatherScales(w: Weather, b: real, s: int, t: int)
    ensures ApplyWeatherToEdge(SetGlobalWeather(New(), w), b, s, t) == b * Multiplier(w)
  {
  }

  /** A tile id outside any finite set of overrides. */
  lemma {:induction false} FreshTile(s: set<int>) returns (t: int)
    ensures t !in s
    ensures forall x :: x in s ==> x < t
    decreases |s|
  {
    if s == {} {
      t := 0;
    } else {
      assert (forall y :: y !in s) ==> s == {};
      var x :| x in s;
      var t' := FreshTile(s - {x});
      t := if t' > x then t' else x + 1;
      forall y | y in s
        ensures y < t
      {
        if y != x {
          assert y in s - {x};
        }
      }
    }
  }

  /**
   * A non-clear condition in force is felt on some tile: the overrides cover
   * only finitely many tiles, so a non-clear global condition reaches a tile
   * without an override.
   */
  lemma SomeTileFeelsIt(ws: WeatherSystem)
    ensures (ws.global != Clear || exists t :: t in ws.tiles && ws.tiles[t] != Clear)
            ==> exists t :: GetWeather(ws, t) != Clear
  {
    if ws.global != Clear {
      var t := FreshTile(ws.tiles.Keys);
      assert GetWeather(ws, t) != Clear;
    } else if exists t :: t in ws.tiles && ws.tiles[t] != Clear {
      var t :| t in ws.tiles && ws.tiles[t] != Clear;
      assert GetWeather(ws, t) != Clear;
    }
  }
}
