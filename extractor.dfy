/**
 * `extrair_coordenadas`: every coordinate pair in a free-text cell, as
 * signed decimal degrees (exact reals) and as rebuilt DMS strings.
 */
module Extractor {
  import opened Results
  import opened Text
  import opened Pattern

  /** One extracted point: the four fields the source's dictionary carries. */
  datatype Point = Point(latitude: real, longitude: real, latitudeDms: string, longitudeDms: string)

  /** The phrases that mean "no coordinates", compared after `strip().upper()`. */
  const Sentinels: seq<string> := ["N\U{C3}O CONSTA", "NAO CONSTA", "NOT INFORMED", ""]

  predicate IsSentinel(t: string) {
    Upper(Strip(t)) in Sentinels
  }

  /** The seconds token with its decimal commas turned into dots. */
  function Seconds(h: Half): (r: string)
    requires AllIn(SecondsChar, h.sec)
    ensures DigitsAndDots(r) && ',' !in r
  {
    Replace(h.sec, ',', '.')
  }

  /** `deg + min/60 + sec/3600`, negated when the hemisphere letter upper-cases to `negative`. */
  function Degrees(h: Half, sec: real, negative: string): real
    requires AllDigits(h.deg) && AllDigits(h.min)
  {
    var m := DigitsValue(h.deg) as real + DigitsValue(h.min) as real / 60.0 + sec / 3600.0;
    if Upper([h.hem]) == negative then -m else m
  }

  /** `f"{deg}º{min}'{sec}\"{hem}"` with the normalised seconds. */
  function Dms(h: Half): string
    requires AllIn(SecondsChar, h.sec)
  {
    h.deg + ("\U{BA}" + (h.min + ("'" + (Seconds(h) + ("\"" + [h.hem])))))
  }

  /**
   * The body of the loop over matches: `float` of the latitude seconds is
   * taken first, so a bad latitude token is the error reported.
   */
  function Convert(g: Groups): Result<Point>
    requires Shaped(g)
  {
    match ParseDecimal(Seconds(g.lat))
    case None => Failure(ValueError(Seconds(g.lat)))
    case Some(secLat) =>
      match ParseDecimal(Seconds(g.lon))
      case None => Failure(ValueError(Seconds(g.lon)))
      case Some(secLon) =>
        Success(Point(Degrees(g.lat, secLat, "S"), Degrees(g.lon, secLon, "W"), Dms(g.lat), Dms(g.lon)))
  }

  predicate AllShaped(gs: seq<Groups>) {
    forall k :: 0 <= k < |gs| ==> Shaped(gs[k])
  }

  /** The outcome of the loop body for each match, in order. */
  function Conversions(gs: seq<Groups>): (rs: seq<Result<Point>>)
    requires AllShaped(gs)
    ensures |rs| == |gs| && forall k :: 0 <= k < |gs| ==> rs[k] == Convert(gs[k])
  {
    seq(|gs|, k requires 0 <= k < |gs| => Convert(gs[k]))
  }

  /** `extrair_coordenadas(texto)`; `None` is a missing (`NaN`) cell. */
  function Extract(text: Option<string>): Result<seq<Point>> {
    match text
    case None => Success([])
    case Some(t) => if IsSentinel(t) then Success([]) else Collect(Conversions(FindAll(t)))
  }

  method ExtractCoordinates(text: Option<string>) returns (r: Result<seq<Point>>)
    ensures r == Extract(text)
  {
    if text.None? || IsSentinel(text.value) {
      return Success([]);
    }
    r := ConvertAll(FindAll(text.value));
  }

  /** The loop over the matches: converts each in turn, stopping at the first error. */
  method ConvertAll(matches: seq<Groups>) returns (r: Result<seq<Point>>)
    requires AllShaped(matches)
    ensures r == Collect(Conversions(matches))
  {
    ghost var outcomes := Conversions(matches);
    var results: seq<Point> := [];
    var k := 0;
    while k < |matches|
      invariant 0 <= k <= |matches|
      invariant Collect(outcomes[..k]) == Success(results)
    {
      var point := Convert(matches[k]);
      CollectSnoc(outcomes, k);
      if point.Failure? {
        FailureSticks(outcomes, k + 1);
        return Failure(point.error);
      }
      results := results + [point.value];
      k := k + 1;
    }
    assert outcomes[..k] == outcomes;
    return Success(results);
  }

  // ---------------------------------------------------------------------
  // Properties of the conversion

  /** The hemisphere letters the pattern admits are their own upper case. */
  lemma UpperHemisphere(c: char)
    requires InClass(LatHemisphere, c) || InClass(LonHemisphere, c)
    ensures Upper([c]) == [c]
  {
    assert [c][1..] == [];
  }

  /**
   * The unsigned value of a half, read independently of `float()`: the
   * seconds' digits without the dot, scaled by the digits after it.
   */
  ghost function Magnitude(h: Half): (m: real)
    requires AllDigits(h.deg) && AllDigits(h.min) && AllIn(SecondsChar, h.sec)
    requires IsDecimal(Seconds(h))
    ensures m >= 0.0
  {
    ParseDecimalSpec(Seconds(h));
    var sec := Seconds(h);
    var fraction := DigitsValue(DropDot(sec)) as real / Pow10(FractionDigits(sec)) as real;
    QuotientNonNegative(DigitsValue(DropDot(sec)), Pow10(FractionDigits(sec)));
    DigitsValue(h.deg) as real + DigitsValue(h.min) as real / 60.0 + fraction / 3600.0
  }

  lemma QuotientNonNegative(a: nat, b: nat)
    requires b >= 1
    ensures a as real / b as real >= 0.0
  {
  }

  /**
   * A match converts exactly when both normalised seconds tokens are
   * decimals; otherwise the conversion reports the first bad token. A
   * converted point carries `deg + min/60 + sec/3600`, negated for `S`
   * and for `W` only, and the two DMS strings.
   */
  lemma ConvertSpec(g: Groups)
    requires Shaped(g)
    ensures Convert(g).Success? <==> IsDecimal(Seconds(g.lat)) && IsDecimal(Seconds(g.lon))
    ensures !IsDecimal(Seconds(g.lat)) ==> Convert(g) == Failure(ValueError(Seconds(g.lat)))
    ensures IsDecimal(Seconds(g.lat)) && !IsDecimal(Seconds(g.lon)) ==>
      Convert(g) == Failure(ValueError(Seconds(g.lon)))
    ensures Convert(g).Success? ==>
      var p := Convert(g).value;
      && p.latitude == (if g.lat.hem == 'S' then -Magnitude(g.lat) else Magnitude(g.lat))
      && p.longitude == (if g.lon.hem == 'W' then -Magnitude(g.lon) else Magnitude(g.lon))
      && (g.lat.hem == 'N' ==> p.latitude >= 0.0) && (g.lat.hem == 'S' ==> p.latitude <= 0.0)
      && (g.lon.hem == 'O' ==> p.longitude >= 0.0) && (g.lon.hem == 'W' ==> p.longitude <= 0.0)
      && p.latitudeDms == Dms(g.lat) && p.longitudeDms == Dms(g.lon)
  {
    ConvertOutcome(g);
    if Convert(g).Success? {
      ConvertLatitude(g);
      ConvertLongitude(g);
    }
  }

  lemma ConvertOutcome(g: Groups)
    requires Shaped(g)
    ensures Convert(g).Success? <==> IsDecimal(Seconds(g.lat)) && IsDecimal(Seconds(g.lon))
    ensures !IsDecimal(Seconds(g.lat)) ==> Convert(g) == Failure(ValueError(Seconds(g.lat)))
    ensures IsDecimal(Seconds(g.lat)) && !IsDecimal(Seconds(g.lon)) ==>
      Convert(g) == Failure(ValueError(Seconds(g.lon)))
  {
    ParseDecimalSpec(Seconds(g.lat));
    ParseDecimalSpec(Seconds(g.lon));
  }

  lemma ConvertLatitude(g: Groups)
    requires Shaped(g) && Convert(g).Success?
    ensures IsDecimal(Seconds(g.lat))
    ensures var p := Convert(g).value;
      && p.latitude == (if g.lat.hem == 'S' then -Magnitude(g.lat) else Magnitude(g.lat))
      && p.latitudeDms == Dms(g.lat)
  {
    ConvertOutcome(g);
    HalfValue(g.lat, ParseDecimal(Seconds(g.lat)).value, "S");
  }

  lemma ConvertLongitude(g: Groups)
    requires Shaped(g) && Convert(g).Success?
    ensures IsDecimal(Seconds(g.lon))
    ensures var p := Convert(g).value;
      && p.longitude == (if g.lon.hem == 'W' then -Magnitude(g.lon) else Magnitude(g.lon))
      && p.longitudeDms == Dms(g.lon)
  {
    ConvertOutcome(g);
    HalfValue(g.lon, ParseDecimal(Seconds(g.lon)).value, "W");
  }

  /** One half's degrees, from the value `float()` gives its seconds, in terms of `Magnitude`. */
  lemma HalfValue(h: Half, sec: real, negative: string)
    requires AllDigits(h.deg) && AllDigits(h.min) && AllIn(SecondsChar, h.sec)
    requires InClass(LatHemisphere, h.hem) || InClass(LonHemisphere, h.hem)
    requires ParseDecimal(Seconds(h)).Some? && ParseDecimal(Seconds(h)).value == sec
    requires |negative| == 1
    ensures IsDecimal(Seconds(h))
    ensures Degrees(h, sec, negative) == if h.hem == negative[0] then -Magnitude(h) else Magnitude(h)
  {
    ParseDecimalSpec(Seconds(h));
    UpperHemisphere(h.hem);
    assert [h.hem] == negative <==> h.hem == negative[0];
  }

  /** Seconds written with a comma and with a dot give the same point. */
  lemma CommaOrDot(g1: Groups, g2: Groups)
    requires Shaped(g1) && Shaped(g2)
    requires g1.lat.deg == g2.lat.deg && g1.lat.min == g2.lat.min && g1.lat.hem == g2.lat.hem
    requires g1.lon.deg == g2.lon.deg && g1.lon.min == g2.lon.min && g1.lon.hem == g2.lon.hem
    requires Seconds(g1.lat) == Seconds(g2.lat) && Seconds(g1.lon) == Seconds(g2.lon)
    ensures Convert(g1) == Convert(g2)
  {
    var a, b := ParseDecimal(Seconds(g1.lat)), ParseDecimal(Seconds(g1.lon));
    if a.Some? && b.Some? {
      SameReading(g1.lat, g2.lat, a.value, "S");
      SameReading(g1.lon, g2.lon, b.value, "W");
    }
  }

  /** A half enters the point only through its degrees, minutes, letter and normalised seconds. */
  lemma SameReading(h1: Half, h2: Half, sec: real, negative: string)
    requires AllDigits(h1.deg) && AllDigits(h1.min) && AllIn(SecondsChar, h1.sec)
    requires AllIn(SecondsChar, h2.sec)
    requires h1.deg == h2.deg && h1.min == h2.min && h1.hem == h2.hem && Seconds(h1) == Seconds(h2)
    ensures Degrees(h1, sec, negative) == Degrees(h2, sec, negative) && Dms(h1) == Dms(h2)
  {
  }

  // ---------------------------------------------------------------------
  // Properties of the extractor

  lemma SentinelsHaveNoDigits(w: string, c: char)
    requires w in Sentinels && c in w
    ensures !IsDigit(c)
  {
  }

  /** No sentinel phrase holds a digit and every match starts with one, so a sentinel has no match. */
  lemma SentinelHasNoMatch(t: string)
    requires IsSentinel(t)
    ensures Scan(t, 0) == []
  {
    ScanSound(t, 0);
    if Scan(t, 0) != [] {
      var h := Scan(t, 0)[0];
      MatchStartsWithDigit(t, h.start, h.pieces);
      var d := t[h.start];
      StripKeeps(t, h.start);
      UpperKeepsDigits(Strip(t), d);
      SentinelsHaveNoDigits(Upper(Strip(t)), d);
      assert false;
    }
  }

  /**
   * The sentinel check never changes the result. A present text gives one
   * point per match of `Scan` (the leftmost non-overlapping matches), in
   * text order, when every match converts; no match gives no points;
   * otherwise the error is that of the first match that does not convert.
   */
  lemma ExtractMatches(t: string)
    ensures Extract(Some(t)) == Collect(Conversions(FindAll(t)))
    ensures Scan(t, 0) == [] ==> Extract(Some(t)) == Success([])
    ensures Extract(Some(t)).Success? <==>
      forall k :: 0 <= k < |FindAll(t)| ==> Convert(FindAll(t)[k]).Success?
    ensures Extract(Some(t)).Success? ==>
      var points := Extract(Some(t)).value;
      |points| == |Scan(t, 0)| &&
      forall k :: 0 <= k < |points| ==> Convert(FindAll(t)[k]) == Success(points[k])
    ensures Extract(Some(t)).Failure? ==>
      exists k :: 0 <= k < |FindAll(t)| && Convert(FindAll(t)[k]).Failure? &&
        Extract(Some(t)).error == Convert(FindAll(t)[k]).error &&
        (forall j :: 0 <= j < k ==> Convert(FindAll(t)[j]).Success?)
  {
    SentinelIrrelevant(t);
    CollectMatches(FindAll(t));
  }

  /** A sentinel has no match, so skipping it changes nothing. */
  lemma SentinelIrrelevant(t: string)
    ensures Extract(Some(t)) == Collect(Conversions(FindAll(t)))
  {
    if IsSentinel(t) {
      SentinelHasNoMatch(t);
    }
  }

  /** The loop's outcome over a sequence of matches, case by case. */
  lemma CollectMatches(gs: seq<Groups>)
    requires AllShaped(gs)
    ensures Collect(Conversions(gs)).Success? <==>
      forall k :: 0 <= k < |gs| ==> Convert(gs[k]).Success?
    ensures Collect(Conversions(gs)).Success? ==>
      |Collect(Conversions(gs)).value| == |gs| &&
      forall k :: 0 <= k < |gs| ==> Convert(gs[k]) == Success(Collect(Conversions(gs)).value[k])
    ensures Collect(Conversions(gs)).Failure? ==>
      exists k :: 0 <= k < |gs| && Convert(gs[k]).Failure? &&
        Collect(Conversions(gs)).error == Convert(gs[k]).error &&
        (forall j :: 0 <= j < k ==> Convert(gs[j]).Success?)
  {
    var rs := Conversions(gs);
    CollectSuccess(rs);
    if Collect(rs).Failure? {
      CollectFailure(rs);
    }
  }

  /**
   * A text without a digit yields no points, sentinel or not. Python's
   * `upper()` maps digits to themselves and no other character to an ASCII
   * digit, so every text Python takes for a sentinel is such a text.
   */
  lemma NoDigitNoPoints(t: string)
    requires forall k :: 0 <= k < |t| ==> !IsDigit(t[k])
    ensures Extract(Some(t)) == Success([])
  {
    NoDigitNoMatch(t);
    ExtractMatches(t);
  }

  /** Lower-case hemisphere letters are not recognised: without `N` or `S` there is nothing to extract. */
  lemma UpperCaseHemispheresOnly(t: string)
    requires 'N' !in t && 'S' !in t
    ensures Extract(Some(t)) == Success([])
  {
    NeedsHemisphereLetter(t);
    ExtractMatches(t);
  }

  /** A point's DMS strings end in the hemisphere letters the pattern admits, in upper case. */
  predicate HasPatternLetters(p: Point) {
    && |p.latitudeDms| >= 1 && (p.latitudeDms[|p.latitudeDms| - 1] == 'N' || p.latitudeDms[|p.latitudeDms| - 1] == 'S')
    && |p.longitudeDms| >= 1 && (p.longitudeDms[|p.longitudeDms| - 1] == 'W' || p.longitudeDms[|p.longitudeDms| - 1] == 'O')
  }

  /**
   * Every point carries the upper-case hemisphere letters of its match,
   * whatever else the text holds: a pair written with lower-case letters
   * is never extracted.
   */
  lemma HemisphereLettersKept(t: string)
    ensures Extract(Some(t)).Success? ==>
      forall k :: 0 <= k < |Extract(Some(t)).value| ==> HasPatternLetters(Extract(Some(t)).value[k])
  {
    if Extract(Some(t)).Success? {
      forall k | 0 <= k < |Extract(Some(t)).value| ensures HasPatternLetters(Extract(Some(t)).value[k]) {
        ExtractedPoint(t, k);
        PointLetters(FindAll(t)[k]);
      }
    }
  }

  /** The `k`-th point of a successful extraction is the conversion of the `k`-th match. */
  lemma ExtractedPoint(t: string, k: nat)
    requires Extract(Some(t)).Success? && k < |Extract(Some(t)).value|
    ensures k < |FindAll(t)| && Convert(FindAll(t)[k]) == Success(Extract(Some(t)).value[k])
  {
    ExtractMatches(t);
  }

  /** A converted point ends its DMS strings with the match's hemisphere letters. */
  lemma PointLetters(g: Groups)
    requires Shaped(g) && Convert(g).Success?
    ensures HasPatternLetters(Convert(g).value)
  {
    ConvertKeepsDms(g);
    DmsEndsWithLetter(g.lat);
    DmsEndsWithLetter(g.lon);
  }

  /** A converted point carries the two DMS strings of its match. */
  lemma ConvertKeepsDms(g: Groups)
    requires Shaped(g) && Convert(g).Success?
    ensures Convert(g).value.latitudeDms == Dms(g.lat) && Convert(g).value.longitudeDms == Dms(g.lon)
  {
  }

  /** A DMS string ends with its hemisphere letter. */
  lemma DmsEndsWithLetter(h: Half)
    requires AllIn(SecondsChar, h.sec)
    ensures |Dms(h)| >= 1 && Dms(h)[|Dms(h)| - 1] == h.hem
  {
  }

  /** The pieces of one half written `deg º min ' sec " hem`. */
  function HalfPieces(h: Half): seq<string> {
    [h.deg, "\U{BA}", h.min, "'", h.sec, "\"", "", [h.hem]]
  }

  lemma HalfPiecesFit(h: Half, hemisphere: Class, items: seq<Item>)
    requires HalfShape(h, hemisphere) && items == HalfItems(hemisphere)
    ensures PiecesFit(items, HalfPieces(h))
    ensures Concat(HalfPieces(h)) == h.deg + ("\U{BA}" + (h.min + ("'" + (h.sec + ("\"" + [h.hem])))))
  {
    ConcatHalf(HalfPieces(h));
  }

  /** A text that is one coordinate pair in that form, the halves joined by `sep`, yields exactly that pair's groups. */
  lemma DmsPiecesMatch(lat: Half, sep: string, lon: Half)
    requires HalfShape(lat, LatHemisphere) && HalfShape(lon, LonHemisphere) && AllIn(Separator, sep)
    ensures FindAll(Concat(HalfPieces(lat)) + sep + Concat(HalfPieces(lon))) == [Groups(lat, lon)]
  {
    var a, b := HalfPieces(lat), HalfPieces(lon);
    var ps := a + [sep] + b;
    HalfPiecesFit(lat, LatHemisphere, HalfItems(LatHemisphere));
    HalfPiecesFit(lon, LonHemisphere, HalfItems(LonHemisphere));
    PiecesFitConcat(HalfItems(LatHemisphere), [Item(Separator, 0, Unbounded)], HalfItems(LonHemisphere), a, [sep], b);
    ConcatPair(a, sep, b);
    SingleMatch(Concat(ps), ps);
    assert ps[0] == lat.deg && ps[2] == lat.min && ps[4] == lat.sec && ps[7] == [lat.hem];
    assert ps[9] == lon.deg && ps[11] == lon.min && ps[13] == lon.sec && ps[16] == [lon.hem];
  }

  /** The groups with both seconds tokens normalised, as the DMS strings carry them. */
  function Normalised(g: Groups): (n: Groups)
    requires Shaped(g)
    ensures Shaped(n)
  {
    Groups(Half(g.lat.deg, g.lat.min, Seconds(g.lat), g.lat.hem),
           Half(g.lon.deg, g.lon.min, Seconds(g.lon), g.lon.hem))
  }

  /** A point's DMS strings spell its normalised groups, which convert to the same point. */
  lemma DmsSpellsGroups(g: Groups)
    requires Shaped(g) && Convert(g).Success?
    ensures Convert(Normalised(g)) == Convert(g)
    ensures var p, n := Convert(g).value, Normalised(g);
      p.latitudeDms + " " + p.longitudeDms == Concat(HalfPieces(n.lat)) + " " + Concat(HalfPieces(n.lon))
  {
    var n := Normalised(g);
    ReplaceIdempotent(g.lat.sec, ',', '.');
    ReplaceIdempotent(g.lon.sec, ',', '.');
    HalfPiecesFit(n.lat, LatHemisphere, HalfItems(LatHemisphere));
    HalfPiecesFit(n.lon, LonHemisphere, HalfItems(LonHemisphere));
    CommaOrDot(g, n);
  }

  /** Extracting from a point's own DMS strings, space-separated, gives back that point. */
  lemma DmsRoundTrip(g: Groups)
    requires Shaped(g) && Convert(g).Success?
    ensures var p := Convert(g).value;
      Extract(Some(p.latitudeDms + " " + p.longitudeDms)) == Success([p])
  {
    var p, n := Convert(g).value, Normalised(g);
    DmsSpellsGroups(g);
    assert HalfShape(n.lat, LatHemisphere) && HalfShape(n.lon, LonHemisphere);
    assert AllIn(Separator, " ") by { assert InClass(Separator, " "[0]); }
    SinglePair(n.lat, " ", n.lon);
    CollectOne(p);
  }

  /** A text that is one coordinate pair in DMS form gives that pair's conversion alone. */
  lemma SinglePair(lat: Half, sep: string, lon: Half)
    requires HalfShape(lat, LatHemisphere) && HalfShape(lon, LonHemisphere) && AllIn(Separator, sep)
    ensures Shaped(Groups(lat, lon))
    ensures Extract(Some(Concat(HalfPieces(lat)) + sep + Concat(HalfPieces(lon))))
         == Collect([Convert(Groups(lat, lon))])
  {
    DmsPiecesMatch(lat, sep, lon);
    ExtractMatches(Concat(HalfPieces(lat)) + sep + Concat(HalfPieces(lon)));
    assert Conversions([Groups(lat, lon)]) == [Convert(Groups(lat, lon))];
  }
}
