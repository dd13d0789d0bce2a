/**
 * Worked inputs of `extrair_coordenadas`, each proved to give the stated
 * result: the example pair quoted next to the pattern, a seconds token the
 * pattern admits but `float` rejects, lower-case hemisphere letters, and a
 * blank cell.
 */
module Scenarios {
  import opened Results
  import opened Text
  import opened Pattern
  import opened Extractor

  /** A text holding exactly one coordinate pair, spelled piece by piece, converts that pair alone. */
  lemma OnePair(lat: Half, sep: string, lon: Half, s: string)
    requires HalfShape(lat, LatHemisphere) && HalfShape(lon, LonHemisphere) && AllIn(Separator, sep)
    requires s == lat.deg + ("\U{BA}" + (lat.min + ("'" + (lat.sec + ("\"" + [lat.hem])))))
      + sep + (lon.deg + ("\U{BA}" + (lon.min + ("'" + (lon.sec + ("\"" + [lon.hem]))))))
    ensures Extract(Some(s)) == Collect([Convert(Groups(lat, lon))])
  {
    HalfPiecesFit(lat, LatHemisphere, HalfItems(LatHemisphere));
    HalfPiecesFit(lon, LonHemisphere, HalfItems(LonHemisphere));
    SinglePair(lat, sep, lon);
  }

  /** Reading a four-digit string one digit at a time. */
  lemma FourDigits(s: string, n: nat)
    requires |s| == 4 && AllDigits(s)
    requires n == DigitValue(s[0]) * 1000 + DigitValue(s[1]) * 100 + DigitValue(s[2]) * 10 + DigitValue(s[3])
    ensures DigitsValue(s) == n
  {
    assert s[..3][..2] == s[..2] && s[..2][..1] == s[..1] && s[..1][..0] == [];
    assert DigitsValue(s[..1]) == DigitValue(s[0]);
    assert DigitsValue(s[..2]) == DigitValue(s[0]) * 10 + DigitValue(s[1]);
    assert DigitsValue(s[..3]) == DigitsValue(s[..2]) * 10 + DigitValue(s[2]);
    assert DigitsValue(s) == DigitsValue(s[..3]) * 10 + DigitValue(s[3]);
  }

  /** `"w,f".replace(",", ".")` is `"w.f"` when `w` and `f` are digit strings. */
  lemma CommaSeconds(w: string, f: string)
    requires AllDigits(w) && AllDigits(f)
    ensures AllIn(SecondsChar, w + "," + f)
    ensures Replace(w + "," + f, ',', '.') == w + "." + f
  {
    var s, r := w + "," + f, Replace(w + "," + f, ',', '.');
    forall k | 0 <= k < |s| ensures r[k] == (w + "." + f)[k] && InClass(SecondsChar, s[k]) {
      if k < |w| { assert IsDigit(w[k]); } else if k > |w| { assert IsDigit(f[k - |w| - 1]); }
    }
  }

  /** `float` of `w.f` for a four-digit `f`. */
  lemma ReadFourPlaces(t: string, w: string, f: string, v: real)
    requires AllDigits(w) && AllDigits(f) && w != [] && |f| == 4 && t == w + "." + f
    requires v == DigitsValue(w) as real + DigitsValue(f) as real / 10000.0
    ensures DigitsAndDots(t) && ParseDecimal(t).Some? && ParseDecimal(t).value == v
  {
    FourPlaces(f);
    SameQuotient(DigitsValue(f) as real, Pow10(|f|) as real, 10000.0);
    ParseDotted(w, f);
  }

  lemma FourPlaces(f: string)
    requires |f| == 4
    ensures Pow10(|f|) as real == 10000.0
  {
    assert Pow10(4) == 10000;
  }

  lemma SameQuotient(b: real, p: real, q: real)
    requires p == q && q != 0.0
    ensures b / p == b / q
  {
  }

  /** A match whose two seconds tokens read as `a` and `b` converts to the point they give. */
  lemma ConvertRead(g: Groups, a: real, b: real)
    requires Shaped(g)
    requires ParseDecimal(Seconds(g.lat)).Some? && ParseDecimal(Seconds(g.lat)).value == a
    requires ParseDecimal(Seconds(g.lon)).Some? && ParseDecimal(Seconds(g.lon)).value == b
    ensures Convert(g) == Success(Point(Degrees(g.lat, a, "S"), Degrees(g.lon, b, "W"), Dms(g.lat), Dms(g.lon)))
  {
  }

  /**
   * The pair quoted next to the pattern, `3º03'52,9838"S e 59º54'46,6013"W`.
   * Each seconds token is kept as its digits around the comma.
   */
  const CommentText := "3\U{BA}03'52,9838\"S e 59\U{BA}54'46,6013\"W"
  const CommentLat := Half("3", "03", "52" + "," + "9838", 'S')
  const CommentLon := Half("59", "54", "46" + "," + "6013", 'W')
  const CommentPoint := Point(
    -(3.0 + 3.0 / 60.0 + 52.9838 / 3600.0), -(59.0 + 54.0 / 60.0 + 46.6013 / 3600.0),
    "3\U{BA}03'52.9838\"S", "59\U{BA}54'46.6013\"W")

  lemma CommentLatText()
    ensures AllIn(SecondsChar, CommentLat.sec) && Seconds(CommentLat) == "52" + "." + "9838"
  {
    CommaSeconds("52", "9838");
  }

  lemma CommentLatSeconds()
    ensures AllIn(SecondsChar, CommentLat.sec) && Seconds(CommentLat) == "52" + "." + "9838"
    ensures DigitsAndDots(Seconds(CommentLat))
    ensures ParseDecimal(Seconds(CommentLat)).Some? && ParseDecimal(Seconds(CommentLat)).value == 52.9838
  {
    assert DigitsValue("52") == 52;
    FourDigits("9838", 9838);
    CommentLatText();
    ReadFourPlaces(Seconds(CommentLat), "52", "9838", 52.9838);
  }

  lemma CommentLonText()
    ensures AllIn(SecondsChar, CommentLon.sec) && Seconds(CommentLon) == "46" + "." + "6013"
  {
    CommaSeconds("46", "6013");
  }

  lemma CommentLonSeconds()
    ensures AllIn(SecondsChar, CommentLon.sec) && Seconds(CommentLon) == "46" + "." + "6013"
    ensures DigitsAndDots(Seconds(CommentLon))
    ensures ParseDecimal(Seconds(CommentLon)).Some? && ParseDecimal(Seconds(CommentLon)).value == 46.6013
  {
    assert DigitsValue("46") == 46;
    FourDigits("6013", 6013);
    CommentLonText();
    ReadFourPlaces(Seconds(CommentLon), "46", "6013", 46.6013);
  }

  lemma CommentLatDms()
    ensures AllIn(SecondsChar, CommentLat.sec) && Dms(CommentLat) == CommentPoint.latitudeDms
  {
    CommentLatText();
  }

  lemma CommentLonDms()
    ensures AllIn(SecondsChar, CommentLon.sec) && Dms(CommentLon) == CommentPoint.longitudeDms
  {
    CommentLonText();
  }

  /** `S` negates the latitude. */
  lemma CommentLatDegrees()
    ensures Degrees(CommentLat, 52.9838, "S") == CommentPoint.latitude
  {
    UpperHemisphere('S');
    assert DigitsValue("3") == 3 && DigitsValue("03") == 3;
  }

  /** `W` negates the longitude. */
  lemma CommentLonDegrees()
    ensures Degrees(CommentLon, 46.6013, "W") == CommentPoint.longitude
  {
    UpperHemisphere('W');
    assert DigitsValue("59") == 59 && DigitsValue("54") == 54;
  }

  /** The text is the two halves' pieces around the separator ` e `. */
  lemma CommentSpelling()
    ensures CommentText
         == CommentLat.deg + ("\U{BA}" + (CommentLat.min + ("'" + (CommentLat.sec + ("\"" + [CommentLat.hem])))))
          + " e " + (CommentLon.deg + ("\U{BA}" + (CommentLon.min + ("'" + (CommentLon.sec + ("\"" + [CommentLon.hem]))))))
  {
  }

  lemma CommentShaped()
    ensures Shaped(Groups(CommentLat, CommentLon))
  {
    CommentLatSeconds();
    CommentLonSeconds();
  }

  lemma CommentConverts()
    ensures Shaped(Groups(CommentLat, CommentLon))
    ensures Convert(Groups(CommentLat, CommentLon)) == Success(CommentPoint)
  {
    CommentShaped();
    CommentLatSeconds();
    CommentLonSeconds();
    ConvertRead(Groups(CommentLat, CommentLon), 52.9838, 46.6013);
    CommentLatDms();
    CommentLonDms();
    CommentLatDegrees();
    CommentLonDegrees();
  }

  /**
   * The quoted pair gives one point: both halves negative (`S`, `W`), the
   * seconds written back with a dot.
   */
  lemma CommentExample()
    ensures Extract(Some(CommentText)) == Success([CommentPoint])
  {
    CommentShaped();
    assert AllIn(Separator, " e ");
    CommentSpelling();
    OnePair(CommentLat, " e ", CommentLon, CommentText);
    CommentConverts();
    CollectOne(CommentPoint);
  }

  /**
   * Seconds written `1,2,3` are admitted by the pattern, become `1.2.3`,
   * and `float` rejects them: the whole call fails with that token.
   */
  const ListText := "1\U{BA}2'1,2,3\"N 1\U{BA}2'3\"O"
  const ListLat := Half("1", "2", "1,2,3", 'N')
  const ListLon := Half("1", "2", "3", 'O')

  lemma ListSpelling()
    ensures ListText
         == ListLat.deg + ("\U{BA}" + (ListLat.min + ("'" + (ListLat.sec + ("\"" + [ListLat.hem])))))
          + " " + (ListLon.deg + ("\U{BA}" + (ListLon.min + ("'" + (ListLon.sec + ("\"" + [ListLon.hem]))))))
  {
  }

  lemma ListSeconds()
    ensures Shaped(Groups(ListLat, ListLon)) && Seconds(ListLat) == "1.2.3"
  {
    assert AllIn(SecondsChar, ListLat.sec) && AllIn(SecondsChar, ListLon.sec);
    var t := Seconds(ListLat);
    assert |t| == 5 && t[0] == '1' && t[1] == '.' && t[2] == '2' && t[3] == '.' && t[4] == '3';
  }

  lemma ListRejected()
    ensures DigitsAndDots("1.2.3") && ParseDecimal("1.2.3").None?
  {
    var t := "1.2.3";
    assert t[..1] == "1" && t[2..] == "2.3" && t[2..][1] == '.';
    assert IndexOf(t, '.') == 1;
  }

  lemma ListFails()
    ensures Shaped(Groups(ListLat, ListLon))
    ensures Convert(Groups(ListLat, ListLon)) == Failure(ValueError("1.2.3"))
  {
    ListSeconds();
    ListRejected();
  }

  lemma ListMatch()
    ensures Shaped(Groups(ListLat, ListLon))
    ensures Extract(Some(ListText)) == Collect([Convert(Groups(ListLat, ListLon))])
  {
    ListSeconds();
    assert AllIn(Separator, " ");
    ListSpelling();
    OnePair(ListLat, " ", ListLon, ListText);
  }

  lemma ListExample()
    ensures Extract(Some(ListText)) == Failure(ValueError("1.2.3"))
  {
    ListMatch();
    ListFails();
    CollectOneFailure<Point>(ValueError("1.2.3"));
  }

  /** Lower-case hemisphere letters are not matched: the text yields no point. */
  lemma LowerCaseExample()
    ensures Extract(Some("3\U{BA}03'52,9838\"s e 59\U{BA}54'46,6013\"w")) == Success([])
  {
    UpperCaseHemispheresOnly("3\U{BA}03'52,9838\"s e 59\U{BA}54'46,6013\"w");
  }

  /** A blank cell strips to the empty sentinel and yields no point. */
  lemma BlankExample()
    ensures Extract(Some(" \t\n")) == Success([])
  {
    var s := " \t\n";
    assert StripLeft(s) == [] by { assert s[1..] == "\t\n" && s[1..][1..] == "\n" && s[1..][1..][1..] == []; }
    assert Upper(Strip(s)) == "";
  }
}
