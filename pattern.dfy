/**
 * The coordinate-pair pattern of the extractor (a latitude half: one to
 * three degree digits, a degree mark, one or two minute digits, an
 * apostrophe, a run of seconds characters, an optional quote, optional
 * whitespace and `N` or `S`; a run of separator characters; a longitude
 * half of the same form ending in `W` or `O`) and `re.findall` over it.
 * The pattern is a sequence of greedy items, each a character class
 * repeated between a lower and an upper bound.
 * `PiecesFit` says declaratively what a match is: one piece of text per
 * item, laid end to end. `MatchItems` is the greedy matcher, which takes
 * every run as long as it goes and never gives a character back. When every
 * item of variable length is followed by items whose classes it cannot
 * consume (`Deterministic`), the two agree: there is at most one match at a
 * position, and the greedy matcher finds it (`MatchItemsComplete`). The
 * coordinate-pair pattern is such a sequence (`CoordinatePairDeterministic`),
 * so a backtracking engine finds exactly what `MatchAt` finds.
 */
module Pattern {
  import opened Results
  import opened Text

  /** The character classes of the pattern. */
  datatype Class =
    | Digit          // \d
    | DegreeMark     // [º°]
    | Apostrophe     // '
    | SecondsChar    // [\d,\.]
    | Quote          // "
    | Space          // \s
    | LatHemisphere  // [NS]
    | Separator      // [\s,;eE]
    | LonHemisphere  // [WO]

  predicate InClass(cls: Class, c: char) {
    match cls
    case Digit => IsDigit(c)
    case DegreeMark => c == '\U{BA}' || c == '\U{B0}'
    case Apostrophe => c == '\''
    case SecondsChar => IsDigit(c) || c == ',' || c == '.'
    case Quote => c == '"'
    case Space => IsSpace(c)
    case LatHemisphere => c == 'N' || c == 'S'
    case Separator => IsSpace(c) || c == ',' || c == ';' || c == 'e' || c == 'E'
    case LonHemisphere => c == 'W' || c == 'O'
  }

  predicate AllIn(cls: Class, s: string) {
    forall k :: 0 <= k < |s| ==> InClass(cls, s[k])
  }

  predicate Disjoint(a: Class, b: Class) {
    forall c: char :: !(InClass(a, c) && InClass(b, c))
  }

  datatype Bound = Upto(n: nat) | Unbounded

  /** `cls{lo,hi}`, greedy. */
  datatype Item = Item(cls: Class, lo: nat, hi: Bound)

  /** Whether a match of the item can have more than one length. */
  predicate Variable(it: Item) {
    it.hi != Upto(it.lo)
  }

  predicate PieceFits(it: Item, p: string) {
    it.lo <= |p| && (it.hi.Upto? ==> |p| <= it.hi.n) && AllIn(it.cls, p)
  }

  /** One piece per item, each fitting its item. */
  predicate PiecesFit(items: seq<Item>, ps: seq<string>) {
    |ps| == |items| && forall k :: 0 <= k < |ps| ==> PieceFits(items[k], ps[k])
  }

  function Concat(ps: seq<string>): string
    decreases |ps|
  {
    if ps == [] then "" else ps[0] + Concat(ps[1..])
  }

  /** `s` holds `x` at position `i`. */
  predicate At(s: string, i: nat, x: string) {
    i + |x| <= |s| && s[i..i + |x|] == x
  }

  lemma AtConcat(s: string, i: nat, a: string, b: string)
    ensures At(s, i, a + b) <==> At(s, i, a) && At(s, i + |a|, b)
  {
    if i + |a| + |b| <= |s| {
      assert s[i..i + |a + b|] == s[i..i + |a|] + s[i + |a|..i + |a| + |b|];
      if s[i..i + |a + b|] == a + b {
        assert s[i..i + |a|] == (a + b)[..|a|] == a;
        assert s[i + |a|..i + |a| + |b|] == (a + b)[|a|..] == b;
      }
    }
  }

  /** The length of the longest run of `cls` characters at `i`, at most `max`. */
  function Span(s: string, i: nat, cls: Class, max: nat): (n: nat)
    requires i <= |s|
    ensures n <= max && i + n <= |s|
    decreases max
  {
    if max == 0 || i == |s| || !InClass(cls, s[i]) then 0
    else 1 + Span(s, i + 1, cls, max - 1)
  }

  /** `Span` is a run of `cls` characters that stops at `max`, at the end of the text, or before a character outside `cls`. */
  lemma {:induction false} SpanRun(s: string, i: nat, cls: Class, max: nat)
    requires i <= |s|
    ensures var n := Span(s, i, cls, max);
      && AllIn(cls, s[i..i + n])
      && (n == max || i + n == |s| || !InClass(cls, s[i + n]))
    decreases max
  {
    if !(max == 0 || i == |s| || !InClass(cls, s[i])) {
      SpanRun(s, i + 1, cls, max - 1);
      var n := Span(s, i, cls, max);
      assert s[i..i + n] == [s[i]] + s[i + 1..i + n];
    }
  }

  /** A run that cannot be extended is the one `Span` finds. */
  lemma {:induction false} SpanUnique(s: string, i: nat, cls: Class, max: nat, n: nat)
    requires i + n <= |s| && n <= max
    requires AllIn(cls, s[i..i + n])
    requires n == max || i + n == |s| || !InClass(cls, s[i + n])
    ensures Span(s, i, cls, max) == n
    decreases n
  {
    if n > 0 {
      var run, tail := s[i..i + n], s[i + 1..i + n];
      assert InClass(cls, run[0]);
      assert AllIn(cls, tail) by {
        forall k | 0 <= k < |tail| ensures InClass(cls, tail[k]) {
          assert tail[k] == run[k + 1];
        }
      }
      SpanUnique(s, i + 1, cls, max - 1, n - 1);
    }
  }

  /** The greedy matcher: each item takes the longest run it may, and the match fails when that is too short. */
  function MatchItems(s: string, i: nat, items: seq<Item>): Option<seq<string>>
    requires i <= |s|
    decreases |items|
  {
    if items == [] then Some([])
    else
      var it := items[0];
      var n := Span(s, i, it.cls, if it.hi.Upto? then it.hi.n else |s|);
      if n < it.lo then None
      else
        match MatchItems(s, i + n, items[1..])
        case None => None
        case Some(rest) => Some([s[i..i + n]] + rest)
  }

  /** Putting a fitting piece in front of fitting pieces. */
  lemma FitsCons(items: seq<Item>, p: string, rest: seq<string>)
    requires items != [] && PieceFits(items[0], p) && PiecesFit(items[1..], rest)
    ensures PiecesFit(items, [p] + rest)
  {
    forall k | 0 <= k < |items| ensures PieceFits(items[k], ([p] + rest)[k]) {
      if k > 0 {
        assert PieceFits(items[1..][k - 1], rest[k - 1]);
      }
    }
  }

  /** The greedy matcher's first step, read backwards: a match at `i` is the first item's run, then a match of the rest. */
  lemma MatchItemsUnfold(s: string, i: nat, items: seq<Item>)
    requires i <= |s| && items != [] && MatchItems(s, i, items).Some?
    ensures var n := Span(s, i, items[0].cls, if items[0].hi.Upto? then items[0].hi.n else |s|);
      && n >= items[0].lo && MatchItems(s, i + n, items[1..]).Some?
      && MatchItems(s, i, items).value == [s[i..i + n]] + MatchItems(s, i + n, items[1..]).value
  {
  }

  /** A fitting run in front of a fitting match is a fitting match. */
  lemma MatchCons(s: string, i: nat, items: seq<Item>, n: nat, rest: seq<string>)
    requires items != [] && i + n <= |s|
    requires PieceFits(items[0], s[i..i + n])
    requires PiecesFit(items[1..], rest) && At(s, i + n, Concat(rest))
    ensures PiecesFit(items, [s[i..i + n]] + rest) && At(s, i, Concat([s[i..i + n]] + rest))
  {
    var p := s[i..i + n];
    var ps := [p] + rest;
    FitsCons(items, p, rest);
    assert ps[1..] == rest;
    assert Concat(ps) == p + Concat(rest);
    AtConcat(s, i, p, Concat(rest));
  }

  /** The run the matcher takes for an item fits the item when it is long enough. */
  lemma SpanFits(s: string, i: nat, it: Item, n: nat)
    requires i <= |s| && n == Span(s, i, it.cls, if it.hi.Upto? then it.hi.n else |s|) && n >= it.lo
    ensures i + n <= |s| && PieceFits(it, s[i..i + n])
  {
    SpanRun(s, i, it.cls, if it.hi.Upto? then it.hi.n else |s|);
  }

  /** What the greedy matcher returns is a match: its pieces fit the items and spell the text at `i`. */
  lemma {:induction false} MatchItemsSound(s: string, i: nat, items: seq<Item>, ps: seq<string>)
    requires i <= |s| && MatchItems(s, i, items).Some? && MatchItems(s, i, items).value == ps
    ensures PiecesFit(items, ps) && At(s, i, Concat(ps))
    decreases |items|
  {
    if items == [] {
      assert ps == [];
      assert Concat(ps) == "";
    } else {
      var it := items[0];
      var n := Span(s, i, it.cls, if it.hi.Upto? then it.hi.n else |s|);
      MatchItemsUnfold(s, i, items);
      var rest := MatchItems(s, i + n, items[1..]).value;
      assert ps == [s[i..i + n]] + rest;
      MatchItemsSound(s, i + n, items[1..], rest);
      SpanFits(s, i, it, n);
      MatchCons(s, i, items, n, rest);
    }
  }

  /**
   * What may follow an item of variable length: the items up to and
   * including the first that cannot match empty, none of whose characters
   * the item could consume.
   */
  predicate Guarded(it: Item, rest: seq<Item>)
    decreases |rest|
  {
    rest != [] && Disjoint(it.cls, rest[0].cls) && (rest[0].lo == 0 ==> Guarded(it, rest[1..]))
  }

  predicate Deterministic(items: seq<Item>)
    decreases |items|
  {
    items == [] || ((Variable(items[0]) ==> Guarded(items[0], items[1..])) && Deterministic(items[1..]))
  }

  /** After a guarded item, the text goes on with a character that item cannot consume. */
  lemma {:induction false} FollowerStops(s: string, i: nat, it: Item, rest: seq<Item>, ps: seq<string>)
    requires Guarded(it, rest) && PiecesFit(rest, ps) && At(s, i, Concat(ps))
    ensures i < |s| && !InClass(it.cls, s[i])
    decreases |rest|
  {
    AtConcat(s, i, ps[0], Concat(ps[1..]));
    if ps[0] == [] {
      assert PiecesFit(rest[1..], ps[1..]) by {
        forall k | 0 <= k < |ps| - 1 ensures PieceFits(rest[1..][k], ps[1..][k]) {
          assert PieceFits(rest[k + 1], ps[k + 1]);
        }
      }
      FollowerStops(s, i, it, rest[1..], ps[1..]);
    } else {
      assert PieceFits(rest[0], ps[0]);
      assert s[i] == ps[0][0];
      assert InClass(rest[0].cls, s[i]);
    }
  }

  /** Dropping the first item and the first piece keeps the rest fitting. */
  lemma FitsTail(items: seq<Item>, ps: seq<string>)
    requires items != [] && PiecesFit(items, ps)
    ensures PieceFits(items[0], ps[0]) && PiecesFit(items[1..], ps[1..])
  {
    forall k | 0 <= k < |ps| - 1 ensures PieceFits(items[1..][k], ps[1..][k]) {
      assert PieceFits(items[k + 1], ps[k + 1]);
    }
  }

  /** One step of the greedy matcher: the first item's run, then the rest's match. */
  lemma MatchItemsStep(s: string, i: nat, items: seq<Item>, n: nat, ps: seq<string>)
    requires i <= |s| && items != [] && ps != []
    requires n == Span(s, i, items[0].cls, if items[0].hi.Upto? then items[0].hi.n else |s|)
    requires n >= items[0].lo && ps[0] == s[i..i + n] && MatchItems(s, i + n, items[1..]) == Some(ps[1..])
    ensures MatchItems(s, i, items) == Some(ps)
  {
    assert [s[i..i + n]] + ps[1..] == ps;
  }

  /** For a deterministic item sequence, any match at `i` is the one the greedy matcher finds. */
  lemma {:induction false} MatchItemsComplete(s: string, i: nat, items: seq<Item>, ps: seq<string>)
    requires Deterministic(items) && PiecesFit(items, ps) && At(s, i, Concat(ps))
    ensures MatchItems(s, i, items) == Some(ps)
    decreases |items|
  {
    if items == [] {
      assert ps == [];
    } else {
      var n := |ps[0]|;
      HeadRun(s, i, items, ps);
      MatchItemsComplete(s, i + n, items[1..], ps[1..]);
      MatchItemsStep(s, i, items, n, ps);
    }
  }

  /** In a match of a deterministic item sequence, the first piece is the run the greedy matcher takes. */
  lemma HeadRun(s: string, i: nat, items: seq<Item>, ps: seq<string>)
    requires items != [] && Deterministic(items) && PiecesFit(items, ps) && At(s, i, Concat(ps))
    ensures i + |ps[0]| <= |s| && ps[0] == s[i..i + |ps[0]|] && |ps[0]| >= items[0].lo
    ensures |ps[0]| == Span(s, i, items[0].cls, if items[0].hi.Upto? then items[0].hi.n else |s|)
    ensures Deterministic(items[1..]) && PiecesFit(items[1..], ps[1..]) && At(s, i + |ps[0]|, Concat(ps[1..]))
  {
    var it, p := items[0], ps[0];
    AtConcat(s, i, p, Concat(ps[1..]));
    FitsTail(items, ps);
    if Variable(it) {
      FollowerStops(s, i + |p|, it, items[1..], ps[1..]);
    }
    SpanUnique(s, i, it.cls, if it.hi.Upto? then it.hi.n else |s|, |p|);
  }

  lemma {:induction false} ConcatSplit(ps: seq<string>, k: nat)
    requires k <= |ps|
    ensures Concat(ps) == Concat(ps[..k]) + Concat(ps[k..])
    decreases k
  {
    if k > 0 {
      assert ps[..k][1..] == ps[1..][..k - 1];
      assert ps[k..] == ps[1..][k - 1..];
      ConcatSplit(ps[1..], k - 1);
    } else {
      assert ps[..0] == [];
    }
  }

  /** Where the `k`-th piece of a match lies in the text. */
  lemma PieceAt(s: string, i: nat, ps: seq<string>, k: nat)
    requires k < |ps| && At(s, i, Concat(ps))
    ensures At(s, i + |Concat(ps[..k])|, ps[k])
  {
    ConcatSplit(ps, k);
    AtConcat(s, i, Concat(ps[..k]), Concat(ps[k..]));
    assert ps[k..][1..] == ps[k + 1..];
    AtConcat(s, i + |Concat(ps[..k])|, ps[k], Concat(ps[k + 1..]));
  }

  // ---------------------------------------------------------------------
  // The coordinate-pair pattern

  /** `(\d{1,3})[º°](\d{1,2})'([\d,\.]+)"?\s*` followed by the hemisphere letter class. */
  function HalfItems(hemisphere: Class): seq<Item> {
    [ Item(Digit, 1, Upto(3)),          // (\d{1,3})   degrees
      Item(DegreeMark, 1, Upto(1)),     // [º°]
      Item(Digit, 1, Upto(2)),          // (\d{1,2})   minutes
      Item(Apostrophe, 1, Upto(1)),     // '
      Item(SecondsChar, 1, Unbounded),  // ([\d,\.]+)  seconds
      Item(Quote, 0, Upto(1)),          // "?
      Item(Space, 0, Unbounded),        // \s*
      Item(hemisphere, 1, Upto(1)) ]    // ([NS]) or ([WO])
  }

  /** The whole pattern: pieces 0 to 7 are the latitude, 8 the separator run, 9 to 16 the longitude. */
  const CoordinatePair: seq<Item> :=
    HalfItems(LatHemisphere) + [Item(Separator, 0, Unbounded)] + HalfItems(LonHemisphere)

  lemma DeterministicStep(items: seq<Item>, k: nat)
    requires k < |items|
    requires Variable(items[k]) ==> Guarded(items[k], items[k + 1..])
    requires Deterministic(items[k + 1..])
    ensures Deterministic(items[k..])
  {
    assert items[k..][1..] == items[k + 1..];
  }

  /** The class pairs a greedy run of the pattern is followed by have no character in common. */
  lemma ClassesDisjoint()
    ensures Disjoint(Digit, DegreeMark) && Disjoint(Digit, Apostrophe)
    ensures Disjoint(SecondsChar, Quote) && Disjoint(SecondsChar, Space)
    ensures Disjoint(SecondsChar, LatHemisphere) && Disjoint(SecondsChar, LonHemisphere)
    ensures Disjoint(Quote, Space) && Disjoint(Quote, LatHemisphere) && Disjoint(Quote, LonHemisphere)
    ensures Disjoint(Space, LatHemisphere) && Disjoint(Space, LonHemisphere)
    ensures Disjoint(Separator, Digit)
  {
  }

  /** Every greedy run of the longitude half is followed by a character it cannot consume. */
  lemma LongitudeDeterministic()
    ensures Deterministic(CoordinatePair[9..])
  {
    var p := CoordinatePair;
    ClassesDisjoint();
    assert Deterministic(p[17..]);
    DeterministicStep(p, 16);
    assert Guarded(p[15], p[16..]);
    DeterministicStep(p, 15);
    assert Guarded(p[14], p[16..]);
    assert Guarded(p[14], p[15..]);
    DeterministicStep(p, 14);
    assert Guarded(p[13], p[16..]);
    assert Guarded(p[13], p[15..]);
    assert Guarded(p[13], p[14..]);
    DeterministicStep(p, 13);
    DeterministicStep(p, 12);
    assert Guarded(p[11], p[12..]);
    DeterministicStep(p, 11);
    DeterministicStep(p, 10);
    assert Guarded(p[9], p[10..]);
    DeterministicStep(p, 9);
  }

  /** ... and so is every greedy run from the latitude's quote on. */
  lemma JunctionDeterministic()
    ensures Deterministic(CoordinatePair[5..])
  {
    var p := CoordinatePair;
    ClassesDisjoint();
    LongitudeDeterministic();
    assert Guarded(p[8], p[9..]);
    DeterministicStep(p, 8);
    DeterministicStep(p, 7);
    assert Guarded(p[6], p[7..]);
    DeterministicStep(p, 6);
    assert Guarded(p[5], p[7..]);
    assert Guarded(p[5], p[6..]);
    DeterministicStep(p, 5);
  }

  /** Every greedy run of the pattern is followed by a character it cannot consume. */
  lemma CoordinatePairDeterministic()
    ensures Deterministic(CoordinatePair)
  {
    var p := CoordinatePair;
    ClassesDisjoint();
    JunctionDeterministic();
    assert Guarded(p[4], p[7..]);
    assert Guarded(p[4], p[6..]);
    assert Guarded(p[4], p[5..]);
    DeterministicStep(p, 4);
    DeterministicStep(p, 3);
    assert Guarded(p[2], p[3..]);
    DeterministicStep(p, 2);
    DeterministicStep(p, 1);
    assert Guarded(p[0], p[1..]);
    DeterministicStep(p, 0);
    assert p[0..] == p;
  }

  /** The pattern at position `i` of `s`: its pieces, or `None` when it does not match there. */
  function MatchAt(s: string, i: nat): (r: Option<seq<string>>)
    requires i <= |s|
    ensures r.Some? ==> PiecesFit(CoordinatePair, r.value) && At(s, i, Concat(r.value))
  {
    var r := MatchItems(s, i, CoordinatePair);
    if r.Some? then MatchItemsSound(s, i, CoordinatePair, r.value); r else r
  }

  /** The pattern matches at `i` in exactly one way, or not at all; `MatchAt` finds that way. */
  lemma MatchAtExact(s: string, i: nat, ps: seq<string>)
    requires i <= |s|
    ensures MatchAt(s, i) == Some(ps) <==> PiecesFit(CoordinatePair, ps) && At(s, i, Concat(ps))
  {
    if PiecesFit(CoordinatePair, ps) && At(s, i, Concat(ps)) {
      CoordinatePairDeterministic();
      MatchItemsComplete(s, i, CoordinatePair, ps);
    }
  }

  lemma {:induction false} ConcatLength(ps: seq<string>, k: nat)
    requires k < |ps|
    ensures |ps[k]| <= |Concat(ps)|
    decreases k
  {
    if k > 0 {
      ConcatLength(ps[1..], k - 1);
    }
  }

  /** A match is never empty: the hemisphere letter is one character. */
  lemma MatchNonEmpty(ps: seq<string>)
    requires PiecesFit(CoordinatePair, ps)
    ensures |Concat(ps)| >= 1
  {
    assert PieceFits(CoordinatePair[7], ps[7]);
    ConcatLength(ps, 7);
  }

  // ---------------------------------------------------------------------
  // re.findall

  /** A match found by the scan: where it starts and its pieces. */
  datatype Hit = Hit(start: nat, pieces: seq<string>)

  function End(h: Hit): nat {
    h.start + |Concat(h.pieces)|
  }

  /**
   * The scan behind `re.findall`: try the pattern at `i`; on a match,
   * record it and go on where it ends; otherwise go on at `i + 1`.
   */
  function Scan(s: string, i: nat): (hits: seq<Hit>)
    requires i <= |s|
    decreases |s| - i
  {
    if i == |s| then []
    else
      match MatchAt(s, i)
      case None => Scan(s, i + 1)
      case Some(ps) =>
        MatchNonEmpty(ps);
        [Hit(i, ps)] + Scan(s, i + |Concat(ps)|)
  }

  /** Every match the scan records lies in the text where it says, fits the pattern, and ends before the next begins. */
  lemma {:induction false} ScanSound(s: string, i: nat)
    requires i <= |s|
    ensures forall k :: 0 <= k < |Scan(s, i)| ==>
      var h := Scan(s, i)[k];
      i <= h.start && PiecesFit(CoordinatePair, h.pieces) && At(s, h.start, Concat(h.pieces))
    ensures forall k :: 0 < k < |Scan(s, i)| ==> End(Scan(s, i)[k - 1]) <= Scan(s, i)[k].start
    decreases |s| - i
  {
    if i == |s| {
      assert Scan(s, i) == [];
    } else if MatchAt(s, i).None? {
      ScanSkip(s, i);
      ScanSound(s, i + 1);
    } else {
      var ps := MatchAt(s, i).value;
      var j := i + |Concat(ps)|;
      ScanTake(s, i, ps);
      ScanSound(s, j);
      SoundCons(s, Hit(i, ps), j, Scan(s, j));
    }
  }

  /** A match in front of sound later matches that start after it ends keeps the list sound. */
  lemma SoundCons(s: string, h: Hit, j: nat, rest: seq<Hit>)
    requires PiecesFit(CoordinatePair, h.pieces) && At(s, h.start, Concat(h.pieces)) && j == End(h)
    requires forall k :: 0 <= k < |rest| ==>
      j <= rest[k].start && PiecesFit(CoordinatePair, rest[k].pieces) && At(s, rest[k].start, Concat(rest[k].pieces))
    requires forall k :: 0 < k < |rest| ==> End(rest[k - 1]) <= rest[k].start
    ensures forall k :: 0 <= k < |[h] + rest| ==>
      var g := ([h] + rest)[k];
      h.start <= g.start && PiecesFit(CoordinatePair, g.pieces) && At(s, g.start, Concat(g.pieces))
    ensures forall k :: 0 < k < |[h] + rest| ==> End(([h] + rest)[k - 1]) <= ([h] + rest)[k].start
  {
    var hits := [h] + rest;
    forall k | 0 < k < |hits| ensures End(hits[k - 1]) <= hits[k].start && h.start <= hits[k].start {
      assert hits[k] == rest[k - 1];
      if k > 1 {
        assert hits[k - 1] == rest[k - 2];
      }
    }
  }

  /** No match of the pattern starts at a position in `[lo, hi)`. */
  ghost predicate NoMatchIn(s: string, lo: nat, hi: nat) {
    forall p: nat, ps: seq<string> :: lo <= p < hi && PiecesFit(CoordinatePair, ps) ==> !At(s, p, Concat(ps))
  }

  /**
   * The regular-expression library's find-all, stated on the pattern
   * itself: `hits` are the successive leftmost matches in `s` from `i` on,
   * each search resuming where the previous match ended.
   */
  ghost predicate Leftmost(s: string, i: nat, hits: seq<Hit>)
    decreases |hits|
  {
    if hits == [] then NoMatchIn(s, i, |s|)
    else
      && i <= hits[0].start
      && NoMatchIn(s, i, hits[0].start)
      && PiecesFit(CoordinatePair, hits[0].pieces) && At(s, hits[0].start, Concat(hits[0].pieces))
      && Leftmost(s, End(hits[0]), hits[1..])
  }

  /** A position where the pattern does not match can be skipped. */
  lemma LeftmostSkip(s: string, i: nat, hits: seq<Hit>)
    requires i < |s| && MatchAt(s, i).None? && Leftmost(s, i + 1, hits)
    ensures Leftmost(s, i, hits)
  {
    forall ps | PiecesFit(CoordinatePair, ps) ensures !At(s, i, Concat(ps)) {
      MatchAtExact(s, i, ps);
    }
  }

  /** A match at the position searched is the next leftmost match. */
  lemma LeftmostTake(s: string, i: nat, ps: seq<string>, hits: seq<Hit>)
    requires i <= |s| && MatchAt(s, i) == Some(ps) && Leftmost(s, i + |Concat(ps)|, hits)
    ensures Leftmost(s, i, [Hit(i, ps)] + hits)
  {
    assert ([Hit(i, ps)] + hits)[1..] == hits;
    assert End(Hit(i, ps)) == i + |Concat(ps)|;
  }

  /** The scan from a position where the pattern does not match is the scan from the next one. */
  lemma ScanSkip(s: string, i: nat)
    requires i < |s| && MatchAt(s, i).None?
    ensures Scan(s, i) == Scan(s, i + 1)
  {
  }

  /** The scan from a position where the pattern matches records that match and resumes at its end. */
  lemma ScanTake(s: string, i: nat, ps: seq<string>)
    requires i < |s| && MatchAt(s, i) == Some(ps)
    ensures i + |Concat(ps)| <= |s|
    ensures Scan(s, i) == [Hit(i, ps)] + Scan(s, i + |Concat(ps)|)
  {
    MatchNonEmpty(ps);
  }

  /** The scan finds the successive leftmost matches. */
  lemma {:induction false} ScanLeftmost(s: string, i: nat)
    requires i <= |s|
    ensures Leftmost(s, i, Scan(s, i))
    decreases |s| - i
  {
    if i == |s| {
      assert Scan(s, i) == [];
    } else {
      var m := MatchAt(s, i);
      if m.None? {
        ScanSkip(s, i);
        ScanLeftmost(s, i + 1);
        LeftmostSkip(s, i, Scan(s, i + 1));
      } else {
        var ps := m.value;
        ScanTake(s, i, ps);
        var j := i + |Concat(ps)|;
        ScanLeftmost(s, j);
        LeftmostTake(s, i, ps, Scan(s, j));
      }
    }
  }

  /** The leftmost matches are determined by the text and the starting position. */
  lemma {:induction false} LeftmostUnique(s: string, i: nat, a: seq<Hit>, b: seq<Hit>)
    requires Leftmost(s, i, a) && Leftmost(s, i, b)
    ensures a == b
    decreases |a|
  {
    if a != [] && b != [] {
      var x, y := a[0], b[0];
      if x.start == y.start {
        MatchAtExact(s, x.start, x.pieces);
        MatchAtExact(s, x.start, y.pieces);
        LeftmostUnique(s, End(x), a[1..], b[1..]);
        assert a == [x] + a[1..];
        assert b == [y] + b[1..];
      }
    }
  }

  /** So the scan is exactly find-all's sequence of leftmost, non-overlapping matches. */
  lemma ScanIsFindAll(s: string, hits: seq<Hit>)
    ensures Leftmost(s, 0, hits) <==> hits == Scan(s, 0)
  {
    ScanLeftmost(s, 0);
    if Leftmost(s, 0, hits) {
      LeftmostUnique(s, 0, hits, Scan(s, 0));
    }
  }

  /** The eight groups `re.findall` returns for one match. */
  datatype Half = Half(deg: string, min: string, sec: string, hem: char)
  datatype Groups = Groups(lat: Half, lon: Half)

  /** The shapes the pattern gives the groups of one half. */
  predicate HalfShape(h: Half, hemisphere: Class) {
    && 1 <= |h.deg| <= 3 && AllDigits(h.deg)
    && 1 <= |h.min| <= 2 && AllDigits(h.min)
    && 1 <= |h.sec| && AllIn(SecondsChar, h.sec)
    && InClass(hemisphere, h.hem)
  }

  /** Both halves of a match have the shapes the pattern gives them. */
  predicate Shaped(g: Groups) {
    HalfShape(g.lat, LatHemisphere) && HalfShape(g.lon, LonHemisphere)
  }

  function GroupsOf(ps: seq<string>): (g: Groups)
    requires PiecesFit(CoordinatePair, ps)
    ensures Shaped(g)
  {
    assert PieceFits(CoordinatePair[0], ps[0]) && PieceFits(CoordinatePair[2], ps[2]);
    assert PieceFits(CoordinatePair[4], ps[4]) && PieceFits(CoordinatePair[7], ps[7]);
    assert PieceFits(CoordinatePair[9], ps[9]) && PieceFits(CoordinatePair[11], ps[11]);
    assert PieceFits(CoordinatePair[13], ps[13]) && PieceFits(CoordinatePair[16], ps[16]);
    Groups(Half(ps[0], ps[2], ps[4], ps[7][0]), Half(ps[9], ps[11], ps[13], ps[16][0]))
  }

  /** `re.findall(pattern, s)`: the groups of every match, in text order. */
  function FindAll(s: string): (r: seq<Groups>)
    ensures |r| == |Scan(s, 0)|
    ensures forall k :: 0 <= k < |r| ==>
      PiecesFit(CoordinatePair, Scan(s, 0)[k].pieces) && r[k] == GroupsOf(Scan(s, 0)[k].pieces)
    ensures forall k :: 0 <= k < |r| ==> Shaped(r[k])
  {
    var hits := Scan(s, 0);
    ScanSound(s, 0);
    seq(|hits|, k requires 0 <= k < |hits| => GroupsOf(hits[k].pieces))
  }

  lemma PiecesFitConcat(a: seq<Item>, b: seq<Item>, c: seq<Item>, pa: seq<string>, pb: seq<string>, pc: seq<string>)
    requires PiecesFit(a, pa) && PiecesFit(b, pb) && PiecesFit(c, pc)
    ensures PiecesFit(a + b + c, pa + pb + pc)
  {
    var items, ps := a + b + c, pa + pb + pc;
    forall k | 0 <= k < |ps| ensures PieceFits(items[k], ps[k]) {
      if k < |a| {
        assert items[k] == a[k] && ps[k] == pa[k];
      } else if k < |a| + |b| {
        assert items[k] == b[k - |a|] && ps[k] == pb[k - |a|];
      } else {
        assert items[k] == c[k - |a| - |b|] && ps[k] == pc[k - |a| - |b|];
      }
    }
  }

  /** The text of one half's eight pieces, spelled out. */
  lemma ConcatHalf(ps: seq<string>)
    requires |ps| == 8
    ensures Concat(ps) == ps[0] + (ps[1] + (ps[2] + (ps[3] + (ps[4] + (ps[5] + (ps[6] + ps[7]))))))
  {
    assert Concat(ps[8..]) == [];
    assert Concat(ps[7..]) == ps[7] + Concat(ps[8..]) by { assert ps[7..][1..] == ps[8..]; }
    assert Concat(ps[6..]) == ps[6] + Concat(ps[7..]) by { assert ps[6..][1..] == ps[7..]; }
    assert Concat(ps[5..]) == ps[5] + Concat(ps[6..]) by { assert ps[5..][1..] == ps[6..]; }
    assert Concat(ps[4..]) == ps[4] + Concat(ps[5..]) by { assert ps[4..][1..] == ps[5..]; }
    assert Concat(ps[3..]) == ps[3] + Concat(ps[4..]) by { assert ps[3..][1..] == ps[4..]; }
    assert Concat(ps[2..]) == ps[2] + Concat(ps[3..]) by { assert ps[2..][1..] == ps[3..]; }
    assert Concat(ps[1..]) == ps[1] + Concat(ps[2..]) by { assert ps[1..][1..] == ps[2..]; }
  }

  /** The text of a match: latitude half, separator run, longitude half. */
  lemma ConcatPair(lat: seq<string>, sep: string, lon: seq<string>)
    requires |lat| == 8
    ensures Concat(lat + [sep] + lon) == Concat(lat) + sep + Concat(lon)
  {
    var ps := lat + [sep] + lon;
    ConcatSplit(ps, 9);
    ConcatSplit(ps[..9], 8);
    assert ps[..9][..8] == lat && ps[..9][8..] == [sep] && ps[9..] == lon;
    assert Concat([sep]) == sep;
  }

  /** A text that is one whole match yields exactly that match. */
  lemma SingleMatch(s: string, ps: seq<string>)
    requires PiecesFit(CoordinatePair, ps) && Concat(ps) == s
    ensures Scan(s, 0) == [Hit(0, ps)]
    ensures FindAll(s) == [GroupsOf(ps)]
  {
    assert At(s, 0, Concat(ps)) by { assert s[0..|s|] == s; }
    MatchAtExact(s, 0, ps);
    ScanTake(s, 0, ps);
    assert Scan(s, |s|) == [];
  }

  /** Every match begins with a digit of its degrees. */
  lemma MatchStartsWithDigit(s: string, i: nat, ps: seq<string>)
    requires PiecesFit(CoordinatePair, ps) && At(s, i, Concat(ps))
    ensures i < |s| && IsDigit(s[i])
  {
    assert PieceFits(CoordinatePair[0], ps[0]);
    PieceAt(s, i, ps, 0);
    assert ps[..0] == [];
  }

  /** A text without a digit has no match. */
  lemma NoDigitNoMatch(s: string)
    requires forall k :: 0 <= k < |s| ==> !IsDigit(s[k])
    ensures Scan(s, 0) == []
  {
    ScanSound(s, 0);
    if Scan(s, 0) != [] {
      var h := Scan(s, 0)[0];
      MatchStartsWithDigit(s, h.start, h.pieces);
      assert false;
    }
  }

  lemma AtFirst(s: string, i: nat, x: string)
    requires At(s, i, x) && x != []
    ensures x[0] in s
  {
    assert s[i] == x[0];
  }

  /** The pattern has no lower-case hemisphere letters: a text without `N` or `S` has no match. */
  lemma NeedsHemisphereLetter(s: string)
    requires 'N' !in s && 'S' !in s
    ensures Scan(s, 0) == []
  {
    ScanSound(s, 0);
    if Scan(s, 0) != [] {
      var h := Scan(s, 0)[0];
      assert PieceFits(CoordinatePair[7], h.pieces[7]);
      PieceAt(s, h.start, h.pieces, 7);
      AtFirst(s, h.start + |Concat(h.pieces[..7])|, h.pieces[7]);
      assert false;
    }
  }

  /**
   * Between the latitude's hemisphere letter and the longitude's degrees
   * there is only whitespace, `,`, `;`, `e` and `E`.
   */
  lemma SeparatorRun(s: string, i: nat, ps: seq<string>)
    requires PiecesFit(CoordinatePair, ps) && At(s, i, Concat(ps))
    ensures var lo, hi := i + |Concat(ps[..8])|, i + |Concat(ps[..9])|;
      0 < lo <= hi < |s| && s[lo - 1] == GroupsOf(ps).lat.hem
      && AllIn(Separator, s[lo..hi]) && IsDigit(s[hi])
  {
    var lo, hi := i + |Concat(ps[..8])|, i + |Concat(ps[..9])|;
    assert PieceFits(CoordinatePair[7], ps[7]) && PieceFits(CoordinatePair[8], ps[8]);
    assert PieceFits(CoordinatePair[9], ps[9]);
    PieceAt(s, i, ps, 7);
    PieceAt(s, i, ps, 8);
    PieceAt(s, i, ps, 9);
    ConcatSplit(ps[..8], 7);
    assert ps[..8][..7] == ps[..7] && ps[..8][7..] == [ps[7]];
    ConcatSplit(ps[..9], 8);
    assert ps[..9][..8] == ps[..8] && ps[..9][8..] == [ps[8]];
    assert Concat([ps[7]]) == ps[7] && Concat([ps[8]]) == ps[8];
    assert s[hi] == ps[9][0];
  }
}
