/** Matching a pixel against the catalogue
    (ColorMatcher.Logic/ColorMatcher.cs): an exact lookup on the packed
    pixel, then, when that misses and the fuzziness is positive, a search
    of the buckets whose channel sum is close enough, keeping candidates
    whose every channel is within the fuzziness and choosing the first one
    with the least truncated average deviation. */
module ColorMatcher {
  import opened Wrappers
  import opened Colors
  import opened ColorCatalogue

  /** The `(MatchFound, ColorNameFromCatalogue, Color)` tuple: `Found(n, c)`
      is `(true, n, c)` and `NotFound` is `(false, null, null)`. */
  datatype MatchResult = Found(name: string, color: Color) | NotFound

  /** A catalogue entry scored against the colour being matched. */
  datatype CandidateColor = CandidateColor(
    entry: Entry, rDeviation: nat, gDeviation: nat, bDeviation: nat, averageRgbDeviation: nat)

  function Abs(x: int): nat
  {
    if x < 0 then -x else x
  }

  /** Every channel of `c` is within `f` of the same channel of `p`. */
  predicate Admissible(c: Color, p: Color, f: int)
  {
    Abs(c.r - p.r) <= f && Abs(c.g - p.g) <= f && Abs(c.b - p.b) <= f
  }

  /** The `CandidateColor` constructor. The average is taken by integer
      division, so it is the mean rounded down. */
  function NewCandidate(e: Entry, toMatch: Color): (c: CandidateColor)
    ensures c.entry == e
    ensures c.rDeviation == Abs(e.color.r - toMatch.r)
    ensures c.gDeviation == Abs(e.color.g - toMatch.g)
    ensures c.bDeviation == Abs(e.color.b - toMatch.b)
    ensures 3 * c.averageRgbDeviation <= c.rDeviation + c.gDeviation + c.bDeviation < 3 * c.averageRgbDeviation + 3
  {
    var rd, gd, bd := Abs(e.color.r - toMatch.r), Abs(e.color.g - toMatch.g), Abs(e.color.b - toMatch.b);
    CandidateColor(e, rd, gd, bd, (rd + gd + bd) / 3)
  }

  /** The candidate for `e` when its three deviations are all within `f`. */
  function Head(e: Entry, toMatch: Color, f: int): seq<CandidateColor>
  {
    var c := NewCandidate(e, toMatch);
    if c.rDeviation <= f && c.gDeviation <= f && c.bDeviation <= f then [c] else []
  }

  /** The per-group filter: score each member and keep those whose three
      deviations are all within `f`, in member order. */
  function Qualifying(members: seq<Entry>, toMatch: Color, f: int): seq<CandidateColor>
    decreases |members|
  {
    if |members| == 0 then []
    else
      Head(members[0], toMatch, f) + Qualifying(members[1..], toMatch, f)
  }

  /** The filter keeps exactly the admissible members: every candidate it
      keeps scores a member within `f` on every channel, and every such
      member is kept. */
  lemma {:induction false} QualifyingIsFilter(members: seq<Entry>, toMatch: Color, f: int)
    ensures forall c :: c in Qualifying(members, toMatch, f) ==>
      c.entry in members && c == NewCandidate(c.entry, toMatch) && Admissible(c.entry.color, toMatch, f)
    ensures forall e :: e in members && Admissible(e.color, toMatch, f) ==> NewCandidate(e, toMatch) in Qualifying(members, toMatch, f)
    decreases |members|
  {
    if |members| > 0 {
      QualifyingIsFilter(members[1..], toMatch, f);
      forall e | e in members && e != members[0]
        ensures e in members[1..]
      {
        var i :| 0 <= i < |members| && members[i] == e;
        assert members[1..][i - 1] == e;
      }
    }
  }

  /** Every entry of the bucket index, group after group. */
  function AllMembers(gs: seq<Group>): (es: seq<Entry>)
    ensures forall e :: e in es <==> exists i :: 0 <= i < |gs| && e in gs[i].members
    decreases |gs|
  {
    if |gs| == 0 then []
    else
      var rest := AllMembers(gs[1..]);
      assert forall e :: e in rest <==> exists i :: 1 <= i < |gs| && e in gs[i].members by {
        forall e | e in rest
          ensures exists i :: 1 <= i < |gs| && e in gs[i].members
        {
          var i :| 0 <= i < |gs[1..]| && e in gs[1..][i].members;
          assert gs[i + 1] == gs[1..][i];
        }
        forall e, i | 1 <= i < |gs| && e in gs[i].members
          ensures e in rest
        {
          assert gs[1..][i - 1] == gs[i];
        }
      }
      gs[0].members + rest
  }

  /** The candidate list of the fuzzy search: the groups whose key is
      within `maxSumDelta` of the target sum, each filtered member by
      member, concatenated in group order. */
  function GatherCandidates(gs: seq<Group>, toMatch: Color, f: int, maxSumDelta: int): seq<CandidateColor>
    decreases |gs|
  {
    if |gs| == 0 then []
    else
      var here := if Abs(gs[0].key - RgbSum(toMatch)) <= maxSumDelta then Qualifying(gs[0].members, toMatch, f) else [];
      here + GatherCandidates(gs[1..], toMatch, f, maxSumDelta)
  }

  /** Every gathered candidate scores a bucket member within `f` on every
      channel, whatever the pruning bound. */
  lemma {:induction false} GatherIsSound(gs: seq<Group>, toMatch: Color, f: int, maxSumDelta: int)
    ensures forall c :: c in GatherCandidates(gs, toMatch, f, maxSumDelta) ==>
      c.entry in AllMembers(gs) && c == NewCandidate(c.entry, toMatch) && Admissible(c.entry.color, toMatch, f)
    decreases |gs|
  {
    if |gs| > 0 {
      QualifyingIsFilter(gs[0].members, toMatch, f);
      GatherIsSound(gs[1..], toMatch, f, maxSumDelta);
    }
  }

  /** `OrderBy(AverageRgbDeviation).FirstOrDefault()` on a non-empty list:
      the ordering is stable, so this is the first candidate of least
      average deviation. */
  function FirstBest(cs: seq<CandidateColor>): (i: nat)
    requires |cs| > 0
    ensures i < |cs|
    ensures forall j :: 0 <= j < |cs| ==> cs[i].averageRgbDeviation <= cs[j].averageRgbDeviation
    ensures forall j :: 0 <= j < i ==> cs[j].averageRgbDeviation > cs[i].averageRgbDeviation
    decreases |cs|
  {
    if |cs| == 1 then 0
    else
      var k := 1 + FirstBest(cs[1..]);
      assert cs[k] == cs[1..][k - 1];
      assert forall j :: 1 <= j < |cs| ==> cs[j] == cs[1..][j - 1];
      if cs[k].averageRgbDeviation < cs[0].averageRgbDeviation then k else 0
  }

  /** The body of `FuzzySearch`, with the bucket-pruning bound given. */
  function SearchCandidates(gs: seq<Group>, f: int, argb: Argb, maxSumDelta: int): (r: MatchResult)
    ensures r.Found? ==> f > 0 && Entry(r.name, r.color) in AllMembers(gs) && Admissible(r.color, Unpack(argb), f)
  {
    if f > 0 then
      var toMatch := Unpack(argb);
      var cs := GatherCandidates(gs, toMatch, f, maxSumDelta);
      GatherIsSound(gs, toMatch, f, maxSumDelta);
      if |cs| == 0 then NotFound
      else
        var best := cs[FirstBest(cs)];
        assert best in cs;
        Found(best.entry.name, best.entry.color)
    else NotFound
  }

  /** `FuzzySearch`: prune buckets to sums within three times the
      fuzziness of the pixel's sum. */
  function FuzzySearch(cat: Catalogue, f: int, argb: Argb): (r: MatchResult)
    ensures f <= 0 ==> r == NotFound
    ensures r.Found? ==>
      f > 0 && Entry(r.name, r.color) in AllMembers(cat.byRgbSum) && Admissible(r.color, Unpack(argb), f)
  {
    SearchCandidates(cat.byRgbSum, f, argb, 3 * f)
  }

  /** `MatchPixel` on the sampled pixel colour. */
  function MatchPixel(cat: Catalogue, pixel: Color, f: int): (r: MatchResult)
    ensures Pack(pixel) in cat.byArgb ==>
      r == Found(cat.byArgb[Pack(pixel)].name, cat.byArgb[Pack(pixel)].color)
    ensures Pack(pixel) !in cat.byArgb && f <= 0 ==> r == NotFound
    ensures Pack(pixel) !in cat.byArgb && r.Found? ==>
      Admissible(r.color, pixel, f) && Entry(r.name, r.color) in AllMembers(cat.byRgbSum)
  {
    var argb := Pack(pixel);
    UnpackPack(pixel);
    if argb in cat.byArgb then
      var hit := cat.byArgb[argb];
      Found(hit.name, hit.color)
    else
      FuzzySearch(cat, f, argb)
  }

  // ---------------------------------------------------------------------
  // Properties of the fuzzy search

  lemma QualifyingCons(x: Entry, r: seq<Entry>, toMatch: Color, f: int)
    ensures Qualifying([x] + r, toMatch, f) == Head(x, toMatch, f) + Qualifying(r, toMatch, f)
  {
    assert ([x] + r)[1..] == r;
  }

  /** Filtering distributes over concatenation. */
  lemma {:induction false} QualifyingAppend(a: seq<Entry>, b: seq<Entry>, toMatch: Color, f: int)
    ensures Qualifying(a + b, toMatch, f) == Qualifying(a, toMatch, f) + Qualifying(b, toMatch, f)
    decreases |a|
  {
    if |a| == 0 {
      assert a + b == b;
    } else {
      var x, r := a[0], a[1..];
      assert a == [x] + r && a + b == [x] + (r + b);
      QualifyingCons(x, r, toMatch, f);
      QualifyingCons(x, r + b, toMatch, f);
      QualifyingAppend(r, b, toMatch, f);
    }
  }

  /** Per-channel closeness bounds the sum: if every channel is within `f`
      then the channel sums differ by at most `3 * f`. */
  lemma AdmissibleWithinSumBound(c: Color, p: Color, f: int)
    requires Admissible(c, p, f)
    ensures Abs(RgbSum(c) - RgbSum(p)) <= 3 * f
  {
  }

  /** Pruning buckets by sum loses nothing: the candidates gathered from
      the pruned buckets are exactly those of filtering every entry of the
      bucket index, in the same order. */
  lemma {:induction false} PruningIsLossless(gs: seq<Group>, toMatch: Color, f: int)
    requires SumKeyed(gs)
    ensures GatherCandidates(gs, toMatch, f, 3 * f) == Qualifying(AllMembers(gs), toMatch, f)
    decreases |gs|
  {
    if |gs| > 0 {
      var rest := gs[1..];
      assert SumKeyed(rest) by {
        forall i | 0 <= i < |rest|
          ensures forall e :: e in rest[i].members ==> RgbSum(e.color) == rest[i].key
        {
          assert rest[i] == gs[i + 1];
        }
      }
      PruningIsLossless(rest, toMatch, f);
      QualifyingAppend(gs[0].members, AllMembers(rest), toMatch, f);
      if Abs(gs[0].key - RgbSum(toMatch)) > 3 * f {
        var q := Qualifying(gs[0].members, toMatch, f);
        if q != [] {
          QualifyingIsFilter(gs[0].members, toMatch, f);
          assert q[0] in q;
          AdmissibleWithinSumBound(q[0].entry.color, toMatch, f);
          assert false;
        }
      }
    }
  }

  /** A wider tolerance and a wider pruning bound never lose the last
      candidate. */
  lemma {:induction false} GatherMonotone(gs: seq<Group>, toMatch: Color, f: int, f': int, d: int, d': int)
    requires f <= f' && d <= d'
    requires |GatherCandidates(gs, toMatch, f, d)| > 0
    ensures |GatherCandidates(gs, toMatch, f', d')| > 0
    decreases |gs|
  {
    var here := if Abs(gs[0].key - RgbSum(toMatch)) <= d then Qualifying(gs[0].members, toMatch, f) else [];
    if |here| > 0 {
      var c := here[0];
      assert c in here;
      QualifyingIsFilter(gs[0].members, toMatch, f);
      QualifyingIsFilter(gs[0].members, toMatch, f');
      assert NewCandidate(c.entry, toMatch) in Qualifying(gs[0].members, toMatch, f');
    } else {
      GatherMonotone(gs[1..], toMatch, f, f', d, d');
    }
  }

  /** Raising the fuzziness never turns a match into no match. */
  lemma MatchPixelMonotone(cat: Catalogue, pixel: Color, f: int, f': int)
    requires f <= f'
    requires MatchPixel(cat, pixel, f).Found?
    ensures MatchPixel(cat, pixel, f').Found?
  {
    if Pack(pixel) !in cat.byArgb {
      var toMatch := Unpack(Pack(pixel));
      GatherMonotone(cat.byRgbSum, toMatch, f, f', 3 * f, 3 * f');
    }
  }

  /** On an exact miss with positive fuzziness, a match is found exactly
      when some entry of the bucket index is within the fuzziness on every
      channel. */
  lemma MatchPixelFindsIffAdmissible(cat: Catalogue, pixel: Color, f: int)
    requires SumKeyed(cat.byRgbSum)
    requires Pack(pixel) !in cat.byArgb && f > 0
    ensures MatchPixel(cat, pixel, f).Found? <==>
      exists e :: e in AllMembers(cat.byRgbSum) && Admissible(e.color, pixel, f)
  {
    UnpackPack(pixel);
    PruningIsLossless(cat.byRgbSum, pixel, f);
    var cs := Qualifying(AllMembers(cat.byRgbSum), pixel, f);
    QualifyingIsFilter(AllMembers(cat.byRgbSum), pixel, f);
    if e :| e in AllMembers(cat.byRgbSum) && Admissible(e.color, pixel, f) {
      assert NewCandidate(e, pixel) in cs;
    }
  }

  /** The winner of the fuzzy search is the first candidate, in group then
      member order over the whole bucket index, whose truncated average
      deviation is least. */
  lemma MatchPixelPicksFirstBest(cat: Catalogue, pixel: Color, f: int)
    requires SumKeyed(cat.byRgbSum)
    requires Pack(pixel) !in cat.byArgb
    requires MatchPixel(cat, pixel, f).Found?
    ensures var r := MatchPixel(cat, pixel, f);
      var cs := Qualifying(AllMembers(cat.byRgbSum), pixel, f);
      exists i :: 0 <= i < |cs| && cs[i].entry == Entry(r.name, r.color)
        && (forall j :: 0 <= j < |cs| ==> cs[i].averageRgbDeviation <= cs[j].averageRgbDeviation)
        && (forall j :: 0 <= j < i ==> cs[j].averageRgbDeviation > cs[i].averageRgbDeviation)
  {
    UnpackPack(pixel);
    PruningIsLossless(cat.byRgbSum, pixel, f);
    var cs := Qualifying(AllMembers(cat.byRgbSum), pixel, f);
    assert cs == GatherCandidates(cat.byRgbSum, Unpack(Pack(pixel)), f, 3 * f);
    assert MatchPixel(cat, pixel, f) == SearchCandidates(cat.byRgbSum, f, Pack(pixel), 3 * f);
    assert f > 0 && |cs| > 0;
    var i := FirstBest(cs);
    assert MatchPixel(cat, pixel, f) == Found(cs[i].entry.name, cs[i].entry.color);
  }

  /** No admissible entry of the bucket index is strictly closer, on the
      truncated average, than the winner. */
  lemma MatchPixelIsOptimal(cat: Catalogue, pixel: Color, f: int, e: Entry)
    requires SumKeyed(cat.byRgbSum)
    requires Pack(pixel) !in cat.byArgb && f > 0
    requires e in AllMembers(cat.byRgbSum) && Admissible(e.color, pixel, f)
    ensures var r := MatchPixel(cat, pixel, f);
      r.Found? && NewCandidate(Entry(r.name, r.color), pixel).averageRgbDeviation <= NewCandidate(e, pixel).averageRgbDeviation
  {
    MatchPixelFindsIffAdmissible(cat, pixel, f);
    MatchPixelPicksFirstBest(cat, pixel, f);
    var r := MatchPixel(cat, pixel, f);
    var cs := Qualifying(AllMembers(cat.byRgbSum), pixel, f);
    QualifyingIsFilter(AllMembers(cat.byRgbSum), pixel, f);
    var i :| 0 <= i < |cs| && cs[i].entry == Entry(r.name, r.color)
      && forall j :: 0 <= j < |cs| ==> cs[i].averageRgbDeviation <= cs[j].averageRgbDeviation;
    assert cs[i] in cs && cs[i] == NewCandidate(Entry(r.name, r.color), pixel);
    var j :| 0 <= j < |cs| && cs[j] == NewCandidate(e, pixel);
  }

  /** The bucket index built from `es` holds exactly the entries of `es`. */
  lemma LookupHoldsSource(es: seq<Entry>)
    ensures SumKeyed(ToLookup(es))
    ensures forall e :: e in AllMembers(ToLookup(es)) <==> e in es
  {
    var gs := ToLookup(es);
    LookupMembersFromSource(es);
    forall e | e in es
      ensures e in AllMembers(gs)
    {
      var i :| 0 <= i < |gs| && Keys(gs)[i] == RgbSum(e.color);
      WithSumKeeps(es, gs[i].key, e);
    }
  }

  /** On an exact miss, when exactly one bucket member is within the
      fuzziness on every channel, that member is the match. */
  lemma UniqueAdmissibleIsFound(cat: Catalogue, pixel: Color, f: int, e: Entry)
    requires SumKeyed(cat.byRgbSum)
    requires Pack(pixel) !in cat.byArgb && f > 0
    requires e in AllMembers(cat.byRgbSum) && Admissible(e.color, pixel, f)
    requires forall e' :: e' in AllMembers(cat.byRgbSum) && Admissible(e'.color, pixel, f) ==> e' == e
    ensures MatchPixel(cat, pixel, f) == Found(e.name, e.color)
  {
    MatchPixelFindsIffAdmissible(cat, pixel, f);
    var r := MatchPixel(cat, pixel, f);
    assert Entry(r.name, r.color) == e;
  }

  // ---------------------------------------------------------------------
  // Against a well-formed catalogue

  lemma AllMembersAreEntries(cat: Catalogue, e: Entry)
    requires WellFormed(cat)
    ensures e in AllMembers(cat.byRgbSum) <==> Pack(e.color) in cat.byArgb && cat.byArgb[Pack(e.color)] == e
  {
    WellFormedIndexesAgree(cat, e);
  }

  /** Against a built catalogue every match names a catalogue entry, and
      on an exact miss with positive fuzziness a match is found exactly
      when some catalogue colour is within the fuzziness on every channel. */
  lemma MatchPixelOnCatalogue(cat: Catalogue, pixel: Color, f: int)
    requires WellFormed(cat)
    ensures var r := MatchPixel(cat, pixel, f);
      r.Found? ==> Pack(r.color) in cat.byArgb && cat.byArgb[Pack(r.color)] == Entry(r.name, r.color)
    ensures Pack(pixel) !in cat.byArgb && f > 0 ==>
      (MatchPixel(cat, pixel, f).Found? <==> exists k :: k in cat.byArgb && Admissible(cat.byArgb[k].color, pixel, f))
  {
    var r := MatchPixel(cat, pixel, f);
    if Pack(pixel) !in cat.byArgb {
      if r.Found? {
        AllMembersAreEntries(cat, Entry(r.name, r.color));
      }
      if f > 0 {
        MatchPixelFindsIffAdmissible(cat, pixel, f);
        if k :| k in cat.byArgb && Admissible(cat.byArgb[k].color, pixel, f) {
          AllMembersAreEntries(cat, cat.byArgb[k]);
        }
        if r.Found? {
          var e :| e in AllMembers(cat.byRgbSum) && Admissible(e.color, pixel, f);
          AllMembersAreEntries(cat, e);
        }
      }
    }
  }

  /** A pixel that is not opaque never hits the exact index of an opaque
      catalogue, even when its R, G and B equal a catalogue colour's: with
      no fuzziness it is not found, and with fuzziness at least 1 it is
      found at average deviation 0. */
  lemma TranslucentPixelMatchesOnlyFuzzily(cat: Catalogue, pixel: Color, k: Argb, f: int)
    requires WellFormed(cat) && Opaque(cat)
    requires pixel.a != 255
    requires k in cat.byArgb
    requires cat.byArgb[k].color.r == pixel.r && cat.byArgb[k].color.g == pixel.g && cat.byArgb[k].color.b == pixel.b
    ensures Pack(pixel) !in cat.byArgb
    ensures f <= 0 ==> MatchPixel(cat, pixel, f) == NotFound
    ensures f >= 1 ==> var r := MatchPixel(cat, pixel, f);
      r.Found? && NewCandidate(Entry(r.name, r.color), pixel).averageRgbDeviation == 0
  {
    if Pack(pixel) in cat.byArgb {
      PackInjective(cat.byArgb[Pack(pixel)].color, pixel);
      assert false;
    }
    if f >= 1 {
      var e := cat.byArgb[k];
      AllMembersAreEntries(cat, e);
      MatchPixelOnCatalogue(cat, pixel, f);
      MatchPixelIsOptimal(cat, pixel, f, e);
    }
  }

  // ---------------------------------------------------------------------
  // The pruning bound as `FuzzySearch` computes it, in 32-bit `int`

  /** The range of a C# `int`. */
  type int32 = x: int | -0x8000_0000 <= x < 0x8000_0000

  /** Unchecked 32-bit two's-complement arithmetic: the value congruent to
      `x` modulo 2^32 within the `int` range. */
  function Wrap32(x: int): (r: int32)
    ensures (x - r) % 0x1_0000_0000 == 0
    ensures -0x8000_0000 <= x < 0x8000_0000 ==> r == x
  {
    var m := x % 0x1_0000_0000;
    if m < 0x8000_0000 then m else m - 0x1_0000_0000
  }

  /** `FuzzySearch` with `3 * rgbFuzziness` evaluated in 32-bit `int`. */
  function FuzzySearchAsWritten(cat: Catalogue, f: int32, argb: Argb): (r: MatchResult)
    ensures f <= 0 ==> r == NotFound
    ensures r.Found? ==>
      f > 0 && Entry(r.name, r.color) in AllMembers(cat.byRgbSum) && Admissible(r.color, Unpack(argb), f)
  {
    SearchCandidates(cat.byRgbSum, f, argb, Wrap32(3 * f))
  }

  /** `MatchPixel` with the 32-bit pruning bound. */
  function MatchPixelAsWritten(cat: Catalogue, pixel: Color, f: int32): (r: MatchResult)
    ensures Pack(pixel) in cat.byArgb ==>
      r == Found(cat.byArgb[Pack(pixel)].name, cat.byArgb[Pack(pixel)].color)
    ensures Pack(pixel) !in cat.byArgb && r.Found? ==> Admissible(r.color, pixel, f)
  {
    var argb := Pack(pixel);
    UnpackPack(pixel);
    if argb in cat.byArgb then
      var hit := cat.byArgb[argb];
      Found(hit.name, hit.color)
    else
      FuzzySearchAsWritten(cat, f, argb)
  }

  /** While `3 * f` fits in an `int`, the 32-bit `3 * rgbFuzziness` of
      `FuzzySearch` changes nothing: both matchers give the same result. */
  lemma AsWrittenAgreesBelowOverflow(cat: Catalogue, pixel: Color, f: int32)
    requires f <= 0x2AAA_AAAA
    ensures MatchPixelAsWritten(cat, pixel, f) == MatchPixel(cat, pixel, f)
  {
  }

  /** A negative pruning bound prunes every bucket. */
  lemma {:induction false} NegativeBoundPrunesAll(gs: seq<Group>, toMatch: Color, f: int, d: int)
    requires d < 0
    ensures GatherCandidates(gs, toMatch, f, d) == []
    decreases |gs|
  {
    if |gs| > 0 {
      NegativeBoundPrunesAll(gs[1..], toMatch, f, d);
    }
  }

  /** The catalogue the constructor builds from a one-entry dictionary. */
  function Singleton(e: Entry): (cat: Catalogue)
    ensures Build([(e.name, ColorWrapper(e.color))]) == Success(cat)
    ensures WellFormed(cat) && AllMembers(cat.byRgbSum) == [e]
  {
    var cat := Catalogue(map[Pack(e.color) := e], [Group(RgbSum(e.color), [e])]);
    assert Bucket(cat.byRgbSum, RgbSum(e.color)) == [e];
    var es := EntriesOf([(e.name, ColorWrapper(e.color))]);
    assert es == [e];
    assert es[..0] == [];
    assert ToDictionary(es) == Success(cat.byArgb);
    assert ToLookup(es) == cat.byRgbSum;
    cat
  }

  /** The first fuzziness at which `3 * f` overflows an `int`. */
  const FirstOverflowingFuzziness: int32 := 0x2AAA_AAAB

  lemma FirstOverflowWraps()
    ensures 3 * FirstOverflowingFuzziness == 0x8000_0001
    ensures Wrap32(3 * FirstOverflowingFuzziness) == -0x7FFF_FFFF
  {
  }

  /** A pixel other than the entry's colour misses the exact index of a
      one-entry catalogue. */
  lemma SingletonMisses(e: Entry, pixel: Color)
    requires pixel != e.color
    ensures Pack(pixel) !in Singleton(e).byArgb
  {
    PackInjective(pixel, e.color);
  }

  /** A pixel within `f` of the only entry is matched to it when the
      pruning bound is the unbounded `3 * f`. */
  lemma SingletonFindsAdmissible(e: Entry, pixel: Color, f: int)
    requires pixel != e.color && f > 0 && Admissible(e.color, pixel, f)
    ensures MatchPixel(Singleton(e), pixel, f) == Found(e.name, e.color)
  {
    SingletonMisses(e, pixel);
    UniqueAdmissibleIsFound(Singleton(e), pixel, f, e);
  }

  /** At the first overflowing fuzziness, `FuzzySearch`'s 32-bit
      `3 * rgbFuzziness` is negative and prunes the only bucket. */
  lemma AsWrittenMissesOnOverflow(e: Entry, pixel: Color)
    requires pixel != e.color
    ensures MatchPixelAsWritten(Singleton(e), pixel, FirstOverflowingFuzziness) == NotFound
  {
    var cat := Singleton(e);
    FirstOverflowWraps();
    SingletonMisses(e, pixel);
    NegativeBoundPrunesAll(cat.byRgbSum, Unpack(Pack(pixel)), FirstOverflowingFuzziness, -0x7FFF_FFFF);
  }

  /** In a one-entry catalogue, a pixel that is not the entry's colour but
      is within 1 of it on every channel (black and the pixel (0, 0, 1),
      say) is found at fuzziness 1 but not at 715827883, where `3 * f`
      wraps to -2147483647 and every bucket is pruned; with the unbounded
      bound it is found at both. */
  lemma AsWrittenLosesMatchOnOverflow(e: Entry, pixel: Color)
    requires pixel != e.color && Admissible(e.color, pixel, 1)
    ensures MatchPixelAsWritten(Singleton(e), pixel, 1) == Found(e.name, e.color)
    ensures MatchPixelAsWritten(Singleton(e), pixel, FirstOverflowingFuzziness) == NotFound
    ensures MatchPixel(Singleton(e), pixel, FirstOverflowingFuzziness) == Found(e.name, e.color)
  {
    SingletonFindsAdmissible(e, pixel, 1);
    AsWrittenAgreesBelowOverflow(Singleton(e), pixel, 1);
    AsWrittenMissesOnOverflow(e, pixel);
    SingletonFindsAdmissible(e, pixel, FirstOverflowingFuzziness);
  }
}
