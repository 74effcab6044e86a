/** The unit-test scenarios of the repository, stated about the model. */
module Scenarios {
  import opened Colors
  import opened ColorCatalogue
  import opened ColorMatcher

  /** Setting one property of a wrapper around (100, 100, 100) to 200. */
  lemma WrapperSetterScenario()
    ensures SetRed(ColorWrapper(Color(255, 100, 100, 100)), 200).color == Color(255, 200, 100, 100)
    ensures SetGreen(ColorWrapper(Color(255, 100, 100, 100)), 200).color == Color(255, 100, 200, 100)
    ensures SetBlue(ColorWrapper(Color(255, 100, 100, 100)), 200).color == Color(255, 100, 100, 200)
  {
  }

  const Teal: Color := Color(255, 0, 98, 110)
  const Tealish: Color := Color(255, 2, 96, 112)
  const Dummy1: Entry := Entry("Dummy1", Color(255, 1, 1, 1))
  const Dummy2: Entry := Entry("Dummy2", Color(255, 2, 2, 2))

  /** The mocked exact index: key `keys[i]` maps to `entries[i]`. */
  function MockIndex(keys: seq<Argb>, entries: seq<Entry>): map<Argb, Entry>
    requires |keys| == |entries|
    requires forall i, j :: 0 <= i < j < |keys| ==> keys[i] != keys[j]
  {
    map i | 0 <= i < |keys| :: keys[i] := entries[i]
  }

  /** The matcher tests substitute a catalogue whose exact index uses
      arbitrary keys and whose bucket index is built from its values. */
  function Substitute(keys: seq<Argb>, entries: seq<Entry>): Catalogue
    requires |keys| == |entries|
    requires forall i, j :: 0 <= i < j < |keys| ==> keys[i] != keys[j]
  {
    Catalogue(MockIndex(keys, entries), ToLookup(entries))
  }

  lemma InMockIndex(keys: seq<Argb>, entries: seq<Entry>, k: Argb)
    requires |keys| == |entries|
    requires forall i, j :: 0 <= i < j < |keys| ==> keys[i] != keys[j]
    ensures k in MockIndex(keys, entries) <==> k in keys
    ensures forall i :: 0 <= i < |keys| && keys[i] == k ==> MockIndex(keys, entries)[k] == entries[i]
  {
    var m := MockIndex(keys, entries);
    if k in keys {
      var i :| 0 <= i < |keys| && keys[i] == k;
      assert k in m;
    }
  }

  /** A pixel whose packed colour is none of the mocked keys misses the
      exact index and is matched fuzzily against exactly the mocked entries. */
  lemma SubstituteMisses(keys: seq<Argb>, entries: seq<Entry>, pixel: Color)
    requires |keys| == |entries|
    requires forall i, j :: 0 <= i < j < |keys| ==> keys[i] != keys[j]
    requires Pack(pixel) !in keys
    ensures var cat := Substitute(keys, entries);
      && Pack(pixel) !in cat.byArgb
      && SumKeyed(cat.byRgbSum)
      && forall e :: e in AllMembers(cat.byRgbSum) <==> e in entries
  {
    InMockIndex(keys, entries, Pack(pixel));
    LookupHoldsSource(entries);
  }

  /** When the pixel misses the mocked keys and exactly one mocked entry is
      within the fuzziness on every channel, that entry is the match. */
  lemma SubstituteFindsUnique(keys: seq<Argb>, entries: seq<Entry>, pixel: Color, f: int, e: Entry)
    requires |keys| == |entries|
    requires forall i, j :: 0 <= i < j < |keys| ==> keys[i] != keys[j]
    requires Pack(pixel) !in keys && f > 0
    requires e in entries && Admissible(e.color, pixel, f)
    requires forall e' :: e' in entries && Admissible(e'.color, pixel, f) ==> e' == e
    ensures MatchPixel(Substitute(keys, entries), pixel, f) == Found(e.name, e.color)
  {
    SubstituteMisses(keys, entries, pixel);
    UniqueAdmissibleIsFound(Substitute(keys, entries), pixel, f, e);
  }

  /** When the pixel misses the mocked keys and no mocked entry is within
      the fuzziness on every channel, nothing is found. */
  lemma SubstituteFindsNothing(keys: seq<Argb>, entries: seq<Entry>, pixel: Color, f: int)
    requires |keys| == |entries|
    requires forall i, j :: 0 <= i < j < |keys| ==> keys[i] != keys[j]
    requires Pack(pixel) !in keys
    requires forall e :: e in entries ==> !Admissible(e.color, pixel, f)
    ensures MatchPixel(Substitute(keys, entries), pixel, f) == NotFound
  {
    SubstituteMisses(keys, entries, pixel);
    if f > 0 {
      MatchPixelFindsIffAdmissible(Substitute(keys, entries), pixel, f);
    }
  }

  /** A pixel whose packed colour is the mocked key `keys[i]` gets
      `entries[i]`, whatever the fuzziness. */
  lemma SubstituteFindsExact(keys: seq<Argb>, entries: seq<Entry>, pixel: Color, f: int, i: int)
    requires |keys| == |entries|
    requires forall i, j :: 0 <= i < j < |keys| ==> keys[i] != keys[j]
    requires 0 <= i < |keys| && keys[i] == Pack(pixel)
    ensures MatchPixel(Substitute(keys, entries), pixel, f) == Found(entries[i].name, entries[i].color)
  {
    InMockIndex(keys, entries, Pack(pixel));
  }

  /** The teal pixel matches the teal entry exactly, at fuzziness 0. */
  lemma ExactColorScenario()
    ensures MatchPixel(Substitute([100, Pack(Teal), 200], [Dummy1, Entry("teal", Teal), Dummy2]), Teal, 0)
      == Found("teal", Teal)
  {
    assert Pack(Teal) > 200;
    SubstituteFindsExact([100, Pack(Teal), 200], [Dummy1, Entry("teal", Teal), Dummy2], Teal, 0, 1);
  }

  const TealishEntries: seq<Entry> := [Dummy1, Entry("tealish", Tealish), Dummy2]

  /** The teal pixel finds "tealish", two away on every channel, at
      fuzziness 2; the two dark greys are far off. */
  lemma CloseColorScenario()
    ensures Pack(Tealish) > 200
    ensures MatchPixel(Substitute([100, Pack(Tealish), 200], TealishEntries), Teal, 2) == Found("tealish", Tealish)
  {
    var keys: seq<Argb> := [100, Pack(Tealish), 200];
    assert Pack(Teal) > 200 && Pack(Tealish) > 200;
    PackInjective(Teal, Tealish);
    SubstituteFindsUnique(keys, TealishEntries, Teal, 2, TealishEntries[1]);
  }

  /** With only the two dark greys, the teal pixel is not found at
      fuzziness 2. */
  lemma FarColorScenario()
    ensures MatchPixel(Substitute([100, 200], [Dummy1, Dummy2]), Teal, 2) == NotFound
  {
    assert Pack(Teal) > 200;
    SubstituteFindsNothing([100, 200], [Dummy1, Dummy2], Teal, 2);
  }
}
