/** The catalogue of named colours and its two derived indexes
    (ColorMatcher.Logic/ColorCatalogue.cs): the exact index keyed by the
    packed ARGB value and the bucket index keyed by R+G+B. */
module ColorCatalogue {
  import opened Wrappers
  import opened Colors

  /** One catalogue colour: the `(ColorNameFromCatalogue, Color)` tuple. */
  datatype Entry = Entry(name: string, color: Color)

  /** One group of the `ILookup`: a key and the entries filed under it. */
  datatype Group = Group(key: int, members: seq<Entry>)

  /** Both indexes. Nothing updates either once the catalogue is built. */
  datatype Catalogue = Catalogue(byArgb: map<Argb, Entry>, byRgbSum: seq<Group>)

  /** `ToDictionary` throws on a repeated key; the error names that key. */
  datatype BuildError = DuplicateArgb(key: Argb)

  /** The deserialised `Dictionary<string, ColorWrapper>` in iteration order. */
  type Source = seq<(string, ColorWrapper)>

  function EntriesOf(src: Source): (es: seq<Entry>)
    ensures |es| == |src|
    ensures forall i :: 0 <= i < |src| ==> es[i] == Entry(src[i].0, src[i].1.color)
  {
    seq(|src|, i requires 0 <= i < |src| => Entry(src[i].0, src[i].1.color))
  }

  // ---------------------------------------------------------------------
  // The exact index (`CatalogueByArgb`)

  predicate DistinctArgb(es: seq<Entry>)
  {
    forall i, j :: 0 <= i < j < |es| ==> Pack(es[i].color) != Pack(es[j].color)
  }
  /** Entry `j` is the first to repeat the packed colour of an earlier one. */
  predicate FirstDuplicateAt(es: seq<Entry>, j: int)
  {
    && 0 < j < |es| && DistinctArgb(es[..j])
    && exists i :: 0 <= i < j && Pack(es[i].color) == Pack(es[j].color)
  }

  /** `ToDictionary(kvp => kvp.Value.Color.ToArgb(), ...)`: entries are
      added in order and the first one whose key is already present makes
      the construction fail, so nothing is ever overwritten. */
  function ToDictionary(es: seq<Entry>): (r: Result<map<Argb, Entry>, BuildError>)
    ensures r.Success? ==> forall k :: k in r.value ==> Pack(r.value[k].color) == k && r.value[k] in es
    ensures r.Success? ==> forall i :: 0 <= i < |es| ==>
      Pack(es[i].color) in r.value && r.value[Pack(es[i].color)] == es[i]
    decreases |es|
  {
    if |es| == 0 then Success(map[])
    else
      var init, last := es[..|es| - 1], es[|es| - 1];
      match ToDictionary(init)
      case Failure(e) => Failure(e)
      case Success(m) =>
        if Pack(last.color) in m then Failure(DuplicateArgb(Pack(last.color)))
        else
          assert forall i :: 0 <= i < |init| ==> es[i] == init[i];
          Success(m[Pack(last.color) := last])
  }

  /** Construction succeeds exactly when no two entries share a packed
      colour. */
  lemma {:induction false} DictionarySucceedsIffDistinct(es: seq<Entry>)
    ensures ToDictionary(es).Success? <==> DistinctArgb(es)
    decreases |es|
  {
    if |es| > 0 {
      var init, last := es[..|es| - 1], es[|es| - 1];
      DictionarySucceedsIffDistinct(init);
      assert forall i :: 0 <= i < |init| ==> es[i] == init[i];
      match ToDictionary(init)
      case Failure(e) =>
        assert !DistinctArgb(init);
        var i, j :| 0 <= i < j < |init| && Pack(init[i].color) == Pack(init[j].color);
        assert es[i] == init[i] && es[j] == init[j];
      case Success(m) =>
        if Pack(last.color) in m {
          var i :| 0 <= i < |init| && init[i] == m[Pack(last.color)];
          assert es[i] == init[i];
          assert Pack(es[i].color) == Pack(es[|es| - 1].color);
        } else {
          forall i, j | 0 <= i < j < |es|
            ensures Pack(es[i].color) != Pack(es[j].color)
          {
            if j < |es| - 1 {
              assert es[i] == init[i] && es[j] == init[j];
            } else {
              assert es[i] == init[i];
              assert Pack(init[i].color) in m;
            }
          }
        }
    }
  }

  /** Without duplicates there is one key per entry. */
  lemma {:induction false} DictionaryHasOneKeyPerEntry(es: seq<Entry>)
    requires ToDictionary(es).Success?
    ensures |ToDictionary(es).value| == |es|
    decreases |es|
  {
    if |es| > 0 {
      var init := es[..|es| - 1];
      DictionaryHasOneKeyPerEntry(init);
    }
  }

  /** The failure names the key of the first entry that repeats the packed
      colour of an earlier one. */
  lemma {:induction false} DictionaryRejectsFirstDuplicate(es: seq<Entry>)
    requires ToDictionary(es).Failure?
    ensures exists j :: FirstDuplicateAt(es, j) && ToDictionary(es).error.key == Pack(es[j].color)
    decreases |es|
  {
    var init, last := es[..|es| - 1], es[|es| - 1];
    match ToDictionary(init)
    case Failure(e) =>
      DictionaryRejectsFirstDuplicate(init);
      var j :| FirstDuplicateAt(init, j) && e.key == Pack(init[j].color);
      assert init[..j] == es[..j];
      assert es[j] == init[j];
      var i :| 0 <= i < j && Pack(init[i].color) == Pack(init[j].color);
      assert es[i] == init[i];
    case Success(m) =>
      DictionarySucceedsIffDistinct(init);
      var i :| 0 <= i < |init| && init[i] == m[Pack(last.color)];
      assert es[i] == init[i];
      assert es[..|es| - 1] == init;
      assert FirstDuplicateAt(es, |es| - 1);
  }

  // ---------------------------------------------------------------------
  // The bucket index (`CatalogueByRgbSum`)

  function Keys(gs: seq<Group>): (ks: seq<int>)
    ensures |ks| == |gs| && forall i :: 0 <= i < |gs| ==> ks[i] == gs[i].key
  {
    seq(|gs|, i requires 0 <= i < |gs| => gs[i].key)
  }

  predicate DistinctKeys(gs: seq<Group>)
  {
    forall i, j :: 0 <= i < j < |gs| ==> gs[i].key != gs[j].key
  }

  /** The entries of `es` whose channel sum is `k`, in their order: the
      reference the bucket index is checked against. */
  function WithSum(es: seq<Entry>, k: int): (r: seq<Entry>)
    ensures forall e :: e in r ==> e in es && RgbSum(e.color) == k
    decreases |es|
  {
    if |es| == 0 then []
    else
      var init, last := es[..|es| - 1], es[|es| - 1];
      WithSum(init, k) + (if RgbSum(last.color) == k then [last] else [])
  }

  /** Position of the group with key `k`, or `|gs|` when there is none. */
  function IndexOfKey(gs: seq<Group>, k: int): (i: nat)
    ensures i <= |gs|
    ensures i < |gs| ==> gs[i].key == k
    ensures forall j :: 0 <= j < i ==> gs[j].key != k
    decreases |gs|
  {
    if |gs| == 0 then 0
    else if gs[0].key == k then 0
    else 1 + IndexOfKey(gs[1..], k)
  }

  /** Files `e` under its sum: appended to the group with that key when
      there is one, otherwise as a new group after all existing ones. */
  function AddToGroup(gs: seq<Group>, e: Entry): seq<Group>
  {
    var k := RgbSum(e.color);
    var i := IndexOfKey(gs, k);
    if i == |gs| then gs + [Group(k, [e])]
    else gs[i := Group(k, gs[i].members + [e])]
  }

  /** Key `k1` occurs in `es` before `k2` first occurs. */
  predicate AppearsBefore(es: seq<Entry>, k1: int, k2: int)
  {
    exists p :: 0 <= p < |es| && RgbSum(es[p].color) == k1
      && forall q :: 0 <= q <= p ==> RgbSum(es[q].color) != k2
  }

  /** `gs` groups exactly the entries of `es` by channel sum. */
  predicate LookupOf(es: seq<Entry>, gs: seq<Group>)
  {
    && DistinctKeys(gs)
    && (forall i :: 0 <= i < |gs| ==> |gs[i].members| > 0 && gs[i].members == WithSum(es, gs[i].key))
    && (forall e :: e in es ==> RgbSum(e.color) in Keys(gs))
  }

  /** `ToLookup(kvp => R + G + B, ...)`: one non-empty group per sum, each
      holding every entry with that sum in source order. */
  function ToLookup(es: seq<Entry>): (gs: seq<Group>)
    ensures LookupOf(es, gs)
    decreases |es|
  {
    if |es| == 0 then []
    else
      var init, last := es[..|es| - 1], es[|es| - 1];
      LookupStep(es, ToLookup(init));
      AddToGroup(ToLookup(init), last)
  }

  /** Every entry of `es` with sum `k` is kept. */
  lemma {:induction false} WithSumKeeps(es: seq<Entry>, k: int, e: Entry)
    requires e in es && RgbSum(e.color) == k
    ensures e in WithSum(es, k)
    decreases |es|
  {
    var init, last := es[..|es| - 1], es[|es| - 1];
    if e != last {
      assert es == init + [last];
      WithSumKeeps(init, k, e);
    }
  }

  lemma WithSumSnoc(init: seq<Entry>, last: Entry, k: int)
    ensures WithSum(init + [last], k) == WithSum(init, k) + (if RgbSum(last.color) == k then [last] else [])
  {
    assert (init + [last])[..|init|] == init;
  }

  lemma AddToGroupKeepsKeysDistinct(gs: seq<Group>, e: Entry)
    requires DistinctKeys(gs)
    ensures DistinctKeys(AddToGroup(gs, e))
  {
  }

  /** A sum not yet a key of the lookup of `init` starts a new group holding
      just `last`. */
  lemma NewGroupMembers(init: seq<Entry>, last: Entry, gs0: seq<Group>)
    requires LookupOf(init, gs0)
    requires IndexOfKey(gs0, RgbSum(last.color)) == |gs0|
    ensures WithSum(init + [last], RgbSum(last.color)) == [last]
  {
    var k := RgbSum(last.color);
    forall e | e in init
      ensures RgbSum(e.color) != k
    {
      var j :| 0 <= j < |gs0| && Keys(gs0)[j] == RgbSum(e.color);
    }
    WithSumEmpty(init, k);
    WithSumSnoc(init, last, k);
  }

  lemma AddToGroupMemberAt(init: seq<Entry>, last: Entry, gs0: seq<Group>, i: int)
    requires LookupOf(init, gs0)
    requires 0 <= i < |AddToGroup(gs0, last)|
    ensures var g := AddToGroup(gs0, last)[i];
      |g.members| > 0 && g.members == WithSum(init + [last], g.key)
  {
    var gs := AddToGroup(gs0, last);
    var k := RgbSum(last.color);
    var n := IndexOfKey(gs0, k);
    WithSumSnoc(init, last, gs[i].key);
    if i == |gs0| {
      assert n == |gs0| && gs[i] == Group(k, [last]);
      NewGroupMembers(init, last, gs0);
    } else if i == n {
      assert gs[i] == Group(k, gs0[i].members + [last]);
    } else {
      assert gs[i] == gs0[i] && gs0[i].key != k;
    }
  }

  lemma AddToGroupMembers(init: seq<Entry>, last: Entry, gs0: seq<Group>)
    requires LookupOf(init, gs0)
    ensures var gs := AddToGroup(gs0, last);
      forall i :: 0 <= i < |gs| ==> |gs[i].members| > 0 && gs[i].members == WithSum(init + [last], gs[i].key)
  {
    var gs := AddToGroup(gs0, last);
    forall i | 0 <= i < |gs|
      ensures |gs[i].members| > 0 && gs[i].members == WithSum(init + [last], gs[i].key)
    {
      AddToGroupMemberAt(init, last, gs0, i);
    }
  }

  lemma AddToGroupCovers(init: seq<Entry>, last: Entry, gs0: seq<Group>)
    requires LookupOf(init, gs0)
    ensures forall e :: e in init + [last] ==> RgbSum(e.color) in Keys(AddToGroup(gs0, last))
  {
    var gs := AddToGroup(gs0, last);
    var k := RgbSum(last.color);
    var n := IndexOfKey(gs0, k);
    assert |gs| >= |gs0| && forall i :: 0 <= i < |gs0| ==> gs[i].key == gs0[i].key;
    forall e | e in init + [last]
      ensures RgbSum(e.color) in Keys(gs)
    {
      if e in init {
        var i :| 0 <= i < |gs0| && Keys(gs0)[i] == RgbSum(e.color);
        assert Keys(gs)[i] == RgbSum(e.color);
      } else {
        assert Keys(gs)[n] == k;
      }
    }
  }

  lemma LookupStep(es: seq<Entry>, gs0: seq<Group>)
    requires |es| > 0 && LookupOf(es[..|es| - 1], gs0)
    ensures LookupOf(es, AddToGroup(gs0, es[|es| - 1]))
  {
    var init, last := es[..|es| - 1], es[|es| - 1];
    assert es == init + [last];
    AddToGroupKeepsKeysDistinct(gs0, last);
    AddToGroupMembers(init, last, gs0);
    AddToGroupCovers(init, last, gs0);
  }

  lemma AppearsBeforeSnoc(init: seq<Entry>, last: Entry, k1: int, k2: int)
    requires AppearsBefore(init, k1, k2)
    ensures AppearsBefore(init + [last], k1, k2)
  {
    var es := init + [last];
    var p :| 0 <= p < |init| && RgbSum(init[p].color) == k1
      && forall q :: 0 <= q <= p ==> RgbSum(init[q].color) != k2;
    assert es[p] == init[p];
    assert forall q :: 0 <= q <= p ==> es[q] == init[q];
  }

  lemma AppearsBeforeNewKey(init: seq<Entry>, last: Entry, e: Entry)
    requires e in init && forall x :: x in init ==> RgbSum(x.color) != RgbSum(last.color)
    ensures AppearsBefore(init + [last], RgbSum(e.color), RgbSum(last.color))
  {
    var es := init + [last];
    var p :| 0 <= p < |init| && init[p] == e;
    assert es[p] == init[p];
    forall q | 0 <= q <= p
      ensures RgbSum(es[q].color) != RgbSum(last.color)
    {
      assert es[q] == init[q] && init[q] in init;
    }
  }

  predicate KeysInFirstAppearanceOrder(es: seq<Entry>, gs: seq<Group>)
  {
    forall i, j :: 0 <= i < j < |gs| ==> AppearsBefore(es, gs[i].key, gs[j].key)
  }

  lemma OrderStep(es: seq<Entry>, gs0: seq<Group>)
    requires |es| > 0
    requires LookupOf(es[..|es| - 1], gs0) && KeysInFirstAppearanceOrder(es[..|es| - 1], gs0)
    ensures KeysInFirstAppearanceOrder(es, AddToGroup(gs0, es[|es| - 1]))
  {
    var init, last := es[..|es| - 1], es[|es| - 1];
    assert es == init + [last];
    var gs := AddToGroup(gs0, last);
    var k := RgbSum(last.color);
    assert forall i :: 0 <= i < |gs0| ==> gs[i].key == gs0[i].key;
    forall i, j | 0 <= i < j < |gs|
      ensures AppearsBefore(init + [last], gs[i].key, gs[j].key)
    {
      if j < |gs0| {
        AppearsBeforeSnoc(init, last, gs0[i].key, gs0[j].key);
      } else {
        assert gs[j].key == k && k !in Keys(gs0);
        var e := gs0[i].members[0];
        assert e in WithSum(init, gs0[i].key);
        AppearsBeforeNewKey(init, last, e);
      }
    }
  }

  /** Groups come in the order their keys first appear in `es`. */
  lemma {:induction false} LookupKeysInFirstAppearanceOrder(es: seq<Entry>)
    ensures KeysInFirstAppearanceOrder(es, ToLookup(es))
    decreases |es|
  {
    if |es| > 0 {
      var init := es[..|es| - 1];
      LookupKeysInFirstAppearanceOrder(init);
      OrderStep(es, ToLookup(init));
    }
  }

  lemma WithSumEmpty(es: seq<Entry>, k: int)
    requires forall e :: e in es ==> RgbSum(e.color) != k
    ensures WithSum(es, k) == []
  {
  }

  /** The `ILookup` indexer: the members under `k`, empty when none. */
  function Bucket(gs: seq<Group>, k: int): seq<Entry>
  {
    var i := IndexOfKey(gs, k);
    if i < |gs| then gs[i].members else []
  }

  /** Looking up any sum yields exactly the source entries with that sum,
      in source order: every entry is kept and nothing else is there. */
  lemma BucketIsFilter(es: seq<Entry>, gs: seq<Group>, k: int)
    requires LookupOf(es, gs)
    ensures Bucket(gs, k) == WithSum(es, k)
  {
    if IndexOfKey(gs, k) == |gs| {
      assert k !in Keys(gs);
      WithSumEmpty(es, k);
    }
  }

  function KeySet(gs: seq<Group>): set<int>
  {
    set g | g in gs :: g.key
  }

  function SumSet(es: seq<Entry>): set<int>
  {
    set e | e in es :: RgbSum(e.color)
  }

  lemma KeySetCons(gs: seq<Group>)
    requires |gs| > 0
    ensures KeySet(gs) == {gs[0].key} + KeySet(gs[1..])
  {
    forall k | k in KeySet(gs)
      ensures k in {gs[0].key} + KeySet(gs[1..])
    {
      var g :| g in gs && g.key == k;
      var i :| 0 <= i < |gs| && gs[i] == g;
      if i > 0 {
        assert gs[1..][i - 1] == g;
      }
    }
  }

  lemma DistinctKeysTail(gs: seq<Group>)
    requires |gs| > 0 && DistinctKeys(gs)
    ensures DistinctKeys(gs[1..]) && gs[0].key !in KeySet(gs[1..])
  {
    var rest := gs[1..];
    forall i, j | 0 <= i < j < |rest|
      ensures rest[i].key != rest[j].key
    {
      assert rest[i] == gs[i + 1] && rest[j] == gs[j + 1];
    }
    forall g | g in rest
      ensures g.key != gs[0].key
    {
      var j :| 0 <= j < |rest| && rest[j] == g;
      assert gs[j + 1] == g;
    }
  }

  lemma {:induction false} DistinctKeysCount(gs: seq<Group>)
    requires DistinctKeys(gs)
    ensures |KeySet(gs)| == |gs|
    decreases |gs|
  {
    if |gs| > 0 {
      DistinctKeysTail(gs);
      DistinctKeysCount(gs[1..]);
      KeySetCons(gs);
    }
  }

  /** One group per distinct channel sum. */
  lemma LookupHasOneGroupPerSum(es: seq<Entry>)
    ensures |ToLookup(es)| == |SumSet(es)|
  {
    var gs := ToLookup(es);
    assert KeySet(gs) == SumSet(es) by {
      forall k | k in KeySet(gs)
        ensures k in SumSet(es)
      {
        var g :| g in gs && g.key == k;
        var i :| 0 <= i < |gs| && gs[i] == g;
        assert g.members[0] in WithSum(es, k);
      }
      forall k | k in SumSet(es)
        ensures k in KeySet(gs)
      {
        var e :| e in es && RgbSum(e.color) == k;
        var i :| 0 <= i < |gs| && Keys(gs)[i] == k;
        assert gs[i] in gs;
      }
    }
    DistinctKeysCount(gs);
  }

  // ---------------------------------------------------------------------
  // The catalogue

  predicate ArgbKeyed(m: map<Argb, Entry>)
  {
    forall k :: k in m ==> Pack(m[k].color) == k
  }

  predicate SumKeyed(gs: seq<Group>)
  {
    forall i :: 0 <= i < |gs| ==> forall e :: e in gs[i].members ==> RgbSum(e.color) == gs[i].key
  }

  /** The shape construction gives a catalogue: each index is keyed by
      what it claims, and both hold the same entries. */
  predicate WellFormed(cat: Catalogue)
  {
    && ArgbKeyed(cat.byArgb)
    && DistinctKeys(cat.byRgbSum)
    && SumKeyed(cat.byRgbSum)
    && (forall k :: k in cat.byArgb ==> cat.byArgb[k] in Bucket(cat.byRgbSum, RgbSum(cat.byArgb[k].color)))
    && (forall i :: 0 <= i < |cat.byRgbSum| ==> forall e :: e in cat.byRgbSum[i].members ==>
          Pack(e.color) in cat.byArgb && cat.byArgb[Pack(e.color)] == e)
  }

  /** The `Catalogue` setter run by the dictionary constructor: both
      indexes are derived from the source entries, or construction fails
      on the first repeated packed colour. */
  function Build(src: Source): (r: Result<Catalogue, BuildError>)
    ensures r.Success? <==> DistinctArgb(EntriesOf(src))
    ensures r.Success? ==> |r.value.byArgb| == |src|
    ensures r.Success? ==> forall i :: 0 <= i < |src| ==>
      Pack(src[i].1.color) in r.value.byArgb && r.value.byArgb[Pack(src[i].1.color)] == Entry(src[i].0, src[i].1.color)
    ensures r.Failure? ==> exists j :: FirstDuplicateAt(EntriesOf(src), j) && r.error.key == Pack(src[j].1.color)
  {
    var es := EntriesOf(src);
    DictionarySucceedsIffDistinct(es);
    match ToDictionary(es)
    case Failure(e) =>
      DictionaryRejectsFirstDuplicate(es);
      Failure(e)
    case Success(m) =>
      DictionaryHasOneKeyPerEntry(es);
      Success(Catalogue(m, ToLookup(es)))
  }

  /** Every key of a built exact index is filed in the bucket of its sum. */
  lemma DictionaryEntriesInBuckets(es: seq<Entry>, m: map<Argb, Entry>, gs: seq<Group>)
    requires ToDictionary(es) == Success(m) && LookupOf(es, gs)
    ensures forall k :: k in m ==> m[k] in Bucket(gs, RgbSum(m[k].color))
  {
    forall k | k in m
      ensures m[k] in Bucket(gs, RgbSum(m[k].color))
    {
      BucketIsFilter(es, gs, RgbSum(m[k].color));
      WithSumKeeps(es, RgbSum(m[k].color), m[k]);
    }
  }

  /** Every bucket member of a lookup is indexed under its packed colour. */
  lemma BucketMembersInDictionary(es: seq<Entry>, m: map<Argb, Entry>, gs: seq<Group>)
    requires ToDictionary(es) == Success(m) && LookupOf(es, gs)
    ensures forall i :: 0 <= i < |gs| ==> forall e :: e in gs[i].members ==> Pack(e.color) in m && m[Pack(e.color)] == e
  {
    forall i, e | 0 <= i < |gs| && e in gs[i].members
      ensures Pack(e.color) in m && m[Pack(e.color)] == e
    {
      assert e in WithSum(es, gs[i].key);
      var j :| 0 <= j < |es| && es[j] == e;
    }
  }

  /** The bucket index of a lookup is keyed by channel sum. */
  lemma LookupIsSumKeyed(es: seq<Entry>, gs: seq<Group>)
    requires LookupOf(es, gs)
    ensures SumKeyed(gs)
  {
    forall i | 0 <= i < |gs|
      ensures forall e :: e in gs[i].members ==> RgbSum(e.color) == gs[i].key
    {
      assert gs[i].members == WithSum(es, gs[i].key);
    }
  }

  /** The two indexes built from the same entries form a well-formed
      catalogue. */
  lemma IndexesAreWellFormed(es: seq<Entry>, m: map<Argb, Entry>)
    requires ToDictionary(es) == Success(m)
    ensures WellFormed(Catalogue(m, ToLookup(es)))
  {
    var gs := ToLookup(es);
    LookupIsSumKeyed(es, gs);
    DictionaryEntriesInBuckets(es, m, gs);
    BucketMembersInDictionary(es, m, gs);
  }

  lemma BuildParts(src: Source)
    requires DistinctArgb(EntriesOf(src))
    ensures ToDictionary(EntriesOf(src)) == Success(Build(src).value.byArgb)
    ensures Build(src).value.byRgbSum == ToLookup(EntriesOf(src))
  {
  }

  /** A built catalogue is well formed, and its bucket index answers every
      sum with exactly the source entries of that sum. */
  lemma BuildIsWellFormed(src: Source)
    requires DistinctArgb(EntriesOf(src))
    ensures WellFormed(Build(src).value)
    ensures forall k :: Bucket(Build(src).value.byRgbSum, k) == WithSum(EntriesOf(src), k)
  {
    var es := EntriesOf(src);
    var cat := Build(src).value;
    BuildParts(src);
    IndexesAreWellFormed(es, cat.byArgb);
    forall k
      ensures Bucket(cat.byRgbSum, k) == WithSum(es, k)
    {
      BucketIsFilter(es, cat.byRgbSum, k);
    }
  }

  /** The bucket index of a built catalogue: keys within 0..765, one group
      per distinct sum, groups in order of first appearance. */
  lemma BuiltBucketShape(src: Source)
    requires DistinctArgb(EntriesOf(src))
    ensures var gs := Build(src).value.byRgbSum;
      && (forall i :: 0 <= i < |gs| ==> 0 <= gs[i].key <= 765)
      && |gs| == |SumSet(EntriesOf(src))|
      && KeysInFirstAppearanceOrder(EntriesOf(src), gs)
  {
    var es := EntriesOf(src);
    var gs := Build(src).value.byRgbSum;
    assert gs == ToLookup(es);
    forall i | 0 <= i < |gs|
      ensures 0 <= gs[i].key <= 765
    {
      assert gs[i].members[0] in WithSum(es, gs[i].key);
    }
    LookupHasOneGroupPerSum(es);
    LookupKeysInFirstAppearanceOrder(es);
  }

  /** Every colour in the exact index is opaque. */
  predicate Opaque(cat: Catalogue)
  {
    forall k :: k in cat.byArgb ==> cat.byArgb[k].color.a == 255
  }

  /** The bucket index and the exact index of a well-formed catalogue hold
      the same entries. */
  lemma WellFormedIndexesAgree(cat: Catalogue, e: Entry)
    requires WellFormed(cat)
    ensures (exists i :: 0 <= i < |cat.byRgbSum| && e in cat.byRgbSum[i].members)
      <==> Pack(e.color) in cat.byArgb && cat.byArgb[Pack(e.color)] == e
  {
    var gs := cat.byRgbSum;
    if Pack(e.color) in cat.byArgb && cat.byArgb[Pack(e.color)] == e {
      var i := IndexOfKey(gs, RgbSum(e.color));
      assert e in Bucket(gs, RgbSum(e.color));
      assert i < |gs| && e in gs[i].members;
    }
  }

  /** Catalogues deserialised through `ColorWrapper` setters are opaque:
      building keeps each wrapper's colour, alpha included. */
  lemma BuildKeepsAlpha(src: Source)
    requires DistinctArgb(EntriesOf(src))
    requires forall i :: 0 <= i < |src| ==> src[i].1.color.a == 255
    ensures Opaque(Build(src).value)
  {
    var es := EntriesOf(src);
    var m := Build(src).value.byArgb;
    assert ToDictionary(es) == Success(m);
    forall k | k in m
      ensures m[k].color.a == 255
    {
      var j :| 0 <= j < |es| && es[j] == m[k];
    }
  }

  /** Every group of a lookup holds only source entries of its key's sum. */
  lemma LookupMembersFromSource(es: seq<Entry>)
    ensures SumKeyed(ToLookup(es))
    ensures forall i, e :: 0 <= i < |ToLookup(es)| && e in ToLookup(es)[i].members ==> e in es
  {
  }

  predicate DistinctSums(es: seq<Entry>)
  {
    forall i, j :: 0 <= i < j < |es| ==> RgbSum(es[i].color) != RgbSum(es[j].color)
  }

  lemma {:induction false} DistinctSumsSingleMember(es: seq<Entry>, k: int)
    requires DistinctSums(es)
    ensures |WithSum(es, k)| <= 1
    decreases |es|
  {
    if |es| > 0 {
      var init, last := es[..|es| - 1], es[|es| - 1];
      assert DistinctSums(init) by {
        assert forall i :: 0 <= i < |init| ==> init[i] == es[i];
      }
      DistinctSumsSingleMember(init, k);
      if RgbSum(last.color) == k {
        forall e | e in init
          ensures RgbSum(e.color) != k
        {
          var i :| 0 <= i < |init| && init[i] == e;
          assert es[i] == e;
        }
        WithSumEmpty(init, k);
      }
    }
  }

  lemma SumSetSnoc(es: seq<Entry>)
    requires |es| > 0
    ensures SumSet(es) == SumSet(es[..|es| - 1]) + {RgbSum(es[|es| - 1].color)}
  {
    var init, last := es[..|es| - 1], es[|es| - 1];
    assert es == init + [last];
    forall k | k in SumSet(es)
      ensures k in SumSet(init) + {RgbSum(last.color)}
    {
      var e :| e in init + [last] && RgbSum(e.color) == k;
    }
  }

  /** A sum-distinct sequence has one sum per entry. */
  lemma {:induction false} DistinctSumsCount(es: seq<Entry>)
    requires DistinctSums(es)
    ensures |SumSet(es)| == |es|
    decreases |es|
  {
    if |es| > 0 {
      var init, last := es[..|es| - 1], es[|es| - 1];
      assert DistinctSums(init) by {
        assert forall i :: 0 <= i < |init| ==> init[i] == es[i];
      }
      DistinctSumsCount(init);
      SumSetSnoc(es);
      assert RgbSum(last.color) !in SumSet(init) by {
        forall e | e in init
          ensures RgbSum(e.color) != RgbSum(last.color)
        {
          var i :| 0 <= i < |init| && init[i] == e;
          assert es[i] == e;
        }
      }
    }
  }

  /** When no two source colours share a channel sum, the bucket index has
      one group per entry and each group holds exactly one entry. */
  lemma BucketsAreSingletonsWhenSumsDiffer(src: Source)
    requires DistinctArgb(EntriesOf(src))
    requires DistinctSums(EntriesOf(src))
    ensures var gs := Build(src).value.byRgbSum;
      |gs| == |src| && forall i :: 0 <= i < |gs| ==> |gs[i].members| == 1
  {
    var es := EntriesOf(src);
    var gs := Build(src).value.byRgbSum;
    BuiltBucketShape(src);
    DistinctSumsCount(es);
    forall i | 0 <= i < |gs|
      ensures |gs[i].members| == 1
    {
      assert gs == ToLookup(es);
      DistinctSumsSingleMember(es, gs[i].key);
    }
  }
}
