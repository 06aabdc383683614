/** The quick-add volumes: the built-in `defaultGlasses`, the user's
    `savedGlasses`, and the merged `allGlasses` the grid of buttons shows.

    JavaScript's `array.sort((a, b) => a - b)` is modelled by `Sort`, an
    insertion sort; `SortedPermutationUnique` shows that any correct ascending
    sort gives the same list, so the choice of algorithm does not matter. */
module Presets {
  import opened Wrappers

  /** `defaultGlasses`. */
  const DEFAULTS: seq<int> := [100, 400, 500]

  predicate Sorted(s: seq<int>) {
    forall i, j :: 0 <= i < j < |s| ==> s[i] <= s[j]
  }

  predicate Distinct(s: seq<int>) {
    forall i, j :: 0 <= i < j < |s| ==> s[i] != s[j]
  }

  // ---------------------------------------------------------------------------
  // Sorting

  /** `x` placed into the sorted list `s` before its first element that is not smaller. */
  function Insert(x: int, s: seq<int>): (r: seq<int>)
    ensures multiset(r) == multiset(s) + multiset{x}
  {
    if s == [] || x <= s[0] then [x] + s
    else
      assert s == [s[0]] + s[1..];
      [s[0]] + Insert(x, s[1..])
  }

  lemma {:induction false} InsertSorted(x: int, s: seq<int>)
    requires Sorted(s)
    ensures Sorted(Insert(x, s))
  {
    if s != [] && x > s[0] {
      var t := Insert(x, s[1..]);
      InsertSorted(x, s[1..]);
      forall k | 0 <= k < |t| ensures s[0] <= t[k] {
        assert t[k] in multiset(t);
        assert t[k] == x || t[k] in multiset(s[1..]);
        if t[k] != x {
          assert t[k] in s[1..];
        }
      }
    }
  }

  /** The ascending sort of `s`. */
  function Sort(s: seq<int>): (r: seq<int>)
    ensures Sorted(r)
    ensures multiset(r) == multiset(s)
  {
    if s == [] then []
    else
      assert s == [s[0]] + s[1..];
      InsertSorted(s[0], Sort(s[1..]));
      Insert(s[0], Sort(s[1..]))
  }

  /** Two ascending lists holding the same elements start with the same element. */
  lemma SortedSameHead(s: seq<int>, t: seq<int>)
    requires Sorted(s) && Sorted(t)
    requires multiset(s) == multiset(t)
    requires s != []
    ensures t != [] && s[0] == t[0]
  {
    assert s[0] in multiset(t);
    assert t != [] && t[0] in multiset(s);
    assert s[0] <= t[0] && t[0] <= s[0];
  }

  /** Dropping the head element of a list leaves its multiset less that element. */
  lemma TailMultiset(s: seq<int>)
    requires s != []
    ensures multiset(s[1..]) == multiset(s) - multiset{s[0]}
  {
    assert s == [s[0]] + s[1..];
  }

  /** Two ascending lists holding the same elements are the same list. */
  lemma {:induction false} SortedPermutationUnique(s: seq<int>, t: seq<int>)
    requires Sorted(s) && Sorted(t)
    requires multiset(s) == multiset(t)
    ensures s == t
  {
    if s != [] {
      SortedSameHead(s, t);
      TailMultiset(s);
      TailMultiset(t);
      SortedPermutationUnique(s[1..], t[1..]);
      assert s == [s[0]] + s[1..] && t == [t[0]] + t[1..];
    }
  }

  /** An ascending list is its own sort. */
  lemma SortSorted(s: seq<int>)
    requires Sorted(s)
    ensures Sort(s) == s
  {
    SortedPermutationUnique(Sort(s), s);
  }

  // ---------------------------------------------------------------------------
  // Duplicates

  /** Being duplicate-free depends on the elements only, not on their order. */
  lemma {:induction false} DistinctMultiset(s: seq<int>)
    ensures Distinct(s) <==> forall x :: multiset(s)[x] <= 1
  {
    if s != [] {
      var t := s[1..];
      assert s == [s[0]] + t;
      DistinctMultiset(t);
      if Distinct(s) {
        assert Distinct(t) by {
          forall i, j | 0 <= i < j < |t| ensures t[i] != t[j] {
            assert s[i + 1] == t[i] && s[j + 1] == t[j];
          }
        }
        forall j | 0 <= j < |t| ensures t[j] != s[0] {
          assert s[j + 1] == t[j];
        }
        assert s[0] !in t;
      }
      if forall x :: multiset(s)[x] <= 1 {
        forall x ensures multiset(t)[x] <= 1 {
          assert multiset(s)[x] == multiset(t)[x] + (if x == s[0] then 1 else 0);
        }
        assert multiset(s)[s[0]] <= 1;
        assert s[0] !in multiset(t);
        forall i, j | 0 <= i < j < |s| ensures s[i] != s[j] {
          if i == 0 {
            assert s[j] == t[j - 1];
          } else {
            assert s[i] == t[i - 1] && s[j] == t[j - 1];
          }
        }
      }
    }
  }

  lemma DistinctPermutation(s: seq<int>, t: seq<int>)
    requires multiset(s) == multiset(t)
    ensures Distinct(s) <==> Distinct(t)
  {
    DistinctMultiset(s);
    DistinctMultiset(t);
  }

  // ---------------------------------------------------------------------------
  // Removing a value (`filter(g => g !== amount)`)

  /** `s` with every occurrence of `v` removed. */
  function Without(s: seq<int>, v: int): (r: seq<int>)
    ensures multiset(r) == multiset(s)[v := 0]
    ensures v !in r
    ensures forall x :: x in r <==> x in s && x != v
  {
    if s == [] then []
    else
      assert s == [s[0]] + s[1..];
      (if s[0] == v then [] else [s[0]]) + Without(s[1..], v)
  }

  /** `t` keeps some of the elements of `s`, in their original order. */
  predicate IsSubsequence(t: seq<int>, s: seq<int>)
    decreases |s|
  {
    if t == [] then true
    else if s == [] then false
    else if t[0] == s[0] then IsSubsequence(t[1..], s[1..])
    else IsSubsequence(t, s[1..])
  }

  /** Removal keeps every other element in its original relative order. */
  lemma {:induction false} WithoutKeepsOrder(s: seq<int>, v: int)
    ensures IsSubsequence(Without(s, v), s)
  {
    if s != [] {
      var rest := Without(s[1..], v);
      WithoutKeepsOrder(s[1..], v);
      if s[0] != v {
        assert Without(s, v) == [s[0]] + rest;
      } else {
        assert Without(s, v) == rest;
        assert rest != [] ==> rest[0] != s[0];
      }
    }
  }

  /** Removing a value that is not there changes nothing. */
  lemma {:induction false} WithoutAbsent(s: seq<int>, v: int)
    requires v !in s
    ensures Without(s, v) == s
  {
    if s != [] {
      WithoutAbsent(s[1..], v);
      assert s == [s[0]] + s[1..];
    }
  }

  lemma {:induction false} SubsequenceElements(t: seq<int>, s: seq<int>)
    requires IsSubsequence(t, s)
    ensures forall x :: x in t ==> x in s
    decreases |s|
  {
    if t != [] {
      if t[0] == s[0] {
        SubsequenceElements(t[1..], s[1..]);
        assert t == [t[0]] + t[1..];
      } else {
        SubsequenceElements(t, s[1..]);
      }
    }
  }

  /** A subsequence of an ascending list is ascending. */
  lemma {:induction false} SubsequenceSorted(t: seq<int>, s: seq<int>)
    requires IsSubsequence(t, s) && Sorted(s)
    ensures Sorted(t)
    decreases |s|
  {
    if t != [] {
      if t[0] == s[0] {
        SubsequenceSorted(t[1..], s[1..]);
        SubsequenceElements(t[1..], s[1..]);
        forall j | 0 < j < |t| ensures t[0] <= t[j] {
          assert t[j] == t[1..][j - 1];
          assert t[j] in s[1..];
        }
      } else {
        SubsequenceSorted(t, s[1..]);
      }
    }
  }

  /** Removal from an ascending list leaves it ascending. */
  lemma WithoutSorted(s: seq<int>, v: int)
    requires Sorted(s)
    ensures Sorted(Without(s, v))
  {
    WithoutKeepsOrder(s, v);
    SubsequenceSorted(Without(s, v), s);
  }

  // ---------------------------------------------------------------------------
  // The saved list and the merged list

  /** What the saved list always is when only the component writes it: ascending,
      duplicate-free, positive, and disjoint from the built-in volumes. */
  predicate WellFormed(saved: seq<int>) {
    && Sorted(saved)
    && Distinct(saved)
    && forall x :: x in saved ==> x > 0 && x !in DEFAULTS
  }

  /** `allGlasses`: the built-ins and the saved volumes, together and ascending. */
  function AllGlasses(saved: seq<int>): (r: seq<int>)
    ensures Sorted(r)
    ensures multiset(r) == multiset(DEFAULTS) + multiset(saved)
  {
    Sort(DEFAULTS + saved)
  }

  lemma AllGlassesMerge(saved: seq<int>)
    ensures Sorted(AllGlasses(saved))
    ensures multiset(AllGlasses(saved)) == multiset(DEFAULTS) + multiset(saved)
    ensures forall x :: x in AllGlasses(saved) <==> x in DEFAULTS || x in saved
    ensures |AllGlasses(saved)| == |saved| + 3
  {
    var all := AllGlasses(saved);
    assert multiset(all) == multiset(DEFAULTS + saved);
    forall x ensures x in all <==> x in DEFAULTS || x in saved {
      assert x in all <==> x in multiset(all);
    }
    assert |all| == |multiset(all)|;
  }

  /** With a well-formed saved list the buttons show every volume once. */
  lemma AllGlassesDistinct(saved: seq<int>)
    requires WellFormed(saved)
    ensures Distinct(AllGlasses(saved))
  {
    var both := DEFAULTS + saved;
    forall i, j | 0 <= i < j < |both| ensures both[i] != both[j] {
      if j >= 3 && i < 3 {
        assert both[j] == saved[j - 3];
        assert both[j] in saved;
      } else if i >= 3 {
        assert both[i] == saved[i - 3] && both[j] == saved[j - 3];
      }
    }
    DistinctPermutation(both, AllGlasses(saved));
  }

  /** How `handleSavePreset` disposes of a parsed input. */
  datatype SaveOutcome = Invalid | AlreadyPresent | Added(amount: int)

  /** Rejected when it is not a number or not positive; ignored when already
      saved or built in; otherwise added. */
  function ClassifySave(saved: seq<int>, parsed: Option<int>): (o: SaveOutcome)
    ensures o == Invalid <==> parsed.None? || parsed.value <= 0
    ensures o == AlreadyPresent <==> parsed.Some? && parsed.value > 0 && (parsed.value in saved || parsed.value in DEFAULTS)
    ensures o.Added? <==> parsed.Some? && parsed.value > 0 && parsed.value !in saved && parsed.value !in DEFAULTS
    ensures o.Added? ==> o.amount == parsed.value
  {
    if parsed.None? || parsed.value <= 0 then Invalid
    else if parsed.value in saved || parsed.value in DEFAULTS then AlreadyPresent
    else Added(parsed.value)
  }

  /** The saved list after `handleSavePreset`. */
  function SaveList(saved: seq<int>, parsed: Option<int>): (r: seq<int>)
    ensures !ClassifySave(saved, parsed).Added? ==> r == saved
    ensures ClassifySave(saved, parsed).Added? ==>
      Sorted(r) && multiset(r) == multiset(saved) + multiset{parsed.value}
  {
    match ClassifySave(saved, parsed)
    case Added(a) => Sort(saved + [a])
    case _ => saved
  }

  /** An invalid or already-present amount leaves the list as it was. */
  lemma SaveRejected(saved: seq<int>, parsed: Option<int>)
    requires !ClassifySave(saved, parsed).Added?
    ensures SaveList(saved, parsed) == saved
  {
  }

  /** An added amount appears once more: ascending, one longer, and a
      permutation of the old list with the amount. */
  lemma SaveAccepted(saved: seq<int>, parsed: Option<int>)
    requires ClassifySave(saved, parsed).Added?
    ensures var r := SaveList(saved, parsed);
      && Sorted(r)
      && parsed.value in r
      && |r| == |saved| + 1
      && multiset(r) == multiset(saved) + multiset{parsed.value}
  {
    var r := SaveList(saved, parsed);
    assert multiset(r) == multiset(saved + [parsed.value]);
    assert parsed.value in multiset(r);
    assert |r| == |multiset(r)|;
  }

  /** Saving keeps the saved list well-formed. */
  lemma SaveKeepsWellFormed(saved: seq<int>, parsed: Option<int>)
    requires WellFormed(saved)
    ensures WellFormed(SaveList(saved, parsed))
  {
    var o := ClassifySave(saved, parsed);
    if o.Added? {
      var a := o.amount;
      var grown := saved + [a];
      var r := SaveList(saved, parsed);
      assert Distinct(grown) by {
        forall i, j | 0 <= i < j < |grown| ensures grown[i] != grown[j] {
          if j == |saved| {
            assert grown[i] in saved;
          }
        }
      }
      DistinctPermutation(grown, r);
      forall x | x in r ensures x > 0 && x !in DEFAULTS {
        assert x in multiset(grown);
        assert x in grown;
      }
    }
  }

  /** `handleDeletePreset` keeps the saved list well-formed. */
  lemma DeleteKeepsWellFormed(saved: seq<int>, v: int)
    requires WellFormed(saved)
    ensures WellFormed(Without(saved, v))
  {
    var r := Without(saved, v);
    WithoutKeepsOrder(saved, v);
    SubsequenceSorted(r, saved);
    DistinctMultiset(saved);
    DistinctMultiset(r);
  }

  /** Deleting from the saved list never takes a built-in volume off the buttons. */
  lemma DeleteKeepsDefaults(saved: seq<int>, v: int)
    ensures forall x :: x in DEFAULTS ==> x in AllGlasses(Without(saved, v))
  {
    AllGlassesMerge(Without(saved, v));
  }

  /** Saving 250 onto an empty list saves [250] ... */
  lemma SaveScenario()
    ensures SaveList([], Some(250)) == [250]
  {
    var none: seq<int> := [];
    assert 250 !in DEFAULTS;
    assert ClassifySave(none, Some(250)) == Added(250);
    assert none + [250] == [250];
    SortSorted([250]);
    assert SaveList(none, Some(250)) == Sort([250]);
  }

  /** ... and the buttons then show [100, 250, 400, 500]. */
  lemma MergeScenario()
    ensures AllGlasses([250]) == [100, 250, 400, 500]
  {
    var m: seq<int> := [100, 250, 400, 500];
    var both := DEFAULTS + [250];
    assert both == [100, 400, 500] + [250];
    assert multiset(both) == multiset{100, 400, 500, 250};
    assert Sorted(m);
    assert multiset(m) == multiset{100, 250, 400, 500};
    SortedPermutationUnique(AllGlasses([250]), m);
  }

  /** Saving the built-in 400 changes nothing. */
  lemma SaveDefaultScenario()
    ensures SaveList([250], Some(400)) == [250]
  {
    assert 400 in DEFAULTS;
  }

  /** Deleting 250 brings back [100, 400, 500]. */
  lemma DeleteScenario()
    ensures AllGlasses(Without([250], 250)) == [100, 400, 500]
  {
    assert Without([250], 250) == [];
    assert DEFAULTS + [] == DEFAULTS;
    SortSorted(DEFAULTS);
  }
}
