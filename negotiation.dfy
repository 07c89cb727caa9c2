/**
 * The header loop of `guessLanguage` in i18n.js. It walks the accepted
 * languages in order. For each tag it first injects configured fallbacks: the
 * fallback of the exact tag goes right after the tag, the fallback of its
 * primary subtag goes to the end, each only when not yet in the list. It then
 * records the tag's region subtag, stops at the first tag with a loaded
 * catalog, and otherwise remembers the first loaded primary subtag.
 *
 * `Scan` states the loop as a function of its state; `ScanPreferences` is the
 * loop itself, splicing into and pushing onto the list it walks.
 */
module Negotiation {
  import opened Wrappers
  import opened Text

  /** The primary subtag: the tag up to its first '-'. */
  function Primary(tag: string): string {
    Split(tag, "-")[0]
  }

  /** The region subtag: the piece after the first '-', "" when there is none. */
  function Region(tag: string): string {
    var pieces := Split(tag, "-");
    if |pieces| >= 2 then pieces[1] else ""
  }

  /** A fallback is configured for `tag` (the source tests the entry for truthiness). */
  predicate HasFallback(fallbacks: map<string, string>, tag: string) {
    tag in fallbacks && fallbacks[tag] != ""
  }

  /** Every locale some fallback entry names. */
  function Targets(fallbacks: map<string, string>): set<string> {
    set tag | tag in fallbacks.Keys && fallbacks[tag] != "" :: fallbacks[tag]
  }

  function Elements(l: seq<string>): set<string> {
    set x | x in l
  }

  /** `Array.prototype.indexOf`. */
  function FirstIndex(l: seq<string>, x: string): (i: int)
    ensures -1 <= i < |l|
    ensures i >= 0 ==> l[i] == x && forall j :: 0 <= j < i ==> l[j] != x
    ensures i == -1 ==> x !in l
  {
    if l == [] then -1
    else if l[0] == x then 0
    else
      var i := FirstIndex(l[1..], x);
      if i == -1 then -1 else i + 1
  }

  /** The exact tag's fallback spliced in after the tag's first occurrence, when absent. */
  function InjectExact(fallbacks: map<string, string>, l: seq<string>, i: nat): seq<string>
    requires i < |l|
  {
    var lang := l[i];
    if HasFallback(fallbacks, lang) && fallbacks[lang] !in l then
      var index := FirstIndex(l, lang);
      l[..index + 1] + [fallbacks[lang]] + l[index + 1..]
    else l
  }

  /** The primary subtag's fallback pushed at the end, when absent. */
  function InjectPrimary(fallbacks: map<string, string>, l: seq<string>, lang: string): seq<string> {
    var parent := Primary(lang);
    if HasFallback(fallbacks, parent) && fallbacks[parent] !in l then l + [fallbacks[parent]] else l
  }

  /** The list after the fallback step for the tag at index `i`. */
  function Inject(fallbacks: map<string, string>, l: seq<string>, i: nat): seq<string>
    requires i < |l|
  {
    InjectPrimary(fallbacks, InjectExact(fallbacks, l, i), l[i])
  }

  /** The fallbacks of every tag before index `n` are in the list already. */
  predicate FallbacksPresent(fallbacks: map<string, string>, l: seq<string>, n: nat)
    requires n <= |l|
  {
    forall j :: 0 <= j < n ==>
      (HasFallback(fallbacks, l[j]) ==> fallbacks[l[j]] in l)
      && (HasFallback(fallbacks, Primary(l[j])) ==> fallbacks[Primary(l[j])] in l)
  }

  /**
   * `r` is `l` with only absent targets of `T` added, one element each: the
   * length plus the number of targets still absent is unchanged.
   */
  predicate Grown(l: seq<string>, r: seq<string>, T: set<string>) {
    && |r| >= |l|
    && Elements(l) <= Elements(r)
    && (forall x :: x in r ==> x in l || x in T)
    && |r| + |T - Elements(r)| == |l| + |T - Elements(l)|
  }

  lemma GrownTransitive(a: seq<string>, b: seq<string>, c: seq<string>, T: set<string>)
    requires Grown(a, b, T) && Grown(b, c, T)
    ensures Grown(a, c, T)
  {
    forall x | x in c ensures x in a || x in T {
      if x !in T {
        assert x in b;
      }
    }
  }

  lemma AddOne(l: seq<string>, x: string, r: seq<string>, T: set<string>)
    requires x in T && x !in l
    requires Elements(r) == Elements(l) + {x} && |r| == |l| + 1
    ensures Grown(l, r, T)
  {
    var before := T - Elements(l);
    assert x in before;
    assert T - Elements(r) == before - {x};
    assert before == (before - {x}) + {x};
    forall y | y in r ensures y in l || y in T {
      assert y in Elements(r);
    }
  }

  lemma TargetIn(fallbacks: map<string, string>, tag: string)
    requires HasFallback(fallbacks, tag)
    ensures fallbacks[tag] in Targets(fallbacks)
  {
  }

  lemma {:induction false} InjectExactSpec(fallbacks: map<string, string>, l: seq<string>, i: nat)
    requires i < |l| && FallbacksPresent(fallbacks, l, i)
    ensures var r := InjectExact(fallbacks, l, i);
      && Grown(l, r, Targets(fallbacks))
      && r[..i + 1] == l[..i + 1]
      && (HasFallback(fallbacks, l[i]) ==> fallbacks[l[i]] in r)
  {
    var lang := l[i];
    if HasFallback(fallbacks, lang) && fallbacks[lang] !in l {
      var fb := fallbacks[lang];
      assert FirstIndex(l, lang) == i;
      Splice(l, i, fb);
      TargetIn(fallbacks, lang);
      AddOne(l, fb, l[..i + 1] + [fb] + l[i + 1..], Targets(fallbacks));
    }
  }

  /** Inserting `x` after index `i` keeps the prefix up to `i` and adds `x` to the elements. */
  lemma Splice(l: seq<string>, i: nat, x: string)
    requires i < |l|
    ensures var r := l[..i + 1] + [x] + l[i + 1..];
      && |r| == |l| + 1 && r[..i + 1] == l[..i + 1] && x in r
      && Elements(r) == Elements(l) + {x}
  {
    var r := l[..i + 1] + [x] + l[i + 1..];
    assert l == l[..i + 1] + l[i + 1..];
    assert r[..i + 1] == l[..i + 1];
    assert r[i + 1] == x;
  }

  lemma InjectPrimarySpec(fallbacks: map<string, string>, l: seq<string>, lang: string)
    ensures var r := InjectPrimary(fallbacks, l, lang);
      && Grown(l, r, Targets(fallbacks))
      && r[..|l|] == l
      && (HasFallback(fallbacks, Primary(lang)) ==> fallbacks[Primary(lang)] in r)
  {
    var parent := Primary(lang);
    var r := InjectPrimary(fallbacks, l, lang);
    if HasFallback(fallbacks, parent) && fallbacks[parent] !in l {
      var fb := fallbacks[parent];
      assert Elements(r) == Elements(l) + {fb};
      TargetIn(fallbacks, parent);
      AddOne(l, fb, r, Targets(fallbacks));
    }
  }

  /**
   * The fallback step only adds fallback targets that were absent, one element
   * per target; it leaves the visited prefix in place; afterwards the fallbacks
   * of the current tag are present too.
   */
  lemma InjectSpec(fallbacks: map<string, string>, l: seq<string>, i: nat)
    requires i < |l| && FallbacksPresent(fallbacks, l, i)
    ensures var r := Inject(fallbacks, l, i);
      && Grown(l, r, Targets(fallbacks))
      && r[..i + 1] == l[..i + 1]
      && FallbacksPresent(fallbacks, r, i + 1)
  {
    var l1 := InjectExact(fallbacks, l, i);
    InjectExactSpec(fallbacks, l, i);
    InjectPrimarySpec(fallbacks, l1, l[i]);
    InjectCombine(fallbacks, Targets(fallbacks), l, l1, InjectPrimary(fallbacks, l1, l[i]), i);
  }

  /** The two halves of the fallback step together give what the whole step promises. */
  lemma InjectCombine(fallbacks: map<string, string>, T: set<string>,
                      l: seq<string>, l1: seq<string>, r: seq<string>, i: nat)
    requires i < |l| && FallbacksPresent(fallbacks, l, i)
    requires Grown(l, l1, T) && l1[..i + 1] == l[..i + 1]
    requires HasFallback(fallbacks, l[i]) ==> fallbacks[l[i]] in l1
    requires Grown(l1, r, T) && r[..|l1|] == l1
    requires HasFallback(fallbacks, Primary(l[i])) ==> fallbacks[Primary(l[i])] in r
    ensures Grown(l, r, T) && r[..i + 1] == l[..i + 1] && FallbacksPresent(fallbacks, r, i + 1)
  {
    GrownTransitive(l, l1, r, T);
    assert r[..i + 1] == l1[..i + 1] by {
      assert r[..i + 1] == r[..|l1|][..i + 1];
    }
    assert r[..i] == l[..i] by {
      assert r[..i] == r[..i + 1][..i] && l[..i] == l[..i + 1][..i];
    }
    assert Elements(l) <= Elements(r);
    PresentCarries(fallbacks, l, r, i);
    assert r[i] == l[i] by {
      assert r[i] == r[..i + 1][i] && l[i] == l[..i + 1][i];
    }
    if HasFallback(fallbacks, l[i]) {
      assert fallbacks[l[i]] in Elements(l1);
    }
    PresentExtend(fallbacks, r, i);
  }

  /** A list that keeps a prefix and every element keeps the fallbacks of that prefix present. */
  lemma PresentCarries(fallbacks: map<string, string>, l: seq<string>, r: seq<string>, n: nat)
    requires n <= |l| && n <= |r| && r[..n] == l[..n] && Elements(l) <= Elements(r)
    requires FallbacksPresent(fallbacks, l, n)
    ensures FallbacksPresent(fallbacks, r, n)
  {
    forall j | 0 <= j < n
      ensures (HasFallback(fallbacks, r[j]) ==> fallbacks[r[j]] in r)
      ensures (HasFallback(fallbacks, Primary(r[j])) ==> fallbacks[Primary(r[j])] in r)
    {
      assert r[j] == r[..n][j] == l[..n][j] == l[j];
      if HasFallback(fallbacks, l[j]) { assert fallbacks[l[j]] in Elements(l); }
      if HasFallback(fallbacks, Primary(l[j])) { assert fallbacks[Primary(l[j])] in Elements(l); }
    }
  }

  lemma PresentExtend(fallbacks: map<string, string>, r: seq<string>, i: nat)
    requires i < |r| && FallbacksPresent(fallbacks, r, i)
    requires HasFallback(fallbacks, r[i]) ==> fallbacks[r[i]] in r
    requires HasFallback(fallbacks, Primary(r[i])) ==> fallbacks[Primary(r[i])] in r
    ensures FallbacksPresent(fallbacks, r, i + 1)
  {
  }

  /** The exact tag's fallback, when absent, lands right after the tag. */
  lemma InjectExactAfterTag(fallbacks: map<string, string>, l: seq<string>, i: nat)
    requires i < |l| && FallbacksPresent(fallbacks, l, i)
    requires HasFallback(fallbacks, l[i]) && fallbacks[l[i]] !in l
    ensures |Inject(fallbacks, l, i)| > i + 1 && Inject(fallbacks, l, i)[i + 1] == fallbacks[l[i]]
  {
    var index := FirstIndex(l, l[i]);
    assert index == i;
  }

  /** The primary subtag's fallback, when absent after the first splice, lands at the end. */
  lemma InjectPrimaryAtEnd(fallbacks: map<string, string>, l: seq<string>, i: nat)
    requires i < |l|
    requires HasFallback(fallbacks, Primary(l[i])) && fallbacks[Primary(l[i])] !in l
    requires HasFallback(fallbacks, l[i]) ==> fallbacks[l[i]] != fallbacks[Primary(l[i])]
    ensures var r := Inject(fallbacks, l, i); |r| > 0 && r[|r| - 1] == fallbacks[Primary(l[i])]
  {
  }

  // ---------------------------------------------------------------------------
  // The loop as a function of its state
  // ---------------------------------------------------------------------------

  /**
   * The loop's variables: the list being walked, the index of the next tag, the
   * exact match (set when the loop breaks), the primary-subtag match ("" while
   * none) and the region subtags collected so far.
   */
  datatype ScanState = ScanState(list: seq<string>, next: nat, matched: Option<string>,
                                 fallbackMatch: string, regions: seq<string>)

  function Measure(fallbacks: map<string, string>, s: ScanState): nat
    requires s.next <= |s.list|
  {
    |s.list| - s.next + |Targets(fallbacks) - Elements(s.list)|
  }

  /** Whether the step for `lang` records a region, and which. */
  function AddRegion(regions: seq<string>, lang: string): seq<string> {
    if Region(lang) != "" then regions + [LowerAscii(Region(lang))] else regions
  }

  /** The loop from state `s` on, with `loaded` the locales that have a catalog. */
  function Scan(fallbacks: map<string, string>, loaded: set<string>, s: ScanState): (r: ScanState)
    requires s.next <= |s.list| && FallbacksPresent(fallbacks, s.list, s.next) && s.matched.None?
    ensures r.next <= |r.list| && (r.matched.Some? ==> r.next < |r.list|)
    decreases Measure(fallbacks, s)
  {
    if s.next == |s.list| then s
    else
      var lang := s.list[s.next];
      var list := Inject(fallbacks, s.list, s.next);
      InjectSpec(fallbacks, s.list, s.next);
      var regions := AddRegion(s.regions, lang);
      if lang in loaded then ScanState(list, s.next, Some(lang), s.fallbackMatch, regions)
      else
        var parent := Primary(lang);
        var fallbackMatch := if s.fallbackMatch == "" && parent in loaded then parent else s.fallbackMatch;
        Scan(fallbacks, loaded, ScanState(list, s.next + 1, None, fallbackMatch, regions))
  }

  function Start(accepted: seq<string>): ScanState {
    ScanState(accepted, 0, None, "", [])
  }

  /** The loop of `guessLanguage`, over a list it extends as it goes. */
  method ScanPreferences(fallbacks: map<string, string>, loaded: set<string>, accepted: seq<string>)
    returns (r: ScanState)
    ensures r == Scan(fallbacks, loaded, Start(accepted))
  {
    var list := accepted;
    var i := 0;
    var fallbackMatch := "";
    var regions := [];
    var matched: Option<string> := None;
    while i < |list|
      invariant i <= |list| && FallbacksPresent(fallbacks, list, i)
      invariant Scan(fallbacks, loaded, ScanState(list, i, None, fallbackMatch, regions))
                == Scan(fallbacks, loaded, Start(accepted))
      decreases Measure(fallbacks, ScanState(list, i, None, fallbackMatch, regions))
    {
      ghost var s := ScanState(list, i, None, fallbackMatch, regions);
      var lang := list[i];
      var pieces := Split(lang, "-");
      var parent := pieces[0];
      var region := if |pieces| >= 2 then pieces[1] else "";
      list := InjectFallbacks(fallbacks, list, i, parent);
      if region != "" {
        regions := regions + [LowerAscii(region)];
      }
      assert regions == AddRegion(s.regions, lang);
      if lang in loaded {
        ScanStops(fallbacks, loaded, s);
        matched := Some(lang);
        break;
      }
      if fallbackMatch == "" && parent in loaded {
        fallbackMatch := parent;
      }
      i := i + 1;
      ScanStep(fallbacks, loaded, s);
      assert ScanState(list, i, None, fallbackMatch, regions) == Step(fallbacks, loaded, s);
    }
    r := ScanState(list, i, matched, fallbackMatch, regions);
  }

  /**
   * The fallback step of one iteration on the list itself: the exact tag's
   * fallback spliced in after the tag, the primary subtag's pushed at the end.
   */
  method InjectFallbacks(fallbacks: map<string, string>, list: seq<string>, i: nat, parent: string)
    returns (r: seq<string>)
    requires i < |list| && parent == Primary(list[i])
    ensures r == Inject(fallbacks, list, i)
  {
    var lang := list[i];
    r := list;
    if HasFallback(fallbacks, lang) {
      var fallback := fallbacks[lang];
      var index := FirstIndex(r, lang);
      if fallback !in r {
        r := r[..index + 1] + [fallback] + r[index + 1..];
      }
    }
    if HasFallback(fallbacks, parent) {
      var fallback := fallbacks[parent];
      if fallback !in r {
        r := r + [fallback];
      }
    }
  }

  // ---------------------------------------------------------------------------
  // What the loop computes
  // ---------------------------------------------------------------------------

  /** The first non-empty primary subtag of `ts` that is loaded, "" when there is none. */
  function FirstLoadedPrimary(ts: seq<string>, loaded: set<string>): string {
    if ts == [] then ""
    else
      var found := FirstLoadedPrimary(ts[..|ts| - 1], loaded);
      var p := Primary(ts[|ts| - 1]);
      if found != "" then found else if p != "" && p in loaded then p else ""
  }

  /** The lower-cased region subtags of `ts`, in order, skipping tags without one. */
  function RegionsOf(ts: seq<string>): seq<string> {
    if ts == [] then [] else AddRegion(RegionsOf(ts[..|ts| - 1]), ts[|ts| - 1])
  }

  /** What holds of the loop state at the head of every iteration. */
  predicate Invariant(fallbacks: map<string, string>, loaded: set<string>, accepted: seq<string>, s: ScanState) {
    && s.next <= |s.list| && FallbacksPresent(fallbacks, s.list, s.next)
    && s.matched.None?
    && (forall j :: 0 <= j < s.next ==> s.list[j] !in loaded)
    && s.fallbackMatch == FirstLoadedPrimary(s.list[..s.next], loaded)
    && s.regions == RegionsOf(s.list[..s.next])
    && Grown(accepted, s.list, Targets(fallbacks))
  }

  /** What holds when the loop is over. */
  predicate Outcome(fallbacks: map<string, string>, loaded: set<string>, accepted: seq<string>, r: ScanState) {
    && r.next <= |r.list|
    // it stops at the first loaded tag, or runs to the end of the extended list
    && (r.matched.Some? <==> r.next < |r.list|)
    && (r.matched.Some? ==> r.matched.value == r.list[r.next] && r.list[r.next] in loaded)
    && (forall j :: 0 <= j < r.next ==> r.list[j] !in loaded)
    // the weaker candidate is the first loaded primary subtag of the tags before the stop
    && r.fallbackMatch == FirstLoadedPrimary(r.list[..r.next], loaded)
    // the regions are those of every visited tag, the matched one included
    && r.regions == RegionsOf(r.list[..if r.matched.Some? then r.next + 1 else r.next])
    // the visited tags' fallbacks were all injected
    && FallbacksPresent(fallbacks, r.list, if r.matched.Some? then r.next + 1 else r.next)
    // the list only grew, by distinct fallback targets
    && Grown(accepted, r.list, Targets(fallbacks))
  }

  /** Extending a prefix by one element extends its candidates and its regions by that element's. */
  lemma PrefixStep(old_: seq<string>, new_: seq<string>, n: nat, loaded: set<string>)
    requires n < |old_| && n < |new_| && new_[..n + 1] == old_[..n + 1]
    ensures new_[..n] == old_[..n] && new_[n] == old_[n]
    ensures RegionsOf(new_[..n + 1]) == AddRegion(RegionsOf(old_[..n]), old_[n])
    ensures FirstLoadedPrimary(new_[..n + 1], loaded)
            == (var found := FirstLoadedPrimary(old_[..n], loaded); var p := Primary(old_[n]);
                if found != "" then found else if p != "" && p in loaded then p else "")
  {
    assert new_[..n] == new_[..n + 1][..n];
    assert old_[..n] == old_[..n + 1][..n];
    assert new_[n] == new_[..n + 1][n];
    assert old_[n] == old_[..n + 1][n];
    assert new_[..n + 1][..n] == new_[..n];
  }

  /** The state after one iteration that does not stop. */
  function Step(fallbacks: map<string, string>, loaded: set<string>, s: ScanState): ScanState
    requires s.next < |s.list|
  {
    var lang := s.list[s.next];
    var parent := Primary(lang);
    ScanState(Inject(fallbacks, s.list, s.next), s.next + 1, None,
              if s.fallbackMatch == "" && parent in loaded then parent else s.fallbackMatch,
              AddRegion(s.regions, lang))
  }

  /** The state an iteration that does not stop leaves behind satisfies the invariant. */
  lemma StepState(fallbacks: map<string, string>, loaded: set<string>,
                  accepted: seq<string>, s: ScanState, list: seq<string>)
    requires Invariant(fallbacks, loaded, accepted, s)
    requires s.next < |s.list| && s.list[s.next] !in loaded
    requires Grown(s.list, list, Targets(fallbacks))
    requires list[..s.next + 1] == s.list[..s.next + 1]
    requires FallbacksPresent(fallbacks, list, s.next + 1)
    ensures var lang := s.list[s.next];
      var parent := Primary(lang);
      Invariant(fallbacks, loaded, accepted,
        ScanState(list, s.next + 1, None,
                  if s.fallbackMatch == "" && parent in loaded then parent else s.fallbackMatch,
                  AddRegion(s.regions, lang)))
  {
    PrefixStep(s.list, list, s.next, loaded);
    GrownTransitive(accepted, s.list, list, Targets(fallbacks));
    assert forall j :: 0 <= j < s.next + 1 ==> s.list[j] !in loaded;
    PrefixNotLoaded(s.list, list, s.next + 1, loaded);
  }

  /** An iteration that does not stop keeps the invariant. */
  lemma StepKeepsInvariant(fallbacks: map<string, string>, loaded: set<string>,
                           accepted: seq<string>, s: ScanState)
    requires Invariant(fallbacks, loaded, accepted, s)
    requires s.next < |s.list| && s.list[s.next] !in loaded
    ensures Invariant(fallbacks, loaded, accepted, Step(fallbacks, loaded, s))
  {
    InjectSpec(fallbacks, s.list, s.next);
    StepState(fallbacks, loaded, accepted, s, Inject(fallbacks, s.list, s.next));
  }

  /** Tags in a common prefix that are not loaded in one list are not loaded in the other. */
  lemma PrefixNotLoaded(old_: seq<string>, new_: seq<string>, m: nat, loaded: set<string>)
    requires m <= |old_| && m <= |new_| && new_[..m] == old_[..m]
    requires forall j :: 0 <= j < m ==> old_[j] !in loaded
    ensures forall j :: 0 <= j < m ==> new_[j] !in loaded
  {
    forall j | 0 <= j < m ensures new_[j] !in loaded {
      assert new_[j] == new_[..m][j] == old_[..m][j] == old_[j];
    }
  }

  /** The state an iteration that stops leaves behind satisfies the outcome. */
  lemma StopState(fallbacks: map<string, string>, loaded: set<string>,
                  accepted: seq<string>, s: ScanState, list: seq<string>)
    requires Invariant(fallbacks, loaded, accepted, s)
    requires s.next < |s.list| && s.list[s.next] in loaded
    requires Grown(s.list, list, Targets(fallbacks))
    requires list[..s.next + 1] == s.list[..s.next + 1]
    requires FallbacksPresent(fallbacks, list, s.next + 1)
    ensures Outcome(fallbacks, loaded, accepted,
                    ScanState(list, s.next, Some(s.list[s.next]), s.fallbackMatch, AddRegion(s.regions, s.list[s.next])))
  {
    PrefixStep(s.list, list, s.next, loaded);
    GrownTransitive(accepted, s.list, list, Targets(fallbacks));
    PrefixNotLoaded(s.list, list, s.next, loaded);
  }

  /** An iteration that stops produces the outcome. */
  lemma StopOutcome(fallbacks: map<string, string>, loaded: set<string>,
                    accepted: seq<string>, s: ScanState)
    requires Invariant(fallbacks, loaded, accepted, s)
    requires s.next < |s.list| && s.list[s.next] in loaded
    ensures Outcome(fallbacks, loaded, accepted, Scan(fallbacks, loaded, s))
  {
    InjectSpec(fallbacks, s.list, s.next);
    StopState(fallbacks, loaded, accepted, s, Inject(fallbacks, s.list, s.next));
  }

  /** An iteration that does not stop hands over to the rest of the loop, with a smaller measure. */
  lemma ScanStep(fallbacks: map<string, string>, loaded: set<string>, s: ScanState)
    requires s.next < |s.list| && FallbacksPresent(fallbacks, s.list, s.next) && s.matched.None?
    requires s.list[s.next] !in loaded
    ensures var t := Step(fallbacks, loaded, s);
      && t.next <= |t.list| && FallbacksPresent(fallbacks, t.list, t.next)
      && Measure(fallbacks, t) < Measure(fallbacks, s)
      && Scan(fallbacks, loaded, s) == Scan(fallbacks, loaded, t)
  {
    InjectSpec(fallbacks, s.list, s.next);
  }

  /** An iteration that stops ends the loop with the tag matched. */
  lemma ScanStops(fallbacks: map<string, string>, loaded: set<string>, s: ScanState)
    requires s.next < |s.list| && FallbacksPresent(fallbacks, s.list, s.next) && s.matched.None?
    requires s.list[s.next] in loaded
    ensures var lang := s.list[s.next];
      Scan(fallbacks, loaded, s)
      == ScanState(Inject(fallbacks, s.list, s.next), s.next, Some(lang), s.fallbackMatch, AddRegion(s.regions, lang))
  {
  }

  /** A loop that has run to the end of the list produces the outcome. */
  lemma EndOutcome(fallbacks: map<string, string>, loaded: set<string>, accepted: seq<string>, s: ScanState)
    requires Invariant(fallbacks, loaded, accepted, s) && s.next == |s.list|
    ensures Outcome(fallbacks, loaded, accepted, Scan(fallbacks, loaded, s))
  {
    assert Scan(fallbacks, loaded, s) == s;
  }

  lemma {:induction false} ScanOutcome(fallbacks: map<string, string>, loaded: set<string>,
                                       accepted: seq<string>, s: ScanState)
    requires Invariant(fallbacks, loaded, accepted, s)
    ensures Outcome(fallbacks, loaded, accepted, Scan(fallbacks, loaded, s))
    decreases Measure(fallbacks, s)
  {
    if s.next == |s.list| {
      EndOutcome(fallbacks, loaded, accepted, s);
    } else {
      if s.list[s.next] in loaded {
        StopOutcome(fallbacks, loaded, accepted, s);
      } else {
        StepKeepsInvariant(fallbacks, loaded, accepted, s);
        ScanStep(fallbacks, loaded, s);
        ScanOutcome(fallbacks, loaded, accepted, Step(fallbacks, loaded, s));
      }
    }
  }

  /**
   * From the start: the loop stops at the first loaded tag of the extended list,
   * the list grows by at most the number of distinct fallback targets (which is
   * why the loop ends), and the candidates and regions are those of the tags it
   * visited.
   */
  lemma ScanFromStart(fallbacks: map<string, string>, loaded: set<string>, accepted: seq<string>)
    ensures Outcome(fallbacks, loaded, accepted, Scan(fallbacks, loaded, Start(accepted)))
    ensures |Scan(fallbacks, loaded, Start(accepted)).list| <= |accepted| + |Targets(fallbacks)|
  {
    ScanOutcome(fallbacks, loaded, accepted, Start(accepted));
    var r := Scan(fallbacks, loaded, Start(accepted));
    assert |Targets(fallbacks) - Elements(accepted)| <= |Targets(fallbacks)|;
  }
}
