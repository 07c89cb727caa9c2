/**
 * A locale's translation tree and the key-path accessor and mutator that read and
 * write it (`localeAccessor` and `localeMutator` in i18n.js).
 *
 * A key is either used as it is, or, with object notation on, split on the
 * configured delimiter into segments that address nested objects. The source
 * builds closures at bind time and runs them later; here a bind step records
 * what the closure captured, and an invoke step says what calling it yields or
 * does against the catalogs as they are at call time.
 */
module KeyPath {
  import opened Wrappers
  import opened Text

  /**
   * A value in a catalog: a string, or an object of named members. A plural
   * entry is the object `{one, other}`, as it is stored on disk.
   */
  datatype Tree = Str(text: string) | Obj(members: map<string, Tree>)

  /** A locale's catalog: the top-level object of its file. */
  type Catalog = map<string, Tree>

  function PluralEntry(one: string, other: string): Tree {
    Obj(map["one" := Str(one), "other" := Str(other)])
  }

  /** JavaScript truthiness of a looked-up value: `undefined`, `null` and "" are falsy. */
  predicate Truthy(v: Option<Tree>) {
    v.Some? && (v.value.Str? ==> v.value.text != "")
  }

  /**
   * Object notation applies to `key`: a delimiter is configured (the empty string
   * is the source's "off") and its first occurrence is at an index greater than 0.
   */
  predicate UsesNotation(notation: string, key: string) {
    notation != "" && IndexOf(key, notation) > 0
  }

  /** The segments a key addresses: the split key, or the whole key as one segment. */
  function Segments(notation: string, key: string): (segs: seq<string>)
    ensures |segs| >= 1
    ensures !UsesNotation(notation, key) ==> segs == [key]
    ensures UsesNotation(notation, key) ==> |segs| >= 2 && Join(segs, notation) == key
  {
    if UsesNotation(notation, key) then
      JoinSplit(key, notation);
      var i := IndexOf(key, notation);
      assert Split(key, notation) == [key[..i]] + Split(key[i + |notation|..], notation);
      Split(key, notation)
    else [key]
  }

  // ---------------------------------------------------------------------------
  // Reading and writing along a path of segments
  // ---------------------------------------------------------------------------

  /**
   * The value at `segs` below `m`; `None` when a member is missing or a string
   * stands where an object is needed (the traversal's `null`).
   */
  function Lookup(m: Catalog, segs: seq<string>): Option<Tree>
    requires |segs| >= 1
    decreases |segs|
  {
    if segs[0] !in m then None
    else if |segs| == 1 then Some(m[segs[0]])
    else match m[segs[0]]
      case Obj(c) => Lookup(c, segs[1..])
      case Str(_) => None
  }

  /** `object[key] = value`; assigning `undefined` is modelled as removing the member. */
  function Put(m: Catalog, k: string, v: Option<Tree>): Catalog {
    if v.None? then m - {k} else m[k := v.value]
  }

  /** The members of the object below `k`, or a fresh `{}` when `k` is missing. */
  function Child(m: Catalog, k: string): Catalog {
    if k in m && m[k].Obj? then m[k].members else map[]
  }

  /**
   * The catalog after writing `v` at `segs`, creating `{}` for every missing
   * intermediate; a string in the way makes the write do nothing.
   */
  function SetPath(m: Catalog, segs: seq<string>, v: Option<Tree>): (r: Catalog)
    requires |segs| >= 1
    ensures forall k :: k != segs[0] ==> (k in r <==> k in m)
    ensures forall k :: k != segs[0] && k in m ==> r[k] == m[k]
    decreases |segs|
  {
    if |segs| == 1 then Put(m, segs[0], v)
    else if segs[0] !in m then m[segs[0] := Obj(SetPath(map[], segs[1..], v))]
    else match m[segs[0]]
      case Obj(c) => m[segs[0] := Obj(SetPath(c, segs[1..], v))]
      case Str(_) => m
  }

  /** No string stands strictly above the leaf of `segs`. */
  predicate Writable(m: Catalog, segs: seq<string>)
    requires |segs| >= 1
    decreases |segs|
  {
    |segs| == 1 || segs[0] !in m || (m[segs[0]].Obj? && Writable(m[segs[0]].members, segs[1..]))
  }

  /** After a write, the path holds exactly the written value. */
  lemma {:induction false} LookupSetPath(m: Catalog, segs: seq<string>, v: Option<Tree>)
    requires |segs| >= 1 && Writable(m, segs)
    ensures Lookup(SetPath(m, segs, v), segs) == v
    decreases |segs|
  {
    if |segs| > 1 {
      LookupSetPath(Child(m, segs[0]), segs[1..], v);
    }
  }

  /** Writing through a string leaves the catalog as it was. */
  lemma {:induction false} SetPathBlocked(m: Catalog, segs: seq<string>, v: Option<Tree>)
    requires |segs| >= 1 && !Writable(m, segs)
    ensures SetPath(m, segs, v) == m
    decreases |segs|
  {
    if m[segs[0]].Obj? {
      var c := m[segs[0]].members;
      SetPathBlocked(c, segs[1..], v);
      assert m[segs[0] := Obj(c)] == m;
    }
  }

  /** Writing the same value twice has the effect of writing it once. */
  lemma {:induction false} SetPathIdempotent(m: Catalog, segs: seq<string>, v: Option<Tree>)
    requires |segs| >= 1
    ensures SetPath(SetPath(m, segs, v), segs, v) == SetPath(m, segs, v)
    decreases |segs|
  {
    if |segs| > 1 {
      if !Writable(m, segs) {
        SetPathBlocked(m, segs, v);
        SetPathBlocked(m, segs, v);
      } else {
        SetPathIdempotent(Child(m, segs[0]), segs[1..], v);
      }
    }
  }

  /** Two paths part ways: at some position both have a segment and the segments differ. */
  predicate Diverge(p: seq<string>, q: seq<string>)
    decreases |p|
  {
    |p| > 0 && |q| > 0 && (p[0] != q[0] || Diverge(p[1..], q[1..]))
  }

  /** A write leaves every path that parts ways with the written one as it was. */
  lemma {:induction false} SetPathFrame(m: Catalog, segs: seq<string>, v: Option<Tree>, p: seq<string>)
    requires |segs| >= 1 && |p| >= 1 && Diverge(segs, p)
    ensures Lookup(SetPath(m, segs, v), p) == Lookup(m, p)
    decreases |segs|
  {
    if segs[0] == p[0] && |segs| > 1 && |p| > 1 {
      SetPathFrame(Child(m, segs[0]), segs[1..], v, p[1..]);
    }
  }

  /** A write of a value creates an object at every proper prefix of a writable path. */
  lemma {:induction false} SetPathCreatesBranches(m: Catalog, segs: seq<string>, v: Option<Tree>, n: nat)
    requires 1 <= n < |segs| && Writable(m, segs)
    ensures Lookup(SetPath(m, segs, v), segs[..n]).Some?
    ensures Lookup(SetPath(m, segs, v), segs[..n]).value.Obj?
    decreases |segs|
  {
    if n > 1 {
      SetPathCreatesBranches(Child(m, segs[0]), segs[1..], v, n - 1);
      assert segs[..n][1..] == segs[1..][..n - 1];
    }
  }

  // ---------------------------------------------------------------------------
  // The mutator's traversal, written as the source does it: a walk down the path
  // ---------------------------------------------------------------------------

  /**
   * Walks down `segs` level by level, taking the existing object or a fresh `{}`
   * at each step, stops at a string, then puts `v` at the leaf and rebuilds the
   * levels on the way back up.
   */
  method AssignPath(root: Catalog, segs: seq<string>, v: Option<Tree>) returns (r: Catalog)
    requires |segs| >= 1
    ensures r == SetPath(root, segs, v)
  {
    var levels := [root];
    var i := 0;
    var blocked := false;
    while i < |segs| - 1 && !blocked
      invariant 0 <= i <= |segs| - 1
      invariant |levels| == i + 1 && levels[0] == root
      invariant forall k :: 0 <= k < i ==>
        (segs[k] !in levels[k] || levels[k][segs[k]].Obj?) && levels[k + 1] == Child(levels[k], segs[k])
      invariant blocked ==> i < |segs| - 1 && segs[i] in levels[i] && levels[i][segs[i]].Str?
      decreases |segs| - i, if blocked then 0 else 1
    {
      var here := levels[i];
      if segs[i] in here && here[segs[i]].Str? {
        blocked := true;
      } else {
        levels := levels + [Child(here, segs[i])];
        i := i + 1;
      }
    }
    if blocked {
      r := levels[i];
    } else {
      assert segs[i..] == [segs[i]];
      r := Put(levels[i], segs[i], v);
    }
    while i > 0
      invariant 0 <= i < |levels| && i < |segs|
      invariant r == SetPath(levels[i], segs[i..], v)
    {
      i := i - 1;
      SetPathLevel(levels[i], segs[i..], v, levels[i + 1]);
      assert segs[i..][1..] == segs[i + 1..];
      r := levels[i][segs[i] := Obj(r)];
    }
  }

  /** One level of a write along a path that is not blocked there. */
  lemma SetPathLevel(m: Catalog, segs: seq<string>, v: Option<Tree>, child: Catalog)
    requires |segs| >= 2 && (segs[0] !in m || m[segs[0]].Obj?) && child == Child(m, segs[0])
    ensures SetPath(m, segs, v) == m[segs[0] := Obj(SetPath(child, segs[1..], v))]
  {
  }

  // ---------------------------------------------------------------------------
  // Bound accessors and mutators
  // ---------------------------------------------------------------------------

  /**
   * What `localeAccessor` captured at bind time: nothing usable when the locale
   * was not loaded (`Function.prototype`), the path when it was found (or no
   * object notation applies), or the path with the re-traverse flag when it was
   * missing.
   */
  datatype Accessor =
    | Unbound
    | Found(locale: string, segs: seq<string>)
    | Missing(locale: string, segs: seq<string>, retraverse: bool)

  function BindAccessor(locales: map<string, Catalog>, locale: string, key: string,
                        notation: string, allowDelayedTraversal: bool): (a: Accessor)
    ensures a.Found? || a.Missing? ==> |a.segs| >= 1
  {
    if locale !in locales then Unbound
    else
      var segs := Segments(notation, key);
      if !UsesNotation(notation, key) || Lookup(locales[locale], segs).Some? then Found(locale, segs)
      else Missing(locale, segs, allowDelayedTraversal)
  }

  /**
   * Calling a bound accessor against the catalogs at call time. A missing path
   * with the flag set is traversed once more (without a further retry).
   */
  function InvokeAccessor(a: Accessor, locales: map<string, Catalog>): Option<Tree>
    requires a.Found? || a.Missing? ==> |a.segs| >= 1
  {
    match a
    case Unbound => None
    case Found(l, segs) => if l in locales then Lookup(locales[l], segs) else None
    case Missing(l, segs, retraverse) =>
      if retraverse && l in locales then Lookup(locales[l], segs) else None
  }

  /**
   * An accessor bound with delayed traversal allowed sees, when called, whatever
   * the catalog holds at that time: a value seeded after binding is seen. In the
   * source, an accessor whose path was found at bind time reads the parent object
   * it captured then; the two agree as long as the objects along the path are not
   * replaced, which holds within one `translate` (its mutator only writes the
   * last member, or creates branches the path did not have).
   */
  lemma AccessorReadsAtCallTime(before: map<string, Catalog>, after: map<string, Catalog>,
                                locale: string, key: string, notation: string)
    requires locale in before && locale in after
    ensures InvokeAccessor(BindAccessor(before, locale, key, notation, true), after)
            == Lookup(after[locale], Segments(notation, key))
  {
  }

  /** Without delayed traversal, a path missing at bind time reads as `null` forever. */
  lemma AccessorWithoutRetry(before: map<string, Catalog>, after: map<string, Catalog>,
                             locale: string, key: string, notation: string)
    requires locale in before
    requires UsesNotation(notation, key) && Lookup(before[locale], Segments(notation, key)).None?
    ensures InvokeAccessor(BindAccessor(before, locale, key, notation, false), after) == None
  {
  }

  /** An accessor bound to a locale that was not loaded yields `undefined` forever. */
  lemma AccessorUnbound(before: map<string, Catalog>, after: map<string, Catalog>,
                        locale: string, key: string, notation: string, delayed: bool)
    requires locale !in before
    ensures InvokeAccessor(BindAccessor(before, locale, key, notation, delayed), after) == None
  {
  }

  /**
   * What `localeMutator` captured: nothing when the locale was not loaded, the
   * path otherwise. Whether the path existed at bind time only decides if the
   * source re-traverses at call time, which ends in the same write.
   */
  datatype Mutator = Inert | Target(locale: string, segs: seq<string>)

  function BindMutator(locales: map<string, Catalog>, locale: string, key: string,
                       notation: string): (mu: Mutator)
    ensures mu.Target? ==> |mu.segs| >= 1
  {
    if locale !in locales then Inert else Target(locale, Segments(notation, key))
  }

  /** The catalogs after calling a bound mutator with `v`. */
  function InvokeMutator(mu: Mutator, locales: map<string, Catalog>, v: Option<Tree>): (r: map<string, Catalog>)
    requires mu.Target? ==> |mu.segs| >= 1
    ensures r.Keys == locales.Keys
    ensures forall l :: l in locales && (mu.Inert? || l != mu.locale) ==> r[l] == locales[l]
  {
    match mu
    case Inert => locales
    case Target(l, segs) => if l in locales then locales[l := SetPath(locales[l], segs, v)] else locales
  }

  /**
   * Calling the mutator writes the value at the key's path, creating the missing
   * branches, and leaves every other locale and every path that parts ways with
   * the key's as it was.
   */
  lemma MutatorWrites(locales: map<string, Catalog>, locale: string, key: string,
                      notation: string, v: Option<Tree>)
    requires locale in locales
    requires Writable(locales[locale], Segments(notation, key))
    ensures var after := InvokeMutator(BindMutator(locales, locale, key, notation), locales, v);
      && after.Keys == locales.Keys
      && (forall l :: l in locales && l != locale ==> after[l] == locales[l])
      && Lookup(after[locale], Segments(notation, key)) == v
      && (forall p :: |p| >= 1 && Diverge(Segments(notation, key), p) ==>
            Lookup(after[locale], p) == Lookup(locales[locale], p))
  {
    var segs := Segments(notation, key);
    LookupSetPath(locales[locale], segs, v);
    forall p | |p| >= 1 && Diverge(segs, p)
      ensures Lookup(SetPath(locales[locale], segs, v), p) == Lookup(locales[locale], p)
    {
      SetPathFrame(locales[locale], segs, v, p);
    }
  }

  /** Without object notation (or with the delimiter absent or first), both touch `tree[key]` directly. */
  lemma FlatKeyAccess(locales: map<string, Catalog>, locale: string, key: string,
                      notation: string, v: Option<Tree>)
    requires locale in locales && !UsesNotation(notation, key)
    ensures InvokeAccessor(BindAccessor(locales, locale, key, notation, true), locales)
            == (if key in locales[locale] then Some(locales[locale][key]) else None)
    ensures InvokeMutator(BindMutator(locales, locale, key, notation), locales, v)[locale]
            == Put(locales[locale], key, v)
  {
  }
}
