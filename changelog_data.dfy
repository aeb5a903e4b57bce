/**
 * The `changelogData` object of `plugins/semantic-release-fragments.js`: for each
 * category, an object mapping component names to the entries pushed under them.
 */
module ChangelogData {
  import opened Wrappers
  import opened ConventionalCommit
  import opened ComponentEntry

  /** One category's object: its own keys in the order they were first added. */
  type Components = seq<(string, seq<Entry>)>

  /** The component names, in order. */
  function Keys(cs: Components): (ks: seq<string>)
    ensures |ks| == |cs| && forall i :: 0 <= i < |cs| ==> ks[i] == cs[i].0
    decreases |cs|
  {
    if cs == [] then [] else Keys(cs[..|cs| - 1]) + [cs[|cs| - 1].0]
  }

  /** No component name occurs twice, as for the keys of an object. */
  predicate DistinctKeys(cs: Components) {
    forall i, j :: 0 <= i < j < |cs| ==> cs[i].0 != cs[j].0
  }

  /** Where `key` is, or -1 when it is not an own key. */
  function Position(cs: Components, key: string): (i: int)
    ensures -1 <= i < |cs|
    ensures i >= 0 ==> cs[i].0 == key
    ensures i < 0 ==> forall j :: 0 <= j < |cs| ==> cs[j].0 != key
    decreases |cs|
  {
    if cs == [] then -1
    else if cs[0].0 == key then 0
    else
      var j := Position(cs[1..], key);
      if j < 0 then -1 else j + 1
  }

  /** The entries under `key`; none when the key is absent. */
  function Lookup(cs: Components, key: string): seq<Entry> {
    var i := Position(cs, key);
    if i < 0 then [] else cs[i].1
  }

  /**
   * The names a plain object inherits from `Object.prototype`. For such a name
   * `changelogData[category][name]` is an inherited function or object, so no array is
   * created and the following `push` throws a TypeError.
   */
  const PrototypeNames: set<string> := {
    "constructor", "__proto__", "hasOwnProperty", "isPrototypeOf", "propertyIsEnumerable",
    "toLocaleString", "toString", "valueOf", "__defineGetter__", "__defineSetter__",
    "__lookupGetter__", "__lookupSetter__"
  }

  /**
   * `if (!obj[key]) obj[key] = []; obj[key].push(entry)`: the entry is appended to the
   * key's list, which is created (as the last key) when absent; None is the TypeError
   * thrown for an inherited name.
   */
  function AddEntry(cs: Components, key: string, e: Entry): (r: Option<Components>)
    ensures r.None? <==> key in PrototypeNames
  {
    if key in PrototypeNames then None
    else
      var i := Position(cs, key);
      if i < 0 then Some(cs + [(key, [e])]) else Some(cs[i := (key, cs[i].1 + [e])])
  }

  /**
   * Adding an entry appends exactly it to the key's list and changes no other list;
   * a new key goes after the existing ones, so keys keep their first-insertion order.
   */
  lemma AddEntryAppends(cs: Components, key: string, e: Entry)
    requires DistinctKeys(cs) && key !in PrototypeNames
    ensures AddEntry(cs, key, e).Some?
    ensures var r := AddEntry(cs, key, e).value;
      DistinctKeys(r)
      && Lookup(r, key) == Lookup(cs, key) + [e]
      && (forall k :: k != key ==> Lookup(r, k) == Lookup(cs, k))
      && Keys(r) == Keys(cs) + (if key in Keys(cs) then [] else [key])
  {
    if Position(cs, key) < 0 {
      AddNewKey(cs, key, e);
    } else {
      AddExistingKey(cs, key, e);
    }
  }

  /** `AddEntryAppends` for a key that is not there yet. */
  lemma AddNewKey(cs: Components, key: string, e: Entry)
    requires DistinctKeys(cs) && key !in PrototypeNames && Position(cs, key) < 0
    ensures AddEntry(cs, key, e) == Some(cs + [(key, [e])])
    ensures var r := cs + [(key, [e])];
      DistinctKeys(r)
      && Lookup(r, key) == Lookup(cs, key) + [e]
      && (forall k :: k != key ==> Lookup(r, k) == Lookup(cs, k))
      && key !in Keys(cs) && Keys(r) == Keys(cs) + [key]
  {
    var r := cs + [(key, [e])];
    assert Keys(r) == Keys(cs) + [key] by { assert r[..|r| - 1] == cs; }
    forall k ensures Lookup(r, k) == (if k == key then Lookup(cs, k) + [e] else Lookup(cs, k)) {
      LookupAppend(cs, key, [e], k);
    }
  }

  /** `AddEntryAppends` for a key that is there already. */
  lemma AddExistingKey(cs: Components, key: string, e: Entry)
    requires DistinctKeys(cs) && key !in PrototypeNames && Position(cs, key) >= 0
    ensures var i := Position(cs, key);
      AddEntry(cs, key, e) == Some(cs[i := (key, cs[i].1 + [e])])
    ensures var r := cs[Position(cs, key) := (key, cs[Position(cs, key)].1 + [e])];
      DistinctKeys(r)
      && Lookup(r, key) == Lookup(cs, key) + [e]
      && (forall k :: k != key ==> Lookup(r, k) == Lookup(cs, k))
      && key in Keys(cs) && Keys(r) == Keys(cs)
  {
    var i := Position(cs, key);
    var r := cs[i := (key, cs[i].1 + [e])];
    assert Keys(r) == Keys(cs);
    assert Keys(cs)[i] == key;
    forall k ensures Lookup(r, k) == (if k == key then Lookup(cs, k) + [e] else Lookup(cs, k)) {
      var j := Position(cs, k);
      if j >= 0 {
        PositionUnique(cs, k, j);
        PositionUnique(r, k, j);
      } else {
        assert Position(r, k) < 0;
      }
    }
  }

  /** In a list with distinct keys, the position of a key is the index holding it. */
  lemma PositionUnique(cs: Components, key: string, j: nat)
    requires DistinctKeys(cs) && j < |cs| && cs[j].0 == key
    ensures Position(cs, key) == j
  {
  }

  /** Appending a new key leaves the lookup of every other key unchanged. */
  lemma LookupAppend(cs: Components, key: string, entries: seq<Entry>, k: string)
    requires key !in Keys(cs)
    ensures Lookup(cs + [(key, entries)], k) == if k == key then entries else Lookup(cs, k)
  {
    PositionAppend(cs, (key, entries), k);
  }

  /** A key appended at the end is found there only when no earlier pair holds it. */
  lemma {:induction false} PositionAppend(cs: Components, x: (string, seq<Entry>), k: string)
    ensures Position(cs + [x], k)
      == if Position(cs, k) >= 0 then Position(cs, k) else if x.0 == k then |cs| else -1
    decreases |cs|
  {
    if cs != [] && cs[0].0 != k {
      assert (cs + [x])[1..] == cs[1..] + [x];
      PositionAppend(cs[1..], x, k);
    }
  }

  /** The five category objects of `changelogData`. */
  datatype Changelog = Changelog(breaking: Components, features: Components, bugfixes: Components,
                                 improvements: Components, other: Components)
  {
    /** `changelogData[category]`. */
    function Get(c: Category): Components {
      match c
      case BreakingChanges => breaking
      case Features => features
      case Bugfixes => bugfixes
      case Improvements => improvements
      case Other => other
    }

    /** The same changelog with the object of `c` replaced. */
    function Set(c: Category, cs: Components): (r: Changelog)
      ensures r.Get(c) == cs && forall d :: d != c ==> r.Get(d) == Get(d)
    {
      match c
      case BreakingChanges => this.(breaking := cs)
      case Features => this.(features := cs)
      case Bugfixes => this.(bugfixes := cs)
      case Improvements => this.(improvements := cs)
      case Other => this.(other := cs)
    }

    /** Every category object has distinct keys. */
    predicate WellKeyed() {
      forall c :: DistinctKeys(Get(c))
    }
  }

  /** The literal `changelogData` starts from: five empty objects. */
  const EmptyChangelog := Changelog([], [], [], [], [])

  /** `changelogData[category][key]` gets `e` pushed; None when that throws. */
  function Push(log: Changelog, c: Category, key: string, e: Entry): (r: Option<Changelog>)
    ensures r.None? <==> key in PrototypeNames
  {
    match AddEntry(log.Get(c), key, e)
    case None => None
    case Some(cs) => Some(log.Set(c, cs))
  }

  /**
   * A push affects one list of one category: exactly `e` is appended there, and every
   * other component of every category keeps its entries.
   */
  lemma PushAppends(log: Changelog, c: Category, key: string, e: Entry)
    requires log.WellKeyed() && key !in PrototypeNames
    ensures Push(log, c, key, e).Some?
    ensures var r := Push(log, c, key, e).value;
      r.WellKeyed()
      && Lookup(r.Get(c), key) == Lookup(log.Get(c), key) + [e]
      && (forall d, k :: (d, k) != (c, key) ==> Lookup(r.Get(d), k) == Lookup(log.Get(d), k))
      && Keys(r.Get(c)) == Keys(log.Get(c)) + (if key in Keys(log.Get(c)) then [] else [key])
  {
    AddEntryAppends(log.Get(c), key, e);
    var cs := AddEntry(log.Get(c), key, e).value;
    var r := log.Set(c, cs);
    assert Push(log, c, key, e) == Some(r);
    assert r.WellKeyed() by {
      forall d ensures DistinctKeys(r.Get(d)) {
        if d != c { assert r.Get(d) == log.Get(d); }
      }
    }
    forall d, k | (d, k) != (c, key) ensures Lookup(r.Get(d), k) == Lookup(log.Get(d), k) {
      if d != c { assert r.Get(d) == log.Get(d); }
    }
  }

  /** `PushAppends` for one name `k` of the pushed category. */
  lemma PushLookup(log: Changelog, c: Category, key: string, e: Entry, k: string)
    requires log.WellKeyed() && key !in PrototypeNames
    ensures Push(log, c, key, e).Some?
    ensures Lookup(Push(log, c, key, e).value.Get(c), k) == Lookup(log.Get(c), k) + (if k == key then [e] else [])
  {
    PushAppends(log, c, key, e);
  }
}
