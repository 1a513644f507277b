/** The body of the correlation thread's loop over a batch of clustered
    alerts: look the alert's key up in the hyperalert table, load and cache
    the description on a miss, and give the alert its own copy of the
    description with the macros expanded. */
module Correlation {
  import opened Alerts
  import opened KnowledgeParser
  import opened Macros

  /** The knowledge base directory: for each key whose XML file exists, the
      events the reader produces for it. */
  type KnowledgeBase = map<Key, seq<Event>>

  function KnowledgeFile(kb: KnowledgeBase, k: Key): Option<seq<Event>>
  {
    if k in kb then Some(kb[k]) else None
  }

  /** What the lookup of one key ends with. */
  datatype Resolution =
    | Cached(desc: Desc)          // found in the table; the file is not read
    | Loaded(desc: Desc)          // missing from the table, parsed from its file
    | Unknown                     // missing, and the parser found no description
    | Broken(violation: Violation) // the parser hit a fatal error
  {
    predicate Described()
    {
      Cached? || Loaded?
    }
  }

  /** Where a description comes from on a miss. */
  type Loader = Key -> Outcome

  /** _AI_hyperalert_from_XML over the knowledge base. */
  function LoaderOf(kb: KnowledgeBase): Loader
  {
    k => Parse(k, KnowledgeFile(kb, k))
  }

  /** A loader that only ever describes the key it was asked for. */
  ghost predicate Keyed(load: Loader)
  {
    forall k :: load(k).Found? ==> load(k).desc.key == k
  }

  /** load gives, for every key, what the parser gives on that key's file.
      (The trigger keeps the parser's definition out of proofs that only
      use load.) */
  ghost predicate LoadsFrom(load: Loader, kb: KnowledgeBase)
  {
    forall k {:trigger Parse(k, KnowledgeFile(kb, k))} :: load(k) == Parse(k, KnowledgeFile(kb, k))
  }

  /** The parser over the knowledge base is such a loader. */
  lemma LoaderOfLoads(kb: KnowledgeBase)
    ensures LoadsFrom(LoaderOf(kb), kb)
  {
  }

  /** A loader reading the knowledge base only describes the key asked for. */
  lemma {:induction false} LoadsFromKeyed(load: Loader, kb: KnowledgeBase)
    requires LoadsFrom(load, kb)
    ensures Keyed(load)
  {
    forall k | load(k).Found? ensures load(k).desc.key == k {
      FoundKey(k, KnowledgeFile(kb, k));
    }
  }

  /** HASH_FIND, then the loader on a miss (correlation.c:326-336). */
  function Resolve(table: map<Key, Desc>, load: Loader, k: Key): Resolution
  {
    if k in table then Cached(table[k])
    else match load(k)
      case Found(d) => Loaded(d)
      case NotFound => Unknown
      case Fatal(v) => Broken(v)
  }

  /** HASH_ADD of a freshly loaded description (correlation.c:339); nothing
      else is inserted. */
  function Record(table: map<Key, Desc>, k: Key, r: Resolution): map<Key, Desc>
  {
    if r.Loaded? then table[k := r.desc] else table
  }

  /** Every entry is stored under the key it describes. */
  ghost predicate Consistent(table: map<Key, Desc>)
  {
    forall k :: k in table ==> table[k].key == k
  }

  /** The results of the lookups of a batch so far and the table they leave. */
  datatype Pass = Pass(results: seq<Resolution>, table: map<Key, Desc>)

  /** A fatal parse error ends the process, and with it the batch. */
  predicate Halted(rs: seq<Resolution>)
  {
    rs != [] && rs[|rs| - 1].Broken?
  }

  /** The lookups of the first n keys of a batch, in order, each against the
      table the previous ones left; nothing after a fatal error is looked up. */
  function Walk(t0: map<Key, Desc>, load: Loader, keys: seq<Key>, n: nat): (p: Pass)
    requires n <= |keys|
    ensures |p.results| == n || Halted(p.results)
    ensures |p.results| <= n
  {
    if n == 0 then Pass([], t0)
    else
      var p := Walk(t0, load, keys, n - 1);
      if Halted(p.results) then p
      else
        var r := Resolve(p.table, load, keys[n - 1]);
        Pass(p.results + [r], Record(p.table, keys[n - 1], r))
  }

  /** One more step of a pass that has not halted. */
  lemma WalkNext(t0: map<Key, Desc>, load: Loader, keys: seq<Key>, n: nat, p: Pass)
    requires n < |keys| && Walk(t0, load, keys, n) == p && !Halted(p.results)
    ensures Walk(t0, load, keys, n + 1) ==
            Pass(p.results + [Resolve(p.table, load, keys[n])], Record(p.table, keys[n], Resolve(p.table, load, keys[n])))
  {
  }

  /** A pass that has stopped, at the end of the batch or on a fatal error,
      is the walk of the whole batch. */
  lemma WalkDone(t0: map<Key, Desc>, load: Loader, keys: seq<Key>, n: nat, p: Pass)
    requires n <= |keys| && Walk(t0, load, keys, n) == p && (n == |keys| || Halted(p.results))
    ensures Walk(t0, load, keys, |keys|) == p
  {
    WalkPrefix(t0, load, keys, n, |keys|);
  }

  /** The key of each alert, in order. */
  function KeysOf(alerts: seq<Alert>): (keys: seq<Key>)
    ensures |keys| == |alerts| && forall j :: 0 <= j < |alerts| ==> keys[j] == alerts[j].HyperalertKey()
  {
    if alerts == [] then [] else KeysOf(alerts[..|alerts| - 1]) + [alerts[|alerts| - 1].HyperalertKey()]
  }

  // ---------------------------------------------------------------------------
  // Properties of one lookup
  // ---------------------------------------------------------------------------

  /** A hit does not depend on the loader: the file is not read. */
  lemma HitIgnoresFiles(table: map<Key, Desc>, load1: Loader, load2: Loader, k: Key)
    ensures k in table ==> Resolve(table, load1, k) == Resolve(table, load2, k) == Cached(table[k])
  {
  }

  /** A lookup leaves the table as it was except for the one entry it loads,
      stored under the probed key. */
  lemma RecordOnlyAddsLoaded(table: map<Key, Desc>, load: Loader, k: Key)
    ensures var r := Resolve(table, load, k);
            var t := Record(table, k, r);
            (forall k' :: k' in table ==> k' in t && t[k'] == table[k']) &&
            (forall k' :: k' in t && k' !in table ==> k' == k && r.Loaded?) &&
            (r.Loaded? ==> k !in table && k in t && t[k] == r.desc)
  {
  }

  /** A consistent table stays consistent, and the description a lookup
      yields carries the probed key. */
  lemma ResolveConsistent(table: map<Key, Desc>, load: Loader, k: Key)
    requires Consistent(table) && Keyed(load)
    ensures var r := Resolve(table, load, k);
            (r.Described() ==> r.desc.key == k) && Consistent(Record(table, k, r))
  {
  }

  // ---------------------------------------------------------------------------
  // Properties of a batch
  // ---------------------------------------------------------------------------

  /** The walk of a prefix of the batch is a prefix of the walk of a longer
      one, and once halted nothing more happens. */
  lemma {:induction false} WalkPrefix(t0: map<Key, Desc>, load: Loader, keys: seq<Key>, m: nat, n: nat)
    requires m <= n <= |keys|
    ensures Walk(t0, load, keys, m).results <= Walk(t0, load, keys, n).results
    ensures Halted(Walk(t0, load, keys, m).results) ==> Walk(t0, load, keys, n) == Walk(t0, load, keys, m)
    decreases n
  {
    if m < n {
      WalkPrefix(t0, load, keys, m, n - 1);
    }
  }

  /** The j-th result is the lookup of the j-th key against the table the
      first j lookups left. */
  lemma WalkAt(t0: map<Key, Desc>, load: Loader, keys: seq<Key>, j: nat, n: nat)
    requires n <= |keys| && j < |Walk(t0, load, keys, n).results|
    ensures var p := Walk(t0, load, keys, j);
            var r := Walk(t0, load, keys, n).results[j];
            !Halted(p.results) && |p.results| == j &&
            r == Resolve(p.table, load, keys[j]) &&
            Walk(t0, load, keys, j + 1) == Pass(p.results + [r], Record(p.table, keys[j], r))
  {
    WalkPrefix(t0, load, keys, j, n);
    WalkPrefix(t0, load, keys, j + 1, n);
  }

  /** The table only grows: an entry, once present, stays with the same description. */
  lemma {:induction false} TableGrows(t0: map<Key, Desc>, load: Loader, keys: seq<Key>, m: nat, n: nat)
    requires m <= n <= |keys|
    ensures var a, b := Walk(t0, load, keys, m).table, Walk(t0, load, keys, n).table;
            forall k :: k in a ==> k in b && b[k] == a[k]
    decreases n
  {
    if m < n {
      TableGrows(t0, load, keys, m, n - 1);
    }
  }

  /** An entry of the table after n lookups was there after m lookups or was
      loaded by one of the lookups in between. */
  lemma {:induction false} TableSources(t0: map<Key, Desc>, load: Loader, keys: seq<Key>, m: nat, n: nat, k: Key)
    requires m <= n <= |keys|
    ensures var p := Walk(t0, load, keys, n);
            k in p.table ==>
              k in Walk(t0, load, keys, m).table ||
              exists l :: m <= l < |p.results| && keys[l] == k && p.results[l].Loaded?
    decreases n
  {
    if m < n {
      TableSources(t0, load, keys, m, n - 1, k);
      var q := Walk(t0, load, keys, n - 1);
      var p := Walk(t0, load, keys, n);
      if !Halted(q.results) {
        assert q.results <= p.results;
        if k in p.table && k !in q.table {
          assert keys[n - 1] == k && p.results[n - 1].Loaded?;
        }
      }
    }
  }

  /** The table a batch leaves holds exactly the entries it started with and
      the descriptions its lookups loaded, none of the old entries changed. */
  lemma WalkTable(t0: map<Key, Desc>, load: Loader, keys: seq<Key>, k: Key)
    ensures var w := Walk(t0, load, keys, |keys|);
            (k in w.table <==>
              k in t0 || exists l :: 0 <= l < |w.results| && keys[l] == k && w.results[l].Loaded?) &&
            (k in t0 ==> w.table[k] == t0[k])
  {
    var w := Walk(t0, load, keys, |keys|);
    TableSources(t0, load, keys, 0, |keys|, k);
    TableGrows(t0, load, keys, 0, |keys|);
    if l :| 0 <= l < |w.results| && keys[l] == k && w.results[l].Loaded? {
      WalkAt(t0, load, keys, l, |keys|);
      TableGrows(t0, load, keys, l + 1, |keys|);
    }
  }

  lemma {:induction false} ConsistentPrefix(t0: map<Key, Desc>, load: Loader, keys: seq<Key>, n: nat)
    requires Consistent(t0) && Keyed(load) && n <= |keys|
    ensures Consistent(Walk(t0, load, keys, n).table)
  {
    if n > 0 {
      ConsistentPrefix(t0, load, keys, n - 1);
      ResolveConsistent(Walk(t0, load, keys, n - 1).table, load, keys[n - 1]);
    }
  }

  /** Starting from a consistent table, every description a batch yields
      carries the key of its alert, and the table stays consistent. */
  lemma WalkConsistent(t0: map<Key, Desc>, load: Loader, keys: seq<Key>)
    requires Consistent(t0) && Keyed(load)
    ensures var w := Walk(t0, load, keys, |keys|);
            Consistent(w.table) &&
            forall j :: 0 <= j < |w.results| && w.results[j].Described() ==> w.results[j].desc.key == keys[j]
  {
    var w := Walk(t0, load, keys, |keys|);
    ConsistentPrefix(t0, load, keys, |keys|);
    forall j | 0 <= j < |w.results| && w.results[j].Described() ensures w.results[j].desc.key == keys[j] {
      WalkAt(t0, load, keys, j, |keys|);
      ConsistentPrefix(t0, load, keys, j);
      ResolveConsistent(Walk(t0, load, keys, j).table, load, keys[j]);
    }
  }

  /** Once a key has been resolved to a description, every later alert with
      the same key is a hit on that same description: a file that yields a
      description is parsed at most once. */
  lemma LaterProbeHits(t0: map<Key, Desc>, load: Loader, keys: seq<Key>, i: nat, j: nat)
    requires i < j < |Walk(t0, load, keys, |keys|).results| && keys[i] == keys[j]
    requires Walk(t0, load, keys, |keys|).results[i].Described()
    ensures Walk(t0, load, keys, |keys|).results[j] == Cached(Walk(t0, load, keys, |keys|).results[i].desc)
  {
    WalkAt(t0, load, keys, i, |keys|);
    WalkAt(t0, load, keys, j, |keys|);
    TableGrows(t0, load, keys, i + 1, j);
  }

  /** A key without a description is not cached, so every later alert with
      that key goes to the loader again, and again finds nothing. */
  lemma UnknownIsRetried(t0: map<Key, Desc>, load: Loader, keys: seq<Key>, i: nat, j: nat)
    requires i < j < |Walk(t0, load, keys, |keys|).results| && keys[i] == keys[j]
    requires Walk(t0, load, keys, |keys|).results[i].Unknown?
    ensures Walk(t0, load, keys, |keys|).results[j].Unknown?
    ensures keys[j] !in Walk(t0, load, keys, j).table
  {
    var k := keys[i];
    WalkAt(t0, load, keys, i, |keys|);
    WalkAt(t0, load, keys, j, |keys|);
    TableSources(t0, load, keys, i + 1, j, k);
    var p := Walk(t0, load, keys, j);
    forall l | i + 1 <= l < |p.results| && keys[l] == k ensures !p.results[l].Loaded? {
      WalkAt(t0, load, keys, l, j);
    }
  }

  // ---------------------------------------------------------------------------
  // The imperative loop
  // ---------------------------------------------------------------------------

  /** h is a private copy of d for an alert with packet fields f: the same
      key, and the conditions in the same order with the macros expanded. */
  ghost predicate Expanded(h: AlertHyperalert, d: Desc, f: Flow)
    reads h.preconds, h.postconds
  {
    h.Valid() && h.key == d.key &&
    h.preconds.Length == |d.preconds| && h.postconds.Length == |d.postconds| &&
    (forall j :: 0 <= j < |d.preconds| ==> h.preconds[j] == ExpandCondition(d.preconds[j], f)) &&
    (forall j :: 0 <= j < |d.postconds| ==> h.postconds[j] == ExpandCondition(d.postconds[j], f))
  }

  /** The alert holds its own expanded copy of d. */
  ghost predicate Enriched(a: Alert, d: Desc)
    reads a, if a.hyperalert == null then {} else {a.hyperalert.preconds, a.hyperalert.postconds}
  {
    a.hyperalert != null && Expanded(a.hyperalert, d, a.PacketFlow())
  }

  /** How an alert comes out of the lookup r: with a description it holds
      its own expanded copy, otherwise its hyperalert field is untouched. */
  ghost predicate Handled(a: Alert, r: Resolution, before: AlertHyperalert?)
    reads a, if a.hyperalert == null then {} else {a.hyperalert.preconds, a.hyperalert.postconds}
  {
    if r.Described() then Enriched(a, r.desc) else a.hyperalert == before
  }

  /** The hyperalert field of each alert. */
  ghost function HyperalertsOf(alerts: seq<Alert>): (hs: seq<AlertHyperalert?>)
    reads alerts
    ensures |hs| == |alerts| && forall j :: 0 <= j < |alerts| ==> hs[j] == alerts[j].hyperalert
  {
    if alerts == [] then [] else HyperalertsOf(alerts[..|alerts| - 1]) + [alerts[|alerts| - 1].hyperalert]
  }

  /** The alert's hyperalert and both of its arrays were allocated by this
      call: nothing else (in particular no table entry) shares them. */
  twostate predicate Fresh(a: Alert)
    reads a
  {
    a.hyperalert != null && fresh(a.hyperalert) &&
    fresh(a.hyperalert.preconds) && fresh(a.hyperalert.postconds)
  }

  /** Fills the alert's hyperalert as correlation.c:343-362 does: a deep
      copy of the description, then the macro substitution on the copy. */
  method Attach(a: Alert, d: Desc)
    modifies a
    ensures Enriched(a, d) && Fresh(a)
  {
    var h := new AlertHyperalert.Copy(d);
    a.hyperalert := h;
    MacroSubst(a);
  }

  /** The thread's state that outlives a batch: the hyperalert table. */
  class Correlator {
    var hyperalerts: map<Key, Desc>

    ghost predicate Valid()
      reads this
    {
      Consistent(hyperalerts)
    }

    constructor ()
      ensures hyperalerts == map[] && Valid()
    {
      hyperalerts := map[];
    }

    /** Lookup-or-load of correlation.c:326-340: a hit is returned as
        cached; on a miss the key's file is parsed and a found description is
        inserted into the table. */
    method Lookup(key: Key, kb: KnowledgeBase, ghost load: Loader) returns (r: Resolution)
      requires Valid() && LoadsFrom(load, kb)
      modifies this
      ensures Valid()
      ensures r == Resolve(old(hyperalerts), load, key)
      ensures hyperalerts == Record(old(hyperalerts), key, r)
    {
      LoadsFromKeyed(load, kb);
      ResolveConsistent(hyperalerts, load, key);
      if key in hyperalerts {
        r := Cached(hyperalerts[key]);
        return;
      }
      var outcome := LoadHyperalert(key, KnowledgeFile(kb, key));
      match outcome {
        case Found(d) =>
          hyperalerts := hyperalerts[key := d];
          r := Loaded(d);
        case NotFound =>
          r := Unknown;
        case Fatal(v) =>
          r := Broken(v);
      }
    }

    /** One iteration of the loop of correlation.c:323-368: resolve the
        alert's key; an alert with a description gets its own expanded copy,
        any other alert is left as it was. */
    method Correlate(a: Alert, kb: KnowledgeBase, ghost load: Loader) returns (r: Resolution)
      requires Valid() && LoadsFrom(load, kb)
      modifies this, a
      ensures Valid()
      ensures r == Resolve(old(hyperalerts), load, a.HyperalertKey())
      ensures hyperalerts == Record(old(hyperalerts), a.HyperalertKey(), r)
      ensures Handled(a, r, old(a.hyperalert))
      ensures r.Described() ==> r.desc.key == a.HyperalertKey() && Fresh(a)
    {
      LoadsFromKeyed(load, kb);
      ResolveConsistent(hyperalerts, load, a.HyperalertKey());
      r := Lookup(a.HyperalertKey(), kb, load);
      if r.Described() {
        Attach(a, r.desc);
      }
    }

    /** One turn of the loop over a batch: Correlate on the i-th alert, which
        leaves the alerts before it handled and the ones after it untouched. */
    method Step(alerts: seq<Alert>, i: nat, kb: KnowledgeBase, ghost load: Loader,
                ghost results: seq<Resolution>, ghost before: seq<AlertHyperalert?>) returns (r: Resolution)
      requires Valid() && LoadsFrom(load, kb)
      requires i < |alerts| && |results| == i && |before| == |alerts|
      requires forall j, k :: 0 <= j < k < |alerts| ==> alerts[j] != alerts[k]
      requires forall j :: 0 <= j < i ==> Handled(alerts[j], results[j], before[j])
      requires forall j :: i <= j < |alerts| ==> alerts[j].hyperalert == before[j]
      modifies this, alerts[i]
      ensures Valid()
      ensures r == Resolve(old(hyperalerts), load, alerts[i].HyperalertKey())
      ensures hyperalerts == Record(old(hyperalerts), alerts[i].HyperalertKey(), r)
      ensures forall j :: 0 <= j <= i ==> Handled(alerts[j], (results + [r])[j], before[j])
      ensures forall j :: i < j < |alerts| ==> alerts[j].hyperalert == before[j]
    {
      r := Correlate(alerts[i], kb, load);
      forall j | 0 <= j < i ensures Handled(alerts[j], results[j], before[j]) {
        assert alerts[j] != alerts[i];
      }
      forall j | i < j < |alerts| ensures alerts[j].hyperalert == before[j] {
        assert alerts[j] != alerts[i];
      }
    }

    /** The loop of correlation.c:323-368 over a batch of distinct alerts, in
        list order. A fatal parse error ends the pass (fatalMsg ends the
        process). */
    method CorrelateBatch(alerts: seq<Alert>, kb: KnowledgeBase, ghost load: Loader)
      returns (aborted: bool)
      requires Valid() && LoadsFrom(load, kb)
      requires forall i, j :: 0 <= i < j < |alerts| ==> alerts[i] != alerts[j]
      modifies this, alerts
      ensures Valid()
      ensures var w := Walk(old(hyperalerts), load, KeysOf(alerts), |alerts|);
              hyperalerts == w.table && aborted == Halted(w.results)
      ensures var w := Walk(old(hyperalerts), load, KeysOf(alerts), |alerts|);
              forall i :: 0 <= i < |w.results| ==> Handled(alerts[i], w.results[i], old(alerts[i].hyperalert))
      ensures var w := Walk(old(hyperalerts), load, KeysOf(alerts), |alerts|);
              forall i :: |w.results| <= i < |alerts| ==> alerts[i].hyperalert == old(alerts[i].hyperalert)
    {
      ghost var t0 := hyperalerts;
      ghost var keys := KeysOf(alerts);
      ghost var before := HyperalertsOf(alerts);
      ghost var results: seq<Resolution> := [];
      aborted := false;
      var i := 0;
      while i < |alerts| && !aborted
        invariant 0 <= i <= |alerts| && |results| == i
        invariant Valid()
        invariant Walk(t0, load, keys, i) == Pass(results, hyperalerts)
        invariant aborted == Halted(results)
        invariant forall j :: 0 <= j < i ==> Handled(alerts[j], results[j], before[j])
        invariant forall j :: i <= j < |alerts| ==> alerts[j].hyperalert == before[j]
      {
        assert keys[i] == alerts[i].HyperalertKey();
        WalkNext(t0, load, keys, i, Pass(results, hyperalerts));
        var r := Step(alerts, i, kb, load, results, before);
        results := results + [r];
        aborted := r.Broken?;
        i := i + 1;
      }
      WalkDone(t0, load, keys, i, Pass(results, hyperalerts));
    }
  }
}
