/** Fingerprints of models: `SnapshotFingerprint`, `fingerprint_from_model`
    with its caller-owned cache, and `_parents_from_model`. */
module Fingerprints {
  import opened Wrappers
  import opened Sorting
  import opened Sequences
  import opened Errors

  /** What `_hash` (crc32 rendered as a decimal string) returns: never empty. */
  type Digest = s: string | |s| > 0 witness "0"

  /** `_hash`, a deterministic function of a list of optional strings whose
      inner workings the model does not look into. */
  type Hasher = seq<Option<string>> -> Digest

  /** `[Some(x) for x in s]`: the strings as a hash input. */
  function Wrap(s: seq<string>): (r: seq<Option<string>>)
    ensures |r| == |s|
  {
    seq(|s|, i requires 0 <= i < |s| => Some(s[i]))
  }

  datatype Fingerprint = Fingerprint(
    dataHash: string,
    metadataHash: string,
    parentDataHash: string,
    parentMetadataHash: string)
  {
    /** The version: a hash of the data parts only. */
    function ToVersion(h: Hasher): Digest {
      h([Some(dataHash), Some(parentDataHash)])
    }

    /** The identifier: a hash of all four parts. */
    function ToIdentifier(h: Hasher): Digest {
      h([Some(dataHash), Some(metadataHash), Some(parentDataHash), Some(parentMetadataHash)])
    }
  }

  /** A change to the metadata alone keeps the version. */
  lemma VersionIgnoresMetadata(h: Hasher, f: Fingerprint, g: Fingerprint)
    requires f.dataHash == g.dataHash && f.parentDataHash == g.parentDataHash
    ensures f.ToVersion(h) == g.ToVersion(h)
  {
  }

  ghost predicate Injective(h: Hasher) {
    forall a, b :: h(a) == h(b) ==> a == b
  }

  /** With a collision-free hash, equal identifiers mean equal fingerprints,
      and hence equal versions. */
  lemma IdentifierDeterminesFingerprint(h: Hasher, f: Fingerprint, g: Fingerprint)
    requires Injective(h)
    requires f.ToIdentifier(h) == g.ToIdentifier(h)
    ensures f == g
    ensures f.ToVersion(h) == g.ToVersion(h)
  {
    var a := [Some(f.dataHash), Some(f.metadataHash), Some(f.parentDataHash), Some(f.parentMetadataHash)];
    var b := [Some(g.dataHash), Some(g.metadataHash), Some(g.parentDataHash), Some(g.parentMetadataHash)];
    assert a == b;
    assert a[0] == b[0] && a[1] == b[1] && a[2] == b[2] && a[3] == b[3];
  }

  /** With a collision-free hash, a different data hash gives a different version. */
  lemma DataChangeChangesVersion(h: Hasher, f: Fingerprint, g: Fingerprint)
    requires Injective(h)
    requires f.dataHash != g.dataHash
    ensures f.ToVersion(h) != g.ToVersion(h)
  {
    var a := [Some(f.dataHash), Some(f.parentDataHash)];
    var b := [Some(g.dataHash), Some(g.parentDataHash)];
    assert a[0] != b[0];
  }

  // ---------------------------------------------------------------------
  // Models and their dependency graph

  /** The parts of a model a fingerprint depends on. The data and metadata
      hashes are those `_model_data_hash` and `_model_metadata_hash` compute
      from the rendered model; `auditNames` are the audits it references. */
  datatype Model = Model(
    name: string,
    dependsOn: seq<string>,
    isEmbedded: bool,
    dataHash: string,
    metadataHash: string,
    auditNames: seq<string>)

  /** `models` is keyed by name and `rank` witnesses that its dependency graph
      is acyclic: a dependency present in `models` has a smaller rank. */
  ghost predicate Ranked(models: map<string, Model>, rank: map<string, nat>) {
    forall n | n in models ::
      && n in rank
      && models[n].name == n
      && forall d | d in models[n].dependsOn && d in models :: d in rank && rank[d] < rank[n]
  }

  /** `m` (which need not be one of `models`) sits above its dependencies. */
  ghost predicate RankedModel(models: map<string, Model>, rank: map<string, nat>, m: Model) {
    && m.name in rank
    && forall d | d in m.dependsOn && d in models :: d in rank && rank[d] < rank[m.name]
  }

  /** The fingerprint `fingerprint_from_model` computes for `m` with an empty cache. */
  function FingerprintOf(models: map<string, Model>, ghost rank: map<string, nat>, h: Hasher, m: Model): Fingerprint
    requires Ranked(models, rank) && RankedModel(models, rank, m)
    decreases rank[m.name], 1
  {
    var parents := ParentFingerprints(models, rank, h, m.dependsOn, rank[m.name]);
    Fingerprint(m.dataHash, m.metadataHash, ParentDataHash(h, parents), ParentMetadataHash(h, parents))
  }

  /** The fingerprints of the dependencies present in `models`, in `depends_on` order. */
  function ParentFingerprints(models: map<string, Model>, ghost rank: map<string, nat>, h: Hasher,
                              deps: seq<string>, ghost bound: nat): seq<Fingerprint>
    requires Ranked(models, rank)
    requires forall d | d in deps && d in models :: rank[d] < bound
    decreases bound, 0, |deps|
  {
    if deps == [] then []
    else
      var last := deps[|deps| - 1];
      ParentFingerprints(models, rank, h, deps[..|deps| - 1], bound)
        + (if last in models then [FingerprintOf(models, rank, h, models[last])] else [])
  }

  function VersionList(h: Hasher, p: Fingerprint): seq<string> {
    [p.ToVersion(h)]
  }

  /** The versions of the parents, in parent order. */
  function ParentVersions(h: Hasher, parents: seq<Fingerprint>): seq<string> {
    FlatMap((p: Fingerprint) => VersionList(h, p), parents)
  }

  /** The metadata hash and parent metadata hash of each parent, in parent order. */
  function MetadataParts(parents: seq<Fingerprint>): seq<string> {
    FlatMap((p: Fingerprint) => [p.metadataHash, p.parentMetadataHash], parents)
  }

  /** `parent_data_hash`: the hash of the sorted parent versions. */
  function ParentDataHash(h: Hasher, parents: seq<Fingerprint>): Digest {
    h(Wrap(SortStrings(ParentVersions(h, parents))))
  }

  /** `parent_metadata_hash`: the hash of the sorted parent metadata parts. */
  function ParentMetadataHash(h: Hasher, parents: seq<Fingerprint>): Digest {
    h(Wrap(SortStrings(MetadataParts(parents))))
  }

  /** The parent hashes depend only on which parents there are, not on their order. */
  lemma ParentHashesIgnoreOrder(h: Hasher, a: seq<Fingerprint>, b: seq<Fingerprint>)
    requires multiset(a) == multiset(b)
    ensures ParentDataHash(h, a) == ParentDataHash(h, b)
    ensures ParentMetadataHash(h, a) == ParentMetadataHash(h, b)
  {
    FlatMapPermutation((p: Fingerprint) => VersionList(h, p), a, b);
    SortStringsIgnoresOrder(ParentVersions(h, a), ParentVersions(h, b));
    FlatMapPermutation((p: Fingerprint) => [p.metadataHash, p.parentMetadataHash], a, b);
    SortStringsIgnoresOrder(MetadataParts(a), MetadataParts(b));
  }

  /** The parent list of one dependency: its fingerprint when it is one of `models`. */
  ghost function ParentOf(models: map<string, Model>, rank: map<string, nat>, h: Hasher, d: string): seq<Fingerprint> {
    if d in models && Ranked(models, rank) then [FingerprintOf(models, rank, h, models[d])] else []
  }

  /** The parent list is the parent fingerprints of the dependencies one by one. */
  lemma {:induction false} ParentFingerprintsFlatMap(models: map<string, Model>, rank: map<string, nat>, h: Hasher,
                                                     deps: seq<string>, bound: nat)
    requires Ranked(models, rank)
    requires forall d | d in deps && d in models :: rank[d] < bound
    ensures ParentFingerprints(models, rank, h, deps, bound)
         == FlatMap((d: string) => ParentOf(models, rank, h, d), deps)
  {
    if deps != [] {
      ParentFingerprintsFlatMap(models, rank, h, deps[..|deps| - 1], bound);
    }
  }

  /** Permuting `depends_on` leaves the fingerprint unchanged. */
  lemma FingerprintIgnoresDependencyOrder(models: map<string, Model>, rank: map<string, nat>, h: Hasher,
                                          m: Model, deps: seq<string>)
    requires Ranked(models, rank) && RankedModel(models, rank, m)
    requires multiset(deps) == multiset(m.dependsOn)
    ensures RankedModel(models, rank, m.(dependsOn := deps))
    ensures FingerprintOf(models, rank, h, m.(dependsOn := deps)) == FingerprintOf(models, rank, h, m)
  {
    var m' := m.(dependsOn := deps);
    forall d | d in deps ensures d in m.dependsOn {
      assert d in multiset(deps);
    }
    var bound := rank[m.name];
    ParentFingerprintsFlatMap(models, rank, h, deps, bound);
    ParentFingerprintsFlatMap(models, rank, h, m.dependsOn, bound);
    FlatMapPermutation((d: string) => ParentOf(models, rank, h, d), deps, m.dependsOn);
    ParentHashesIgnoreOrder(h, ParentFingerprints(models, rank, h, deps, bound),
                            ParentFingerprints(models, rank, h, m.dependsOn, bound));
  }

  /** Without dependencies among `models`, both parent hashes are the hash of the empty list. */
  lemma {:induction false} NoParentsHash(models: map<string, Model>, rank: map<string, nat>, h: Hasher, m: Model)
    requires Ranked(models, rank) && RankedModel(models, rank, m)
    requires forall d | d in m.dependsOn :: d !in models
    ensures FingerprintOf(models, rank, h, m).parentDataHash == h([])
    ensures FingerprintOf(models, rank, h, m).parentMetadataHash == h([])
  {
    NoParents(models, rank, h, m.dependsOn, rank[m.name]);
  }

  lemma {:induction false} NoParents(models: map<string, Model>, rank: map<string, nat>, h: Hasher,
                                     deps: seq<string>, bound: nat)
    requires Ranked(models, rank)
    requires forall d | d in deps :: d !in models
    ensures ParentFingerprints(models, rank, h, deps, bound) == []
  {
    if deps != [] {
      NoParents(models, rank, h, deps[..|deps| - 1], bound);
    }
  }

  // ---------------------------------------------------------------------
  // _parents_from_model

  /** The dependencies present in `models`, together with, recursively, the
      parents of the embedded ones among them. */
  function ParentTables(models: map<string, Model>, ghost rank: map<string, nat>,
                        deps: seq<string>, ghost bound: nat): (r: set<string>)
    requires Ranked(models, rank)
    requires forall d | d in deps && d in models :: rank[d] < bound
    ensures r <= models.Keys
    decreases bound, |deps|
  {
    if deps == [] then {}
    else
      var last := deps[|deps| - 1];
      ParentTables(models, rank, deps[..|deps| - 1], bound)
        + (if last in models then
             {last} + (if models[last].isEmbedded then ParentTables(models, rank, models[last].dependsOn, rank[last]) else {})
           else {})
  }

  /** `_parents_from_model`. */
  function ParentsFromModel(models: map<string, Model>, ghost rank: map<string, nat>, m: Model): set<string>
    requires Ranked(models, rank) && RankedModel(models, rank, m)
  {
    ParentTables(models, rank, m.dependsOn, rank[m.name])
  }

  /** `d` is reached from `deps` along `chain`: the first link is one of
      `deps`, each later link a dependency of the one before, every link one
      of `models` (and embedded, when `embeddedOnly`), and `d`, one of
      `models`, a dependency of the last link, or one of `deps` when the chain
      is empty. */
  ghost predicate Reaches(models: map<string, Model>, deps: seq<string>, chain: seq<string>, d: string, embeddedOnly: bool)
    decreases |chain|
  {
    if chain == [] then d in deps && d in models
    else
      && chain[0] in deps
      && chain[0] in models
      && (embeddedOnly ==> models[chain[0]].isEmbedded)
      && Reaches(models, models[chain[0]].dependsOn, chain[1..], d, embeddedOnly)
  }

  /** `d` is reached from `deps` through embedded models only. */
  ghost predicate EmbeddedChain(models: map<string, Model>, deps: seq<string>, chain: seq<string>, d: string) {
    Reaches(models, deps, chain, d, true)
  }

  lemma ReachesPrefix(models: map<string, Model>, deps: seq<string>, chain: seq<string>, d: string, embeddedOnly: bool)
    requires deps != [] && Reaches(models, deps[..|deps| - 1], chain, d, embeddedOnly)
    ensures Reaches(models, deps, chain, d, embeddedOnly)
  {
    if chain == [] {
      assert d in deps[..|deps| - 1];
    } else {
      assert chain[0] in deps[..|deps| - 1];
    }
  }

  /** Everything `_parents_from_model` returns is reached through embedded models. */
  lemma {:induction false} ParentTablesSound(models: map<string, Model>, rank: map<string, nat>,
                                             deps: seq<string>, bound: nat, d: string)
    requires Ranked(models, rank)
    requires forall x | x in deps && x in models :: rank[x] < bound
    requires d in ParentTables(models, rank, deps, bound)
    ensures exists chain :: EmbeddedChain(models, deps, chain, d)
    decreases bound, |deps|
  {
    var init, last := deps[..|deps| - 1], deps[|deps| - 1];
    assert deps == init + [last];
    if d in ParentTables(models, rank, init, bound) {
      ParentTablesSound(models, rank, init, bound, d);
      var chain :| EmbeddedChain(models, init, chain, d);
      ReachesPrefix(models, deps, chain, d, true);
      assert EmbeddedChain(models, deps, chain, d);
    } else if d == last {
      assert EmbeddedChain(models, deps, [], d);
    } else {
      var inner := models[last].dependsOn;
      ParentTablesSound(models, rank, inner, rank[last], d);
      var chain :| EmbeddedChain(models, inner, chain, d);
      assert ([last] + chain)[1..] == chain;
      assert EmbeddedChain(models, deps, [last] + chain, d);
    }
  }

  /** Everything reached through embedded models is returned by `_parents_from_model`. */
  lemma {:induction false} ParentTablesComplete(models: map<string, Model>, rank: map<string, nat>,
                                                deps: seq<string>, bound: nat, chain: seq<string>, d: string)
    requires Ranked(models, rank)
    requires forall x | x in deps && x in models :: rank[x] < bound
    requires EmbeddedChain(models, deps, chain, d)
    ensures d in ParentTables(models, rank, deps, bound)
    decreases bound, |deps|
  {
    var first := if chain == [] then d else chain[0];
    var init, last := deps[..|deps| - 1], deps[|deps| - 1];
    assert deps == init + [last];
    if first != last {
      assert first in init;
      if chain == [] {
        assert EmbeddedChain(models, init, chain, d);
      } else {
        assert EmbeddedChain(models, init, chain, d);
      }
      ParentTablesComplete(models, rank, init, bound, chain, d);
    } else if chain != [] {
      ParentTablesComplete(models, rank, models[last].dependsOn, rank[last], chain[1..], d);
    }
  }

  /** `_parents_from_model` returns exactly the direct parents among `models`
      and, recursively, the parents of the embedded ones. */
  lemma ParentsFromModelExactly(models: map<string, Model>, rank: map<string, nat>, m: Model, d: string)
    requires Ranked(models, rank) && RankedModel(models, rank, m)
    ensures d in ParentsFromModel(models, rank, m) <==> exists chain :: EmbeddedChain(models, m.dependsOn, chain, d)
  {
    if d in ParentsFromModel(models, rank, m) {
      ParentTablesSound(models, rank, m.dependsOn, rank[m.name], d);
    }
    if exists chain :: EmbeddedChain(models, m.dependsOn, chain, d) {
      var chain :| EmbeddedChain(models, m.dependsOn, chain, d);
      ParentTablesComplete(models, rank, m.dependsOn, rank[m.name], chain, d);
    }
  }

  /** Without embedded models the parents are the dependencies present in `models`. */
  lemma ParentsWithoutEmbedding(models: map<string, Model>, rank: map<string, nat>, m: Model, d: string)
    requires Ranked(models, rank) && RankedModel(models, rank, m)
    requires forall n | n in models :: !models[n].isEmbedded
    ensures d in ParentsFromModel(models, rank, m) <==> d in m.dependsOn && d in models
  {
    ParentsFromModelExactly(models, rank, m, d);
    if d in ParentsFromModel(models, rank, m) {
      var chain :| EmbeddedChain(models, m.dependsOn, chain, d);
      if chain != [] {
        assert false;
      }
    }
    if d in m.dependsOn && d in models {
      assert EmbeddedChain(models, m.dependsOn, [], d);
      ParentTablesComplete(models, rank, m.dependsOn, rank[m.name], [], d);
    }
  }

  // ---------------------------------------------------------------------
  // fingerprint_from_model and its cache

  /** The caller-owned `cache` dictionary, from model name to fingerprint. */
  class FingerprintCache {
    var entries: map<string, Fingerprint>

    constructor (entries: map<string, Fingerprint>)
      ensures this.entries == entries
    {
      this.entries := entries;
    }
  }

  /** Every entry of `a` is still in `b`, unchanged. */
  ghost predicate Grows(a: map<string, Fingerprint>, b: map<string, Fingerprint>) {
    forall n | n in a :: n in b && b[n] == a[n]
  }

  /** Every cached model of `models` holds the fingerprint an empty cache would give. */
  ghost predicate CacheSound(models: map<string, Model>, rank: map<string, nat>, h: Hasher,
                             entries: map<string, Fingerprint>)
    requires Ranked(models, rank)
  {
    forall n | n in entries && n in models :: entries[n] == FingerprintOf(models, rank, h, models[n])
  }

  /** Every cached model of `models` has its dependencies among `models` cached too. */
  ghost predicate CacheClosed(models: map<string, Model>, entries: map<string, Fingerprint>) {
    forall n | n in entries && n in models ::
      forall d | d in models[n].dependsOn && d in models :: d in entries
  }

  /** `m` is the model `models` holds under its name, if it holds one. */
  predicate Consistent(models: map<string, Model>, m: Model) {
    m.name in models ==> models[m.name] == m
  }

  /** Every audit referenced by `m` or by a model it depends on, transitively,
      is one of `known`. */
  ghost predicate AuditsKnown(models: map<string, Model>, rank: map<string, nat>, known: set<string>, m: Model)
    requires Ranked(models, rank) && RankedModel(models, rank, m)
    decreases rank[m.name]
  {
    && (forall a | a in m.auditNames :: a in known)
    && forall d | d in m.dependsOn && d in models :: AuditsKnown(models, rank, known, models[d])
  }

  /** The first entry of `s` that is not one of `known`. */
  function FirstNotIn(s: seq<string>, known: set<string>): (r: Option<string>)
    ensures r.None? <==> forall i | 0 <= i < |s| :: s[i] in known
    ensures r.Some? ==> exists i | 0 <= i < |s| :: s[i] == r.value && r.value !in known
                                            && forall j | 0 <= j < i :: s[j] in known
  {
    if s == [] then None
    else if s[0] !in known then Some(s[0])
    else
      var r := FirstNotIn(s[1..], known);
      if r.Some? then
        assert forall i | 0 <= i < |s| - 1 :: s[1..][i] == s[i + 1];
        r
      else
        assert forall i | 1 <= i < |s| :: s[i] == s[1..][i - 1];
        r
  }

  /** In a sorted list the first entry outside `known` is the least such entry. */
  lemma {:induction false} FirstNotInLeast(s: seq<string>, known: set<string>)
    requires SortedBy(StringLe, s)
    ensures FirstNotIn(s, known).Some? ==>
              forall k | 0 <= k < |s| && s[k] !in known :: StringLe(FirstNotIn(s, known).value, s[k])
  {
    if s != [] {
      if s[0] !in known {
        StringLeTotal(s[0], s[0]);
      } else {
        FirstNotInLeast(s[1..], known);
        forall k | 1 <= k < |s| ensures s[k] == s[1..][k - 1] {}
      }
    }
  }

  lemma SameElements(a: seq<string>, b: seq<string>)
    requires multiset(a) == multiset(b)
    ensures forall x :: x in a <==> x in b
  {
    forall x ensures x in a <==> x in b {
      assert x in a <==> x in multiset(a);
      assert x in b <==> x in multiset(b);
    }
  }

  /** The audit `_model_metadata_hash` fails on: the first name, in sorted
      order, that is neither a built-in audit nor a supplied one (`known`). */
  function FirstUnknownAudit(names: seq<string>, known: set<string>): (r: Option<string>)
    ensures r.None? <==> forall a | a in names :: a in known
    ensures r.Some? ==> r.value in names && r.value !in known
    ensures r.Some? ==> forall a | a in names && a !in known :: StringLe(r.value, a)
  {
    var sorted := SortStrings(names);
    SameElements(names, sorted);
    StringLeIsTotalOrder();
    SortSorted(StringLe, names);
    FirstNotInLeast(sorted, known);
    FirstNotIn(sorted, known)
  }

  /** Everything reachable from `deps` is cached once `deps` are and the cache is closed. */
  lemma {:induction false} ClosedHoldsReachable(models: map<string, Model>, entries: map<string, Fingerprint>,
                                                deps: seq<string>, chain: seq<string>, d: string)
    requires CacheClosed(models, entries)
    requires forall x | x in deps && x in models :: x in entries
    requires Reaches(models, deps, chain, d, false)
    ensures d in entries
    decreases |chain|
  {
    if chain != [] {
      ClosedHoldsReachable(models, entries, models[chain[0]].dependsOn, chain[1..], d);
    }
  }

  /** `ps` followed by the parents a later part of the computation collects. */
  function Prepend(ps: seq<Fingerprint>, rest: (Result<seq<Fingerprint>, SnapshotError>, map<string, Fingerprint>))
    : (Result<seq<Fingerprint>, SnapshotError>, map<string, Fingerprint>)
  {
    (if rest.0.Success? then Success(ps + rest.0.value) else rest.0, rest.1)
  }

  lemma PrependNothing(rest: (Result<seq<Fingerprint>, SnapshotError>, map<string, Fingerprint>))
    ensures Prepend([], rest) == rest
  {
    if rest.0.Success? {
      assert [] + rest.0.value == rest.0.value;
    }
  }

  lemma PrependTwice(ps: seq<Fingerprint>, qs: seq<Fingerprint>,
                     rest: (Result<seq<Fingerprint>, SnapshotError>, map<string, Fingerprint>))
    ensures Prepend(ps, Prepend(qs, rest)) == Prepend(ps + qs, rest)
  {
    if rest.0.Success? {
      assert ps + (qs + rest.0.value) == (ps + qs) + rest.0.value;
    }
  }

  /** What `fingerprint_from_model` returns for `m`, and the cache it leaves,
      when it starts from the cache `entries`: a cached fingerprint is
      returned as it is; otherwise the parents are fingerprinted in
      `depends_on` order, each call seeing the cache the previous one left,
      the audits are checked, and the new fingerprint is stored. */
  function Memoised(models: map<string, Model>, ghost rank: map<string, nat>, h: Hasher, known: set<string>,
                    entries: map<string, Fingerprint>, m: Model)
    : (Result<Fingerprint, SnapshotError>, map<string, Fingerprint>)
    requires Ranked(models, rank) && RankedModel(models, rank, m)
    decreases rank[m.name], 1
  {
    if m.name in entries then (Success(entries[m.name]), entries)
    else
      var collected := MemoisedParents(models, rank, h, known, entries, m.dependsOn, rank[m.name]);
      if collected.0.Failure? then (Failure(collected.0.error), collected.1)
      else
        var unknown := FirstUnknownAudit(m.auditNames, known);
        if unknown.Some? then (Failure(UnknownAudit(unknown.value)), collected.1)
        else
          var parents := collected.0.value;
          var fingerprint := Fingerprint(m.dataHash, m.metadataHash, ParentDataHash(h, parents), ParentMetadataHash(h, parents));
          (Success(fingerprint), collected.1[m.name := fingerprint])
  }

  /** The parent list comprehension of `fingerprint_from_model` over `deps`,
      starting from the cache `entries`; it stops at the first failure. */
  function MemoisedParents(models: map<string, Model>, ghost rank: map<string, nat>, h: Hasher, known: set<string>,
                           entries: map<string, Fingerprint>, deps: seq<string>, ghost bound: nat)
    : (Result<seq<Fingerprint>, SnapshotError>, map<string, Fingerprint>)
    requires Ranked(models, rank)
    requires forall d | d in deps && d in models :: rank[d] < bound
    decreases bound, 0, |deps|
  {
    if deps == [] then (Success([]), entries)
    else if deps[0] !in models then MemoisedParents(models, rank, h, known, entries, deps[1..], bound)
    else
      var first := Memoised(models, rank, h, known, entries, models[deps[0]]);
      if first.0.Failure? then (Failure(first.0.error), first.1)
      else Prepend([first.0.value], MemoisedParents(models, rank, h, known, first.1, deps[1..], bound))
  }

  /** The new entries of `after` are for `name`, if given, or for models ranked below `bound`. */
  ghost predicate AddsOnly(models: map<string, Model>, rank: map<string, nat>,
                           before: map<string, Fingerprint>, after: map<string, Fingerprint>,
                           name: Option<string>, bound: nat)
  {
    forall n | n in after && n !in before :: Some(n) == name || (n in models && n in rank && rank[n] < bound)
  }

  /** The cache only grows: no entry is overwritten, and the only entries
      added are for `m` and for models ranked below it. */
  lemma {:induction false} MemoisedGrows(models: map<string, Model>, rank: map<string, nat>, h: Hasher, known: set<string>,
                                         entries: map<string, Fingerprint>, m: Model)
    requires Ranked(models, rank) && RankedModel(models, rank, m)
    ensures Grows(entries, Memoised(models, rank, h, known, entries, m).1)
    ensures AddsOnly(models, rank, entries, Memoised(models, rank, h, known, entries, m).1, Some(m.name), rank[m.name])
    decreases rank[m.name], 1
  {
    if m.name !in entries {
      MemoisedParentsGrows(models, rank, h, known, entries, m.dependsOn, rank[m.name]);
    }
  }

  lemma {:induction false} MemoisedParentsGrows(models: map<string, Model>, rank: map<string, nat>, h: Hasher, known: set<string>,
                                                entries: map<string, Fingerprint>, deps: seq<string>, bound: nat)
    requires Ranked(models, rank)
    requires forall d | d in deps && d in models :: rank[d] < bound
    ensures Grows(entries, MemoisedParents(models, rank, h, known, entries, deps, bound).1)
    ensures AddsOnly(models, rank, entries, MemoisedParents(models, rank, h, known, entries, deps, bound).1, None, bound)
    decreases bound, 0, |deps|
  {
    if deps != [] {
      if deps[0] !in models {
        MemoisedParentsGrows(models, rank, h, known, entries, deps[1..], bound);
      } else {
        var first := Memoised(models, rank, h, known, entries, models[deps[0]]);
        MemoisedGrows(models, rank, h, known, entries, models[deps[0]]);
        if first.0.Success? {
          MemoisedParentsGrows(models, rank, h, known, first.1, deps[1..], bound);
        }
      }
    }
  }

  /** The parent fingerprints of `[d] + rest`. */
  lemma ParentFingerprintsCons(models: map<string, Model>, rank: map<string, nat>, h: Hasher,
                               d: string, rest: seq<string>, bound: nat)
    requires Ranked(models, rank)
    requires forall x | x in [d] + rest && x in models :: rank[x] < bound
    ensures ParentFingerprints(models, rank, h, [d] + rest, bound)
         == ParentOf(models, rank, h, d) + ParentFingerprints(models, rank, h, rest, bound)
  {
    var f := (x: string) => ParentOf(models, rank, h, x);
    ParentFingerprintsFlatMap(models, rank, h, [d] + rest, bound);
    ParentFingerprintsFlatMap(models, rank, h, rest, bound);
    FlatMapAppend(f, [d], rest);
    FlatMapSingle(f, d);
  }

  /** With a sound cache the result is the fingerprint an empty cache would
      give, and the cache stays sound. */
  lemma {:induction false} MemoisedSound(models: map<string, Model>, rank: map<string, nat>, h: Hasher, known: set<string>,
                                         entries: map<string, Fingerprint>, m: Model)
    requires Ranked(models, rank) && RankedModel(models, rank, m)
    requires CacheSound(models, rank, h, entries) && Consistent(models, m)
    ensures Memoised(models, rank, h, known, entries, m).0.Success? && (m.name in models || m.name !in entries) ==>
              Memoised(models, rank, h, known, entries, m).0.value == FingerprintOf(models, rank, h, m)
    ensures CacheSound(models, rank, h, Memoised(models, rank, h, known, entries, m).1)
    decreases rank[m.name], 1
  {
    if m.name !in entries {
      var collected := MemoisedParents(models, rank, h, known, entries, m.dependsOn, rank[m.name]);
      MemoisedParentsSound(models, rank, h, known, entries, m.dependsOn, rank[m.name]);
      MemoisedParentsGrows(models, rank, h, known, entries, m.dependsOn, rank[m.name]);
      if collected.0.Success? && FirstUnknownAudit(m.auditNames, known).None? {
        var fingerprint := Memoised(models, rank, h, known, entries, m).0.value;
        assert fingerprint == FingerprintOf(models, rank, h, m);
        var after := collected.1[m.name := fingerprint];
        forall n | n in after && n in models
          ensures after[n] == FingerprintOf(models, rank, h, models[n])
        {
          if n != m.name {
            assert after[n] == collected.1[n];
          }
        }
      }
    }
  }

  lemma {:induction false} MemoisedParentsSound(models: map<string, Model>, rank: map<string, nat>, h: Hasher, known: set<string>,
                                                entries: map<string, Fingerprint>, deps: seq<string>, bound: nat)
    requires Ranked(models, rank)
    requires forall d | d in deps && d in models :: rank[d] < bound
    requires CacheSound(models, rank, h, entries)
    ensures MemoisedParents(models, rank, h, known, entries, deps, bound).0.Success? ==>
              MemoisedParents(models, rank, h, known, entries, deps, bound).0.value
                == ParentFingerprints(models, rank, h, deps, bound)
    ensures CacheSound(models, rank, h, MemoisedParents(models, rank, h, known, entries, deps, bound).1)
    decreases bound, 0, |deps|
  {
    if deps != [] {
      var d, rest := deps[0], deps[1..];
      assert deps == [d] + rest;
      ParentFingerprintsCons(models, rank, h, d, rest, bound);
      if d !in models {
        MemoisedParentsSound(models, rank, h, known, entries, rest, bound);
      } else {
        var first := Memoised(models, rank, h, known, entries, models[d]);
        MemoisedSound(models, rank, h, known, entries, models[d]);
        if first.0.Success? {
          assert first.0.value == FingerprintOf(models, rank, h, models[d]);
          assert ParentOf(models, rank, h, d) == [first.0.value];
          MemoisedParentsSound(models, rank, h, known, first.1, rest, bound);
        }
      }
    }
  }

  /** A closed cache stays closed, and a successful call leaves the parents cached. */
  lemma {:induction false} MemoisedClosed(models: map<string, Model>, rank: map<string, nat>, h: Hasher, known: set<string>,
                                          entries: map<string, Fingerprint>, m: Model)
    requires Ranked(models, rank) && RankedModel(models, rank, m)
    requires CacheClosed(models, entries) && Consistent(models, m)
    ensures CacheClosed(models, Memoised(models, rank, h, known, entries, m).1)
    decreases rank[m.name], 1
  {
    if m.name !in entries {
      var collected := MemoisedParents(models, rank, h, known, entries, m.dependsOn, rank[m.name]);
      MemoisedParentsClosed(models, rank, h, known, entries, m.dependsOn, rank[m.name]);
    }
  }

  lemma {:induction false} MemoisedParentsClosed(models: map<string, Model>, rank: map<string, nat>, h: Hasher, known: set<string>,
                                                 entries: map<string, Fingerprint>, deps: seq<string>, bound: nat)
    requires Ranked(models, rank)
    requires forall d | d in deps && d in models :: rank[d] < bound
    requires CacheClosed(models, entries)
    ensures CacheClosed(models, MemoisedParents(models, rank, h, known, entries, deps, bound).1)
    ensures MemoisedParents(models, rank, h, known, entries, deps, bound).0.Success? ==>
              forall d | d in deps && d in models :: d in MemoisedParents(models, rank, h, known, entries, deps, bound).1
    decreases bound, 0, |deps|
  {
    if deps != [] {
      if deps[0] !in models {
        MemoisedParentsClosed(models, rank, h, known, entries, deps[1..], bound);
      } else {
        var first := Memoised(models, rank, h, known, entries, models[deps[0]]);
        MemoisedClosed(models, rank, h, known, entries, models[deps[0]]);
        if first.0.Success? {
          MemoisedCachesModel(models, rank, h, known, entries, models[deps[0]]);
          MemoisedParentsClosed(models, rank, h, known, first.1, deps[1..], bound);
          MemoisedParentsGrows(models, rank, h, known, first.1, deps[1..], bound);
        }
      }
    }
  }

  /** A successful call leaves the model's fingerprint in the cache. */
  lemma MemoisedCachesModel(models: map<string, Model>, rank: map<string, nat>, h: Hasher, known: set<string>,
                            entries: map<string, Fingerprint>, m: Model)
    requires Ranked(models, rank) && RankedModel(models, rank, m)
    ensures Memoised(models, rank, h, known, entries, m).0.Success? ==>
              m.name in Memoised(models, rank, h, known, entries, m).1
              && Memoised(models, rank, h, known, entries, m).1[m.name] == Memoised(models, rank, h, known, entries, m).0.value
  {
  }

  /** A call on a cached model returns the cached fingerprint and changes nothing. */
  lemma MemoisedCached(models: map<string, Model>, rank: map<string, nat>, h: Hasher, known: set<string>,
                       entries: map<string, Fingerprint>, m: Model)
    requires Ranked(models, rank) && RankedModel(models, rank, m)
    requires m.name in entries
    ensures Memoised(models, rank, h, known, entries, m) == (Success(entries[m.name]), entries)
  {
  }

  /** After a successful call that was not answered from a closed cache,
      every model `m` reaches is cached. */
  lemma MemoisedCachesReachable(models: map<string, Model>, rank: map<string, nat>, h: Hasher, known: set<string>,
                                entries: map<string, Fingerprint>, m: Model, chain: seq<string>, d: string)
    requires Ranked(models, rank) && RankedModel(models, rank, m)
    requires CacheClosed(models, entries) && m.name !in entries
    requires Memoised(models, rank, h, known, entries, m).0.Success?
    requires Reaches(models, m.dependsOn, chain, d, false)
    ensures d in Memoised(models, rank, h, known, entries, m).1
  {
    var collected := MemoisedParents(models, rank, h, known, entries, m.dependsOn, rank[m.name]);
    MemoisedParentsClosed(models, rank, h, known, entries, m.dependsOn, rank[m.name]);
    ClosedHoldsReachable(models, collected.1, m.dependsOn, chain, d);
  }

  /** The only failure is an unknown audit, and it cannot happen when every
      audit `m` reaches is known. */
  lemma {:induction false} MemoisedAudits(models: map<string, Model>, rank: map<string, nat>, h: Hasher, known: set<string>,
                                          entries: map<string, Fingerprint>, m: Model)
    requires Ranked(models, rank) && RankedModel(models, rank, m)
    ensures AuditsKnown(models, rank, known, m) ==> Memoised(models, rank, h, known, entries, m).0.Success?
    ensures Memoised(models, rank, h, known, entries, m).0.Failure? ==>
              Memoised(models, rank, h, known, entries, m).0.error.UnknownAudit?
              && Memoised(models, rank, h, known, entries, m).0.error.auditName !in known
    decreases rank[m.name], 1
  {
    if m.name !in entries {
      MemoisedParentsAudits(models, rank, h, known, entries, m.dependsOn, rank[m.name]);
    }
  }

  lemma {:induction false} MemoisedParentsAudits(models: map<string, Model>, rank: map<string, nat>, h: Hasher, known: set<string>,
                                                 entries: map<string, Fingerprint>, deps: seq<string>, bound: nat)
    requires Ranked(models, rank)
    requires forall d | d in deps && d in models :: rank[d] < bound
    ensures (forall d | d in deps && d in models :: AuditsKnown(models, rank, known, models[d])) ==>
              MemoisedParents(models, rank, h, known, entries, deps, bound).0.Success?
    ensures MemoisedParents(models, rank, h, known, entries, deps, bound).0.Failure? ==>
              MemoisedParents(models, rank, h, known, entries, deps, bound).0.error.UnknownAudit?
              && MemoisedParents(models, rank, h, known, entries, deps, bound).0.error.auditName !in known
    decreases bound, 0, |deps|
  {
    if deps != [] {
      if deps[0] !in models {
        MemoisedParentsAudits(models, rank, h, known, entries, deps[1..], bound);
      } else {
        var first := Memoised(models, rank, h, known, entries, models[deps[0]]);
        MemoisedAudits(models, rank, h, known, entries, models[deps[0]]);
        if first.0.Success? {
          MemoisedParentsAudits(models, rank, h, known, first.1, deps[1..], bound);
        }
      }
    }
  }

  /** `fingerprint_from_model`: the model's fingerprint, computed from those
      of its dependencies among `models` and memoised in `cache`. `known`
      holds the audit names `_model_metadata_hash` accepts. */
  method FingerprintFromModel(m: Model, models: map<string, Model>, known: set<string>,
                              cache: FingerprintCache, h: Hasher, ghost rank: map<string, nat>)
    returns (r: Result<Fingerprint, SnapshotError>)
    requires Ranked(models, rank) && RankedModel(models, rank, m)
    modifies cache
    decreases rank[m.name], 1
    ensures (r, cache.entries) == Memoised(models, rank, h, known, old(cache.entries), m)
  {
    if m.name in cache.entries {
      return Success(cache.entries[m.name]);
    }
    ghost var start := cache.entries;
    var parents: seq<Fingerprint> := [];
    var i := 0;
    assert m.dependsOn[i..] == m.dependsOn;
    PrependNothing(MemoisedParents(models, rank, h, known, start, m.dependsOn, rank[m.name]));
    while i < |m.dependsOn|
      invariant 0 <= i <= |m.dependsOn|
      invariant MemoisedParents(models, rank, h, known, start, m.dependsOn, rank[m.name])
             == Prepend(parents, MemoisedParents(models, rank, h, known, cache.entries, m.dependsOn[i..], rank[m.name]))
    {
      var table := m.dependsOn[i];
      ghost var before := cache.entries;
      assert m.dependsOn[i..][0] == table && m.dependsOn[i..][1..] == m.dependsOn[i + 1..];
      if table in models {
        var p := FingerprintFromModel(models[table], models, known, cache, h, rank);
        if p.Failure? {
          assert MemoisedParents(models, rank, h, known, before, m.dependsOn[i..], rank[m.name]) == (Failure(p.error), cache.entries);
          return Failure(p.error);
        }
        PrependTwice(parents, [p.value], MemoisedParents(models, rank, h, known, cache.entries, m.dependsOn[i + 1..], rank[m.name]));
        parents := parents + [p.value];
      }
      i := i + 1;
    }
    assert m.dependsOn[i..] == [];
    assert parents + [] == parents;
    var unknown := FirstUnknownAudit(m.auditNames, known);
    if unknown.Some? {
      return Failure(UnknownAudit(unknown.value));
    }
    var fingerprint := Fingerprint(m.dataHash, m.metadataHash, ParentDataHash(h, parents), ParentMetadataHash(h, parents));
    cache.entries := cache.entries[m.name := fingerprint];
    return Success(fingerprint);
  }
}
