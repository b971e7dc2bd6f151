/**
  The epoch reconciler (cmd/crunch/main.go:28-36, 65-112): a walk over the
  versions in ascending order that groups versions by a digest of their
  `setParameter` help text and records, for each digest, the epoch it
  first appeared in.

  Each snapshot first yields its outcome (`Extraction`): skipped, or a
  version with its digest and parameters. The walk is a left fold of
  `Step` over those outcomes. `Describes` gives an independent,
  declarative account of the state the fold reaches, in terms of the list
  of versions whose parameters could be extracted; `WalkDescribes` proves
  the two agree.
 */
module Reconcile {
  import opened Wrappers
  import opened Order
  import opened Diff
  import opened Extract
  import opened Corpus

  /** `MongoMatch`: one group of versions sharing a help-text digest. */
  datatype Epoch = Epoch(
    minVersion: string,
    maxVersion: string,
    allVersions: seq<string>,
    previousVersion: string,
    paramsAdded: seq<string>,
    paramsRemoved: seq<string>,
    count: int)

  /**
    The accumulator of the walk: the last successfully processed version
    and its parameters, the epochs by digest, and the digests in the order
    they were first seen.
   */
  datatype State = State(
    lastParams: seq<string>,
    lastVersion: string,
    matches: map<string, Epoch>,
    matchOrder: seq<string>)

  const Initial := State([], "", map[], [])

  /** A version whose parameters were extracted, with the digest of its help text. */
  datatype Extracted = Extracted(version: string, key: string, params: seq<string>)

  /**
    What one snapshot contributes: nothing when it has no `setParameter`
    command or its help has neither marker, otherwise its version, the
    digest of the raw help text and the extracted parameters.
   */
  function Extraction(digest: string -> string, s: Snapshot): (r: Option<Extracted>)
    ensures r.None? <==> SetParameter !in s.commands || ExtractParams(s.commands[SetParameter].help).None?
    ensures r.Some? ==> r.value.version == s.version
    ensures r.Some? ==>
      && SetParameter in s.commands
      && r.value.key == digest(s.commands[SetParameter].help)
      && r.value.params == ExtractParams(s.commands[SetParameter].help).value
  {
    if SetParameter !in s.commands then None
    else
      var help := s.commands[SetParameter].help;
      match ExtractParams(help)
      case None => None
      case Some(params) => Some(Extracted(s.version, digest(help), params))
  }

  /** The outcome of every snapshot, in walk order. */
  function Outcomes(digest: string -> string, snaps: seq<Snapshot>): (r: seq<Option<Extracted>>)
    ensures |r| == |snaps|
    decreases |snaps|
  {
    if |snaps| == 0 then []
    else Outcomes(digest, snaps[..|snaps| - 1]) + [Extraction(digest, snaps[|snaps| - 1])]
  }

  /** The outcome at each position is that of the snapshot at that position. */
  lemma {:induction false} OutcomeAt(digest: string -> string, snaps: seq<Snapshot>, i: nat)
    requires i < |snaps|
    ensures Outcomes(digest, snaps)[i] == Extraction(digest, snaps[i])
    decreases |snaps|
  {
    if i < |snaps| - 1 {
      OutcomeAt(digest, snaps[..|snaps| - 1], i);
    }
  }

  /** The epoch a first-seen digest opens, diffed against the state's last parameters. */
  function NewEpoch(st: State, x: Extracted): (r: Epoch)
    ensures r.minVersion == x.version && r.maxVersion == x.version && r.allVersions == [x.version]
    ensures r.previousVersion == st.lastVersion && r.count == |x.params|
    ensures forall p :: p in r.paramsAdded <==> p in x.params && p !in st.lastParams
    ensures forall p :: p in r.paramsRemoved <==> p in st.lastParams && p !in x.params
  {
    var d := DiffParams(st.lastParams, x.params);
    Epoch(x.version, x.version, [x.version], st.lastVersion, d.added, d.removed, |x.params|)
  }

  /**
    One iteration of the loop, given the version's outcome. A skipped
    version leaves the state as it is. Otherwise a new digest opens an
    epoch and joins `matchOrder`; a digest seen before only extends its
    epoch to this version; in both cases this version becomes the
    predecessor of the next.
   */
  function Step(st: State, o: Option<Extracted>): (r: State)
    ensures o.None? ==> r == st
    ensures o.Some? ==>
      && r.lastParams == o.value.params
      && r.lastVersion == o.value.version
      && r.matches.Keys == st.matches.Keys + {o.value.key}
      && (forall k :: k in st.matches && k != o.value.key ==> r.matches[k] == st.matches[k])
    ensures o.Some? && o.value.key !in st.matches ==>
      var x := o.value;
      var d := DiffParams(st.lastParams, x.params);
      && r.matchOrder == st.matchOrder + [x.key]
      && r.matches[x.key].minVersion == x.version
      && r.matches[x.key].maxVersion == x.version
      && r.matches[x.key].allVersions == [x.version]
      && r.matches[x.key].previousVersion == st.lastVersion
      && r.matches[x.key].paramsAdded == d.added
      && r.matches[x.key].paramsRemoved == d.removed
      && r.matches[x.key].count == |x.params|
    ensures o.Some? && o.value.key in st.matches ==>
      var x := o.value;
      var e := st.matches[x.key];
      && r.matchOrder == st.matchOrder
      && r.matches[x.key] == e.(allVersions := e.allVersions + [x.version], maxVersion := x.version)
  {
    match o
    case None => st
    case Some(x) =>
      if x.key !in st.matches then
        State(x.params, x.version, st.matches[x.key := NewEpoch(st, x)], st.matchOrder + [x.key])
      else
        var e := st.matches[x.key];
        var e' := e.(allVersions := e.allVersions + [x.version], maxVersion := x.version);
        State(x.params, x.version, st.matches[x.key := e'], st.matchOrder)
  }

  /** The loop over the outcomes `os`, in order, starting from `st`. */
  function Fold(st: State, os: seq<Option<Extracted>>): (r: State)
    ensures st.matchOrder <= r.matchOrder
    ensures st.matches.Keys <= r.matches.Keys
    ensures forall i :: 0 <= i < |os| && os[i].Some? ==> os[i].value.key in r.matches
    decreases |os|
  {
    if |os| == 0 then st
    else Step(Fold(st, os[..|os| - 1]), os[|os| - 1])
  }

  /** Folding one more outcome is one more `Step`. */
  lemma FoldSnoc(st: State, os: seq<Option<Extracted>>, o: Option<Extracted>)
    ensures Fold(st, os + [o]) == Step(Fold(st, os), o)
  {
    assert (os + [o])[..|os|] == os;
  }

  /** A version that is skipped changes nothing, wherever it occurs in the walk. */
  lemma {:induction false} SkippedVersionChangesNothing(
    st: State, before: seq<Option<Extracted>>, after: seq<Option<Extracted>>)
    ensures Fold(st, before + [None] + after) == Fold(st, before + after)
    decreases |after|
  {
    if |after| == 0 {
      assert before + [None] + after == before + [None];
      assert before + after == before;
      FoldSnoc(st, before, None);
    } else {
      var init := after[..|after| - 1];
      var last := after[|after| - 1];
      assert before + [None] + after == (before + [None] + init) + [last];
      assert before + after == (before + init) + [last];
      FoldSnoc(st, before + [None] + init, last);
      FoldSnoc(st, before + init, last);
      SkippedVersionChangesNothing(st, before, init);
    }
  }

  /** The outcomes of two stretches of snapshots, one after the other. */
  lemma {:induction false} OutcomesAppend(digest: string -> string, a: seq<Snapshot>, b: seq<Snapshot>)
    ensures Outcomes(digest, a + b) == Outcomes(digest, a) + Outcomes(digest, b)
    decreases |b|
  {
    if |b| > 0 {
      var init := b[..|b| - 1];
      assert (a + b)[..|a + b| - 1] == a + init;
      OutcomesAppend(digest, a, init);
    } else {
      assert a + b == a;
    }
  }

  /** A snapshot the walk skips changes nothing, wherever it occurs among the snapshots. */
  lemma SkippedSnapshotChangesNothing(
    digest: string -> string, before: seq<Snapshot>, s: Snapshot, after: seq<Snapshot>)
    requires Extraction(digest, s).None?
    ensures Fold(Initial, Outcomes(digest, before + [s] + after)) == Fold(Initial, Outcomes(digest, before + after))
  {
    OutcomesAppend(digest, before + [s], after);
    OutcomesAppend(digest, before, [s]);
    OutcomesAppend(digest, before, after);
    assert Outcomes(digest, [s]) == [None] by {
      assert [s][..0] == [];
    }
    SkippedVersionChangesNothing(Initial, Outcomes(digest, before), Outcomes(digest, after));
  }

  // ---------------------------------------------------------------------
  // The declarative account of the walk's result.
  // ---------------------------------------------------------------------

  /** The versions whose parameters were extracted, in walk order. */
  function Processed(os: seq<Option<Extracted>>): seq<Extracted>
    decreases |os|
  {
    if |os| == 0 then []
    else
      var rest := Processed(os[..|os| - 1]);
      match os[|os| - 1]
      case None => rest
      case Some(x) => rest + [x]
  }

  lemma ProcessedSnoc(os: seq<Option<Extracted>>, o: Option<Extracted>)
    ensures Processed(os + [o]) == Processed(os) + (if o.Some? then [o.value] else [])
  {
    assert (os + [o])[..|os|] == os;
  }

  /** The digests of `xs`, in order. */
  function KeysOf(xs: seq<Extracted>): (r: seq<string>)
    ensures |r| == |xs|
    ensures forall i :: 0 <= i < |xs| ==> r[i] == xs[i].key
  {
    seq(|xs|, i requires 0 <= i < |xs| => xs[i].key)
  }

  /** The position of the first occurrence of `k` in `ks`. */
  function FirstIndex(ks: seq<string>, k: string): (r: nat)
    requires k in ks
    ensures r < |ks| && ks[r] == k
    ensures forall j :: 0 <= j < r ==> ks[j] != k
    decreases |ks|
  {
    if ks[0] == k then 0 else 1 + FirstIndex(ks[1..], k)
  }

  /** Each member of `ks` once, in the order of its first occurrence. */
  function FirstSeen(ks: seq<string>): (r: seq<string>)
    ensures forall k :: k in r <==> k in ks
    ensures forall i, j :: 0 <= i < j < |r| ==> r[i] != r[j]
    decreases |ks|
  {
    if |ks| == 0 then []
    else
      var init := ks[..|ks| - 1];
      var k := ks[|ks| - 1];
      var f := FirstSeen(init);
      assert ks == init + [k];
      if k in f then f else f + [k]
  }

  /** The versions in `xs` whose digest is `k`, in order. */
  function VersionsWithKey(xs: seq<Extracted>, k: string): (r: seq<string>)
    ensures |r| > 0 <==> k in KeysOf(xs)
    decreases |xs|
  {
    if |xs| == 0 then []
    else
      var init := xs[..|xs| - 1];
      assert KeysOf(xs) == KeysOf(init) + [xs[|xs| - 1].key];
      VersionsWithKey(init, k) + (if xs[|xs| - 1].key == k then [xs[|xs| - 1].version] else [])
  }

  /**
    The epoch of digest `k` as the processed versions determine it: opened
    by the first version with that digest and diffed against the version
    processed just before it (none for the very first), holding every
    version with that digest, in order.
   */
  function EpochOf(xs: seq<Extracted>, k: string): Epoch
    requires k in KeysOf(xs)
  {
    OpenedAt(xs, FirstIndex(KeysOf(xs), k), VersionsWithKey(xs, k))
  }

  /** The epoch opened by `xs[i]` and holding the versions `vs`. */
  function OpenedAt(xs: seq<Extracted>, i: nat, vs: seq<string>): Epoch
    requires i < |xs| && |vs| > 0
  {
    var prevVersion := if i == 0 then "" else xs[i - 1].version;
    var prevParams := if i == 0 then [] else xs[i - 1].params;
    var d := DiffParams(prevParams, xs[i].params);
    Epoch(xs[i].version, vs[|vs| - 1], vs, prevVersion, d.added, d.removed, |xs[i].params|)
  }

  /** `st` is the report of the processed versions `xs`. */
  ghost predicate Describes(st: State, xs: seq<Extracted>) {
    && st.lastVersion == (if |xs| == 0 then "" else xs[|xs| - 1].version)
    && st.lastParams == (if |xs| == 0 then [] else xs[|xs| - 1].params)
    && st.matchOrder == FirstSeen(KeysOf(xs))
    && (forall k :: k in st.matches <==> k in KeysOf(xs))
    && (forall k :: k in st.matches ==> st.matches[k] == EpochOf(xs, k))
  }

  lemma FirstIndexAppend(ks: seq<string>, x: string, k: string)
    requires k in ks + [x]
    ensures FirstIndex(ks + [x], k) == if k in ks then FirstIndex(ks, k) else |ks|
  {
    var r := FirstIndex(ks + [x], k);
    if k in ks {
      var q := FirstIndex(ks, k);
      assert (ks + [x])[q] == k;
      assert r <= q;
    } else {
      assert forall j :: 0 <= j < |ks| ==> ks[j] != k;
    }
  }

  lemma KeysOfSnoc(xs: seq<Extracted>, x: Extracted)
    ensures KeysOf(xs + [x]) == KeysOf(xs) + [x.key]
  {
  }

  lemma FirstSeenSnoc(ks: seq<string>, k: string)
    ensures FirstSeen(ks + [k]) == if k in ks then FirstSeen(ks) else FirstSeen(ks) + [k]
  {
    assert (ks + [k])[..|ks|] == ks;
  }

  lemma VersionsWithKeySnoc(xs: seq<Extracted>, x: Extracted, k: string)
    ensures VersionsWithKey(xs + [x], k) == VersionsWithKey(xs, k) + (if x.key == k then [x.version] else [])
  {
    assert (xs + [x])[..|xs|] == xs;
  }

  /** Later versions do not change how an earlier version opened its epoch. */
  lemma OpenedAtSnoc(xs: seq<Extracted>, x: Extracted, i: nat, vs: seq<string>)
    requires i < |xs| && |vs| > 0
    ensures OpenedAt(xs + [x], i, vs) == OpenedAt(xs, i, vs)
  {
    assert (xs + [x])[i] == xs[i];
    assert i > 0 ==> (xs + [x])[i - 1] == xs[i - 1];
  }

  /** One more version of the epoch extends its list and becomes its maximum. */
  lemma OpenedAtMore(xs: seq<Extracted>, i: nat, vs: seq<string>, v: string)
    requires i < |xs| && |vs| > 0
    ensures var e := OpenedAt(xs, i, vs);
      OpenedAt(xs, i, vs + [v]) == e.(allVersions := e.allVersions + [v], maxVersion := v)
  {
  }

  /** An epoch already open keeps its opening data; only its versions may grow. */
  lemma EpochOfSnocSeen(xs: seq<Extracted>, x: Extracted, k: string)
    requires k in KeysOf(xs)
    ensures k in KeysOf(xs + [x])
    ensures var e := EpochOf(xs, k);
      EpochOf(xs + [x], k) ==
        if x.key == k then e.(allVersions := e.allVersions + [x.version], maxVersion := x.version) else e
  {
    KeysOfSnoc(xs, x);
    FirstIndexAppend(KeysOf(xs), x.key, k);
    VersionsWithKeySnoc(xs, x, k);
    var i := FirstIndex(KeysOf(xs), k);
    var vs := VersionsWithKey(xs, k);
    OpenedAtSnoc(xs, x, i, vs);
    if x.key == k {
      OpenedAtSnoc(xs, x, i, vs + [x.version]);
      OpenedAtMore(xs, i, vs, x.version);
    }
  }

  /** A digest not seen before opens its epoch at `x`, diffed against the last version of `xs`. */
  lemma EpochOfSnocNew(xs: seq<Extracted>, x: Extracted)
    requires x.key !in KeysOf(xs)
    ensures x.key in KeysOf(xs + [x])
    ensures var d := DiffParams(if |xs| == 0 then [] else xs[|xs| - 1].params, x.params);
      EpochOf(xs + [x], x.key) ==
        Epoch(x.version, x.version, [x.version], if |xs| == 0 then "" else xs[|xs| - 1].version,
              d.added, d.removed, |x.params|)
  {
    KeysOfSnoc(xs, x);
    FirstIndexAppend(KeysOf(xs), x.key, x.key);
    VersionsWithKeySnoc(xs, x, x.key);
    assert VersionsWithKey(xs, x.key) == [];
    assert (xs + [x])[|xs|] == x;
  }

  /** Admitting one more processed version keeps the declarative account in step. */
  lemma DescribesStep(st: State, xs: seq<Extracted>, x: Extracted)
    requires Describes(st, xs)
    ensures Describes(Step(st, Some(x)), xs + [x])
  {
    var xs' := xs + [x];
    var r := Step(st, Some(x));
    KeysOfSnoc(xs, x);
    FirstSeenSnoc(KeysOf(xs), x.key);
    forall k | k in r.matches
      ensures r.matches[k] == EpochOf(xs', k)
    {
      if k in KeysOf(xs) {
        EpochOfSnocSeen(xs, x, k);
      } else {
        EpochOfSnocNew(xs, x);
      }
    }
  }

  /**
    The loop from the initial state reaches exactly the report the
    declarative account prescribes for the versions it could process.
   */
  lemma {:induction false} WalkDescribes(os: seq<Option<Extracted>>)
    ensures Describes(Fold(Initial, os), Processed(os))
    decreases |os|
  {
    if |os| > 0 {
      var init := os[..|os| - 1];
      WalkDescribes(init);
      if os[|os| - 1].Some? {
        DescribesStep(Fold(Initial, init), Processed(init), os[|os| - 1].value);
      }
    }
  }

  /** The outcome at position `i`, when not a skip, is among the processed versions. */
  lemma {:induction false} ProcessedHas(os: seq<Option<Extracted>>, i: nat)
    requires i < |os| && os[i].Some?
    ensures os[i].value in Processed(os)
    decreases |os|
  {
    var init := os[..|os| - 1];
    if i < |os| - 1 {
      ProcessedHas(init, i);
    }
  }

  /** A processed version is listed among the versions of its own digest. */
  lemma {:induction false} VersionsWithKeyHas(xs: seq<Extracted>, x: Extracted)
    requires x in xs
    ensures x.version in VersionsWithKey(xs, x.key)
    decreases |xs|
  {
    var init := xs[..|xs| - 1];
    if x != xs[|xs| - 1] {
      assert xs == init + [xs[|xs| - 1]];
      VersionsWithKeyHas(init, x);
    }
  }

  /**
    Every processed version ends up in the epoch of its own digest: the
    map holds that digest, and its epoch lists the version.
   */
  lemma ProcessedInItsEpoch(os: seq<Option<Extracted>>, i: nat)
    requires i < |os| && os[i].Some?
    ensures var st := Fold(Initial, os);
      && os[i].value.key in st.matches
      && os[i].value.version in st.matches[os[i].value.key].allVersions
  {
    var x := os[i].value;
    var xs := Processed(os);
    WalkDescribes(os);
    ProcessedHas(os, i);
    var m :| 0 <= m < |xs| && xs[m] == x;
    assert KeysOf(xs)[m] == x.key;
    VersionsWithKeyHas(xs, x);
  }

  /**
    Two processed versions whose `setParameter` help texts are identical
    share one epoch: the one keyed by the digest of that text, which lists
    both versions.
   */
  lemma SameHelpSameEpoch(digest: string -> string, snaps: seq<Snapshot>, i: nat, j: nat)
    requires i < |snaps| && j < |snaps|
    requires SetParameter in snaps[i].commands && SetParameter in snaps[j].commands
    requires snaps[i].commands[SetParameter].help == snaps[j].commands[SetParameter].help
    requires ExtractParams(snaps[i].commands[SetParameter].help).Some?
    ensures digest(snaps[i].commands[SetParameter].help) in Fold(Initial, Outcomes(digest, snaps)).matches
    ensures var e := Fold(Initial, Outcomes(digest, snaps)).matches[digest(snaps[i].commands[SetParameter].help)];
      snaps[i].version in e.allVersions && snaps[j].version in e.allVersions
  {
    var os := Outcomes(digest, snaps);
    var help := snaps[i].commands[SetParameter].help;
    OutcomeAt(digest, snaps, i);
    OutcomeAt(digest, snaps, j);
    assert os[i] == Some(Extracted(snaps[i].version, digest(help), ExtractParams(help).value));
    assert os[j] == Some(Extracted(snaps[j].version, digest(help), ExtractParams(help).value));
    ProcessedInItsEpoch(os, i);
    ProcessedInItsEpoch(os, j);
  }

  // ---------------------------------------------------------------------
  // Consequences for the report.
  // ---------------------------------------------------------------------

  /** The versions of `xs`, in order. */
  function XVersions(xs: seq<Extracted>): (r: seq<string>)
    ensures |r| == |xs|
    ensures forall i :: 0 <= i < |xs| ==> r[i] == xs[i].version
    decreases |xs|
  {
    if |xs| == 0 then []
    else XVersions(xs[..|xs| - 1]) + [xs[|xs| - 1].version]
  }

  /** `FirstSeen` lists the members of `ks` by increasing first position. */
  lemma {:induction false} FirstSeenOrdered(ks: seq<string>)
    ensures var f := FirstSeen(ks);
      forall i, j :: 0 <= i < j < |f| ==> FirstIndex(ks, f[i]) < FirstIndex(ks, f[j])
    decreases |ks|
  {
    if |ks| > 0 {
      var init := ks[..|ks| - 1];
      var k := ks[|ks| - 1];
      assert ks == init + [k];
      FirstSeenOrdered(init);
      FirstSeenSnoc(init, k);
      var f := FirstSeen(ks);
      forall i, j | 0 <= i < j < |f|
        ensures FirstIndex(ks, f[i]) < FirstIndex(ks, f[j])
      {
        FirstIndexAppend(init, k, f[i]);
        FirstIndexAppend(init, k, f[j]);
      }
    }
  }

  /**
    `matchOrder` lists every digest of the report exactly once, in the
    order in which the walk first met it.
   */
  lemma MatchOrderIsFirstSeen(os: seq<Option<Extracted>>)
    ensures var st := Fold(Initial, os);
      var ks := KeysOf(Processed(os));
      && (forall k :: k in st.matchOrder <==> k in ks)
      && (forall k :: k in st.matches <==> k in ks)
      && (forall i, j :: 0 <= i < j < |st.matchOrder| ==> st.matchOrder[i] != st.matchOrder[j])
      && (forall i, j :: 0 <= i < j < |st.matchOrder| ==>
            FirstIndex(ks, st.matchOrder[i]) < FirstIndex(ks, st.matchOrder[j]))
  {
    var st := Fold(Initial, os);
    var ks := KeysOf(Processed(os));
    WalkDescribes(os);
    assert st.matchOrder == FirstSeen(ks);
    assert forall k :: k in st.matches <==> k in ks;
    FirstSeenOrdered(ks);
  }

  lemma XVersionsSnoc(xs: seq<Extracted>, x: Extracted)
    ensures XVersions(xs + [x]) == XVersions(xs) + [x.version]
  {
    assert (xs + [x])[..|xs|] == xs;
  }

  /** Every outcome that is not a skip carries the version of its snapshot. */
  lemma {:induction false} OutcomeVersions(digest: string -> string, snaps: seq<Snapshot>)
    ensures var os := Outcomes(digest, snaps);
      forall i :: 0 <= i < |os| && os[i].Some? ==> os[i].value.version == VersionsOf(snaps)[i]
    decreases |snaps|
  {
    if |snaps| > 0 {
      var init := snaps[..|snaps| - 1];
      OutcomeVersions(digest, init);
      assert VersionsOf(snaps) == VersionsOf(init) + [snaps[|snaps| - 1].version];
    }
  }

  /**
    When outcomes sit at the positions of strictly ascending versions,
    the processed versions are a strictly ascending selection of them.
   */
  lemma {:induction false} ProcessedAscending(os: seq<Option<Extracted>>, vs: seq<string>)
    requires |os| == |vs| && StrictlySorted(vs)
    requires forall i :: 0 <= i < |os| && os[i].Some? ==> os[i].value.version == vs[i]
    ensures StrictlySorted(XVersions(Processed(os)))
    ensures forall v :: v in XVersions(Processed(os)) ==> v in vs
    decreases |os|
  {
    if |os| > 0 {
      var n := |os| - 1;
      var init := os[..n];
      assert os == init + [os[n]];
      assert vs == vs[..n] + [vs[n]];
      SortedInitBelowLast(vs[..n], vs[n]);
      ProcessedAscending(init, vs[..n]);
      ProcessedSnoc(init, os[n]);
      var xs := Processed(init);
      assert forall v :: v in vs[..n] ==> v in vs;
      if os[n].Some? {
        XVersionsSnoc(xs, os[n].value);
        SortedSnoc(XVersions(xs), vs[n]);
      }
    }
  }

  /** The processed versions inherit the walk's strictly ascending order. */
  lemma ExtractedAscending(digest: string -> string, snaps: seq<Snapshot>)
    requires StrictlySorted(VersionsOf(snaps))
    ensures StrictlySorted(XVersions(Processed(Outcomes(digest, snaps))))
    ensures forall v :: v in XVersions(Processed(Outcomes(digest, snaps))) ==> v in VersionsOf(snaps)
  {
    OutcomeVersions(digest, snaps);
    ProcessedAscending(Outcomes(digest, snaps), VersionsOf(snaps));
  }

  /** The versions of one digest are ascending and start at the epoch's opener. */
  lemma {:induction false} VersionsWithKeyAscending(xs: seq<Extracted>, k: string)
    requires StrictlySorted(XVersions(xs))
    ensures StrictlySorted(VersionsWithKey(xs, k))
    ensures forall v :: v in VersionsWithKey(xs, k) ==> v in XVersions(xs)
    ensures k in KeysOf(xs) ==> VersionsWithKey(xs, k)[0] == xs[FirstIndex(KeysOf(xs), k)].version
    decreases |xs|
  {
    if |xs| > 0 {
      var init := xs[..|xs| - 1];
      var x := xs[|xs| - 1];
      assert xs == init + [x];
      XVersionsSnoc(init, x);
      SortedInitBelowLast(XVersions(init), x.version);
      VersionsWithKeyAscending(init, k);
      VersionsWithKeySnoc(init, x, k);
      KeysOfSnoc(init, x);
      if x.key == k {
        SortedSnoc(VersionsWithKey(init, k), x.version);
      }
      if k in KeysOf(xs) {
        FirstIndexAppend(KeysOf(init), x.key, k);
      }
    }
  }

  /** The shape of an epoch taken from an ascending list of processed versions. */
  predicate AscendingEpoch(e: Epoch) {
    && |e.allVersions| > 0
    && StrictlySorted(e.allVersions)
    && e.minVersion == e.allVersions[0]
    && e.maxVersion == e.allVersions[|e.allVersions| - 1]
    && (e.previousVersion == "" || Less(e.previousVersion, e.minVersion))
  }

  lemma EpochOfAscending(xs: seq<Extracted>, k: string)
    requires StrictlySorted(XVersions(xs))
    requires k in KeysOf(xs)
    ensures AscendingEpoch(EpochOf(xs, k))
  {
    VersionsWithKeyAscending(xs, k);
    var i := FirstIndex(KeysOf(xs), k);
    if i > 0 {
      assert Less(XVersions(xs)[i - 1], XVersions(xs)[i]);
    }
  }

  /**
    When the processed versions are strictly ascending, every epoch's
    version list is non-empty and strictly ascending, starts at
    `minVersion`, ends at `maxVersion`, and the epoch's predecessor (when
    there is one) comes strictly before its first version.
   */
  lemma EpochVersionsAscending(os: seq<Option<Extracted>>)
    requires StrictlySorted(XVersions(Processed(os)))
    ensures var st := Fold(Initial, os);
      forall k :: k in st.matches ==> AscendingEpoch(st.matches[k])
  {
    var st := Fold(Initial, os);
    var xs := Processed(os);
    WalkDescribes(os);
    forall k | k in st.matches
      ensures AscendingEpoch(st.matches[k])
    {
      EpochOfAscending(xs, k);
    }
  }

  /** Walking snapshots in strictly ascending version order gives only ascending epochs. */
  lemma WalkAscending(digest: string -> string, snaps: seq<Snapshot>)
    requires StrictlySorted(VersionsOf(snaps))
    ensures var st := Fold(Initial, Outcomes(digest, snaps));
      forall k :: k in st.matches ==> AscendingEpoch(st.matches[k])
  {
    ExtractedAscending(digest, snaps);
    EpochVersionsAscending(Outcomes(digest, snaps));
  }

  /**
    The whole reconciliation over a corpus root's entries: the loop over
    the outcomes of the corpus versions, in ascending order, from the
    initial state.
   */
  function Reconciled(digest: string -> string, entries: seq<DirEntry>): (r: State)
    ensures WellShaped(r)
  {
    var snaps := Snapshots(entries);
    ExtractedAscending(digest, snaps);
    var os := Outcomes(digest, snaps);
    FoldWellShaped(os);
    Fold(Initial, os)
  }

  /**
    The shape of a finished report: `matchOrder` lists each key of the map
    exactly once, and every epoch has the ascending shape.
   */
  predicate WellShaped(st: State) {
    && (forall k :: k in st.matchOrder ==> k in st.matches)
    && (forall k :: k in st.matches ==> k in st.matchOrder)
    && (forall i, j :: 0 <= i < j < |st.matchOrder| ==> st.matchOrder[i] != st.matchOrder[j])
    && (forall k :: k in st.matches ==> AscendingEpoch(st.matches[k]))
  }

  /** A walk whose processed versions ascend ends in a well-shaped report. */
  lemma FoldWellShaped(os: seq<Option<Extracted>>)
    requires StrictlySorted(XVersions(Processed(os)))
    ensures WellShaped(Fold(Initial, os))
  {
    MatchOrderIsFirstSeen(os);
    EpochVersionsAscending(os);
  }

  /**
    The report of a whole corpus (the state `Reconciled` returns) is the
    declarative account of the corpus versions that could be processed.
   */
  lemma ReconciledDescribes(digest: string -> string, entries: seq<DirEntry>)
    ensures var os := Outcomes(digest, Snapshots(entries));
      Describes(Fold(Initial, os), Processed(os))
  {
    WalkDescribes(Outcomes(digest, Snapshots(entries)));
  }

  /** Every epoch of a whole corpus (the state `Reconciled` returns) has the ascending shape. */
  lemma ReconciledAscending(digest: string -> string, entries: seq<DirEntry>)
    ensures var st := Fold(Initial, Outcomes(digest, Snapshots(entries)));
      forall k :: k in st.matches ==> AscendingEpoch(st.matches[k])
  {
    WalkAscending(digest, Snapshots(entries));
  }
}
