/**
  A worked three-version corpus: two versions with identical help text
  share one epoch, and a third whose list swaps `b` for `c` opens a second
  epoch diffed against the second version.
 */
module Scenarios {
  import opened Wrappers
  import opened Text
  import opened Order
  import opened Diff
  import opened Extract
  import opened Corpus
  import opened Reconcile

  /** The help text `supported:\n<x>\n<y>\n`. */
  function HelpOf(x: string, y: string): string {
    Marker + (x + "\n" + y + "\n")
  }

  /** A catalog holding only a `setParameter` command with the given help. */
  function OnlySetParameter(help: string): Catalog {
    map[SetParameter := CommandHelp(help, false, false, false)]
  }

  lemma JoinTwoLines(x: string, y: string)
    ensures Join([x, y, ""], '\n') == x + "\n" + y + "\n"
  {
    assert [x, y, ""][1..] == [y, ""];
    assert [y, ""][1..] == [""];
    assert Join([""], '\n') == "";
    assert Join([y, ""], '\n') == y + "\n" + "";
    assert Join([x, y, ""], '\n') == x + "\n" + (y + "\n");
  }

  /** Two parameter lines, each ending in a line break, give back the two parameters. */
  lemma TwoParamLines(x: string, y: string)
    requires IsParam(x) && IsParam(y) && '\n' !in x && '\n' !in y
    ensures ParamLines(x + "\n" + y + "\n") == [x, y]
  {
    assert [x, y] + [""] == [x, y, ""];
    JoinTwoLines(x, y);
    ParamLinesRoundTrip([x, y]);
  }

  /** The help text listing `x` and `y` declares exactly those two parameters. */
  lemma ParamsOf(x: string, y: string)
    requires IsParam(x) && IsParam(y) && '\n' !in x && '\n' !in y
    ensures ExtractParams(HelpOf(x, y)) == Some([x, y])
  {
    var body := x + "\n" + y + "\n";
    TwoParamLines(x, y);
    ExtractAfterMarker("", body);
    assert HelpOf(x, y) == "" + Marker + body;
  }

  /** A snapshot whose only command is `setParameter` with that help text is processed. */
  lemma ExtractionOfHelp(digest: string -> string, s: Snapshot, x: string, y: string)
    requires IsParam(x) && IsParam(y) && '\n' !in x && '\n' !in y
    requires s.commands == OnlySetParameter(HelpOf(x, y))
    ensures Extraction(digest, s) == Some(Extracted(s.version, digest(HelpOf(x, y)), [x, y]))
  {
    ParamsOf(x, y);
    assert s.commands[SetParameter].help == HelpOf(x, y);
  }

  lemma SwapDiff(a: string, b: string, c: string)
    requires Less(a, b) && a != c && b != c
    ensures DiffParams([a, b], [a, c]) == ParamDiff([c], [b])
  {
    LessIrreflexive(a);
    var d := DiffParams([a, b], [a, c]);
    SortedUnique(d.added, [c]);
    SortedUnique(d.removed, [b]);
  }

  lemma FreshDiff(a: string, b: string)
    requires Less(a, b)
    ensures DiffParams([], [a, b]) == ParamDiff([a, b], [])
  {
    var d := DiffParams([], [a, b]);
    SortedUnique(d.added, [a, b]);
    SortedUnique(d.removed, []);
  }

  lemma OutcomesOfThree(digest: string -> string, s1: Snapshot, s2: Snapshot, s3: Snapshot)
    ensures Outcomes(digest, [s1, s2, s3]) == [Extraction(digest, s1), Extraction(digest, s2), Extraction(digest, s3)]
  {
    assert [s1][..0] == [];
    assert Outcomes(digest, [s1]) == [Extraction(digest, s1)];
    assert [s1, s2][..1] == [s1];
    assert Outcomes(digest, [s1, s2]) == [Extraction(digest, s1), Extraction(digest, s2)];
    assert [s1, s2, s3][..2] == [s1, s2];
  }

  /** The first version opens an epoch against the empty initial list. */
  lemma AfterFirst(v1: string, k1: string, a: string, b: string)
    requires Less(a, b)
    ensures var w := Fold(Initial, [Some(Extracted(v1, k1, [a, b]))]);
      && w.lastParams == [a, b] && w.lastVersion == v1
      && w.matchOrder == [k1] && w.matches.Keys == {k1}
      && w.matches[k1] == Epoch(v1, v1, [v1], "", [a, b], [], 2)
  {
    var o1 := Some(Extracted(v1, k1, [a, b]));
    FreshDiff(a, b);
    FoldSnoc(Initial, [], o1);
    assert [] + [o1] == [o1];
  }

  /** The same digest again only extends that epoch. */
  lemma AfterSecond(v1: string, v2: string, k1: string, a: string, b: string)
    requires Less(a, b)
    ensures var w := Fold(Initial, [Some(Extracted(v1, k1, [a, b])), Some(Extracted(v2, k1, [a, b]))]);
      && w.lastParams == [a, b] && w.lastVersion == v2
      && w.matchOrder == [k1] && w.matches.Keys == {k1}
      && w.matches[k1] == Epoch(v1, v2, [v1, v2], "", [a, b], [], 2)
  {
    var o1 := Some(Extracted(v1, k1, [a, b]));
    var o2 := Some(Extracted(v2, k1, [a, b]));
    AfterFirst(v1, k1, a, b);
    FoldSnoc(Initial, [o1], o2);
    assert [o1] + [o2] == [o1, o2];
  }

  /** A different digest opens a second epoch, diffed against the second version. */
  lemma AfterThird(v1: string, v2: string, v3: string, k1: string, k2: string, a: string, b: string, c: string)
    requires Less(a, b) && a != c && b != c && k1 != k2
    ensures var w := Fold(Initial, [Some(Extracted(v1, k1, [a, b])), Some(Extracted(v2, k1, [a, b])),
                                    Some(Extracted(v3, k2, [a, c]))]);
      && w.matchOrder == [k1, k2]
      && k1 in w.matches && k2 in w.matches
      && w.matches[k1] == Epoch(v1, v2, [v1, v2], "", [a, b], [], 2)
      && w.matches[k2] == Epoch(v3, v3, [v3], v2, [c], [b], 2)
  {
    var o1 := Some(Extracted(v1, k1, [a, b]));
    var o2 := Some(Extracted(v2, k1, [a, b]));
    var o3 := Some(Extracted(v3, k2, [a, c]));
    AfterSecond(v1, v2, k1, a, b);
    SwapDiff(a, b, c);
    FoldSnoc(Initial, [o1, o2], o3);
    assert [o1, o2] + [o3] == [o1, o2, o3];
  }

  /**
    Versions v1 and v2 share the help text listing `a` and `b`; v3 lists
    `a` and `c`. The walk yields two epochs: [v1, v2], which added `a` and
    `b` to the empty initial list, and [v3], which against v2 added `c`
    and removed `b` (for example v1, v2, v3 = 2.0.0, 2.2.0, 2.4.0).
   */
  lemma TwoEpochs(digest: string -> string, v1: string, v2: string, v3: string, a: string, b: string, c: string)
    requires IsParam(a) && IsParam(b) && IsParam(c)
    requires '\n' !in a && '\n' !in b && '\n' !in c
    requires Less(a, b) && a != c && b != c
    requires digest(HelpOf(a, b)) != digest(HelpOf(a, c))
    ensures var st := Fold(Initial, Outcomes(digest, [
        Snapshot(v1, OnlySetParameter(HelpOf(a, b))),
        Snapshot(v2, OnlySetParameter(HelpOf(a, b))),
        Snapshot(v3, OnlySetParameter(HelpOf(a, c)))]));
      var k1 := digest(HelpOf(a, b));
      var k2 := digest(HelpOf(a, c));
      && st.matchOrder == [k1, k2]
      && k1 in st.matches && k2 in st.matches
      && st.matches[k1] == Epoch(v1, v2, [v1, v2], "", [a, b], [], 2)
      && st.matches[k2] == Epoch(v3, v3, [v3], v2, [c], [b], 2)
  {
    var k1 := digest(HelpOf(a, b));
    var k2 := digest(HelpOf(a, c));
    var s1 := Snapshot(v1, OnlySetParameter(HelpOf(a, b)));
    var s2 := Snapshot(v2, OnlySetParameter(HelpOf(a, b)));
    var s3 := Snapshot(v3, OnlySetParameter(HelpOf(a, c)));
    ExtractionOfHelp(digest, s1, a, b);
    ExtractionOfHelp(digest, s2, a, b);
    ExtractionOfHelp(digest, s3, a, c);
    OutcomesOfThree(digest, s1, s2, s3);
    AfterThird(v1, v2, v3, k1, k2, a, b, c);
  }
}
