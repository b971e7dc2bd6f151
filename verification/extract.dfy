/**
  Parameter extraction (cmd/crunch/main.go:75-90): the list of parameter
  names a version's `setParameter` help text declares.
 */
module Extract {
  import opened Wrappers
  import opened Text

  /** The command whose help text lists the tunable parameters. */
  const SetParameter := "setParameter"

  /** The marker that precedes the parameter list in current help texts. */
  const Marker := "supported:\n"

  /** The marker older help texts use instead (e.g. version 2.2.7). */
  const LegacyMarker := "supported so far:\n"

  /** A well-formed parameter line: non-empty, no surrounding white space. */
  predicate IsParam(p: string) {
    p != "" && Trimmed(p)
  }

  /** Each line trimmed, blank lines dropped, order kept. */
  function CleanLines(lines: seq<string>): (r: seq<string>)
    ensures |r| <= |lines|
    ensures forall i :: 0 <= i < |r| ==> IsParam(r[i])
    decreases |lines|
  {
    if |lines| == 0 then []
    else
      var t := TrimSpace(lines[0]);
      var rest := CleanLines(lines[1..]);
      if t == "" then rest
      else
        assert forall i :: 0 < i <= |rest| ==> ([t] + rest)[i] == rest[i - 1];
        [t] + rest
  }

  /** Every line without its surrounding white space, blank or not. */
  function TrimmedLines(lines: seq<string>): (r: seq<string>)
    ensures |r| == |lines|
    ensures forall i :: 0 <= i < |lines| ==> r[i] == TrimSpace(lines[i])
  {
    seq(|lines|, i requires 0 <= i < |lines| => TrimSpace(lines[i]))
  }

  /**
    The kept lines are exactly the non-blank lines, each without its
    surrounding white space.
   */
  lemma {:induction false} CleanLinesMembers(lines: seq<string>)
    ensures forall p :: p in CleanLines(lines) <==> p != "" && p in TrimmedLines(lines)
    decreases |lines|
  {
    if |lines| > 0 {
      CleanLinesMembers(lines[1..]);
      assert TrimmedLines(lines) == [TrimSpace(lines[0])] + TrimmedLines(lines[1..]);
    }
  }

  /**
    One line on its own: dropped when it is blank, otherwise kept without
    its surrounding white space.
   */
  lemma CleanLine(line: string)
    ensures CleanLines([line]) == if TrimSpace(line) == "" then [] else [TrimSpace(line)]
  {
    assert [line][1..] == [];
  }

  /** The parameters listed in the text that follows a marker. */
  function ParamLines(vals: string): (r: seq<string>)
    ensures forall i :: 0 <= i < |r| ==> IsParam(r[i])
    ensures forall p :: p in r <==> p != "" && p in TrimmedLines(Split(vals, '\n'))
  {
    CleanLinesMembers(Split(vals, '\n'));
    CleanLines(Split(vals, '\n'))
  }

  /**
    The parameters of one help text: the lines after the first `Marker`,
    or, when `Marker` is absent, after the first `LegacyMarker`; `None` when
    neither occurs, which makes the caller skip the version.
   */
  function ExtractParams(help: string): (r: Option<seq<string>>)
    ensures r.None? <==> !Contains(help, Marker) && !Contains(help, LegacyMarker)
    ensures r.Some? ==> forall i :: 0 <= i < |r.value| ==> IsParam(r.value[i])
  {
    match Cut(help, Marker)
    case Some((_, vals)) => Some(ParamLines(vals))
    case None =>
      match Cut(help, LegacyMarker)
      case Some((_, vals)) => Some(ParamLines(vals))
      case None => None
  }

  /** Cutting at the first occurrence of `sep`, which is known to be at `|prefix|`. */
  lemma CutAtFirst(prefix: string, sep: string, body: string)
    requires forall j: nat :: j < |prefix| ==> !OccursAt(prefix + sep + body, sep, j)
    ensures Cut(prefix + sep + body, sep) == Some((prefix, body))
  {
    var s := prefix + sep + body;
    assert OccursAt(s, sep, |prefix|) by {
      assert s[|prefix|..|prefix| + |sep|] == sep;
    }
    var r := Cut(s, sep);
    var before := r.value.0;
    assert OccursAt(s, sep, |before|) by {
      assert s == before + sep + r.value.1;
      assert s[|before|..|before| + |sep|] == sep;
    }
    assert |before| == |prefix|;
    assert before == s[..|prefix|] == prefix;
    assert r.value.1 == s[|prefix| + |sep|..] == body;
  }

  /** With `Marker` first occurring after `prefix`, the parameters come from `body`. */
  lemma ExtractAfterMarker(prefix: string, body: string)
    requires forall j: nat :: j < |prefix| ==> !OccursAt(prefix + Marker + body, Marker, j)
    ensures ExtractParams(prefix + Marker + body) == Some(ParamLines(body))
  {
    CutAtFirst(prefix, Marker, body);
  }

  /**
    Without any `Marker`, and with `LegacyMarker` first occurring after
    `prefix`, the parameters come from `body`.
   */
  lemma ExtractAfterLegacyMarker(prefix: string, body: string)
    requires !Contains(prefix + LegacyMarker + body, Marker)
    requires forall j: nat :: j < |prefix| ==> !OccursAt(prefix + LegacyMarker + body, LegacyMarker, j)
    ensures ExtractParams(prefix + LegacyMarker + body) == Some(ParamLines(body))
  {
    CutAtFirst(prefix, LegacyMarker, body);
  }

  lemma {:induction false} CleanLinesAppend(a: seq<string>, b: seq<string>)
    ensures CleanLines(a + b) == CleanLines(a) + CleanLines(b)
    decreases |a|
  {
    if |a| > 0 {
      assert (a + b)[1..] == a[1..] + b;
      CleanLinesAppend(a[1..], b);
    } else {
      assert a + b == b;
    }
  }

  /** Lines that are already parameters pass through unchanged and in order. */
  lemma {:induction false} CleanLinesKeepsParams(lines: seq<string>)
    requires forall i :: 0 <= i < |lines| ==> IsParam(lines[i])
    ensures CleanLines(lines) == lines
    decreases |lines|
  {
    if |lines| > 0 {
      TrimSpaceOfTrimmed(lines[0]);
      CleanLinesKeepsParams(lines[1..]);
      assert [lines[0]] + lines[1..] == lines;
    }
  }

  /**
    Round trip: a body made of N parameter lines, each followed by a line
    break, yields exactly those N parameters in the same order.
   */
  lemma ParamLinesRoundTrip(lines: seq<string>)
    requires forall i :: 0 <= i < |lines| ==> IsParam(lines[i]) && '\n' !in lines[i]
    ensures ParamLines(Join(lines + [""], '\n')) == lines
  {
    var parts := lines + [""];
    assert forall i :: 0 <= i < |parts| ==> '\n' !in parts[i];
    SplitJoin(parts, '\n');
    CleanLinesDropsFinalBlank(lines);
    assert CleanLines(Split(Join(parts, '\n'), '\n')) == lines;
  }

  /** The empty piece after the last line break contributes nothing. */
  lemma CleanLinesDropsFinalBlank(lines: seq<string>)
    requires forall i :: 0 <= i < |lines| ==> IsParam(lines[i])
    ensures CleanLines(lines + [""]) == lines
  {
    CleanLinesAppend(lines, [""]);
    CleanLinesKeepsParams(lines);
    assert CleanLines([""]) == [] by {
      TrimSpaceOfTrimmed("");
    }
  }
}
