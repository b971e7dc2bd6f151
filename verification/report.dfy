/**
  The report text (cmd/crunch/main.go:114-128): a JSON object with one
  member per digest, in `matchOrder`. How an epoch is marshalled is left
  to a parameter; only the framing around the members is modelled.
 */
module Report {
  import opened Reconcile
  import opened Corpus

  /** One member of the object: the quoted digest and its marshalled epoch. */
  function EntryText(st: State, k: string, marshal: Epoch -> string): (r: string)
    ensures |r| >= |k| + 6 && r[..|k| + 6] == "  \"" + k + "\": "
    ensures k in st.matches ==> r[|k| + 6..] == marshal(st.matches[k])
  {
    "  \"" + k + "\": " + (if k in st.matches then marshal(st.matches[k]) else "null")
  }

  /** The members for every digest of `matchOrder`, in that order. */
  function Entries(st: State, marshal: Epoch -> string): (r: seq<string>)
    ensures |r| == |st.matchOrder|
    ensures forall i :: 0 <= i < |r| ==> r[i] == EntryText(st, st.matchOrder[i], marshal)
  {
    seq(|st.matchOrder|, i requires 0 <= i < |st.matchOrder| => EntryText(st, st.matchOrder[i], marshal))
  }

  /**
    Every member of a whole-corpus report marshals a real epoch: each key
    of `matchOrder` is in the map, so no member is `null`.
   */
  lemma ReconciledEntries(digest: string -> string, marshal: Epoch -> string, entries: seq<DirEntry>)
    ensures var st := Reconciled(digest, entries);
      forall i :: 0 <= i < |st.matchOrder| ==>
        && st.matchOrder[i] in st.matches
        && Entries(st, marshal)[i] == "  \"" + st.matchOrder[i] + "\": " + marshal(st.matches[st.matchOrder[i]])
  {
    var st := Reconciled(digest, entries);
    assert WellShaped(st);
  }

  /** The members separated by a comma and a line break, with no trailing comma. */
  function JoinMembers(items: seq<string>): string
    requires |items| >= 1
    decreases |items|
  {
    if |items| == 1 then items[0]
    else JoinMembers(items[..|items| - 1]) + ",\n" + items[|items| - 1]
  }

  /** The object's text between its opening `{\n` and its closing `}`. */
  function Body(items: seq<string>): string {
    if |items| == 0 then "" else JoinMembers(items) + "\n"
  }

  /** The buffer as the loop fills it: `{\n`, then each member followed by `,\n`. */
  function Buffer(items: seq<string>): (r: string)
    ensures |r| >= 2 && r[..2] == "{\n"
    ensures |items| >= 1 ==> |r| >= 4 && r[|r| - 2..] == ",\n"
    decreases |items|
  {
    if |items| == 0 then "{\n"
    else
      var init := Buffer(items[..|items| - 1]);
      var r := init + items[|items| - 1] + ",\n";
      assert r[..2] == init[..2];
      assert r[|r| - 2..] == ",\n";
      r
  }

  /** The buffer with its last two characters overwritten by a line break and `}`. */
  function FinishAsWritten(buf: string): (r: string)
    requires |buf| >= 2
    ensures |r| == |buf| && r[..|r| - 2] == buf[..|buf| - 2] && r[|r| - 2..] == "\n}"
  {
    buf[..|buf| - 2] + "\n}"
  }

  /**
    The report text exactly as the program assembles it. It always ends in
    `\n}`; it opens with `{\n` only when there is at least one member, and
    with no member it is just `\n}`.
   */
  function RenderAsWritten(items: seq<string>): (r: string)
    ensures |r| >= 2 && r[|r| - 2..] == "\n}"
    ensures |items| >= 1 ==> r[..2] == "{\n"
    ensures |items| == 0 ==> r == "\n}"
  {
    var buf := Buffer(items);
    var r := FinishAsWritten(buf);
    assert |items| >= 1 ==> r[..2] == r[..|r| - 2][..2] == buf[..|buf| - 2][..2] == buf[..2];
    r
  }

  lemma {:induction false} BufferFraming(items: seq<string>)
    requires |items| >= 1
    ensures Buffer(items) == "{\n" + JoinMembers(items) + ",\n"
    decreases |items|
  {
    var init := items[..|items| - 1];
    assert Buffer(items) == Buffer(init) + items[|items| - 1] + ",\n";
    if |items| > 1 {
      BufferFraming(init);
      assert JoinMembers(items) == JoinMembers(init) + ",\n" + items[|items| - 1];
    }
  }

  /**
    With at least one member, overwriting the trailing `,\n` yields the
    object: `{\n`, the members joined by `,\n`, then `\n}`.
   */
  lemma RenderAsWrittenFraming(items: seq<string>)
    requires |items| >= 1
    ensures RenderAsWritten(items) == "{\n" + Body(items) + "}"
  {
    BufferFraming(items);
    var buf := Buffer(items);
    assert buf[..|buf| - 2] == "{\n" + JoinMembers(items);
  }

  /**
    With no member, the two characters overwritten are the opening `{\n`
    itself, leaving `\n}`: a closing brace with no opening one.
   */
  lemma RenderAsWrittenEmpty()
    ensures RenderAsWritten([]) == "\n}"
    ensures RenderAsWritten([]) != "{\n" + Body([]) + "}"
  {
  }

  /**
    The report text with the empty case repaired: when there is no member,
    the closing brace is appended instead of overwriting the opening one.
   */
  function Render(items: seq<string>): (r: string)
    ensures r == "{\n" + Body(items) + "}"
    ensures |items| >= 1 ==> r == RenderAsWritten(items)
  {
    if |items| == 0 then Buffer(items) + "}"
    else
      RenderAsWrittenFraming(items);
      RenderAsWritten(items)
  }

  /**
    The program end to end as written, minus the file system: the report
    for the corpus root's entries, given the digest and the epoch
    marshaller. It is the framed object whenever some version was
    processed, and the malformed `\n}` otherwise.
   */
  function RunAsWritten(digest: string -> string, marshal: Epoch -> string, entries: seq<DirEntry>): (r: string)
    ensures var st := Reconciled(digest, entries);
      |st.matchOrder| >= 1 ==> r == "{\n" + Body(Entries(st, marshal)) + "}"
    ensures |Reconciled(digest, entries).matchOrder| == 0 ==> r == "\n}"
  {
    var items := Entries(Reconciled(digest, entries), marshal);
    if |items| >= 1 then
      RenderAsWrittenFraming(items);
      RenderAsWritten(items)
    else
      RenderAsWritten(items)
  }

  /**
    The end-to-end report with the empty case repaired: always the framed
    object, and the program's own text whenever some version was processed.
   */
  function Run(digest: string -> string, marshal: Epoch -> string, entries: seq<DirEntry>): (r: string)
    ensures var st := Reconciled(digest, entries);
      r == "{\n" + Body(Entries(st, marshal)) + "}"
    ensures |Reconciled(digest, entries).matchOrder| >= 1 ==> r == RunAsWritten(digest, marshal, entries)
  {
    Render(Entries(Reconciled(digest, entries), marshal))
  }

  /**
    An empty corpus root: no version is processed, so the program writes
    `\n}` where the repaired report is the empty object `{\n}`.
   */
  lemma EmptyRootReport(digest: string -> string, marshal: Epoch -> string)
    ensures RunAsWritten(digest, marshal, []) == "\n}"
    ensures Run(digest, marshal, []) == "{\n}"
  {
    var snaps := Snapshots([]);
    assert |snaps| == 0;
    assert Reconciled(digest, []) == Initial;
  }
}
