/**
  The version corpus (cmd/crunch/main.go:17-24, 26, 48-63): which directory
  entries count as versions, each version's command catalog, and the order
  in which versions are visited.
 */
module Corpus {
  import opened Text
  import opened Order

  /** One command's self-description, as dumped for one version. */
  datatype CommandHelp = CommandHelp(help: string, requiresAuth: bool, secondaryOk: bool, adminOnly: bool)

  /** A version's commands, by command name. */
  type Catalog = map<string, CommandHelp>

  /** An entry of the corpus root, with the catalog loaded from it. */
  datatype DirEntry = DirEntry(name: string, commands: Catalog)

  /** One version as the reconciliation walk sees it. */
  datatype Snapshot = Snapshot(version: string, commands: Catalog)

  predicate IsDigit(c: char) {
    '0' <= c <= '9'
  }

  /** One or more ASCII digits: what `\d+` matches in Go's regexp syntax. */
  predicate IsDigits(s: string) {
    |s| > 0 && forall i :: 0 <= i < |s| ==> IsDigit(s[i])
  }

  /**
    The whole name matches `^(\d+)\.(\d+)\.(\d+)$`: exactly two dots, and
    a non-empty run of digits before, between and after them.
   */
  predicate IsVersionName(name: string)
    ensures IsVersionName(name) ==> |name| >= 5
    ensures IsVersionName(name) ==> forall i :: 0 <= i < |name| ==> IsDigit(name[i]) || name[i] == '.'
  {
    var parts := Split(name, '.');
    if |parts| == 3 && IsDigits(parts[0]) && IsDigits(parts[1]) && IsDigits(parts[2]) then
      JoinThree(parts);
      true
    else
      false
  }

  /** Three digit runs joined by dots: the text and the characters it is made of. */
  lemma JoinThree(parts: seq<string>)
    requires |parts| == 3 && IsDigits(parts[0]) && IsDigits(parts[1]) && IsDigits(parts[2])
    ensures Join(parts, '.') == parts[0] + "." + parts[1] + "." + parts[2]
    ensures var s := Join(parts, '.');
      |s| >= 5 && forall i :: 0 <= i < |s| ==> IsDigit(s[i]) || s[i] == '.'
  {
    assert parts[1..] == [parts[1], parts[2]];
    assert parts[1..][1..] == [parts[2]];
    assert Join(parts[1..][1..], '.') == parts[2];
    assert Join(parts[1..], '.') == parts[1] + "." + parts[2];
    var s := Join(parts, '.');
    var a, b := |parts[0]|, |parts[0]| + 1 + |parts[1]|;
    forall i | 0 <= i < |s| ensures IsDigit(s[i]) || s[i] == '.' {
      if i < a {
        assert s[i] == parts[0][i];
      } else if a < i < b {
        assert s[i] == parts[1][i - a - 1];
      } else if b < i {
        assert s[i] == parts[2][i - b - 1];
      }
    }
  }

  /** Every name built from three digit runs joined by dots is a version name. */
  lemma VersionNameOfParts(a: string, b: string, c: string)
    requires IsDigits(a) && IsDigits(b) && IsDigits(c)
    ensures IsVersionName(a + "." + b + "." + c)
  {
    assert '.' !in a && '.' !in b && '.' !in c by {
      assert forall s :: IsDigits(s) ==> forall i :: 0 <= i < |s| ==> s[i] != '.';
    }
    var parts := [a, b, c];
    assert Join(parts, '.') == a + "." + b + "." + c by {
      assert parts[1..] == [b, c];
      assert [b, c][1..] == [c];
      assert Join([c], '.') == c;
      assert Join([b, c], '.') == b + "." + c;
    }
    SplitJoin(parts, '.');
  }

  /** Every version name is three digit runs joined by dots. */
  lemma VersionNameIsParts(name: string)
    requires IsVersionName(name)
    ensures var p := Split(name, '.');
      && IsDigits(p[0]) && IsDigits(p[1]) && IsDigits(p[2])
      && name == p[0] + "." + p[1] + "." + p[2]
  {
    JoinThree(Split(name, '.'));
  }

  /** The names of `entries`, in listing order. */
  function NamesOf(entries: seq<DirEntry>): (r: seq<string>)
    ensures |r| == |entries|
    ensures forall i :: 0 <= i < |entries| ==> r[i] == entries[i].name
  {
    seq(|entries|, i requires 0 <= i < |entries| => entries[i].name)
  }

  /**
    The corpus: every entry whose name is a version name, mapped to its
    catalog; all other entries are ignored. The directory listing holds
    each name once; were one repeated, the later entry would win.
   */
  function LoadCorpus(entries: seq<DirEntry>): (r: map<string, Catalog>)
    ensures forall v :: v in r <==> IsVersionName(v) && v in NamesOf(entries)
    ensures forall v :: v in r ==> DirEntry(v, r[v]) in entries
    decreases |entries|
  {
    if |entries| == 0 then map[]
    else
      var init := entries[..|entries| - 1];
      var e := entries[|entries| - 1];
      var m := LoadCorpus(init);
      assert NamesOf(entries) == NamesOf(init) + [e.name];
      assert forall d :: d in init ==> d in entries;
      if IsVersionName(e.name) then m[e.name := e.commands] else m
  }

  /** The corpus's version names, ascending under `sort.Strings`, each once. */
  function VersionOrder(entries: seq<DirEntry>): (r: seq<string>)
    ensures StrictlySorted(r)
    ensures forall v :: v in r <==> v in LoadCorpus(entries)
  {
    SortDistinct(VersionNamesOf(entries))
  }

  /** The version names among the entries' names, in listing order. */
  function VersionNamesOf(entries: seq<DirEntry>): (r: seq<string>)
    ensures forall v :: v in r <==> IsVersionName(v) && v in NamesOf(entries)
    decreases |entries|
  {
    if |entries| == 0 then []
    else
      var init := entries[..|entries| - 1];
      var e := entries[|entries| - 1];
      assert NamesOf(entries) == NamesOf(init) + [e.name];
      VersionNamesOf(init) + (if IsVersionName(e.name) then [e.name] else [])
  }

  /** The versions of `snaps`, in walk order. */
  function VersionsOf(snaps: seq<Snapshot>): (r: seq<string>)
    ensures |r| == |snaps|
    ensures forall i :: 0 <= i < |snaps| ==> r[i] == snaps[i].version
  {
    seq(|snaps|, i requires 0 <= i < |snaps| => snaps[i].version)
  }

  /**
    The walk's input: one snapshot per corpus version, in ascending
    version order, each carrying that version's catalog.
   */
  function Snapshots(entries: seq<DirEntry>): (r: seq<Snapshot>)
    ensures StrictlySorted(VersionsOf(r))
    ensures forall v :: v in VersionsOf(r) <==> v in LoadCorpus(entries)
    ensures forall i :: 0 <= i < |r| ==> IsVersionName(r[i].version)
    ensures forall i :: 0 <= i < |r| ==> r[i].commands == LoadCorpus(entries)[r[i].version]
  {
    var corpus := LoadCorpus(entries);
    var order := VersionOrder(entries);
    var r := seq(|order|, i requires 0 <= i < |order| => Snapshot(order[i], corpus[order[i]]));
    assert VersionsOf(r) == order;
    r
  }
}
