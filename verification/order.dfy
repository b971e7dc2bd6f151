/**
  The ordering Go's `sort.Strings` uses, and sorting a list of strings into
  a strictly ascending, duplicate-free list.

  Go compares strings byte by byte over their UTF-8 encoding. UTF-8 byte
  order coincides with code-point order, so on `seq<char>` the same order is
  the lexicographic order on characters, a proper prefix coming first.
 */
module Order {

  /** `a` sorts strictly before `b` under Go's `sort.Strings`. */
  predicate Less(a: string, b: string)
    decreases |a|
  {
    && |b| > 0
    && (|a| == 0 || a[0] < b[0] || (a[0] == b[0] && Less(a[1..], b[1..])))
  }

  lemma {:induction false} LessIrreflexive(a: string)
    ensures !Less(a, a)
    decreases |a|
  {
    if |a| > 0 {
      LessIrreflexive(a[1..]);
    }
  }

  lemma {:induction false} LessTransitive(a: string, b: string, c: string)
    requires Less(a, b) && Less(b, c)
    ensures Less(a, c)
    decreases |a|
  {
    if |a| > 0 && a[0] == b[0] && b[0] == c[0] {
      LessTransitive(a[1..], b[1..], c[1..]);
    }
  }

  lemma {:induction false} LessTotal(a: string, b: string)
    requires a != b
    ensures Less(a, b) || Less(b, a)
    decreases |a|
  {
    if |a| > 0 && |b| > 0 && a[0] == b[0] {
      assert a == [a[0]] + a[1..] && b == [b[0]] + b[1..];
      LessTotal(a[1..], b[1..]);
    }
  }

  lemma {:induction false} LessAsymmetric(a: string, b: string)
    requires Less(a, b)
    ensures !Less(b, a)
    decreases |a|
  {
    if |a| > 0 && a[0] == b[0] {
      LessAsymmetric(a[1..], b[1..]);
    }
  }

  /** `a` is a proper prefix of `b`. */
  predicate ProperPrefix(a: string, b: string) {
    |a| < |b| && a == b[..|a|]
  }

  /** `a` and `b` agree before position `i` and `a` has the smaller character there. */
  predicate SmallerAt(a: string, b: string, i: nat) {
    i < |a| && i < |b| && a[..i] == b[..i] && a[i] < b[i]
  }

  /**
    `Less` is the usual lexicographic order: either `a` is a proper prefix
    of `b`, or at the first position where they differ `a` has the smaller
    character.
   */
  lemma {:induction false} LessIsLexicographic(a: string, b: string)
    ensures Less(a, b) <==> ProperPrefix(a, b) || exists i: nat :: SmallerAt(a, b, i)
    decreases |a|
  {
    if |a| > 0 && |b| > 0 {
      if a[0] < b[0] {
        assert SmallerAt(a, b, 0);
      } else if a[0] == b[0] {
        var a', b' := a[1..], b[1..];
        LessIsLexicographic(a', b');
        assert ProperPrefix(a, b) <==> ProperPrefix(a', b') by {
          if ProperPrefix(a', b') {
            assert a == [a[0]] + a' && b[..|a|] == [b[0]] + b'[..|a'|];
          }
          if ProperPrefix(a, b) {
            assert a' == b[..|a|][1..] && b'[..|a'|] == b[..|a|][1..];
          }
        }
        forall i: nat | SmallerAt(a, b, i) ensures i > 0 && SmallerAt(a', b', i - 1) {
          assert a'[..i - 1] == a[..i][1..] && b'[..i - 1] == b[..i][1..];
        }
        forall i: nat | SmallerAt(a', b', i) ensures SmallerAt(a, b, i + 1) {
          assert a[..i + 1] == [a[0]] + a'[..i] && b[..i + 1] == [b[0]] + b'[..i];
        }
      }
    }
  }

  /** Every element sorts strictly before every later one. */
  predicate StrictlySorted(s: seq<string>) {
    forall i, j :: 0 <= i < j < |s| ==> Less(s[i], s[j])
  }

  /** A strictly sorted list holds no element twice. */
  lemma StrictlySortedDistinct(s: seq<string>)
    requires StrictlySorted(s)
    ensures forall i, j :: 0 <= i < j < |s| ==> s[i] != s[j]
  {
    forall i, j | 0 <= i < j < |s| ensures s[i] != s[j] {
      if s[i] == s[j] {
        LessIrreflexive(s[i]);
      }
    }
  }

  /** The front of a strictly sorted list is sorted, and below its last element. */
  lemma SortedInitBelowLast(init: seq<string>, y: string)
    requires StrictlySorted(init + [y])
    ensures StrictlySorted(init)
    ensures forall v :: v in init ==> Less(v, y)
  {
    var s := init + [y];
    assert forall i :: 0 <= i < |init| ==> s[i] == init[i];
    forall v | v in init ensures Less(v, y) {
      var i :| 0 <= i < |init| && init[i] == v;
      assert s[i] == v && s[|init|] == y;
    }
  }

  /** Appending an element above all others keeps a list sorted. */
  lemma SortedSnoc(s: seq<string>, y: string)
    requires StrictlySorted(s)
    requires forall v :: v in s ==> Less(v, y)
    ensures StrictlySorted(s + [y])
  {
    forall i, j | 0 <= i < j < |s| + 1 ensures Less((s + [y])[i], (s + [y])[j]) {
      if j == |s| {
        assert s[i] in s;
      }
    }
  }

  /** `x` added to the strictly sorted `s`, keeping it strictly sorted. */
  function Insert(x: string, s: seq<string>): (r: seq<string>)
    requires StrictlySorted(s)
    ensures StrictlySorted(r)
    ensures forall y :: y in r <==> y in s || y == x
    decreases |s|
  {
    if |s| == 0 then [x]
    else if x == s[0] then s
    else if Less(x, s[0]) then
      assert forall j :: 0 < j < |s| ==> Less(x, s[j]) by {
        forall j | 0 < j < |s| ensures Less(x, s[j]) {
          LessTransitive(x, s[0], s[j]);
        }
      }
      [x] + s
    else
      LessTotal(x, s[0]);
      var rest := Insert(x, s[1..]);
      assert forall y :: y in rest ==> Less(s[0], y) by {
        forall y | y in rest ensures Less(s[0], y) {
          if y != x {
            var j :| 0 <= j < |s[1..]| && s[1..][j] == y;
            assert s[j + 1] == y;
          }
        }
      }
      [s[0]] + rest
  }

  /**
    The elements of `s` in strictly ascending order, each once: what Go
    obtains by collecting `s` into a map and sorting the map's keys.
   */
  function SortDistinct(s: seq<string>): (r: seq<string>)
    ensures StrictlySorted(r)
    ensures forall y :: y in r <==> y in s
    decreases |s|
  {
    if |s| == 0 then []
    else
      var r := Insert(s[|s| - 1], SortDistinct(s[..|s| - 1]));
      assert forall y :: y in s <==> y in s[..|s| - 1] || y == s[|s| - 1] by {
        assert s == s[..|s| - 1] + [s[|s| - 1]];
      }
      r
  }

  /**
    A strictly sorted list is determined by its elements: two strictly
    sorted lists with the same elements are equal.
   */
  lemma {:induction false} SortedUnique(a: seq<string>, b: seq<string>)
    requires StrictlySorted(a) && StrictlySorted(b)
    requires forall y :: y in a <==> y in b
    ensures a == b
    decreases |a|
  {
    if |b| > 0 {
      assert b[0] in a;
    }
    if |a| > 0 {
      assert a[0] in b;
    }
    if |a| > 0 {
      assert a[0] == b[0] by {
        assert b[0] in a;
        var j :| 0 <= j < |b| && b[j] == a[0];
        var i :| 0 <= i < |a| && a[i] == b[0];
        if j > 0 && i > 0 {
          LessAsymmetric(a[0], a[i]);
        }
      }
      StrictlySortedDistinct(a);
      StrictlySortedDistinct(b);
      forall y ensures y in a[1..] <==> y in b[1..] {
        if y in a[1..] {
          var i :| 1 <= i < |a| && a[i] == y;
          assert y in b && y != b[0];
        }
        if y in b[1..] {
          var j :| 1 <= j < |b| && b[j] == y;
          assert y in a && y != a[0];
        }
      }
      SortedUnique(a[1..], b[1..]);
      assert a == [a[0]] + a[1..] && b == [b[0]] + b[1..];
    }
  }
}
