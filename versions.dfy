/**
 * `compareVersions`: "is the first version strictly newer than the second".
 * A trailing "-SNAPSHOT" is stripped once, the rest is split on '.', each
 * component is read as its leading decimal digits (none read as 0) and a
 * missing component counts as 0; the padded tuples are then compared
 * lexicographically.
 */
module Versions {
  import opened Strings

  const SnapshotSuffix: string := "-SNAPSHOT"

  /** `v.replace(/-SNAPSHOT$/, '')`: one trailing "-SNAPSHOT" is removed. */
  function StripSnapshot(v: string): (r: string)
    ensures |v| >= |SnapshotSuffix| && v[|v| - |SnapshotSuffix|..] == SnapshotSuffix ==> v == r + SnapshotSuffix
    ensures !(|v| >= |SnapshotSuffix| && v[|v| - |SnapshotSuffix|..] == SnapshotSuffix) ==> r == v
  {
    if |v| >= |SnapshotSuffix| && v[|v| - |SnapshotSuffix|..] == SnapshotSuffix
    then v[..|v| - |SnapshotSuffix|]
    else v
  }

  /** `s.split(sep)`: the maximal separator-free pieces, always at least one. */
  function Split(s: string, sep: char): (parts: seq<string>)
    ensures |parts| >= 1
    ensures forall k :: 0 <= k < |parts| ==> sep !in parts[k]
  {
    if |s| == 0 then [""]
    else
      var rest := Split(s[1..], sep);
      if s[0] == sep then [""] + rest else [[s[0]] + rest[0]] + rest[1..]
  }

  /** `parts.join(sep)`, the inverse of `Split`. */
  function Join(parts: seq<string>, sep: char): string
    requires |parts| >= 1
  {
    if |parts| == 1 then parts[0] else parts[0] + [sep] + Join(parts[1..], sep)
  }

  /** Splitting loses nothing: joining the pieces gives the string back. */
  lemma {:induction false} JoinSplit(s: string, sep: char)
    ensures Join(Split(s, sep), sep) == s
  {
    if |s| > 0 {
      var rest := Split(s[1..], sep);
      JoinSplit(s[1..], sep);
      if s[0] == sep {
        assert Split(s, sep)[1..] == rest;
      } else {
        var parts := Split(s, sep);
        if |rest| == 1 {
          assert parts == [[s[0]] + rest[0]];
        } else {
          assert parts[1..] == rest[1..];
          assert Join(rest, sep) == rest[0] + [sep] + Join(rest[1..], sep);
        }
      }
    }
  }

  /** Splitting a join of separator-free pieces gives the pieces back. */
  lemma {:induction false} SplitJoin(parts: seq<string>, sep: char)
    requires |parts| >= 1
    requires forall k :: 0 <= k < |parts| ==> sep !in parts[k]
    ensures Split(Join(parts, sep), sep) == parts
  {
    if |parts| == 1 {
      SplitPiece(parts[0], "", sep);
      assert parts[0] + "" == parts[0];
    } else {
      SplitJoin(parts[1..], sep);
      var tail := Join(parts[1..], sep);
      assert Join(parts, sep) == parts[0] + ([sep] + tail);
      SplitAfterPiece(parts[0], tail, sep);
      assert parts == [parts[0]] + parts[1..];
    }
  }

  /** Splitting `[sep] + t` starts a new empty piece before the pieces of `t`. */
  lemma SplitAtSep(t: string, sep: char)
    ensures Split([sep] + t, sep) == [""] + Split(t, sep)
  {
    assert ([sep] + t)[1..] == t;
  }

  /** A separator-free prefix is glued to the first piece of what follows. */
  lemma {:induction false} SplitPiece(p: string, t: string, sep: char)
    requires sep !in p
    requires t == [] || t[0] == sep
    ensures Split(p + t, sep) == [p + Split(t, sep)[0]] + Split(t, sep)[1..]
  {
    var st := Split(t, sep);
    if |p| > 0 {
      assert (p + t)[0] == p[0] && (p + t)[1..] == p[1..] + t;
      SplitPiece(p[1..], t, sep);
      var rest := Split(p[1..] + t, sep);
      assert rest[0] == p[1..] + st[0] && rest[1..] == st[1..];
      assert [p[0]] + (p[1..] + st[0]) == p + st[0];
    } else {
      assert p + t == t && p + st[0] == st[0];
      assert st == [st[0]] + st[1..];
    }
  }

  lemma SplitAfterPiece(p: string, tail: string, sep: char)
    requires sep !in p
    ensures Split(p + ([sep] + tail), sep) == [p] + Split(tail, sep)
  {
    SplitPiece(p, [sep] + tail, sep);
    SplitAtSep(tail, sep);
    assert p + "" == p;
  }

  /** `_prepareVersionStr`. */
  function PrepareVersionStr(v: string): (parts: seq<string>)
    ensures |parts| >= 1
    ensures Join(parts, '.') == StripSnapshot(v)
  {
    JoinSplit(StripSnapshot(v), '.');
    Split(StripSnapshot(v), '.')
  }

  /** The integer tuple a version string denotes (before zero padding). */
  function VersionTuple(v: string): (t: seq<nat>)
    ensures |t| == |PrepareVersionStr(v)|
    ensures forall k :: 0 <= k < |t| ==> t[k] == ParseIntOrZero(PrepareVersionStr(v)[k])
  {
    var parts := PrepareVersionStr(v);
    seq(|parts|, k requires 0 <= k < |parts| => ParseIntOrZero(parts[k]))
  }

  /** Component `i` of the tuple padded with zeros. */
  function Component(t: seq<nat>, i: nat): nat {
    if i < |t| then t[i] else 0
  }

  function Max(a: nat, b: nat): nat {
    if a >= b then a else b
  }

  /** The comparison from component `i` on, as the loop performs it. */
  function NewerFrom(t1: seq<nat>, t2: seq<nat>, i: nat): bool
    decreases Max(|t1|, |t2|) - i
  {
    if i >= Max(|t1|, |t2|) then false
    else if Component(t1, i) < Component(t2, i) then false
    else if Component(t1, i) > Component(t2, i) then true
    else NewerFrom(t1, t2, i + 1)
  }

  /** The value `compareVersions(v1, v2)` returns. */
  function IsNewer(v1: string, v2: string): bool {
    NewerFrom(VersionTuple(v1), VersionTuple(v2), 0)
  }

  /** The padded tuples agree on every component below `k`. */
  ghost predicate AgreeBelow(t1: seq<nat>, t2: seq<nat>, k: nat) {
    forall j: nat :: j < k ==> Component(t1, j) == Component(t2, j)
  }

  /** Component `k` is the first difference and `t1` is greater there. */
  ghost predicate DecidesAt(t1: seq<nat>, t2: seq<nat>, k: nat) {
    AgreeBelow(t1, t2, k) && Component(t1, k) > Component(t2, k)
  }

  /** Strict lexicographic order on zero-padded tuples. */
  ghost predicate LexGreater(t1: seq<nat>, t2: seq<nat>) {
    exists k: nat :: DecidesAt(t1, t2, k)
  }

  /** The padded tuples are equal. */
  ghost predicate SameTuple(t1: seq<nat>, t2: seq<nat>) {
    forall j: nat :: Component(t1, j) == Component(t2, j)
  }

  /** Two versions that denote the same padded tuple. */
  ghost predicate SameVersion(v1: string, v2: string) {
    SameTuple(VersionTuple(v1), VersionTuple(v2))
  }

  /** From any point below which the tuples agree, the loop decides lexicographic order. */
  lemma {:induction false} NewerFromIsLex(t1: seq<nat>, t2: seq<nat>, i: nat)
    requires AgreeBelow(t1, t2, i)
    ensures NewerFrom(t1, t2, i) <==> LexGreater(t1, t2)
    decreases Max(|t1|, |t2|) - i
  {
    if i >= Max(|t1|, |t2|) {
      forall k: nat ensures !DecidesAt(t1, t2, k) {
        if k < i {
          assert Component(t1, k) == Component(t2, k);
        }
      }
    } else if Component(t1, i) < Component(t2, i) {
      forall k: nat ensures !DecidesAt(t1, t2, k) {
        if k < i {
          assert Component(t1, k) == Component(t2, k);
        } else if k > i {
          assert Component(t1, i) != Component(t2, i);
        }
      }
    } else if Component(t1, i) > Component(t2, i) {
      assert DecidesAt(t1, t2, i);
    } else {
      assert AgreeBelow(t1, t2, i + 1);
      NewerFromIsLex(t1, t2, i + 1);
    }
  }

  /** `compareVersions` is lexicographic order on the zero-padded integer tuples. */
  lemma IsNewerIsLex(v1: string, v2: string)
    ensures IsNewer(v1, v2) <==> LexGreater(VersionTuple(v1), VersionTuple(v2))
  {
    NewerFromIsLex(VersionTuple(v1), VersionTuple(v2), 0);
  }

  /**
   * `compareVersions(v1, v2)`: the two versions are prepared and their part
   * lists compared.
   */
  method CompareVersions(v1: string, v2: string) returns (newer: bool)
    ensures newer == IsNewer(v1, v2)
    ensures newer <==> LexGreater(VersionTuple(v1), VersionTuple(v2))
  {
    IsNewerIsLex(v1, v2);
    newer := CompareParts(PrepareVersionStr(v1), PrepareVersionStr(v2), VersionTuple(v1), VersionTuple(v2));
  }

  /**
   * The loop of `compareVersions` over the longer part list, returning at the
   * first differing component; `t1` and `t2` are the integer tuples the part
   * lists denote.
   */
  method CompareParts(v1parts: seq<string>, v2parts: seq<string>, ghost t1: seq<nat>, ghost t2: seq<nat>)
    returns (newer: bool)
    requires |t1| == |v1parts| && forall k :: 0 <= k < |v1parts| ==> t1[k] == ParseIntOrZero(v1parts[k])
    requires |t2| == |v2parts| && forall k :: 0 <= k < |v2parts| ==> t2[k] == ParseIntOrZero(v2parts[k])
    ensures newer == NewerFrom(t1, t2, 0)
  {
    var maxLen := Max(|v1parts|, |v2parts|);
    var i := 0;
    while i < maxLen
      invariant 0 <= i <= maxLen
      invariant NewerFrom(t1, t2, i) == NewerFrom(t1, t2, 0)
    {
      var part1 := if i < |v1parts| then ParseIntOrZero(v1parts[i]) else 0;
      var part2 := if i < |v2parts| then ParseIntOrZero(v2parts[i]) else 0;
      if part1 < part2 {
        return false;
      } else if part1 > part2 {
        return true;
      }
      i := i + 1;
    }
    return false;
  }


  lemma LexIrreflexive(t: seq<nat>)
    ensures !LexGreater(t, t)
  {
    forall k: nat ensures !DecidesAt(t, t, k) {
    }
  }

  lemma LexAsymmetric(t1: seq<nat>, t2: seq<nat>)
    requires LexGreater(t1, t2)
    ensures !LexGreater(t2, t1)
  {
    var k1: nat :| DecidesAt(t1, t2, k1);
    forall k2: nat ensures !DecidesAt(t2, t1, k2) {
      if k1 < k2 {
        assert Component(t2, k1) != Component(t1, k1);
      } else if k2 < k1 {
        assert Component(t1, k2) == Component(t2, k2);
      }
    }
  }

  lemma LexTransitive(t1: seq<nat>, t2: seq<nat>, t3: seq<nat>)
    requires LexGreater(t1, t2) && LexGreater(t2, t3)
    ensures LexGreater(t1, t3)
  {
    var k1: nat :| DecidesAt(t1, t2, k1);
    var k2: nat :| DecidesAt(t2, t3, k2);
    var k := if k1 <= k2 then k1 else k2;
    forall j: nat | j < k ensures Component(t1, j) == Component(t3, j) {
      assert Component(t1, j) == Component(t2, j);
    }
    assert Component(t1, k) > Component(t3, k) by {
      if k1 < k2 {
        assert Component(t2, k1) == Component(t3, k1);
      } else if k2 < k1 {
        assert Component(t1, k2) == Component(t2, k2);
      }
    }
    assert DecidesAt(t1, t3, k);
  }

  /** A difference at `k` implies a first difference at or below `k`. */
  lemma {:induction false} FirstDifference(t1: seq<nat>, t2: seq<nat>, k: nat)
    requires Component(t1, k) != Component(t2, k)
    ensures exists m: nat :: m <= k && AgreeBelow(t1, t2, m) && Component(t1, m) != Component(t2, m)
  {
    if !AgreeBelow(t1, t2, k) {
      var j: nat :| j < k && Component(t1, j) != Component(t2, j);
      FirstDifference(t1, t2, j);
    }
  }

  /** Padded tuples are equal, or exactly one is lexicographically greater. */
  lemma LexTrichotomy(t1: seq<nat>, t2: seq<nat>)
    ensures SameTuple(t1, t2) ==> !LexGreater(t1, t2) && !LexGreater(t2, t1)
    ensures !SameTuple(t1, t2) ==> LexGreater(t1, t2) || LexGreater(t2, t1)
  {
    if SameTuple(t1, t2) {
      forall k: nat ensures !DecidesAt(t1, t2, k) && !DecidesAt(t2, t1, k) {
        assert Component(t1, k) == Component(t2, k);
      }
    } else {
      var k: nat :| Component(t1, k) != Component(t2, k);
      FirstDifference(t1, t2, k);
      var m: nat :| m <= k && AgreeBelow(t1, t2, m) && Component(t1, m) != Component(t2, m);
      if Component(t1, m) > Component(t2, m) {
        assert DecidesAt(t1, t2, m);
      } else {
        assert DecidesAt(t2, t1, m);
      }
    }
  }

  /** No version is newer than itself: "newer" is strict. */
  lemma IsNewerIrreflexive(v: string)
    ensures !IsNewer(v, v)
  {
    IsNewerIsLex(v, v);
    LexIrreflexive(VersionTuple(v));
  }

  lemma IsNewerAsymmetric(v1: string, v2: string)
    requires IsNewer(v1, v2)
    ensures !IsNewer(v2, v1)
  {
    IsNewerIsLex(v1, v2);
    IsNewerIsLex(v2, v1);
    LexAsymmetric(VersionTuple(v1), VersionTuple(v2));
  }

  lemma IsNewerTransitive(v1: string, v2: string, v3: string)
    requires IsNewer(v1, v2) && IsNewer(v2, v3)
    ensures IsNewer(v1, v3)
  {
    IsNewerIsLex(v1, v2);
    IsNewerIsLex(v2, v3);
    IsNewerIsLex(v1, v3);
    LexTransitive(VersionTuple(v1), VersionTuple(v2), VersionTuple(v3));
  }

  /**
   * Neither version is newer exactly when their padded tuples are equal;
   * otherwise one of them is.
   */
  lemma IsNewerTrichotomy(v1: string, v2: string)
    ensures !IsNewer(v1, v2) && !IsNewer(v2, v1) <==> SameVersion(v1, v2)
  {
    IsNewerIsLex(v1, v2);
    IsNewerIsLex(v2, v1);
    LexTrichotomy(VersionTuple(v1), VersionTuple(v2));
  }

  /** "Newer" composes with "not newer": what is not newer than an older version is not newer either. */
  lemma NotNewerThanOlder(x: string, old1: string, new1: string)
    requires !IsNewer(x, old1) && IsNewer(new1, old1)
    ensures !IsNewer(x, new1)
  {
    if IsNewer(x, new1) {
      IsNewerTransitive(x, new1, old1);
    }
  }

  /** Lexicographic order only sees components, so equal padded tuples are interchangeable. */
  lemma LexSameLeft(a: seq<nat>, b: seq<nat>, c: seq<nat>)
    requires SameTuple(a, b) && LexGreater(a, c)
    ensures LexGreater(b, c)
  {
    var k: nat :| DecidesAt(a, c, k);
    forall j: nat | j < k ensures Component(b, j) == Component(c, j) {
      assert Component(a, j) == Component(c, j);
    }
    assert Component(a, k) == Component(b, k);
    assert DecidesAt(b, c, k);
  }

  /** What is strictly newer than `a` is strictly newer than whatever `a` is not older than. */
  lemma NewerThanNotNewer(v: string, a: string, x: string)
    requires IsNewer(v, a) && !IsNewer(x, a)
    ensures IsNewer(v, x)
  {
    var tv, ta, tx := VersionTuple(v), VersionTuple(a), VersionTuple(x);
    IsNewerIsLex(v, a);
    IsNewerIsLex(x, a);
    IsNewerIsLex(v, x);
    LexTrichotomy(tv, tx);
    LexTrichotomy(tx, ta);
    if SameTuple(tv, tx) {
      LexSameLeft(tv, tx, ta);
    } else if LexGreater(tx, tv) {
      LexTransitive(tx, tv, ta);
    }
  }

  /** "Not newer" is transitive: the order is a total preorder. */
  lemma NotNewerTransitive(x: string, a: string, b: string)
    requires !IsNewer(x, a) && !IsNewer(a, b)
    ensures !IsNewer(x, b)
  {
    if IsNewer(x, b) {
      IsNewerTrichotomy(a, b);
      if IsNewer(b, a) {
        IsNewerTransitive(x, b, a);
      } else {
        IsNewerIsLex(x, b);
        IsNewerIsLex(x, a);
        SameTupleSymmetric(VersionTuple(a), VersionTuple(b));
        LexSameRight(VersionTuple(x), VersionTuple(b), VersionTuple(a));
      }
    }
  }

  lemma SameTupleSymmetric(a: seq<nat>, b: seq<nat>)
    requires SameTuple(a, b)
    ensures SameTuple(b, a)
  {
  }

  lemma LexSameRight(a: seq<nat>, b: seq<nat>, c: seq<nat>)
    requires SameTuple(b, c) && LexGreater(a, b)
    ensures LexGreater(a, c)
  {
    var k: nat :| DecidesAt(a, b, k);
    forall j: nat | j < k ensures Component(a, j) == Component(c, j) {
      assert Component(a, j) == Component(b, j);
    }
    assert Component(b, k) == Component(c, k);
    assert DecidesAt(a, c, k);
  }

  /** The empty version string reads as (0), so it is newer than nothing. */
  lemma EmptyVersionOldest(v: string)
    ensures !IsNewer("", v)
  {
    assert PrepareVersionStr("") == [""];
    IsNewerIsLex("", v);
    forall k: nat ensures !DecidesAt(VersionTuple(""), VersionTuple(v), k) {
      assert Component(VersionTuple(""), k) == 0;
    }
  }

  /**
   * The order facts a "keep the newest" fold relies on: nothing is newer
   * than itself, the empty string is newer than nothing, and "not newer"
   * chains with "newer" (a strict weak order).
   */
  ghost predicate IsVersionOrder(newer: (string, string) -> bool) {
    && (forall v :: !newer(v, v))
    && (forall v :: !newer("", v))
    && (forall x, a, v :: !newer(x, a) && newer(v, a) ==> newer(v, x) && !newer(x, v))
  }

  lemma CompareVersionsIsVersionOrder()
    ensures IsVersionOrder(IsNewer)
  {
    forall v ensures !IsNewer(v, v) {
      IsNewerIrreflexive(v);
    }
    forall v ensures !IsNewer("", v) {
      EmptyVersionOldest(v);
    }
    forall x, a, v | !IsNewer(x, a) && IsNewer(v, a) ensures IsNewer(v, x) && !IsNewer(x, v) {
      NewerThanNotNewer(v, a, x);
      NotNewerThanOlder(x, a, v);
    }
  }

  /** The "-SNAPSHOT" marker is removed once, and only at the very end. */
  lemma StripSnapshotOnce(v: string)
    ensures StripSnapshot(v + SnapshotSuffix) == v
    ensures StripSnapshot(v + SnapshotSuffix + SnapshotSuffix) == v + SnapshotSuffix
  {
    assert (v + SnapshotSuffix)[|v + SnapshotSuffix| - |SnapshotSuffix|..] == SnapshotSuffix;
    assert (v + SnapshotSuffix)[..|v + SnapshotSuffix| - |SnapshotSuffix|] == v;
    var w := v + SnapshotSuffix;
    assert (w + SnapshotSuffix)[|w + SnapshotSuffix| - |SnapshotSuffix|..] == SnapshotSuffix;
    assert (w + SnapshotSuffix)[..|w + SnapshotSuffix| - |SnapshotSuffix|] == w;
  }

  /** Components compare as numbers, not as text. */
  lemma NumericComponents()
    ensures IsNewer("1.10.0", "1.9.0") && StrLess("1.10.0", "1.9.0")
  {
    TupleOfTen();
    TupleOfNine();
    assert NewerFrom([1, 10, 0], [1, 9, 0], 1);
    assert StrLess("1.10.0", "1.9.0") by {
      assert "1.10.0"[1..] == ".10.0" && "1.9.0"[1..] == ".9.0";
      assert ".10.0"[1..] == "10.0" && ".9.0"[1..] == "9.0";
    }
  }

  lemma TupleOfTen()
    ensures VersionTuple("1.10.0") == [1, 10, 0]
  {
    assert ParseIntOrZero("10") == 10 by {
      assert LeadingDigits("10") == "10" by {
        assert "10"[1..] == "0" && "0"[1..] == "";
      }
      assert "10"[..1] == "1" && "1"[..0] == "";
    }
    assert Join(["0"], '.') == "0";
    assert Join(["10", "0"], '.') == "10.0";
    TupleOf("1.10.0", ["1", "10", "0"], [1, 10, 0]);
  }

  lemma TupleOfNine()
    ensures VersionTuple("1.9.0") == [1, 9, 0]
  {
    assert Join(["0"], '.') == "0";
    assert Join(["9", "0"], '.') == "9.0";
    TupleOf("1.9.0", ["1", "9", "0"], [1, 9, 0]);
  }

  /** Missing trailing components count as 0. */
  lemma MissingComponentsAreZero()
    ensures !IsNewer("1.2", "1.2.0") && !IsNewer("1.2.0", "1.2")
  {
    TupleOfOneTwo();
    TupleOfOneTwoZero();
    assert !NewerFrom([1, 2], [1, 2, 0], 2) && !NewerFrom([1, 2, 0], [1, 2], 2);
  }

  lemma TupleOfOneTwo()
    ensures VersionTuple("1.2") == [1, 2]
  {
    assert Join(["2"], '.') == "2";
    TupleOf("1.2", ["1", "2"], [1, 2]);
  }

  lemma TupleOfOneTwoZero()
    ensures VersionTuple("1.2.0") == [1, 2, 0]
  {
    assert Join(["0"], '.') == "0";
    assert Join(["2", "0"], '.') == "2.0";
    TupleOf("1.2.0", ["1", "2", "0"], [1, 2, 0]);
  }

  /** A trailing "-SNAPSHOT" is ignored. */
  lemma SnapshotIgnored()
    ensures !IsNewer("1.2.0-SNAPSHOT", "1.2.0") && !IsNewer("1.2.0", "1.2.0-SNAPSHOT")
  {
    assert StripSnapshot("1.2.0-SNAPSHOT") == "1.2.0";
    assert PrepareVersionStr("1.2.0-SNAPSHOT") == PrepareVersionStr("1.2.0");
    IsNewerIrreflexive("1.2.0");
  }

  /** A component without leading digits counts as 0, so "1.a" and "1.0" are the same version. */
  lemma NonNumericIsZero()
    ensures !IsNewer("1.a", "1.0") && !IsNewer("1.0", "1.a")
  {
    assert ParseIntOrZero("a") == 0;
    assert VersionTuple("1.a") == [1, 0] by {
      assert Join(["a"], '.') == "a";
      TupleOf("1.a", ["1", "a"], [1, 0]);
    }
    assert VersionTuple("1.0") == [1, 0] by {
      assert Join(["0"], '.') == "0";
      TupleOf("1.0", ["1", "0"], [1, 0]);
    }
    IsNewerIrreflexive("1.0");
  }

  /** A version written as dot-free `parts` denotes the tuple of their values. */
  lemma TupleOf(v: string, parts: seq<string>, t: seq<nat>)
    requires |parts| >= 1 && forall k :: 0 <= k < |parts| ==> '.' !in parts[k]
    requires Join(parts, '.') == v && StripSnapshot(v) == v
    requires |t| == |parts| && forall k :: 0 <= k < |t| ==> t[k] == ParseIntOrZero(parts[k])
    ensures VersionTuple(v) == t
  {
    PreparedAs(v, parts);
  }

  lemma PreparedAs(v: string, parts: seq<string>)
    requires |parts| >= 1 && forall k :: 0 <= k < |parts| ==> '.' !in parts[k]
    requires Join(parts, '.') == v && StripSnapshot(v) == v
    ensures PrepareVersionStr(v) == parts
  {
    SplitJoin(parts, '.');
  }
}
