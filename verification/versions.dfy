/** Version selection: `getVersionFromDist` and `getBestVersion` of
    lib/index.js. A version string such as "v1.2.0" is the tag "v" followed
    by a major.minor.patch triple; the semantic-version comparison is the
    lexicographic order on triples. */
module Versions {
  import opened Results
  import opened Seqs
  import Text

  datatype Triple = Triple(major: nat, minor: nat, patch: nat)

  /** `semver.gt`: strictly newer, comparing major, then minor, then patch. */
  predicate Gt(a: Triple, b: Triple) {
    || a.major > b.major
    || (a.major == b.major && a.minor > b.minor)
    || (a.major == b.major && a.minor == b.minor && a.patch > b.patch)
  }

  /** The first field in which two triples differ decides which is newer,
      as the semantic-versioning precedence rule says. */
  lemma GtFirstDifference(a: Triple, b: Triple)
    ensures Gt(a, b) <==> (
      && a != b
      && (a.major != b.major ==> a.major > b.major)
      && (a.major == b.major && a.minor != b.minor ==> a.minor > b.minor)
      && (a.major == b.major && a.minor == b.minor ==> a.patch > b.patch))
  {
  }

  /** `Gt` is a strict total order on triples. */
  lemma GtStrictTotal(a: Triple, b: Triple, c: Triple)
    ensures !Gt(a, a)
    ensures Gt(a, b) ==> !Gt(b, a)
    ensures Gt(a, b) && Gt(b, c) ==> Gt(a, c)
    ensures a == b || Gt(a, b) || Gt(b, a)
  {
  }

  /** The first character of an index version string. Node.js and io.js
      index entries always start with "v"; `semver` strips that one prefix,
      so no other tag is modelled. */
  type Tag = c: char | c == 'v' witness 'v'

  /** A version string: its "v" tag and the triple the rest of it denotes. */
  datatype Version = Version(tag: Tag, core: Triple)

  /** A triple as written: its three fields in decimal, separated by dots. */
  function TripleText(t: Triple): string {
    Text.Decimal(t.major) + "." + Text.Decimal(t.minor) + "." + Text.Decimal(t.patch)
  }

  /** The version as it appears in the index and in URLs, e.g. "v1.2.0". */
  function VersionText(v: Version): (r: string)
    ensures |r| >= 6 && r[0] == 'v'
    ensures r[1..] == TripleText(v.core)
  {
    [v.tag] + TripleText(v.core)
  }

  /** Distinct versions render differently, so a version URL names one
      version. */
  lemma VersionTextInjective(v: Version, w: Version)
    ensures VersionText(v) == VersionText(w) <==> v == w
  {
    if VersionText(v) == VersionText(w) {
      TripleTextInjective(v.core, w.core);
    }
  }

  /** A triple can be read back from its text. */
  lemma TripleTextInjective(s: Triple, t: Triple)
    requires TripleText(s) == TripleText(t)
    ensures s == t
  {
    var a, b, c := Text.Decimal(s.major), Text.Decimal(s.minor), Text.Decimal(s.patch);
    var a', b', c' := Text.Decimal(t.major), Text.Decimal(t.minor), Text.Decimal(t.patch);
    DotJoin(a, b, c);
    DotJoin(a', b', c');
    DecimalThenDot(s.major, t.major, b + ['.'] + c, b' + ['.'] + c');
    DecimalThenDot(s.minor, t.minor, c, c');
    DecimalEq(s.patch, t.patch);
  }

  lemma DotJoin(a: string, b: string, c: string)
    ensures a + "." + b + "." + c == a + ['.'] + (b + ['.'] + c)
  {
  }

  /** A number's digits followed by a dot can be told apart from what
      follows. */
  lemma DecimalThenDot(m: nat, n: nat, x: string, y: string)
    requires Text.Decimal(m) + ['.'] + x == Text.Decimal(n) + ['.'] + y
    ensures m == n && x == y
  {
    SplitAtFirst(Text.Decimal(m), x, Text.Decimal(n), y, '.');
    DecimalEq(m, n);
  }

  lemma DecimalEq(m: nat, n: nat)
    requires Text.Decimal(m) == Text.Decimal(n)
    ensures m == n
  {
    assert Text.DigitsValue(Text.Decimal(m)) == m;
  }

  /** Text split at the first occurrence of a character is determined by
      the text. */
  lemma SplitAtFirst(p: string, x: string, q: string, y: string, c: char)
    requires forall i :: 0 <= i < |p| ==> p[i] != c
    requires forall i :: 0 <= i < |q| ==> q[i] != c
    requires p + [c] + x == q + [c] + y
    ensures p == q && x == y
  {
    var t := p + [c] + x;
    assert forall i :: 0 <= i < |p| ==> t[i] == p[i];
    assert forall i :: 0 <= i < |q| ==> t[i] == q[i];
    assert t[|p|] == c && t[|q|] == c;
    assert |p| == |q|;
    assert p == t[..|p|] == q;
    assert x == t[|p| + 1..] == y;
  }

  /** One entry of the distribution index; `meta` stands for the fields the
      updater does not interpret. */
  datatype DistEntry = DistEntry(version: Version, meta: string)

  /** `semver.gt(version_str, best_version_str)` on the version strings with
      their first character sliced off. */
  predicate Above(x: DistEntry, y: DistEntry) {
    Gt(x.version.core, y.version.core)
  }

  /** An entry is above another exactly when their versions differ and the
      other is not the newer one, so entries with equal versions never
      replace each other in `getBestVersion`. */
  lemma AboveIff(x: DistEntry, y: DistEntry)
    ensures Above(x, y) <==> x.version != y.version && !Gt(y.version.core, x.version.core)
  {
  }

  /** The entries `getVersionFromDist` pushes onto `approved`: approved by the
      caller's predicate and strictly newer than the current version. */
  function Qualifying(index: seq<DistEntry>, approve: DistEntry -> bool, current: Triple): (r: seq<DistEntry>)
    ensures |r| <= |index|
    ensures forall i :: 0 <= i < |r| ==> r[i] in index && approve(r[i]) && Gt(r[i].version.core, current)
  {
    var p := e => approve(e) && Gt(e.version.core, current);
    FilterMembers(index, p);
    Filter(index, p)
  }

  /** The state of `getBestVersion`'s loop: `best` is the best entry of
      `list[..i]`; the rest of the loop replaces it only on a strictly newer
      version. */
  function BestFrom(list: seq<DistEntry>, i: nat, best: DistEntry): (r: DistEntry)
    requires i <= |list|
    requires best in list
    requires forall j :: 0 <= j < i ==> !Above(list[j], best)
    ensures r in list
    ensures forall j :: 0 <= j < |list| ==> !Above(list[j], r)
    decreases |list| - i
  {
    if i == |list| then best
    else
      var next := if Above(list[i], best) then list[i] else best;
      assert forall j :: 0 <= j <= i ==> !Above(list[j], next) by {
        forall j | 0 <= j <= i
          ensures !Above(list[j], next)
        {
          if j < i {
            assert !Above(list[j], best);
          }
          GtStrictTotal(list[j].version.core, next.version.core, best.version.core);
        }
      }
      BestFrom(list, i + 1, next)
  }

  /** `getBestVersion`: the loop starts from the first entry and scans them
      all. */
  function BestVersion(list: seq<DistEntry>): (r: DistEntry)
    requires |list| > 0
    ensures r in list
    ensures forall j :: 0 <= j < |list| ==> !Above(list[j], r)
  {
    BestFrom(list, 0, list[0])
  }

  /** `list[k]` is a newest entry of `list` and every entry before it is
      strictly older: it is the first of the newest. */
  ghost predicate EarliestMax(list: seq<DistEntry>, k: int) {
    && 0 <= k < |list|
    && (forall j :: 0 <= j < |list| ==> !Above(list[j], list[k]))
    && (forall j :: 0 <= j < k ==> Above(list[k], list[j]))
  }

  /** No other position is also the first of the newest. */
  lemma EarliestMaxUnique(list: seq<DistEntry>, k1: int, k2: int)
    requires EarliestMax(list, k1) && 0 <= k2 < |list| && k1 != k2
    ensures !EarliestMax(list, k2)
  {
    if k2 < k1 {
      assert Above(list[k1], list[k2]);
    } else {
      assert !Above(list[k2], list[k1]);
    }
  }

  /** The scan's invariant after one more entry: the earliest newest entry
      of the longer prefix is what the loop holds next. */
  lemma {:induction false} BestFromEarliest(list: seq<DistEntry>, i: nat, k: nat)
    requires 1 <= i <= |list|
    requires k < i && EarliestMax(list[..i], k)
    ensures exists k' :: EarliestMax(list, k') && BestFrom(list, i, list[k]) == list[k']
    decreases |list| - i
  {
    if i == |list| {
      assert list[..i] == list;
    } else if Above(list[i], list[k]) {
      NewerReplaces(list, i, k);
      BestFromEarliest(list, i + 1, i);
    } else {
      OlderKept(list, i, k);
      BestFromEarliest(list, i + 1, k);
    }
  }

  /** A strictly newer entry becomes the earliest newest of the longer
      prefix. */
  lemma NewerReplaces(list: seq<DistEntry>, i: nat, k: nat)
    requires k < i < |list| && EarliestMax(list[..i], k)
    requires Above(list[i], list[k])
    ensures EarliestMax(list[..i + 1], i)
  {
    var x := list[i];
    var best := list[k];
    assert forall j :: 0 <= j < i ==> list[..i][j] == list[j];
    assert forall j :: 0 <= j <= i ==> list[..i + 1][j] == list[j];
    forall j | 0 <= j < i
      ensures Above(x, list[j]) && !Above(list[j], x)
    {
      assert !Above(list[j], best);
      GtStrictTotal(x.version.core, best.version.core, list[j].version.core);
      GtStrictTotal(list[j].version.core, best.version.core, x.version.core);
      GtStrictTotal(best.version.core, list[j].version.core, x.version.core);
    }
    GtStrictTotal(x.version.core, x.version.core, x.version.core);
  }

  /** An entry that is not strictly newer leaves the earliest newest entry
      in place. */
  lemma OlderKept(list: seq<DistEntry>, i: nat, k: nat)
    requires k < i < |list| && EarliestMax(list[..i], k)
    requires !Above(list[i], list[k])
    ensures EarliestMax(list[..i + 1], k)
  {
    assert forall j :: 0 <= j < i ==> list[..i][j] == list[j];
    assert forall j :: 0 <= j <= i ==> list[..i + 1][j] == list[j];
  }

  /** `getBestVersion` returns the first of the newest entries: no entry is
      strictly newer, and every entry before the one returned is strictly
      older, so among equal versions the earliest wins. */
  lemma BestVersionIsEarliestMax(list: seq<DistEntry>)
    requires |list| > 0
    ensures exists k :: EarliestMax(list, k) && BestVersion(list) == list[k]
  {
    GtStrictTotal(list[0].version.core, list[0].version.core, list[0].version.core);
    assert BestFrom(list, 0, list[0]) == BestFrom(list, 1, list[0]);
    assert EarliestMax(list[..1], 0);
    BestFromEarliest(list, 1, 0);
  }

  /** `getVersionFromDist`: `null` when no entry qualifies, otherwise the
      best qualifying entry. */
  function VersionFromDist(index: seq<DistEntry>, approve: DistEntry -> bool, current: Triple): (r: Option<DistEntry>)
    ensures r.None? <==> forall i :: 0 <= i < |index| ==> !(approve(index[i]) && Gt(index[i].version.core, current))
    ensures r.Some? ==> r.value in index && approve(r.value) && Gt(r.value.version.core, current)
    ensures r.Some? ==> forall e :: e in index && approve(e) && Gt(e.version.core, current) ==> !Above(e, r.value)
  {
    var p := e => approve(e) && Gt(e.version.core, current);
    var q := Qualifying(index, approve, current);
    FilterEmpty(index, p);
    FilterMembers(index, p);
    if |q| == 0 then None
    else
      var best := BestVersion(q);
      assert forall e :: e in q ==> !Above(e, best) by {
        forall e | e in q
          ensures !Above(e, best)
        {
          var j :| 0 <= j < |q| && q[j] == e;
        }
      }
      Some(best)
  }

  /** The entries that qualify are exactly the approved, strictly newer ones,
      each kept as often as it occurs in the index, in index order (filtering
      distributes over splitting the index). */
  lemma QualifyingIsFilter(index: seq<DistEntry>, approve: DistEntry -> bool, current: Triple, e: DistEntry)
    ensures e in Qualifying(index, approve, current) <==> e in index && approve(e) && Gt(e.version.core, current)
    ensures multiset(Qualifying(index, approve, current))[e]
         == if approve(e) && Gt(e.version.core, current) then multiset(index)[e] else 0
    ensures forall a, b :: index == a + b ==>
      Qualifying(index, approve, current) == Qualifying(a, approve, current) + Qualifying(b, approve, current)
  {
    var p := e => approve(e) && Gt(e.version.core, current);
    FilterMembers(index, p);
    FilterCount(index, p, e);
    forall a, b | index == a + b
      ensures Qualifying(index, approve, current) == Qualifying(a, approve, current) + Qualifying(b, approve, current)
    {
      FilterAppend(a, b, p);
    }
  }

  /** An index of "v1.0.0" when "1.0.0" is current offers nothing newer. */
  lemma NothingNewer()
    ensures VersionFromDist([DistEntry(Version('v', Triple(1, 0, 0)), "")], e => true, Triple(1, 0, 0)) == None
  {
  }

  /** Of "v1.0.0", "v1.2.0" and "v1.1.0", all approved, with "0.9.0" current,
      the best is "v1.2.0". */
  lemma PicksNewest()
    ensures VersionFromDist(
      [DistEntry(Version('v', Triple(1, 0, 0)), ""), DistEntry(Version('v', Triple(1, 2, 0)), ""),
       DistEntry(Version('v', Triple(1, 1, 0)), "")],
      e => true, Triple(0, 9, 0)) == Some(DistEntry(Version('v', Triple(1, 2, 0)), ""))
  {
    var index := [DistEntry(Version('v', Triple(1, 0, 0)), ""), DistEntry(Version('v', Triple(1, 2, 0)), ""),
                  DistEntry(Version('v', Triple(1, 1, 0)), "")];
    var r := VersionFromDist(index, e => true, Triple(0, 9, 0));
    assert !Above(index[1], r.value) && !Above(index[2], r.value) && !Above(index[0], r.value);
  }
}
