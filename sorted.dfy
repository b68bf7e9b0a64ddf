/**
  The `#[sorted]` attribute: an enum's variants, or a match expression's
  arms, must be in order. Names compare as Rust strings do, byte by byte;
  since UTF-8 preserves code point order, that is code point order here.
 */
module Sorted {
  import opened Wrappers

  /** Strict string order: a proper prefix comes first, else the first differing character decides. */
  predicate Less(a: string, b: string) {
    if |a| == 0 then |b| > 0
    else if |b| == 0 then false
    else if a[0] != b[0] then a[0] < b[0]
    else Less(a[1..], b[1..])
  }

  datatype SortError =
    | ShouldSortBefore(curr: string, prev: string)
    | ExpectedEnumOrMatch
    | WildcardNotLast
    | Unsupported

  /** The diagnostic each error carries. */
  function Message(e: SortError): string {
    match e
    case ShouldSortBefore(curr, prev) => curr + " should sort before " + prev
    case ExpectedEnumOrMatch => "expected enum or match expression"
    case WildcardNotLast => "`_` wildcard should sort last"
    case Unsupported => "unsupported by #[sorted]"
  }

  datatype Outcome = Pass | Fail(error: SortError)

  /** The item under the attribute: an enum, by its variant names, or anything else. */
  datatype Item = Enum(variants: seq<string>) | OtherItem

  // ---------------------------------------------------------------------
  // Enums (`parse_enum`)
  // ---------------------------------------------------------------------

  /** No later variant sorts before an earlier one. */
  predicate NoInversion(v: seq<string>) {
    forall i, j :: 0 <= i < j < |v| ==> !Less(v[j], v[i])
  }

  /**
    `(i, j)` is the first inversion in the scan order of `parse_enum`: `i` is
    the lowest index with a later, smaller variant, and `j` the first such.
   */
  predicate FirstInversion(v: seq<string>, i: int, j: int) {
    && 0 <= i < j < |v|
    && Less(v[j], v[i])
    && (forall i', j' :: 0 <= i' < i && i' < j' < |v| ==> !Less(v[j'], v[i']))
    && (forall j' :: i < j' < j ==> !Less(v[j'], v[i]))
  }

  /** `parse_enum`: every variant against every later one, stopping at the first that sorts before it. */
  method ParseEnum(item: Item) returns (r: Outcome)
    ensures item.OtherItem? ==> r == Fail(ExpectedEnumOrMatch)
    ensures item.Enum? ==> (r == Pass <==> NoInversion(item.variants))
    ensures item.Enum? && r.Fail? ==>
      exists i, j :: FirstInversion(item.variants, i, j)
        && r.error == ShouldSortBefore(item.variants[j], item.variants[i])
  {
    if item.OtherItem? {
      return Fail(ExpectedEnumOrMatch);
    }
    var v := item.variants;
    for idx := 0 to |v|
      invariant forall i, j :: 0 <= i < idx && i < j < |v| ==> !Less(v[j], v[i])
    {
      var prev := v[idx];
      var j := idx + 1;
      while j < |v|
        invariant idx < j <= |v|
        invariant forall j' :: idx < j' < j ==> !Less(v[j'], prev)
      {
        if Less(v[j], prev) {
          assert FirstInversion(v, idx, j);
          return Fail(ShouldSortBefore(v[j], prev));
        }
        j := j + 1;
      }
    }
    return Pass;
  }

  /** What the attribute expands to: a compile error, if any, followed by the item unchanged. */
  datatype Emitted = CompileError(message: string) | Original(item: Item)

  /** `sorted`: the input on success, the error and then the input on failure. */
  method SortedAttribute(item: Item) returns (out: seq<Emitted>)
    ensures (item.Enum? && NoInversion(item.variants)) <==> out == [Original(item)]
    ensures item.OtherItem? ==> out == [CompileError("expected enum or match expression"), Original(item)]
    ensures item.Enum? && !NoInversion(item.variants) ==>
      exists i, j :: FirstInversion(item.variants, i, j)
        && out == [CompileError(item.variants[j] + " should sort before " + item.variants[i]), Original(item)]
  {
    var r := ParseEnum(item);
    if r.Fail? {
      out := [CompileError(Message(r.error)), Original(item)];
    } else {
      out := [Original(item)];
    }
  }

  // ---------------------------------------------------------------------
  // Match arms (`check_match_arms`, `ident_from_pat`)
  // ---------------------------------------------------------------------

  /** The pattern of an arm, as far as `ident_from_pat` tells kinds apart. */
  datatype Pat =
    | TupleStructPat(path: seq<string>)
    | StructPat(path: seq<string>)
    | IdentPat(name: string)
    | WildPat
    | OtherPat

  /** Path segments joined with `::`. */
  function Join(segments: seq<string>): string {
    if |segments| == 0 then ""
    else if |segments| == 1 then segments[0]
    else segments[0] + "::" + Join(segments[1..])
  }

  /** No segment is empty, as no identifier is. */
  predicate NonEmptySegments(segments: seq<string>) {
    forall k :: 0 <= k < |segments| ==> segments[k] != ""
  }

  /**
    The `pairs().fold` of a tuple-struct path: a segment followed by `::` is
    punctuated, the last is not. Whatever the segments, it continues `acc`
    with their join.
   */
  function JoinPairs(acc: string, segments: seq<string>): (r: string)
    ensures r == acc + Join(segments)
    decreases |segments|
  {
    if segments == [] then
      assert acc + Join(segments) == acc;
      acc
    else
      var piece := if |segments| == 1 then segments[0] else segments[0] + "::";
      var next := if acc == "" then piece else acc + piece;
      assert next == acc + piece;
      assert next + Join(segments[1..]) == acc + Join(segments) by {
        if |segments| == 1 {
          assert segments[1..] == [];
        } else {
          assert acc + piece + Join(segments[1..]) == acc + (segments[0] + "::" + Join(segments[1..]));
        }
      }
      JoinPairs(next, segments[1..])
  }

  /**
    The `iter().fold` of a struct path: `::` goes before every segment but
    the first, so a nonempty `acc` is continued by `::` and the join, and
    from an empty `acc` nonempty segments are joined.
   */
  function JoinSegments(acc: string, segments: seq<string>): (r: string)
    ensures acc != "" ==> r == if segments == [] then acc else acc + "::" + Join(segments)
    ensures acc == "" && NonEmptySegments(segments) ==> r == Join(segments)
    decreases |segments|
  {
    if segments == [] then acc
    else
      var next := if acc == "" then segments[0] else acc + "::" + segments[0];
      assert |segments| == 1 ==> segments[1..] == [];
      assert |segments| > 1 ==>
        acc + "::" + segments[0] + "::" + Join(segments[1..]) == acc + "::" + (segments[0] + "::" + Join(segments[1..]));
      JoinSegments(next, segments[1..])
  }

  /**
    `ident_from_pat`: a name for tuple-struct, struct and identifier patterns
    only; a path pattern is named by its `::`-joined path.
   */
  function IdentFromPat(p: Pat): (r: Option<string>)
    ensures r.Some? <==> (p.TupleStructPat? || p.StructPat? || p.IdentPat?)
    ensures p.IdentPat? ==> r == Some(p.name)
    ensures p.TupleStructPat? ==> r == Some(Join(p.path))
    ensures p.StructPat? && NonEmptySegments(p.path) ==> r == Some(Join(p.path))
  {
    match p
    case TupleStructPat(path) =>
      assert "" + Join(path) == Join(path);
      Some(JoinPairs("", path))
    case IdentPat(name) => Some(name)
    case StructPat(path) => Some(JoinSegments("", path))
    case _ => None
  }

  /**
    What `check_match_arms` reports for the pair `(i, j)` of its scan: with
    `i == j` the check on arm `i` itself, with `i < j` the check of a later
    arm `j` against a named arm `i`.
   */
  function Violation(arms: seq<Pat>, i: nat, j: nat): Option<SortError>
    requires i <= j < |arms|
  {
    if i == j then
      if IdentFromPat(arms[i]).Some? then None
      else if arms[i].WildPat? then (if i < |arms| - 1 then Some(WildcardNotLast) else None)
      else Some(Unsupported)
    else
      match IdentFromPat(arms[i])
      case None => None
      case Some(prev) =>
        match IdentFromPat(arms[j])
        case Some(curr) => if Less(curr, prev) then Some(ShouldSortBefore(curr, prev)) else None
        case None =>
          if arms[j].WildPat? then (if j < |arms| - 1 then Some(WildcardNotLast) else None)
          else Some(Unsupported)
  }

  predicate NoViolation(arms: seq<Pat>) {
    forall i, j :: 0 <= i <= j < |arms| ==> Violation(arms, i, j).None?
  }

  /** `(i, j)` is the first pair, in the order `check_match_arms` visits them, that reports an error. */
  predicate FirstViolation(arms: seq<Pat>, i: int, j: int) {
    && 0 <= i <= j < |arms|
    && Violation(arms, i, j).Some?
    && (forall i', j' :: 0 <= i' < i && i' <= j' < |arms| ==> Violation(arms, i', j').None?)
    && (forall j' :: i <= j' < j ==> Violation(arms, i, j').None?)
  }

  /** `check_match_arms`. */
  method CheckMatchArms(arms: seq<Pat>) returns (r: Outcome)
    ensures r == Pass <==> NoViolation(arms)
    ensures r.Fail? ==> exists i, j :: FirstViolation(arms, i, j) && Violation(arms, i, j) == Some(r.error)
  {
    for idx := 0 to |arms|
      invariant forall i, j :: 0 <= i < idx && i <= j < |arms| ==> Violation(arms, i, j).None?
    {
      var prev := IdentFromPat(arms[idx]);
      if prev.Some? {
        assert Violation(arms, idx, idx).None?;
        var j := idx + 1;
        while j < |arms|
          invariant idx < j <= |arms|
          invariant forall j' :: idx <= j' < j ==> Violation(arms, idx, j').None?
        {
          var curr := IdentFromPat(arms[j]);
          if curr.Some? {
            if Less(curr.value, prev.value) {
              assert FirstViolation(arms, idx, j);
              return Fail(ShouldSortBefore(curr.value, prev.value));
            }
          } else if arms[j].WildPat? {
            if |arms| - (j + 1) > 0 {
              assert FirstViolation(arms, idx, j);
              return Fail(WildcardNotLast);
            }
          } else {
            assert FirstViolation(arms, idx, j);
            return Fail(Unsupported);
          }
          j := j + 1;
        }
      } else {
        if arms[idx].WildPat? {
          if |arms| - (idx + 1) > 0 {
            assert FirstViolation(arms, idx, idx);
            return Fail(WildcardNotLast);
          }
        } else {
          assert FirstViolation(arms, idx, idx);
          return Fail(Unsupported);
        }
        assert forall j :: idx <= j < |arms| ==> Violation(arms, idx, j).None?;
      }
    }
    return Pass;
  }
}

module SortedProperties {
  import opened Wrappers
  import opened Sorted

  // ---------------------------------------------------------------------
  // The name order is a strict total order
  // ---------------------------------------------------------------------

  lemma {:induction false} LessIrreflexive(a: string)
    ensures !Less(a, a)
    decreases |a|
  {
    if |a| > 0 {
      LessIrreflexive(a[1..]);
    }
  }

  lemma {:induction false} LessAsymmetric(a: string, b: string)
    ensures Less(a, b) ==> !Less(b, a)
    decreases |a|
  {
    if |a| > 0 && |b| > 0 && a[0] == b[0] {
      LessAsymmetric(a[1..], b[1..]);
    }
  }

  lemma {:induction false} LessTransitive(a: string, b: string, c: string)
    requires Less(a, b) && Less(b, c)
    ensures Less(a, c)
    decreases |a|
  {
    if |a| > 0 && a[0] == b[0] && b[0] == c[0] {
      LessTransitive(a[1..], b[1..], c[1..]);
    }
  }

  lemma {:induction false} LessTotal(a: string, b: string)
    ensures a == b || Less(a, b) || Less(b, a)
    decreases |a|
  {
    if |a| > 0 && |b| > 0 && a[0] == b[0] {
      LessTotal(a[1..], b[1..]);
      if a[1..] == b[1..] {
        assert a == [a[0]] + a[1..] && b == [b[0]] + b[1..];
      }
    }
  }

  /** `a` is a proper prefix of `b`. */
  predicate ProperPrefix(a: string, b: string) {
    |a| < |b| && a == b[..|a|]
  }

  /** `a` and `b` agree before position `k` and `a` has the smaller character there. */
  predicate FirstDifference(a: string, b: string, k: nat) {
    k < |a| && k < |b| && a[..k] == b[..k] && a[k] < b[k]
  }

  /**
    The recursive order is the lexicographic order of Rust's `str`: a proper
    prefix first, otherwise the first differing character decides.
   */
  lemma {:induction false} LessByFirstDifference(a: string, b: string)
    ensures Less(a, b) <==> ProperPrefix(a, b) || exists k: nat :: FirstDifference(a, b, k)
    decreases |a|
  {
    if |a| == 0 {
      assert |b| > 0 ==> a == b[..0];
    } else if |b| == 0 {
    } else if a[0] != b[0] {
      if a[0] < b[0] {
        assert FirstDifference(a, b, 0);
      }
      forall k: nat | FirstDifference(a, b, k)
        ensures a[0] < b[0]
      {
        DifferenceAtHead(a, b, k);
      }
      if |a| < |b| {
        assert a[0] == a[..|a|][0];
      }
    } else {
      LessByFirstDifference(a[1..], b[1..]);
      PrefixAfterHead(a, b);
      if exists k: nat :: FirstDifference(a[1..], b[1..], k) {
        var k: nat :| FirstDifference(a[1..], b[1..], k);
        DifferenceAfterHead(a, b, k);
      }
      if exists k: nat :: FirstDifference(a, b, k) {
        var k: nat :| FirstDifference(a, b, k);
        DifferenceAtHead(a, b, k);
        DifferenceAfterHead(a, b, k - 1);
      }
    }
  }

  /** A first difference at `k > 0` needs equal first characters. */
  lemma DifferenceAtHead(a: string, b: string, k: nat)
    requires FirstDifference(a, b, k)
    ensures a[0] != b[0] ==> k == 0
    ensures a[0] == b[0] ==> k > 0
  {
    if k > 0 {
      assert a[..k][0] == b[..k][0];
    }
  }

  /** Past equal first characters, a first difference moves one place down. */
  lemma DifferenceAfterHead(a: string, b: string, k: nat)
    requires |a| > 0 && |b| > 0 && a[0] == b[0]
    ensures FirstDifference(a, b, k + 1) <==> FirstDifference(a[1..], b[1..], k)
  {
    if k < |a| - 1 && k < |b| - 1 {
      assert a[..k + 1] == [a[0]] + a[1..][..k];
      assert b[..k + 1] == [b[0]] + b[1..][..k];
    }
  }

  /** Past equal first characters, proper prefixes stay proper prefixes. */
  lemma PrefixAfterHead(a: string, b: string)
    requires |a| > 0 && |b| > 0 && a[0] == b[0]
    ensures ProperPrefix(a, b) <==> ProperPrefix(a[1..], b[1..])
  {
    if |a| < |b| {
      assert b[..|a|] == [b[0]] + b[1..][..|a| - 1];
      assert a == [a[0]] + a[1..];
    }
  }

  /** Not sorting before is transitive too, which is what makes neighbour checks enough. */
  lemma NotLessTransitive(a: string, b: string, c: string)
    requires !Less(b, a) && !Less(c, b)
    ensures !Less(c, a)
  {
    if Less(c, a) {
      LessTotal(a, b);
      if a == b {
      } else if Less(a, b) {
        LessTransitive(c, a, b);
      } else {
        LessAsymmetric(a, b);
      }
    }
  }

  /** A string sorts after every proper prefix of it. */
  lemma {:induction false} PrefixFirst(a: string, b: string)
    requires |b| > 0
    ensures Less(a, a + b)
    decreases |a|
  {
    if |a| > 0 {
      assert (a + b)[1..] == a[1..] + b;
      PrefixFirst(a[1..], b);
    }
  }

  // ---------------------------------------------------------------------
  // Enums
  // ---------------------------------------------------------------------

  /** Checking every pair, as `parse_enum` does, accepts exactly the lists whose neighbours are in order. */
  lemma NoInversionIffAdjacent(v: seq<string>)
    ensures NoInversion(v) <==> forall k :: 0 <= k < |v| - 1 ==> !Less(v[k + 1], v[k])
  {
    if forall k :: 0 <= k < |v| - 1 ==> !Less(v[k + 1], v[k]) {
      forall i, j | 0 <= i < j < |v|
        ensures !Less(v[j], v[i])
      {
        AdjacentReach(v, i, j);
      }
    }
  }

  lemma {:induction false} AdjacentReach(v: seq<string>, i: int, j: int)
    requires 0 <= i < j < |v|
    requires forall k :: 0 <= k < |v| - 1 ==> !Less(v[k + 1], v[k])
    ensures !Less(v[j], v[i])
    decreases j - i
  {
    if j > i + 1 {
      AdjacentReach(v, i, j - 1);
      NotLessTransitive(v[i], v[j - 1], v[j]);
    }
  }

  /** The error `parse_enum` reports is determined: there is only one first inversion. */
  lemma FirstInversionUnique(v: seq<string>, i: int, j: int, i': int, j': int)
    requires FirstInversion(v, i, j) && FirstInversion(v, i', j')
    ensures i == i' && j == j'
  {
  }

  /** A list has a first inversion exactly when it is not in order. */
  lemma FirstInversionExists(v: seq<string>)
    requires !NoInversion(v)
    ensures exists i, j :: FirstInversion(v, i, j)
  {
    var i :| 0 <= i < |v| && exists j :: i < j < |v| && Less(v[j], v[i]);
    var i0 := i;
    while exists i' :: 0 <= i' < i0 && exists j :: i' < j < |v| && Less(v[j], v[i'])
      invariant 0 <= i0 < |v| && exists j :: i0 < j < |v| && Less(v[j], v[i0])
      decreases i0
    {
      var k :| 0 <= k < i0 && exists j :: k < j < |v| && Less(v[j], v[k]);
      i0 := k;
    }
    var j0 := i0 + 1;
    while !Less(v[j0], v[i0])
      invariant i0 < j0 < |v|
      invariant forall j' :: i0 < j' < j0 ==> !Less(v[j'], v[i0])
      invariant exists j :: j0 <= j < |v| && Less(v[j], v[i0])
      decreases |v| - j0
    {
      j0 := j0 + 1;
    }
    assert FirstInversion(v, i0, j0);
  }

  // ---------------------------------------------------------------------
  // Paths and match arms
  // ---------------------------------------------------------------------

  /** An arm `check_match_arms` accepts in its place: a named one, or the wildcard as the last arm. */
  predicate Supported(arms: seq<Pat>, i: int)
    requires 0 <= i < |arms|
  {
    IdentFromPat(arms[i]).Some? || (arms[i].WildPat? && i == |arms| - 1)
  }

  /**
    `check_match_arms` accepts exactly the arm lists where every arm is
    named or is a final wildcard, and no named arm sorts before an earlier one.
   */
  lemma MatchArmsAccepted(arms: seq<Pat>)
    ensures NoViolation(arms) <==>
      && (forall i :: 0 <= i < |arms| ==> Supported(arms, i))
      && (forall i, j :: 0 <= i < j < |arms| && IdentFromPat(arms[i]).Some? && IdentFromPat(arms[j]).Some? ==>
            !Less(IdentFromPat(arms[j]).value, IdentFromPat(arms[i]).value))
  {
    if NoViolation(arms) {
      forall i | 0 <= i < |arms|
        ensures Supported(arms, i)
      {
        assert Violation(arms, i, i).None?;
      }
      forall i, j | 0 <= i < j < |arms| && IdentFromPat(arms[i]).Some? && IdentFromPat(arms[j]).Some?
        ensures !Less(IdentFromPat(arms[j]).value, IdentFromPat(arms[i]).value)
      {
        assert Violation(arms, i, j).None?;
      }
    } else {
      var i, j :| 0 <= i <= j < |arms| && Violation(arms, i, j).Some?;
      if i == j {
        assert !Supported(arms, i);
      } else {
        assert IdentFromPat(arms[i]).Some?;
        if IdentFromPat(arms[j]).None? {
          assert !Supported(arms, j);
        }
      }
    }
  }

  /** The names of a list of named arms. */
  function Names(arms: seq<Pat>): (names: seq<string>)
    requires forall k :: 0 <= k < |arms| ==> IdentFromPat(arms[k]).Some?
    ensures |names| == |arms|
    ensures forall k :: 0 <= k < |arms| ==> IdentFromPat(arms[k]) == Some(names[k])
  {
    if arms == [] then [] else [IdentFromPat(arms[0]).value] + Names(arms[1..])
  }

  /** Without wildcards or unsupported patterns, match arms follow the same rule as enum variants. */
  lemma NamedArmsLikeVariants(arms: seq<Pat>)
    requires forall k :: 0 <= k < |arms| ==> IdentFromPat(arms[k]).Some?
    ensures NoViolation(arms) <==> NoInversion(Names(arms))
  {
    MatchArmsAccepted(arms);
    var names := Names(arms);
    if NoInversion(names) {
      forall i, j | 0 <= i < j < |arms|
        ensures !Less(IdentFromPat(arms[j]).value, IdentFromPat(arms[i]).value)
      {
        assert !Less(names[j], names[i]);
      }
    }
  }

  // ---------------------------------------------------------------------
  // The conference example
  // ---------------------------------------------------------------------

  /** The conference names are in order; the leading underscore sorts after every capital letter. */
  lemma ConferencesSorted()
    ensures NoInversion(["RustBeltRust", "RustConf", "RustFest", "RustLatam", "RustRush", "_RustLatam"])
  {
    var v := ["RustBeltRust", "RustConf", "RustFest", "RustLatam", "RustRush", "_RustLatam"];
    ConferenceNeighbours();
    LessAsymmetric(v[0], v[1]);
    LessAsymmetric(v[1], v[2]);
    LessAsymmetric(v[2], v[3]);
    LessAsymmetric(v[3], v[4]);
    LessAsymmetric(v[4], v[5]);
    assert forall k :: 0 <= k < |v| - 1 ==> !Less(v[k + 1], v[k]);
    NoInversionIffAdjacent(v);
  }

  /** Each conference name sorts before the next one of the test. */
  lemma ConferenceNeighbours()
    ensures Less("RustBeltRust", "RustConf") && Less("RustConf", "RustFest") && Less("RustFest", "RustLatam")
    ensures Less("RustLatam", "RustRush") && Less("RustRush", "_RustLatam")
  {
    assert Less("BeltRust", "Conf");
    PrefixShared("Rust", "BeltRust", "Conf");
    PrefixShared("Rust", "Conf", "Fest");
    PrefixShared("Rust", "Fest", "Latam");
    PrefixShared("Rust", "Latam", "Rush");
  }

  /** A shared prefix does not change the order. */
  lemma {:induction false} PrefixShared(p: string, a: string, b: string)
    ensures Less(p + a, p + b) <==> Less(a, b)
    decreases |p|
  {
    if |p| > 0 {
      assert (p + a)[1..] == p[1..] + a;
      assert (p + b)[1..] == p[1..] + b;
      PrefixShared(p[1..], a, b);
    } else {
      assert p + a == a && p + b == b;
    }
  }

  /** The first `#[sorted]` match of the conference example is accepted, with the wildcard last. */
  lemma FirstConferenceMatchAccepted()
    ensures NoViolation([IdentPat("RustFest"), IdentPat("RustLatam"), WildPat])
  {
    assert Less("RustFest", "RustLatam") by { PrefixShared("Rust", "Fest", "Latam"); }
    LessAsymmetric("RustFest", "RustLatam");
    MatchArmsAccepted([IdentPat("RustFest"), IdentPat("RustLatam"), WildPat]);
  }

  /** The second match, with `_RustLatam` after `RustLatam` and the wildcard last, is accepted too. */
  lemma SecondConferenceMatchAccepted()
    ensures NoViolation([IdentPat("RustFest"), IdentPat("RustLatam"), IdentPat("_RustLatam"), WildPat])
  {
    var arms := [IdentPat("RustFest"), IdentPat("RustLatam"), IdentPat("_RustLatam"), WildPat];
    assert Less("RustFest", "RustLatam") by { PrefixShared("Rust", "Fest", "Latam"); }
    LessAsymmetric("RustFest", "RustLatam");
    LessAsymmetric("RustFest", "_RustLatam");
    LessAsymmetric("RustLatam", "_RustLatam");
    assert IdentFromPat(arms[0]) == Some("RustFest");
    assert IdentFromPat(arms[1]) == Some("RustLatam");
    assert IdentFromPat(arms[2]) == Some("_RustLatam");
    assert IdentFromPat(arms[3]) == None;
    MatchArmsAccepted(arms);
  }

  /** A wildcard before the last arm is the first error reported. */
  lemma EarlyWildcardRejected()
    ensures FirstViolation([WildPat, IdentPat("RustFest")], 0, 0)
    ensures Violation([WildPat, IdentPat("RustFest")], 0, 0) == Some(WildcardNotLast)
  {
  }

  /** Two named arms out of order are reported with the later name first. */
  lemma InvertedArmsRejected()
    ensures FirstViolation([IdentPat("RustLatam"), IdentPat("RustFest")], 0, 1)
    ensures Violation([IdentPat("RustLatam"), IdentPat("RustFest")], 0, 1) == Some(ShouldSortBefore("RustFest", "RustLatam"))
  {
    var arms := [IdentPat("RustLatam"), IdentPat("RustFest")];
    assert Less("RustFest", "RustLatam") by { PrefixShared("Rust", "Fest", "Latam"); }
    assert IdentFromPat(arms[0]) == Some("RustLatam");
    assert IdentFromPat(arms[1]) == Some("RustFest");
    assert Violation(arms, 0, 0).None?;
  }

  /** A pattern that is neither named nor a wildcard is never accepted, even last. */
  lemma UnsupportedArmRejected()
    ensures !NoViolation([IdentPat("RustFest"), OtherPat])
  {
    assert Violation([IdentPat("RustFest"), OtherPat], 1, 1).Some?;
  }
}
