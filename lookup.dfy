/** The lookup rule all three registries share: keep the entries the caller's criteria
    accept (`array_filter`), then none, exactly one, or "ambiguous". */
module Lookup {

  /** `array_filter`: the entries that satisfy `p`, in their original order. */
  function Filter<T>(s: seq<T>, p: T -> bool): (r: seq<T>)
    ensures |r| <= |s|
    ensures forall x :: x in r ==> x in s && p(x)
    ensures forall i :: 0 <= i < |s| && p(s[i]) ==> s[i] in r
  {
    if s == [] then [] else (if p(s[0]) then [s[0]] else []) + Filter(s[1..], p)
  }

  /** An entry is kept exactly when it occurs in the input and satisfies `p`. */
  lemma FilterMember<T>(s: seq<T>, p: T -> bool, x: T)
    ensures x in Filter(s, p) <==> x in s && p(x)
  {
    if x in s && p(x) {
      var i :| 0 <= i < |s| && s[i] == x;
    }
  }

  /** Filtering keeps every copy of an accepted entry and drops every copy of a rejected one. */
  lemma {:induction false} FilterMultiplicity<T>(s: seq<T>, p: T -> bool, x: T)
    ensures multiset(Filter(s, p))[x] == if p(x) then multiset(s)[x] else 0
  {
    if s != [] {
      FilterMultiplicity(s[1..], p, x);
      assert s == [s[0]] + s[1..];
      assert multiset(s) == multiset([s[0]]) + multiset(s[1..]);
      var head := if p(s[0]) then [s[0]] else [];
      assert multiset(Filter(s, p)) == multiset(head) + multiset(Filter(s[1..], p));
    }
  }

  /** An entry of a sequence without repetitions occurs in it once. */
  lemma {:induction false} DistinctOnce<T>(s: seq<T>, x: T)
    requires Distinct(s) && x in s
    ensures multiset(s)[x] == 1
  {
    assert s == [s[0]] + s[1..];
    assert multiset(s) == multiset([s[0]]) + multiset(s[1..]);
    if s[0] == x {
      assert x !in s[1..];
    } else {
      DistinctOnce(s[1..], x);
    }
  }

  /** Filtering an extended sequence extends the filtered one by the new entry, if it matches. */
  lemma {:induction false} FilterSnoc<T>(s: seq<T>, x: T, p: T -> bool)
    ensures Filter(s + [x], p) == Filter(s, p) + (if p(x) then [x] else [])
  {
    if s == [] {
      assert s + [x] == [x];
    } else {
      assert (s + [x])[1..] == s[1..] + [x];
      FilterSnoc(s[1..], x, p);
    }
  }

  /** Nothing survives the filter when no entry satisfies the criteria. */
  lemma {:induction false} FilterNone<T>(s: seq<T>, p: T -> bool)
    requires forall i :: 0 <= i < |s| ==> !p(s[i])
    ensures Filter(s, p) == []
  {
    if s != [] {
      assert !p(s[0]);
      FilterNone(s[1..], p);
    }
  }

  /** Two surviving entries come from two positions that satisfy the criteria. */
  lemma {:induction false} FilterTwoHasPositions<T>(s: seq<T>, p: T -> bool)
    requires |Filter(s, p)| >= 2
    ensures exists i, j :: 0 <= i < j < |s| && p(s[i]) && p(s[j])
  {
    var rest := Filter(s[1..], p);
    if p(s[0]) {
      assert Filter(s, p) == [s[0]] + rest;
      assert rest[0] in rest;
      var k :| 0 <= k < |s[1..]| && s[1..][k] == rest[0];
      assert p(s[0]) && p(s[k + 1]);
    } else {
      assert Filter(s, p) == [] + rest;
      FilterTwoHasPositions(s[1..], p);
      var i, j :| 0 <= i < j < |s[1..]| && p(s[1..][i]) && p(s[1..][j]);
      assert p(s[i + 1]) && p(s[j + 1]);
    }
  }

  /** Two positions that satisfy the criteria leave at least two entries after filtering. */
  lemma {:induction false} PositionsGiveTwo<T>(s: seq<T>, p: T -> bool, i: nat, j: nat)
    requires i < j < |s| && p(s[i]) && p(s[j])
    ensures |Filter(s, p)| >= 2
  {
    var rest := Filter(s[1..], p);
    if i == 0 {
      assert Filter(s, p) == [s[0]] + rest;
      assert s[1..][j - 1] in rest;
    } else {
      assert p(s[1..][i - 1]) && p(s[1..][j - 1]);
      PositionsGiveTwo(s[1..], p, i - 1, j - 1);
    }
  }

  /** At least two entries survive the filter exactly when two positions satisfy the criteria. */
  lemma FilterAtLeastTwo<T>(s: seq<T>, p: T -> bool)
    ensures |Filter(s, p)| >= 2 <==> exists i, j :: 0 <= i < j < |s| && p(s[i]) && p(s[j])
  {
    if |Filter(s, p)| >= 2 {
      FilterTwoHasPositions(s, p);
    }
    if exists i, j :: 0 <= i < j < |s| && p(s[i]) && p(s[j]) {
      var i, j :| 0 <= i < j < |s| && p(s[i]) && p(s[j]);
      PositionsGiveTwo(s, p, i, j);
    }
  }

  /** When exactly one entry survives, it comes from the one position that satisfies the criteria. */
  lemma {:induction false} FilterExactlyOne<T>(s: seq<T>, p: T -> bool)
    requires |Filter(s, p)| == 1
    ensures exists i :: 0 <= i < |s| && p(s[i]) && Filter(s, p)[0] == s[i]
                        && forall j :: 0 <= j < |s| && j != i ==> !p(s[j])
  {
    FilterAtLeastTwo(s, p);
    var y := Filter(s, p)[0];
    assert y in Filter(s, p);
    var i :| 0 <= i < |s| && s[i] == y;
    forall j | 0 <= j < |s| && j != i
      ensures !p(s[j])
    {
    }
  }

  /** How many entries a lookup matched. */
  datatype Selection<T> = NoMatch | ManyMatches | OneMatch(item: T)

  /** The zero / one / ambiguous rule applied to `s` under the criteria `p`:
      no match, two or more matches, or the single matching entry. */
  function Select<T>(s: seq<T>, p: T -> bool): (r: Selection<T>)
    ensures r.NoMatch? <==> forall i :: 0 <= i < |s| ==> !p(s[i])
    ensures r.ManyMatches? <==> exists i, j :: 0 <= i < j < |s| && p(s[i]) && p(s[j])
    ensures r.OneMatch? ==> exists i :: 0 <= i < |s| && p(s[i]) && r.item == s[i]
                                        && forall j :: 0 <= j < |s| && j != i ==> !p(s[j])
  {
    var m := Filter(s, p);
    FilterAtLeastTwo(s, p);
    if |m| == 0 then NoMatch
    else if |m| > 1 then ManyMatches
    else FilterExactlyOne(s, p); OneMatch(m[0])
  }

  /** A sequence in which no entry occurs twice. */
  ghost predicate Distinct<T>(s: seq<T>)
  {
    forall i, j :: 0 <= i < j < |s| ==> s[i] != s[j]
  }

  /** In a sequence without repetitions, the criteria "is this entry" selects that entry. */
  lemma SelectIdentity<T>(s: seq<T>, x: T)
    requires Distinct(s) && x in s
    ensures Select(s, y => y == x) == OneMatch(x)
  {
    var k :| 0 <= k < |s| && s[k] == x;
    assert (y => y == x)(s[k]);
  }
}
