/** The list filter behind the student list: a search box and three combo
    boxes, re-applied to the registry after every change. */
module Filtering {
  import opened Text
  import opened Records

  /** The search text as typed and the selected value of each combo box. */
  datatype Criteria = Criteria(search: string, programme: string, level: string, status: string)

  /** The first entry of each combo box, which means "no restriction". */
  const AllProgrammes: string := "All Programmes"
  const AllLevels: string := "All Levels"
  const AllStatus: string := "All Status"

  const NoFilter: Criteria := Criteria("", AllProgrammes, AllLevels, AllStatus)

  /** Case-insensitive substring match on id, name, email or programme. */
  predicate SearchMatches(s: Student, term: string)
  {
    var t := Lower(term);
    Contains(Lower(s.id), t) || Contains(Lower(s.fullName), t)
      || Contains(Lower(s.email), t) || Contains(Lower(s.programme), t)
  }

  /** The predicate installed on the filtered list. The search box is tested
      as typed (not trimmed); the combo boxes by exact equality. */
  predicate Matches(s: Student, c: Criteria)
  {
    && (c.search != [] ==> SearchMatches(s, c.search))
    && (c.programme != AllProgrammes ==> s.programme == c.programme)
    && (c.level != AllLevels ==> s.level == c.level)
    && (c.status != AllStatus ==> StatusName(s.status) == c.status)
  }

  /** The elements of `xs` that satisfy `p`, in order. */
  function Select<T>(xs: seq<T>, p: T -> bool): (r: seq<T>)
    ensures |r| <= |xs|
    ensures forall k :: 0 <= k < |r| ==> p(r[k])
  {
    if xs == [] then []
    else Select(xs[..|xs| - 1], p) + (if p(xs[|xs| - 1]) then [xs[|xs| - 1]] else [])
  }

  /** The positions of the elements of `xs` that satisfy `p`, increasing. */
  function Positions<T>(xs: seq<T>, p: T -> bool): (idx: seq<nat>)
    ensures forall k :: 0 <= k < |idx| ==> idx[k] < |xs|
  {
    if xs == [] then []
    else Positions(xs[..|xs| - 1], p) + (if p(xs[|xs| - 1]) then [|xs| - 1] else [])
  }

  /** The positions are increasing and are exactly those of the elements
      satisfying `p`. */
  lemma {:induction false} PositionsFacts<T>(xs: seq<T>, p: T -> bool)
    ensures var idx := Positions(xs, p);
            && (forall k, l :: 0 <= k < l < |idx| ==> idx[k] < idx[l])
            && (forall i :: 0 <= i < |xs| ==> (i in idx <==> p(xs[i])))
  {
    if xs != [] {
      var init := xs[..|xs| - 1];
      PositionsFacts(init, p);
      assert forall i :: 0 <= i < |init| ==> init[i] == xs[i];
    }
  }

  lemma {:induction false} SelectAtPositions<T>(xs: seq<T>, p: T -> bool)
    ensures var r, idx := Select(xs, p), Positions(xs, p);
            |r| == |idx| && forall k :: 0 <= k < |r| ==> r[k] == xs[idx[k]]
  {
    if xs != [] {
      var init := xs[..|xs| - 1];
      SelectAtPositions(init, p);
      var r, idx := Select(init, p), Positions(init, p);
      assert forall k :: 0 <= k < |r| ==> xs[idx[k]] == init[idx[k]];
    }
  }

  lemma {:induction false} SelectAll<T>(xs: seq<T>, p: T -> bool)
    requires forall k :: 0 <= k < |xs| ==> p(xs[k])
    ensures Select(xs, p) == xs
  {
    if xs != [] {
      SelectAll(xs[..|xs| - 1], p);
      assert xs == xs[..|xs| - 1] + [xs[|xs| - 1]];
    }
  }

  /** The filtered list: the matching records, in registry order. */
  function Apply(rs: seq<Student>, c: Criteria): (r: seq<Student>)
    ensures |r| <= |rs|
    ensures forall k :: 0 <= k < |r| ==> Matches(r[k], c)
  {
    Select(rs, (s: Student) => Matches(s, c))
  }

  /** The positions of the matching records, increasing. */
  function KeptIndices(rs: seq<Student>, c: Criteria): (idx: seq<nat>)
    ensures forall k :: 0 <= k < |idx| ==> idx[k] < |rs|
    ensures forall k, l :: 0 <= k < l < |idx| ==> idx[k] < idx[l]
    ensures forall i :: 0 <= i < |rs| ==> (i in idx <==> Matches(rs[i], c))
  {
    PositionsFacts(rs, (s: Student) => Matches(s, c));
    Positions(rs, (s: Student) => Matches(s, c))
  }

  /** The filtered list is an order-preserving subsequence of the registry
      holding exactly the records that pass every criterion. */
  lemma ApplySelects(rs: seq<Student>, c: Criteria)
    ensures var r, idx := Apply(rs, c), KeptIndices(rs, c);
            |r| == |idx| && forall k :: 0 <= k < |r| ==> r[k] == rs[idx[k]]
  {
    SelectAtPositions(rs, (s: Student) => Matches(s, c));
  }

  lemma ApplyAllMatching(rs: seq<Student>, c: Criteria)
    requires forall k :: 0 <= k < |rs| ==> Matches(rs[k], c)
    ensures Apply(rs, c) == rs
  {
    SelectAll(rs, (s: Student) => Matches(s, c));
  }

  /** Re-applying the filter to its own result changes nothing. */
  lemma ApplyIdempotent(rs: seq<Student>, c: Criteria)
    ensures Apply(Apply(rs, c), c) == Apply(rs, c)
  {
    ApplyAllMatching(Apply(rs, c), c);
  }

  /** With an empty search box and every combo box on its first entry, the
      whole registry is shown, in order. */
  lemma NoFilterShowsAll(rs: seq<Student>)
    ensures Apply(rs, NoFilter) == rs
  {
    ApplyAllMatching(rs, NoFilter);
  }

  /** A record appended to the registry shows up at the end of the filtered
      list exactly when it matches: the view follows the registry. */
  lemma ApplyAppend(rs: seq<Student>, s: Student, c: Criteria)
    ensures Apply(rs + [s], c) == Apply(rs, c) + (if Matches(s, c) then [s] else [])
  {
    assert (rs + [s])[..|rs|] == rs;
  }
}
