/** Cutting a container into consecutive sections that can be handed to different threads. */
module Sections {
  import opened Options

  datatype Section = Section(start: nat, count: nat)
  {
    predicate Has(p: int) {
      start <= p < start + count
    }
  }

  // ----- what a splitter makes of a list of sizes

  ghost predicate AllNonNegative(sizes: seq<int>) {
    forall i :: 0 <= i < |sizes| ==> sizes[i] >= 0
  }

  ghost function Total(sizes: seq<int>): (r: nat)
    requires AllNonNegative(sizes)
  {
    if sizes == [] then 0 else Total(sizes[..|sizes| - 1]) + sizes[|sizes| - 1]
  }

  /** The sections asked for, each beginning where the one before it ends. */
  ghost function Consecutive(sizes: seq<int>): (r: seq<Section>)
    requires AllNonNegative(sizes)
    ensures |r| == |sizes|
  {
    if sizes == [] then []
    else
      var front := sizes[..|sizes| - 1];
      Consecutive(front) + [Section(Total(front), sizes[|sizes| - 1])]
  }

  /** If the container has more elements, they form one more section. */
  ghost function Split(sizes: seq<int>, size: nat): seq<Section>
    requires AllNonNegative(sizes)
  {
    WithRemainder(Consecutive(sizes), Total(sizes), size)
  }

  ghost function WithRemainder(sections: seq<Section>, total: nat, size: nat): seq<Section> {
    sections + (if size > total then [Section(total, size - total)] else [])
  }

  // ----- the two splitters

  /** The splitter that keeps its sections in a sequence; it exists only if no size is negative. */
  class Splitter {
    var sections: seq<Section>

    constructor ()
      ensures sections == []
    {
      sections := [];
    }

    method Construct(size: nat, sizes: seq<int>) returns (ok: bool)
      requires sections == []
      modifies this
      ensures ok <==> AllNonNegative(sizes)
      ensures ok ==> sections == Split(sizes, size)
    {
      var cumulative, begin := 0, 0;
      for i := 0 to |sizes|
        invariant AllNonNegative(sizes[..i])
        invariant cumulative == begin == Total(sizes[..i]) && sections == Consecutive(sizes[..i])
      {
        if 0 > sizes[i] {
          return false;
        }
        assert sizes[..i + 1][..i] == sizes[..i];
        sections := sections + [Section(begin, sizes[i])];
        cumulative := cumulative + sizes[i];
        begin := begin + sizes[i];
      }
      assert sizes[..|sizes|] == sizes;
      if size > cumulative {
        sections := sections + [Section(begin, size - cumulative)];
      }
      return true;
    }
  }

  ghost function Indexed(s: seq<Section>): map<nat, Section> {
    map k: nat | k < |s| :: s[k]
  }

  lemma IndexedAppend(s: seq<Section>, x: Section)
    ensures Indexed(s + [x]) == Indexed(s)[|s| := x]
  {
  }

  /** The scoped splitter, which keeps its sections and their access requesters in two maps. */
  class ScopedSplitter {
    var sections: map<nat, Section>
    var requesters: map<nat, Section>

    constructor ()
      ensures sections == requesters == map[]
    {
      sections, requesters := map[], map[];
    }

    method Construct(size: nat, sizes: seq<int>) returns (ok: bool)
      requires sections == requesters == map[]
      modifies this
      ensures ok <==> AllNonNegative(sizes)
      ensures ok ==> sections == requesters == Indexed(Split(sizes, size))
    {
      var cumulative, count, begin := 0, 0, 0;
      for i := 0 to |sizes|
        invariant AllNonNegative(sizes[..i])
        invariant cumulative == begin == Total(sizes[..i]) && count == i
        invariant sections == requesters == Indexed(Consecutive(sizes[..i]))
      {
        if 0 > sizes[i] {
          return false;
        }
        assert sizes[..i + 1][..i] == sizes[..i];
        Emplace(Consecutive(sizes[..i]), count, Section(begin, sizes[i]));
        cumulative := cumulative + sizes[i];
        begin := begin + sizes[i];
        count := count + 1;
      }
      assert sizes[..|sizes|] == sizes;
      if size > cumulative {
        Emplace(Consecutive(sizes), count, Section(begin, size - cumulative));
      }
      return true;
    }

    /** Both maps get the section, unless they already have one under that number. */
    method Emplace(ghost s: seq<Section>, count: nat, x: Section)
      requires sections == requesters == Indexed(s) && count == |s|
      modifies this
      ensures sections == requesters == Indexed(s + [x])
    {
      IndexedAppend(s, x);
      if count !in sections {
        sections := sections[count := x];
      }
      if count !in requesters {
        requesters := requesters[count := sections[count]];
      }
    }
  }

  // ----- the sections partition the container

  /** How many of the sections have this index. */
  ghost function Hits(s: seq<Section>, p: int): nat {
    if s == [] then 0 else Hits(s[..|s| - 1], p) + (if s[|s| - 1].Has(p) then 1 else 0)
  }

  lemma HitsAppend(s: seq<Section>, x: Section, p: int)
    ensures Hits(s + [x], p) == Hits(s, p) + (if x.Has(p) then 1 else 0)
  {
    assert (s + [x])[..|s|] == s;
  }

  lemma {:induction false} HitsBySection(s: seq<Section>, i: nat, p: int)
    requires i < |s| && s[i].Has(p)
    ensures Hits(s, p) >= 1
  {
    if i < |s| - 1 {
      HitsBySection(s[..|s| - 1], i, p);
    }
  }

  lemma {:induction false} HitsByTwoSections(s: seq<Section>, i: nat, j: nat, p: int)
    requires i < j < |s| && s[i].Has(p) && s[j].Has(p)
    ensures Hits(s, p) >= 2
  {
    if j == |s| - 1 {
      HitsBySection(s[..|s| - 1], i, p);
    } else {
      HitsByTwoSections(s[..|s| - 1], i, j, p);
    }
  }

  lemma {:induction false} ConsecutiveHits(sizes: seq<int>, p: int)
    requires AllNonNegative(sizes)
    ensures Hits(Consecutive(sizes), p) == if 0 <= p < Total(sizes) then 1 else 0
  {
    if sizes != [] {
      var front, last := sizes[..|sizes| - 1], sizes[|sizes| - 1];
      ConsecutiveHits(front, p);
      HitsAppend(Consecutive(front), Section(Total(front), last), p);
    }
  }

  /** Every index of the container lies in exactly one section, whatever the sizes. */
  lemma SplitCoversOnce(sizes: seq<int>, size: nat, p: int)
    requires AllNonNegative(sizes)
    ensures Hits(Split(sizes, size), p) == if 0 <= p < size || 0 <= p < Total(sizes) then 1 else 0
  {
    ConsecutiveHits(sizes, p);
    HitsAppend(Consecutive(sizes), Section(Total(sizes), if size > Total(sizes) then size - Total(sizes) else 0), p);
    assert Split(sizes, size) == Consecutive(sizes) || size > Total(sizes);
  }

  lemma SectionsAreDisjoint(sizes: seq<int>, size: nat, i: nat, j: nat, p: int)
    requires AllNonNegative(sizes) && i < |Split(sizes, size)| && j < |Split(sizes, size)|
    requires Split(sizes, size)[i].Has(p) && Split(sizes, size)[j].Has(p)
    ensures i == j
  {
    SplitCoversOnce(sizes, size, p);
    if i < j {
      HitsByTwoSections(Split(sizes, size), i, j, p);
    } else if j < i {
      HitsByTwoSections(Split(sizes, size), j, i, p);
    }
  }

  /** The sections stay inside the container exactly if the sizes do not add up to more than it has. */
  lemma SectionsFitIff(sizes: seq<int>, size: nat)
    requires AllNonNegative(sizes)
    ensures (forall p :: Hits(Split(sizes, size), p) > 0 ==> p < size) <==> Total(sizes) <= size
  {
    SplitCoversOnce(sizes, size, Total(sizes) - 1);
    forall p ensures Hits(Split(sizes, size), p) > 0 ==> p < size || p < Total(sizes) {
      SplitCoversOnce(sizes, size, p);
    }
  }

  predicate Inside(s: seq<Section>, size: nat) {
    forall i :: 0 <= i < |s| ==> s[i].start + s[i].count <= size
  }

  /** The elements of the sections one after the other. */
  ghost function Joined<T>(data: seq<T>, s: seq<Section>): seq<T>
    requires Inside(s, |data|)
  {
    if s == [] then []
    else
      var x := s[|s| - 1];
      Joined(data, s[..|s| - 1]) + data[x.start..x.start + x.count]
  }

  lemma JoinedAppend<T>(data: seq<T>, s: seq<Section>, x: Section)
    requires Inside(s, |data|) && x.start + x.count <= |data|
    ensures Inside(s + [x], |data|)
    ensures Joined(data, s + [x]) == Joined(data, s) + data[x.start..x.start + x.count]
  {
    assert (s + [x])[..|s|] == s;
  }

  lemma {:induction false} JoinedConsecutive<T>(data: seq<T>, sizes: seq<int>)
    requires AllNonNegative(sizes) && Total(sizes) <= |data|
    ensures Inside(Consecutive(sizes), |data|) && Joined(data, Consecutive(sizes)) == data[..Total(sizes)]
  {
    if sizes != [] {
      var front, last := sizes[..|sizes| - 1], sizes[|sizes| - 1];
      JoinedConsecutive(data, front);
      JoinedAppend(data, Consecutive(front), Section(Total(front), last));
    }
  }

  lemma JoinedRemainder<T>(data: seq<T>, s: seq<Section>, total: nat)
    requires Inside(s, |data|) && total <= |data| && Joined(data, s) == data[..total]
    ensures Inside(WithRemainder(s, total, |data|), |data|)
    ensures Joined(data, WithRemainder(s, total, |data|)) == data
  {
    if total < |data| {
      JoinedAppend(data, s, Section(total, |data| - total));
      assert data[..total] + data[total..|data|] == data;
    } else {
      assert WithRemainder(s, total, |data|) == s;
    }
  }

  /** Put together again, the sections give the container back. */
  lemma SectionsJoinToWhole<T>(data: seq<T>, sizes: seq<int>)
    requires AllNonNegative(sizes) && Total(sizes) <= |data|
    ensures Inside(Split(sizes, |data|), |data|) && Joined(data, Split(sizes, |data|)) == data
  {
    JoinedConsecutive(data, sizes);
    JoinedRemainder(data, Consecutive(sizes), Total(sizes));
  }

  /** Every size asked for is met, and the remainder is there exactly if it is needed. */
  lemma SectionsAsAsked(sizes: seq<int>, size: nat)
    requires AllNonNegative(sizes)
    ensures |Split(sizes, size)| == |sizes| + (if Total(sizes) < size then 1 else 0)
    ensures forall i :: 0 <= i < |sizes| ==> Split(sizes, size)[i].count == sizes[i]
  {
    CountsAsAsked(sizes);
  }

  lemma {:induction false} CountsAsAsked(sizes: seq<int>)
    requires AllNonNegative(sizes)
    ensures forall i :: 0 <= i < |sizes| ==> Consecutive(sizes)[i].count == sizes[i]
  {
    if sizes != [] {
      CountsAsAsked(sizes[..|sizes| - 1]);
    }
  }

  /** Splitting at one index gives a second section only if the index is before the end. */
  lemma SplitAtIndex(at: nat, size: nat)
    ensures Split([at], size) ==
      if at < size then [Section(0, at), Section(at, size - at)] else [Section(0, at)]
  {
    var sizes: seq<int> := [at];
    var front := sizes[..|sizes| - 1];
    assert front == [] && Total(front) == 0 && Consecutive(front) == [];
    assert Total(sizes) == at;
    assert Consecutive(sizes) == Consecutive(front) + [Section(Total(front), at)] == [Section(0, at)];
  }
}
