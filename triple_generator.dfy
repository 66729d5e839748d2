/**
 * The triple generators of src/rdf/triple_generator.rs: what each call of a
 * generator hands out for a requested size. The random choices (`index::sample`,
 * `gen_range`) are parameters that satisfy what those functions promise.
 */
module TripleGenerator {
  import opened Common
  import opened TripleStore
  import opened Sorting

  /** Every index is below `n`. */
  predicate InRange(ixs: seq<nat>, n: nat)
  {
    forall i :: 0 <= i < |ixs| ==> ixs[i] < n
  }

  /** What `index::sample(rng, length, amount)` returns: `amount` distinct indices below `length`. */
  predicate IsSample(sample: seq<nat>, length: nat, amount: nat)
  {
    |sample| == amount && Distinct(sample) && InRange(sample, length)
  }

  /** The triples at the given indices, in the indices' order. */
  function Pick(triples: seq<CompressedTriple>, ixs: seq<nat>): (r: seq<CompressedTriple>)
    requires InRange(ixs, |triples|)
    ensures |r| == |ixs|
  {
    if ixs == [] then [] else Pick(triples, ixs[..|ixs| - 1]) + [triples[ixs[|ixs| - 1]]]
  }

  lemma {:induction false} PickAt(triples: seq<CompressedTriple>, ixs: seq<nat>, i: nat)
    requires InRange(ixs, |triples|) && i < |ixs|
    ensures Pick(triples, ixs)[i] == triples[ixs[i]]
  {
    if i < |ixs| - 1 {
      PickAt(triples, ixs[..|ixs| - 1], i);
    }
  }

  /** Sorting a sample keeps it a sample, now strictly ascending. */
  lemma SortedSampleInRange(sample: seq<nat>, length: nat)
    requires Distinct(sample) && InRange(sample, length)
    ensures var ixs := StableSort(sample, NatKey);
      InRange(ixs, length) && StrictlyIncreasing(ixs) && |ixs| == |sample|
  {
    var ixs := StableSort(sample, NatKey);
    SortedSampleSpec(sample);
    forall i | 0 <= i < |ixs|
      ensures ixs[i] < length
    {
      assert ixs[i] in multiset(sample);
    }
    assert |ixs| == |multiset(ixs)| == |multiset(sample)| == |sample|;
  }

  /**
   * How many pool indices the distinct generator has handed out after calls
   * with the size hints `hints`: each call takes as many as it asks for, or
   * what is left.
   */
  function Drawn(total: nat, hints: seq<nat>): (n: nat)
    ensures n <= total
  {
    if hints == [] then 0
    else
      var before := Drawn(total, hints[..|hints| - 1]);
      before + Min(hints[|hints| - 1], total - before)
  }

  /** Over any calls, the distinct generator hands out the requested total, capped by the pool size. */
  lemma {:induction false} DrawnIsCappedSum(total: nat, hints: seq<nat>)
    ensures Drawn(total, hints) == Min(Sum(hints), total)
  {
    if hints != [] {
      DrawnIsCappedSum(total, hints[..|hints| - 1]);
    }
  }

  /**
   * `random_distinct_triple_generator`: a pool of `n_total` distinct sampled
   * indices, sorted once; each call consumes the next indices of the pool.
   */
  class DistinctTripleGenerator {
    const triples: seq<CompressedTriple>
    /** The sampled pool, ascending. */
    const ixs: seq<nat>
    /** How many pool indices earlier calls consumed (the position of `itr`). */
    var next: nat
    /** The size hints of the calls so far. */
    ghost var hints: seq<nat>

    ghost predicate Valid()
      reads this
    {
      && StrictlyIncreasing(ixs) && InRange(ixs, |triples|)
      && next == Drawn(|ixs|, hints)
    }

    /** `sample` is what `index::sample(rng, triples.len(), n_total)` drew. */
    constructor (triples: seq<CompressedTriple>, nTotal: nat, sample: seq<nat>)
      requires IsSample(sample, |triples|, nTotal)
      ensures Valid() && this.triples == triples && hints == [] && next == 0
      ensures |ixs| == nTotal && multiset(ixs) == multiset(sample)
    {
      var sorted := SortedSample(sample);
      SortedSampleInRange(sample, |triples|);
      SortedSampleSpec(sample);
      this.triples := triples;
      ixs := sorted;
      next := 0;
      hints := [];
    }

    /**
     * One call: the triples at the next `sizeHint` pool indices, fewer only
     * when the pool runs out. The indices handed out are all above every index
     * handed out before.
     */
    method Next(sizeHint: nat) returns (buf: seq<CompressedTriple>)
      requires Valid()
      modifies this`next, this`hints
      ensures Valid() && hints == old(hints) + [sizeHint]
      ensures old(next) <= next <= |ixs| && buf == Pick(triples, ixs[old(next)..next])
      ensures |buf| == Min(sizeHint, |ixs| - old(next))
      ensures forall i, j :: 0 <= i < old(next) <= j < next ==> ixs[i] < ixs[j]
    {
      var start := next;
      var pos := start;
      buf := [];
      var k := 0;
      while k < sizeHint
        invariant 0 <= k <= sizeHint
        invariant start + k == pos <= |ixs|
        invariant buf == Pick(triples, ixs[start..pos])
        invariant hints == old(hints) && next == start
      {
        if pos == |ixs| {
          break;
        }
        PickNext(triples, ixs, start, pos);
        buf := buf + [triples[ixs[pos]]];
        pos := pos + 1;
        k := k + 1;
      }
      assert pos - start == Min(sizeHint, |ixs| - start);
      DrawnStep(|ixs|, hints, sizeHint);
      next := pos;
      hints := hints + [sizeHint];
    }
  }

  /**
   * `random_distinct_triple_generator` as called: a pool of `n_total` indices
   * when the dataset holds that many triples; otherwise it fails, where
   * `index::sample` panics.
   */
  method NewDistinctTripleGenerator(triples: seq<CompressedTriple>, nTotal: nat, sample: seq<nat>)
    returns (g: Option<DistinctTripleGenerator>)
    requires nTotal <= |triples| ==> IsSample(sample, |triples|, nTotal)
    ensures g.None? <==> nTotal > |triples|
    ensures g.Some? ==>
      && fresh(g.value) && g.value.Valid() && g.value.triples == triples
      && g.value.hints == [] && g.value.next == 0
      && |g.value.ixs| == nTotal && multiset(g.value.ixs) == multiset(sample)
  {
    if nTotal > |triples| {
      return None;
    }
    var pool := new DistinctTripleGenerator(triples, nTotal, sample);
    g := Some(pool);
  }

  /** One more call draws what it asks for, capped by what is left of the pool. */
  lemma DrawnStep(total: nat, hints: seq<nat>, h: nat)
    ensures Drawn(total, hints + [h]) == Drawn(total, hints) + Min(h, total - Drawn(total, hints))
  {
    assert (hints + [h])[..|hints|] == hints;
  }

  /** Picking one more pool index appends its triple. */
  lemma PickNext(triples: seq<CompressedTriple>, ixs: seq<nat>, start: nat, pos: nat)
    requires InRange(ixs, |triples|) && start <= pos < |ixs|
    ensures Pick(triples, ixs[start..pos + 1]) == Pick(triples, ixs[start..pos]) + [triples[ixs[pos]]]
  {
    var w := ixs[start..pos + 1];
    assert InRange(w, |triples|) && InRange(ixs[start..pos], |triples|);
    assert w[..|w| - 1] == ixs[start..pos] && w[|w| - 1] == ixs[pos];
  }

  /**
   * One call of `random_triple_generator`: `sample` is what
   * `index::sample(rng, triples.len(), size_hint)` drew for this call; the
   * triples at those indices, in ascending index order. Asking for more
   * triples than the dataset holds fails, where `index::sample` panics.
   */
  method RandomTriples(triples: seq<CompressedTriple>, sizeHint: nat, sample: seq<nat>)
    returns (buf: Option<seq<CompressedTriple>>)
    requires sizeHint <= |triples| ==> IsSample(sample, |triples|, sizeHint)
    ensures buf.None? <==> sizeHint > |triples|
    ensures buf.Some? ==>
      var ixs := StableSort(sample, NatKey);
      && InRange(ixs, |triples|) && StrictlyIncreasing(ixs) && multiset(ixs) == multiset(sample)
      && buf.value == Pick(triples, ixs)
  {
    if sizeHint > |triples| {
      return None;
    }
    var ixs := SortedSample(sample);
    SortedSampleInRange(sample, |triples|);
    SortedSampleSpec(sample);
    buf := Some(Pick(triples, ixs));
  }

  function Reverse<T>(s: seq<T>): (r: seq<T>)
    ensures |r| == |s|
  {
    if s == [] then [] else [s[|s| - 1]] + Reverse(s[..|s| - 1])
  }

  lemma {:induction false} ReverseMultiset<T>(s: seq<T>)
    ensures multiset(Reverse(s)) == multiset(s)
  {
    if s != [] {
      ReverseMultiset(s[..|s| - 1]);
      assert s == s[..|s| - 1] + [s[|s| - 1]];
    }
  }

  /** The order `fixed_size_changeset_triple_generator` visits the changesets in: from `start` to the end, then from `start - 1` back to the first. */
  function VisitOrder<T>(cs: seq<T>, start: nat): seq<T>
    requires start <= |cs|
  {
    cs[start..] + Reverse(cs[..start])
  }

  /** Every changeset is visited exactly once. */
  lemma VisitOrderPermutation<T>(cs: seq<T>, start: nat)
    requires start <= |cs|
    ensures multiset(VisitOrder(cs, start)) == multiset(cs)
  {
    ReverseMultiset(cs[..start]);
    assert cs == cs[..start] + cs[start..];
  }

  lemma {:induction false} InConcat<T>(css: seq<seq<T>>, x: T)
    ensures x in Concat(css) <==> exists i :: 0 <= i < |css| && x in css[i]
  {
    if css != [] {
      InConcat(css[1..], x);
      if exists i :: 0 <= i < |css| && x in css[i] {
        var i :| 0 <= i < |css| && x in css[i];
        if i > 0 {
          assert x in css[1..][i - 1];
        }
      }
    }
  }

  /** The triples the dataset contains, in order (`filter(|triple| dataset.contains(triple))`). */
  function KeepContained(ts: seq<CompressedTriple>, dataset: seq<CompressedTriple>): seq<CompressedTriple>
  {
    if ts == [] then []
    else KeepContained(ts[..|ts| - 1], dataset) + (if Contains(dataset, ts[|ts| - 1]) then [ts[|ts| - 1]] else [])
  }

  /** On a sorted dataset, the filter keeps exactly the triples that occur in the dataset. */
  lemma {:induction false} KeepContainedSpec(ts: seq<CompressedTriple>, dataset: seq<CompressedTriple>, t: CompressedTriple)
    requires Sorted(dataset)
    ensures t in KeepContained(ts, dataset) <==> t in ts && t in dataset
  {
    if ts != [] {
      var init := ts[..|ts| - 1];
      KeepContainedSpec(init, dataset, t);
      assert ts == init + [ts[|ts| - 1]];
    }
  }

  /**
   * The changeset `fixed_size_changeset_triple_generator` starts from, drawn
   * once when the generator is made (`drawn` is what
   * `gen_range(0..changesets.len())` returned): none without changesets,
   * where `gen_range` panics on the empty range.
   */
  function FixedSizeStart(changesets: nat, drawn: nat): (r: Option<nat>)
    requires changesets > 0 ==> drawn < changesets
    ensures r.None? <==> changesets == 0
    ensures r.Some? ==> r.value < changesets
  {
    if changesets == 0 then None else Some(drawn)
  }

  /**
   * One call of `fixed_size_changeset_triple_generator` (`start` is what
   * `gen_range(0..changesets.len())` drew once, when the generator was made):
   * the first `sizeHint` triples of the visited changesets that the dataset
   * contains. Every call starts from the same point.
   */
  function FixedSizeBatch(cs: seq<seq<CompressedTriple>>, dataset: seq<CompressedTriple>, start: nat, sizeHint: nat)
    : seq<CompressedTriple>
    requires start < |cs|
  {
    var pool := KeepContained(Concat(VisitOrder(cs, start)), dataset);
    pool[..Min(sizeHint, |pool|)]
  }

  /**
   * A batch holds at most `sizeHint` triples, each of them in the dataset and
   * in some changeset; a batch short of `sizeHint` holds every triple of every
   * changeset that the dataset contains.
   */
  lemma FixedSizeBatchSpec(cs: seq<seq<CompressedTriple>>, dataset: seq<CompressedTriple>, start: nat, sizeHint: nat)
    requires start < |cs| && Sorted(dataset)
    ensures var r := FixedSizeBatch(cs, dataset, start, sizeHint);
      && |r| <= sizeHint
      && (forall t :: t in r ==> t in dataset && exists i :: 0 <= i < |cs| && t in cs[i])
      && (|r| < sizeHint ==> forall i, t :: 0 <= i < |cs| && t in cs[i] && t in dataset ==> t in r)
  {
    var visited := Concat(VisitOrder(cs, start));
    var pool := KeepContained(visited, dataset);
    var r := FixedSizeBatch(cs, dataset, start, sizeHint);
    forall t | t in r
      ensures t in dataset && exists i :: 0 <= i < |cs| && t in cs[i]
    {
      assert t in pool;
      KeepContainedSpec(visited, dataset, t);
      VisitedTriples(cs, start, t);
    }
    if |r| < sizeHint {
      assert r == pool;
      forall i, t | 0 <= i < |cs| && t in cs[i] && t in dataset
        ensures t in r
      {
        VisitedTriples(cs, start, t);
        KeepContainedSpec(visited, dataset, t);
      }
    }
  }

  /** The visited changesets hold, one after the other, exactly the triples of all changesets. */
  lemma VisitedTriples(cs: seq<seq<CompressedTriple>>, start: nat, t: CompressedTriple)
    requires start <= |cs|
    ensures t in Concat(VisitOrder(cs, start)) <==> exists i :: 0 <= i < |cs| && t in cs[i]
  {
    var order := VisitOrder(cs, start);
    VisitOrderPermutation(cs, start);
    InConcat(order, t);
    if exists k :: 0 <= k < |order| && t in order[k] {
      var k :| 0 <= k < |order| && t in order[k];
      assert order[k] in multiset(cs);
      var i :| 0 <= i < |cs| && cs[i] == order[k];
    }
    if exists i :: 0 <= i < |cs| && t in cs[i] {
      var i :| 0 <= i < |cs| && t in cs[i];
      assert cs[i] in multiset(order);
      var k :| 0 <= k < |order| && order[k] == cs[i];
    }
  }

  /**
   * The index `min_by_key` picks among the first `n` changesets not in `used`:
   * the first one whose size is closest to `sizeHint`.
   */
  function Closest(cs: seq<seq<CompressedTriple>>, used: set<nat>, sizeHint: nat, n: nat): (r: Option<nat>)
    requires n <= |cs|
    ensures r.Some? ==> r.value < n
  {
    if n == 0 then None
    else
      var best := Closest(cs, used, sizeHint, n - 1);
      if n - 1 in used then best
      else if best.None? || AbsDiff(|cs[n - 1]|, sizeHint) < AbsDiff(|cs[best.value]|, sizeHint) then Some(n - 1)
      else best
  }

  /**
   * `Closest` finds nothing exactly when every changeset is used; otherwise it
   * finds an unused changeset whose size is closest to the hint, and no unused
   * changeset before it is as close.
   */
  lemma {:induction false} ClosestSpec(cs: seq<seq<CompressedTriple>>, used: set<nat>, sizeHint: nat, n: nat)
    requires n <= |cs|
    ensures Closest(cs, used, sizeHint, n).None? <==> forall j :: 0 <= j < n ==> j in used
    ensures Closest(cs, used, sizeHint, n).Some? ==>
      var c := Closest(cs, used, sizeHint, n).value;
      && c !in used
      && (forall j :: 0 <= j < n && j !in used ==> AbsDiff(|cs[c]|, sizeHint) <= AbsDiff(|cs[j]|, sizeHint))
      && (forall j :: 0 <= j < c && j !in used ==> AbsDiff(|cs[c]|, sizeHint) < AbsDiff(|cs[j]|, sizeHint))
  {
    if n > 0 {
      ClosestSpec(cs, used, sizeHint, n - 1);
    }
  }

  /**
   * `as_is_changeset_triple_generator`: each call hands out a whole changeset,
   * the unused one closest in size to the request, and marks it used.
   */
  class AsIsChangesetGenerator {
    const changesets: seq<seq<CompressedTriple>>
    /** The indices of the changesets handed out so far. */
    var used: set<nat>
    /** The same indices, in the order they were handed out. */
    ghost var handed: seq<nat>

    ghost predicate Valid()
      reads this
    {
      && Distinct(handed)
      && (forall i :: i in handed ==> i < |changesets|)
      && (forall i :: i in used <==> i in handed)
    }

    constructor (changesets: seq<seq<CompressedTriple>>)
      ensures Valid() && this.changesets == changesets && used == {} && handed == []
    {
      this.changesets := changesets;
      used := {};
      handed := [];
    }

    /**
     * One call: the chosen changeset's index and its triples, or `None` when
     * every changeset is used (where the `expect` panics). No changeset is
     * handed out twice.
     */
    method Next(sizeHint: nat) returns (chosen: Option<nat>, batch: seq<CompressedTriple>)
      requires Valid()
      modifies this`used, this`handed
      ensures Valid()
      ensures chosen == Closest(changesets, old(used), sizeHint, |changesets|)
      ensures chosen.None? ==> used == old(used) && handed == old(handed) && batch == []
      ensures chosen.Some? ==>
        && used == old(used) + {chosen.value} && handed == old(handed) + [chosen.value]
        && batch == changesets[chosen.value]
    {
      var best: Option<nat> := None;
      var i := 0;
      while i < |changesets|
        invariant 0 <= i <= |changesets|
        invariant best == Closest(changesets, used, sizeHint, i)
      {
        if i !in used {
          if best.None? || AbsDiff(|changesets[i]|, sizeHint) < AbsDiff(|changesets[best.value]|, sizeHint) {
            best := Some(i);
          }
        }
        i := i + 1;
      }
      chosen := best;
      if best.None? {
        batch := [];
        return;
      }
      ClosestSpec(changesets, used, sizeHint, |changesets|);
      var c := best.value;
      used := used + {c};
      handed := handed + [c];
      batch := changesets[c];
    }
  }
}
